# Plant identification pipeline: a verified model

This project models, in Dafny, the core of a plant identification web app and proves properties of that model. The app has a browser client and an Express/Prisma server.

The model covers:

- **Heuristic identification path** (`src/services/plantService.ts`):
  - read the vision service's caption, tags and detected objects;
  - drop weak and generic labels;
  - rank the rest by confidence (stable sort);
  - score a built-in catalogue of ten houseplants against the caption and tag text, and put the best match (score at least 2) in front at confidence 0.8;
  - fall back to `monstera deliciosa` at 0.4;
  - keep the first three;
  - build one suggestion per tag from an enrichment lookup, with `||` fallbacks.
- **Enrichment extractor** (`src/services/bingService.ts`): three search responses are turned into scientific name, family, genus, description, image URL and quoted common names.
- **Plant.id path** (`src/services/plantIdService.ts`): the single best suggestion is normalised. `identifyPlant` falls back to a fixed mock result (`src/services/mockData.ts`) exactly when the error says the key is not configured.
- **Server routes**:
  - `/identify`: base64 prefix stripping, the saved record's fallbacks, and the error reply.
  - `/history`: owner filter, newest-first order, and pagination arithmetic.
  - `/details/:id`: owner and id lookup.
  - `/stats` (`server/src/routes/user.ts`): count, latest, distinct first-word count, and the top three common names.

Modules, one per file:

| file | module | models |
|---|---|---|
| strings.dfy | `Strings` | ASCII case mapping, `includes`, `indexOf`, `split(c)[0]`, decimal rendering, `Option` |
| sorting.dfy | `Sorting` | `Array.prototype.sort` on a numeric key: a stable descending insertion sort |
| plant_types.dfy | `PlantTypes` | the records of `src/types/plant.ts` and of the `Plant` table; `Result`; HTTP replies |
| mock_data.dfy | `MockData` | the mock fixture |
| bing_service.dfy | `BingService` | `searchPlantInfo` |
| plant_id_service.dfy | `PlantIdService` | `identifyPlantWithPlantId` |
| plant_service.dfy | `PlantService` | `findSpecificPlant`, `transformToResult`, `identifyPlant` |
| plant_routes.dfy | `PlantRoutes` | `/identify`, `/history`, `/details/:id` |
| user_routes.dfy | `UserRoutes` | `/stats` |

Outside effects are modelled as values or parameters:

- Network requests, the database and the clock become inputs.
- A throwing call is a `Result` or an `Option`.
- The database is one snapshot `Option<seq<PlantRecord>>`, where `None` means the query threw.
- The per-tag enrichment of `transformToResult` and the page loop of `searchPlantInfo` are methods with `for` loops (`PlantService.EnrichAll`, `BingService.SearchPlantInfo`). `EnrichAll`'s invariant ties each built suggestion to `MakeSuggestion`. `SearchPlantInfo`'s invariants tie the partial result to `FirstScientific`, `Description` and `LastMatch` on the pages read so far, and its `ensures` equates the result with `Extract`.
- `PlantService.TransformToResult` and the `/identify` handler `PlantRoutes.Identify` are methods without loops: they call other methods or the request parameters in the source's order.
- Everything else is pure functions with lemmas.

Where the code and its written description differ, the model follows the code:

- The matched species is put in front at 0.8 even when a ranked tag has a higher confidence. The suggestions are therefore in descending order only from the second one on. `PlantService.MatchCanBreakDescendingOrder` exhibits an input where this happens.
- `transformToResult` calls `searchPlantInfo`, but `plantService.ts` does not import it, and `identifyPlant` never calls `transformToResult`. The model takes the enrichment as a function parameter and keeps `transformToResult` as a separate operation.
- The scientific-name pattern requires a capital letter but runs on lower-cased text, so it never matches (`BingService.ScientificNeverSet`).
- The enrichment never produces a taxonomy order, so every suggestion's order is "" (`PlantService.SuggestionOrderAlwaysEmpty`).
- `identifyPlant` resolves either to the Plant.id single-best record or to the mock fixture after 1500 ms. These are two different shapes (`PlantService.Identified`). `PlantService.IdentifyPlant` takes the fixture as a parameter; `PlantService.IdentifyPlantOnRequestError` passes it `MockData.MockIdentificationResult()`.
- `lastIdentification` uses `|| null` on a date, which is never falsy. It is therefore null only when there are no records.
- The client's `identifyPlant` falls back to the fixture when `error.message` is the missing-key message. Over the real transport the client posts to the server's `/identify`, which answers a missing key with a 500 (server/src/routes/plant.ts:20, 76). The client's HTTP library then rejects with its own generic status message, so over that transport the fallback happens only when something else throws that exact message. `PlantService.IdentifyPlant` takes the request's outcome as an input and models the check as written.

## Model

| member | source | states |
|---|---|---|
| `Strings.Lower` | src/services/plantService.ts:132 | same length; ASCII capitals mapped to lower case, everything else kept |
| `Strings.LowerHasNoUpper` | src/services/bingService.ts:39 | lower-cased text contains no ASCII capital |
| `Strings.ContainsIff` | src/services/plantService.ts:89 | `includes` holds exactly when the pattern occurs at some position |
| `Strings.IndexOf` | server/src/routes/plant.ts:24-25 | the position returned is an occurrence, and no earlier position is one; `None` means no occurrence at all |
| `Strings.BeforeFirst` | src/services/plantService.ts:201 | `split(c)[0]` is a prefix without `c`, followed by `c` or the end of the text |
| `Strings.NatToString` | src/services/plantService.ts:199 | the decimal rendering is non-empty digits without a leading zero whose value (Horner's rule) is the number |
| `Strings.NatToStringInjective` | src/services/plantService.ts:199 | different clock readings give different ids |
| `Sorting.SortDesc` | src/services/plantService.ts:139 | the sorted list is a permutation of the input, non-increasing by the key |
| `Sorting.SortIsStable` | src/services/plantService.ts:139 | elements with equal keys keep their relative order |
| `MockData.MockFixture` | src/services/mockData.ts:1-50 | the fixture: id, two suggestions with ids 1 and 2, probabilities 0.92 and 0.85, the orchid's names, kingdom and phylum, no debug part |
| `BingService.Run` | src/services/bingService.ts:48 | a maximal run of characters satisfying the class |
| `BingService.ScientificAt` | src/services/bingService.ts:42 | a match of the scientific-name pattern starts with an ASCII capital |
| `BingService.NoCapitalNoMatch` | src/services/bingService.ts:42 | text without capitals has no scientific-name match |
| `BingService.ScientificNeverSet` | src/services/bingService.ts:39-45 | the loop never sets `scientificName` |
| `BingService.LongestAceae` | src/services/bingService.ts:48 | the greedy letter run backtracks to the longest prefix ending in "aceae" |
| `BingService.AfterLabel` | src/services/bingService.ts:48 | a position is returned exactly when the text at `i` is the label in any case; it is the end of the white-space run that follows the label: everything between is `\s`, and the character there is not |
| `BingService.FamilyAt` | src/services/bingService.ts:48 | a family match is at least six ASCII letters ending in "aceae" in any case, and it lies in the text right after "family:" and its white space |
| `BingService.AceaeCapture` | src/services/bingService.ts:48 | the group read after the label: ASCII letters ending in "aceae", found at that position of the text |
| `BingService.FamilyAtComplete` | src/services/bingService.ts:48 | after "family:" and its white space, a capture is found exactly when some prefix of the letter run ends in "aceae"; the capture is such a prefix and no longer prefix is one (the greedy match); without the label nothing is found |
| `BingService.FamilyFrom` | src/services/bingService.ts:48 | a match found from `i` on is the capture at some position at or after `i`; none is found exactly when no position from `i` on has a capture |
| `BingService.FamilyFromIsLeftmost` | src/services/bingService.ts:48 | the match found is the leftmost: a capture at `m` with none in `[i, m)` is the one returned |
| `BingService.GenusAt` | src/services/bingService.ts:54 | a genus match is the whole non-empty run of ASCII letters right after "genus:" and its white space |
| `BingService.GenusAtComplete` | src/services/bingService.ts:54 | after "genus:" and its white space, a capture is found exactly when a letter follows; without the label nothing is found |
| `BingService.GenusFrom` | src/services/bingService.ts:54 | a match found from `i` on is the capture at some position at or after `i`; none is found exactly when no position from `i` on has a capture |
| `BingService.GenusFromIsLeftmost` | src/services/bingService.ts:54 | the match found is the leftmost: a capture at `m` with none in `[i, m)` is the one returned |
| `BingService.LastMatchIff` | src/services/bingService.ts:48-58 | the family or genus kept is that of a page after which no page matches |
| `BingService.LastMatchNone` | src/services/bingService.ts:48-58 | no family or genus is kept exactly when no page matches |
| `BingService.DescriptionNone` | src/services/bingService.ts:61-63 | the description is absent exactly when no page text is longer than 100 characters |
| `BingService.DescriptionStaysUnset` | src/services/bingService.ts:61-63 | long pages with empty snippets leave the description falsy |
| `BingService.DescriptionIsFirstFilled` | src/services/bingService.ts:61-63 | the description is the snippet of the first long page with a non-empty snippet |
| `BingService.NextIndex` | src/services/bingService.ts:99 | the first index at or after a position that holds the character |
| `BingService.QuotedFromSegments` | src/services/bingService.ts:99 | every global match is a quoted segment of the text from the position on, and the matches come left to right without overlapping |
| `BingService.QuotedFromComplete` | src/services/bingService.ts:99 | no quoted segment is missed: each one starting at or after the position lies inside a match of the scan, its own or an earlier overlapping one |
| `BingService.QuotedFromEmptyIff` | src/services/bingService.ts:99 | the global match finds nothing exactly when no quoted segment starts at or after the position |
| `BingService.StripQuotes` | src/services/bingService.ts:102 | no quote character is left, and the text is no longer |
| `BingService.CleanNames` | src/services/bingService.ts:101-103 | every name kept is longer than one character and quote-free |
| `BingService.CleanNamesOne` | src/services/bingService.ts:101-103 | one match is kept, with its quotes removed, exactly when more than one character remains |
| `BingService.CleanNamesAppend` | src/services/bingService.ts:101-103 | cleaning works match by match: the cleaned list of two lists is the two cleaned lists in order |
| `BingService.CommonNamesAbsentIff` | src/services/bingService.ts:94-104 | `commonNames` is absent exactly when the joined snippets contain no quoted segment |
| `BingService.ScanShift` | src/services/bingService.ts:99 | the scan of a suffix does not depend on the text before it |
| `BingService.StripQuotesAppend` | src/services/bingService.ts:102 | removing quotes distributes over concatenation |
| `BingService.CommonNamesOfTwoQuoted` | src/services/bingService.ts:94-104 | two quoted names in otherwise quote-free text come back in order, without their quotes |
| `BingService.CommonNamesCanBeEmpty` | src/services/bingService.ts:100-103 | a snippet whose only quoted segment holds one character gives a present but empty list |
| `BingService.Extract` | src/services/bingService.ts:107-110 | any failed request gives `{}`; the taxonomy never has an order |
| `BingService.ExtractMeaning` | src/services/bingService.ts:34-104 | with all requests answered: no scientific name; description, taxonomy, image URL and common names each absent exactly when their source pages are; a present description is that of the first long page with a filled snippet, a present taxonomy holds the last family and genus matches, the image URL is the first image hit's `contentUrl`, and present common names are the cleaned quoted segments |
| `BingService.SearchPlantInfo` | src/services/bingService.ts:18-111 | the three requests use the source's queries, and the result is the extraction of their answers |
| `PlantIdService.FirstCommonName` | src/services/plantIdService.ts:66 | the first common name, present exactly when it exists and is non-empty |
| `PlantIdService.Normalise` | src/services/plantIdService.ts:64-77 | each field of the result, with its `||` fallback and the data-URL prefix |
| `PlantIdService.IdentifyWithPlantId` | src/services/plantIdService.ts:56-82 | errors are rethrown; a missing or empty suggestion list fails with "No plant matches found"; otherwise the first suggestion is normalised |
| `PlantIdService.OnlyFirstSuggestionUsed` | src/services/plantIdService.ts:62 | suggestions after the first never change the result |
| `PlantIdService.CommonNameNonEmpty` | src/services/plantIdService.ts:66 | the common name is non-empty whenever the suggestion's name is |
| `PlantIdService.ImageUrlKeepsInput` | src/services/plantIdService.ts:69 | the image URL is the prefix followed by the unchanged input |
| `PlantService.CaptionOf` | src/services/plantService.ts:117 | the first caption's text, or "" exactly when it is missing or empty |
| `PlantService.AllTags` | src/services/plantService.ts:118-126 | the tags followed by one tag per detected object (name and confidence) |
| `PlantService.FilterTags` | src/services/plantService.ts:130-138 | every kept tag has confidence at least 0.5 and a non-generic name |
| `PlantService.FilterTagsCounts` | src/services/plantService.ts:130-138 | each tag that passes is kept as often as it occurs, and nothing else is |
| `PlantService.RankTagsExact` | src/services/plantService.ts:129-139 | the ranked tags are exactly the passing tags, non-increasing by confidence |
| `PlantService.RankTagsStable` | src/services/plantService.ts:139 | tags of equal confidence keep the vision service's order |
| `PlantService.Score` | src/services/plantService.ts:88-90 | a score never exceeds the number of features |
| `PlantService.ScoreIsHitCount` | src/services/plantService.ts:88-90 | the score is exactly the number of features that occur in the text |
| `PlantService.ScoreZeroIff` | src/services/plantService.ts:88-90 | the score is zero exactly when no feature occurs in the text |
| `PlantService.ScoreMiss` | src/services/plantService.ts:88-90 | a missing feature keeps the score below the feature count |
| `PlantService.ScoreCountsHits` | src/services/plantService.ts:88-90 | every set of occurring features bounds the score from below |
| `PlantService.Scores` | src/services/plantService.ts:87-92 | one score per catalogue entry, in catalogue order |
| `PlantService.Best` | src/services/plantService.ts:95-97 | the kept score is a maximum; zero gives the initial `{'' , 0}`; a positive one belongs to an entry |
| `PlantService.BestIsFirstMaximum` | src/services/plantService.ts:95-97 | among equal best scores the earliest entry wins |
| `PlantService.FindSpecificPlant` | src/services/plantService.ts:82-100 | a name returned is a catalogue plant |
| `PlantService.FindSpecificPlantNoneIff` | src/services/plantService.ts:99 | no name is returned exactly when every entry scores below 2 |
| `PlantService.FindSpecificPlantIsFirstBest` | src/services/plantService.ts:95-99 | the name returned is the first entry with the top score, when that score is at least 2 |
| `PlantService.MatcherExample` | src/services/plantService.ts:69-100 | the tags "large leaves", "tropical" and "holes" name the monstera |
| `PlantService.CandidateTags` | src/services/plantService.ts:147-160 | the candidate list is never empty |
| `PlantService.TopTags` | src/services/plantService.ts:163 | one to three tags, a prefix of the candidates |
| `PlantService.CandidatesWithMatch` | src/services/plantService.ts:147-152 | a match is unshifted at 0.8 before the ranked tags |
| `PlantService.CandidatesWithoutMatch` | src/services/plantService.ts:155-160 | without a match: the ranked tags, or only the 0.4 default when none is left |
| `PlantService.CandidatesOrder` | src/services/plantService.ts:139-160 | confidences never increase from the second candidate on, and from the first when nothing matched |
| `PlantService.TopTagsOrder` | src/services/plantService.ts:163 | the same order holds for the first three |
| `PlantService.CandidatesSortedIff` | src/services/plantService.ts:139-160 | the candidates are in descending order exactly when nothing matched, nothing was ranked, or the best ranked tag is at most 0.8 |
| `PlantService.MatchCanBreakDescendingOrder` | src/services/plantService.ts:144-152 | a caption naming the monstera, with a 0.95 tag, puts 0.8 ahead of 0.95 |
| `PlantService.OrEmpty` | src/services/plantService.ts:178 | `x \|\| ''` for an optional string |
| `PlantService.MakeSuggestion` | src/services/plantService.ts:170-194 | the id, name and probability of the tag; every detail field with its fallback; the fixed taxonomy parts; the care-guide link |
| `PlantService.SuggestionOrderAlwaysEmpty` | src/services/plantService.ts:172-187 | with the extractor as enrichment, the order and the scientific name are always "" |
| `PlantService.EnrichAll` | src/services/plantService.ts:167-196 | one suggestion per top tag, built from that tag's own lookup with its search term |
| `PlantService.TransformToResult` | src/services/plantService.ts:102-214 | the id from the clock, the date before 'T', the image, the debug echo, and the suggestions for the top tags |
| `PlantService.IdentifyPlant` | src/services/plantService.ts:216-235 | a success passes through; the given fixture after 1500 ms exactly when the error message is the missing-key message; any other error is rethrown unchanged |
| `PlantService.IdentifyPlantFromResponse` | src/services/plantService.ts:216-235 | an empty reply surfaces as "No plant matches found"; a non-empty one as its normalised first suggestion |
| `PlantService.IdentifyPlantOnRequestError` | src/services/plantService.ts:224-233 | a failed request gives the fixture exactly when its message is the missing-key message |
| `PlantRoutes.StripBase64Prefix` | server/src/routes/plant.ts:24-26 | without the marker the image is unchanged; otherwise the text between the first marker and the next one |
| `PlantRoutes.UpToMarker` | server/src/routes/plant.ts:25 | `split(...)[1]` stops at the next marker or the end |
| `PlantRoutes.StripUndoesDataUrl` | server/src/routes/plant.ts:24-26 | stripping the client's data-URL prefix gives back the payload |
| `PlantRoutes.ErrorDetail` | server/src/routes/plant.ts:76 | the server's response body when present and non-empty, else the message |
| `PlantRoutes.NewPlantFrom` | server/src/routes/plant.ts:54-63 | the saved fields, with the "Unknown Plant" and "Unknown Scientific Name" fallbacks; names never empty |
| `PlantRoutes.Identify` | server/src/routes/plant.ts:15-79 | a missing key, an `image` that is not a string, or a failed request gives the 500 reply; an empty reply is forwarded unsaved; otherwise the record is saved and its id attached, or a failed save gives the 500 reply |
| `PlantRoutes.MissingKeyReply` | server/src/routes/plant.ts:19-21 | the missing-key reply carries the message and the configuration error text |
| `PlantRoutes.OrDefault` | server/src/routes/plant.ts:104-105 | NaN and 0 fall back to the default; anything else is kept |
| `PlantRoutes.OwnRecords` | server/src/routes/plant.ts:110 | only the caller's records |
| `PlantRoutes.OwnRecordsCounts` | server/src/routes/plant.ts:110 | each of the caller's records is kept as often as it occurs, and no other record is |
| `PlantRoutes.Newest` | server/src/routes/plant.ts:111 | a permutation, newest first |
| `PlantRoutes.CeilDiv` | server/src/routes/plant.ts:124 | enough pages for all records, with no empty last page |
| `PlantRoutes.TotalPagesIsLeast` | server/src/routes/plant.ts:124 | no smaller number of pages holds them all |
| `PlantRoutes.PageSlice` | server/src/routes/plant.ts:112-113 | `skip` and `take` on a list |
| `PlantRoutes.History` | server/src/routes/plant.ts:102-130 | a failed query gives the 500 reply; otherwise the page of the caller's records; `None` for a page or limit below 1 |
| `PlantRoutes.HistoryPageContents` | server/src/routes/plant.ts:104-125 | at most `limit` records, newest first, starting at `(page - 1) * limit`, with `total` counting all of them |
| `PlantRoutes.HistoryOwnerOnly` | server/src/routes/plant.ts:110 | no page ever shows another user's record |
| `PlantRoutes.RecordOnItsPage` | server/src/routes/plant.ts:106-114 | the k-th newest record is entry `k % limit` of page `k / limit + 1` |
| `PlantRoutes.FirstWith` | server/src/routes/plant.ts:135-142 | the record found matches id and owner and no earlier record does; none is found exactly when none matches |
| `PlantRoutes.Details` | server/src/routes/plant.ts:133-153 | 500 exactly when the query failed; 404 exactly when no record matches; 200 exactly when one does, with the first record of that id and owner |
| `PlantRoutes.DetailsNeverLeaks` | server/src/routes/plant.ts:135-142 | another user's record is never returned |
| `UserRoutes.FirstToken` | server/src/routes/user.ts:27 | `split(' ')[0]` is a space-free prefix, followed by a space or the end of the name |
| `UserRoutes.FamilySet` | server/src/routes/user.ts:27 | the distinct first tokens: no more of them than records, empty exactly when there are no records |
| `UserRoutes.FamilySetPermutation` | server/src/routes/user.ts:27 | the family count does not depend on the order of the records |
| `UserRoutes.Distinct` | server/src/routes/user.ts:28-29 | each common name once, no name lost |
| `UserRoutes.Groups` | server/src/routes/user.ts:28-35 | one group per common name, named once each, with its true positive count |
| `UserRoutes.CommonPlants` | server/src/routes/user.ts:36-41 | at most three groups, the first of the groups sorted by descending count |
| `UserRoutes.CommonPlantsAreGroups` | server/src/routes/user.ts:28-42 | listed names are real common names with their true counts, distinct, in non-increasing count order |
| `UserRoutes.UnlistedNameIsNoMoreCommon` | server/src/routes/user.ts:36-41 | a name left out has no more records than any listed name |
| `UserRoutes.FewNamesAllListed` | server/src/routes/user.ts:41 | with at most three names, every name is listed |
| `UserRoutes.UserStats` | server/src/routes/user.ts:9-50 | a failed query gives the 500 reply; otherwise the stats of the caller's records |
| `UserRoutes.StatsCounts` | server/src/routes/user.ts:25-27 | `totalIdentifications` counts the records; `plantFamilies` is at most that, and 0 exactly when there are none |
| `UserRoutes.LastIsLatest` | server/src/routes/user.ts:18-26 | `lastIdentification` is absent exactly when there are no records, and otherwise is the latest `createdAt` |

## Left out

- The React client (pages, components, camera capture), authentication, `base64ToUint8Array`, the translation and Azure OpenAI services, and the `/care` route. They are outside this core; the care route only forwards to a chat service.
- HTTP, the database and the clock are inputs. `Date.now()` and `toISOString()` are parameters, and so are the vision response, the search answers, the Plant.id reply, the database snapshot and the insert's outcome.
- Logging (`console.*`), and the `description`, `brands` and `metadata` parts of the debug echo, which are untyped JSON.
- `Promise.all` runs the lookups concurrently. The model performs them one after another, in tag order; the results are the same because each lookup only reads its own tag.
- The 1500 ms `setTimeout` is kept as a number in the result, not as a delay.
- `encodeURIComponent` is a parameter; URL encoding is not modelled.
- `toLowerCase` is modelled for ASCII only. Lengths count characters, not UTF-16 code units.
- `parseInt` is taken as its outcome (`NaN` or an integer); digit parsing is not modelled.
- The regular expressions are modelled by hand-written matchers for the five patterns used: the scientific name, the family, the genus, the quoted names and the quote removal. Only the parts read (first match, group 1, global matches) are modelled.
- `PlantRoutes.History`: a page or limit below 1 gives `None`. Prisma's behaviour for a negative `skip` or `take` is not described.
- `PlantRoutes.Newest`: records with equal `createdAt` keep table order. The database does not promise any order for such ties.
- `UserRoutes.CommonPlants`: groups with equal counts appear in order of first appearance. The database does not promise any order for ties, so which names are chosen among tied counts is this model's choice.
- The two queries of `/history` and of `/stats` read one snapshot of the table; concurrent writes between them are not modelled.
- `PlantService.VisionData`: `tags` is always present and every tag has a name. In the source, `[...visionData.tags]` throws when `tags` is missing, and `tag.name.toLowerCase()` throws on a tag without a name. Those throws are not modelled.
- `PlantRoutes.Identify`: the body's `image` is either a string or `None`, which stands for every value on which `image.includes` throws; the TypeError's text is a parameter. A non-string value that has its own `includes`, such as an array, does not throw in the source and is sent on to Plant.id; the model does not cover that case.
- `PlantRoutes.ErrorDetail`: the server's response body is modelled as an optional string. In the source any object body is truthy and is passed on as it is; the model keeps only text bodies, with the empty one treated as absent.
