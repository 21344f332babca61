/** The server's plant routes (server/src/routes/plant.ts): `/identify`,
    which forwards an image to Plant.id and saves the best match, and the
    history and details queries over the caller's saved records. The
    Plant.id request and the database are parameters: the request is a
    function from the payload to its outcome, the table is a sequence of
    records (`None` when the query throws). */
module PlantRoutes {
  import opened Strings
  import opened Sorting
  import opened PlantTypes
  import PlantIdService
  import PlantService

  /** "植物识别失败" */
  const IdentifyFailedMessage := "\U{690D}\U{7269}\U{8BC6}\U{522B}\U{5931}\U{8D25}"
  /** "获取历史记录失败" */
  const HistoryFailedMessage := "\U{83B7}\U{53D6}\U{5386}\U{53F2}\U{8BB0}\U{5F55}\U{5931}\U{8D25}"
  /** "未找到该植物记录" */
  const NotFoundMessage := "\U{672A}\U{627E}\U{5230}\U{8BE5}\U{690D}\U{7269}\U{8BB0}\U{5F55}"
  /** "获取植物详情失败" */
  const DetailsFailedMessage := "\U{83B7}\U{53D6}\U{690D}\U{7269}\U{8BE6}\U{60C5}\U{5931}\U{8D25}"

  const Base64Marker := "base64,"

  // ---------------------------------------------------------------------
  // The data-URL prefix

  /** `r` is the text of `image` from `start` on up to the next marker or the end. */
  ghost predicate SegmentUpToMarker(image: string, start: nat, r: string) {
    start + |r| <= |image| && image[start..start + |r|] == r
    && !Contains(r, Base64Marker)
    && (start + |r| == |image| || OccursAt(image, Base64Marker, start + |r|))
  }

  /** `image.includes('base64,') ? image.split('base64,')[1] : image` */
  function StripBase64Prefix(image: string): (r: string)
    ensures IndexOf(image, Base64Marker).None? ==> r == image
    ensures IndexOf(image, Base64Marker).Some? ==>
              SegmentUpToMarker(image, IndexOf(image, Base64Marker).value + |Base64Marker|, r)
  {
    match IndexOf(image, Base64Marker)
    case None => image
    case Some(i) =>
      UpToMarkerSegment(image, i + |Base64Marker|);
      UpToMarker(image[i + |Base64Marker|..])
  }

  /** Helper for StripBase64Prefix: the part after `start` up to the next marker. */
  lemma UpToMarkerSegment(image: string, start: nat)
    requires start <= |image|
    ensures SegmentUpToMarker(image, start, UpToMarker(image[start..]))
  {
    SegmentAfter(image, start, UpToMarker(image[start..]));
  }

  /** `rest.split('base64,')[0]`: everything before the first marker. */
  function UpToMarker(rest: string): (r: string)
    ensures IsPrefix(r, rest) && !Contains(r, Base64Marker)
    ensures |r| == |rest| || OccursAt(rest, Base64Marker, |r|)
  {
    match IndexOf(rest, Base64Marker)
    case None =>
      ContainsIff(rest, Base64Marker);
      rest
    case Some(j) =>
      NoEarlierMarker(rest, j);
      rest[..j]
  }

  /** Helper for UpToMarker: no marker lies inside the part before the first one. */
  lemma NoEarlierMarker(rest: string, j: nat)
    requires j <= |rest|
    requires forall k :: 0 <= k < j ==> !OccursAt(rest, Base64Marker, k)
    ensures !Contains(rest[..j], Base64Marker)
  {
    forall k | 0 <= k && k + |Base64Marker| <= j ensures !OccursAt(rest[..j], Base64Marker, k) {
      assert rest[..j][k..k + |Base64Marker|] == rest[k..k + |Base64Marker|];
      assert !OccursAt(rest, Base64Marker, k);
    }
    ContainsIff(rest[..j], Base64Marker);
  }

  /** Helper for StripBase64Prefix: a prefix of `image[start..]` that ends
      at a marker or at the end lies in `image` the same way. */
  lemma SegmentAfter(image: string, start: nat, r: string)
    requires start <= |image|
    requires IsPrefix(r, image[start..])
    requires |r| == |image| - start || OccursAt(image[start..], Base64Marker, |r|)
    ensures start + |r| <= |image| && image[start..start + |r|] == r
    ensures start + |r| == |image| || OccursAt(image, Base64Marker, start + |r|)
  {
    var n := |r|;
    assert image[start..start + n] == r by {
      SliceOfSuffix(image, start, 0, n);
    }
    if start + n < |image| {
      assert OccursAt(image, Base64Marker, start + n) by {
        SliceOfSuffix(image, start, n, n + |Base64Marker|);
      }
    }
  }

  /** A slice of a suffix is a slice of the whole. */
  lemma SliceOfSuffix(s: string, start: nat, i: nat, k: nat)
    requires start + k <= |s| && i <= k
    ensures s[start..][i..k] == s[start + i..start + k]
  {
  }

  /** Only the marker's last character is a comma, and the first part of the
      client's data-URL prefix holds none. */
  lemma PrefixHasNoEarlyMarker(b: string)
    ensures forall j :: 0 <= j < |PlantIdService.DataUrlPrefix| - |Base64Marker|
              ==> !OccursAt(PlantIdService.DataUrlPrefix + b, Base64Marker, j)
  {
    var s := PlantIdService.DataUrlPrefix + b;
    var head := "data:image/jpeg;base64";
    assert ',' !in head;
    assert PlantIdService.DataUrlPrefix == head + ",";
    assert Base64Marker[6] == ',';
    forall j | 0 <= j < |PlantIdService.DataUrlPrefix| - |Base64Marker|
      ensures !OccursAt(s, Base64Marker, j)
    {
      assert s[j..j + 7][6] == s[j + 6] == head[j + 6];
    }
  }

  /** Stripping undoes the client's data-URL prefix for a payload without the marker. */
  lemma StripUndoesDataUrl(b: string)
    requires !Contains(b, Base64Marker)
    ensures StripBase64Prefix(PlantIdService.DataUrlPrefix + b) == b
  {
    var s := PlantIdService.DataUrlPrefix + b;
    var n := |PlantIdService.DataUrlPrefix| - |Base64Marker|;
    PrefixHasNoEarlyMarker(b);
    assert s[n..n + |Base64Marker|] == Base64Marker;
    assert OccursAt(s, Base64Marker, n);
    var i := IndexOf(s, Base64Marker);
    assert i == Some(n);
    assert s[n + |Base64Marker|..] == b;
    ContainsIff(b, Base64Marker);
  }

  // ---------------------------------------------------------------------
  // /identify

  /** The part of a Plant.id reply that is forwarded, with the saved record's id. */
  datatype IdentifyData = IdentifyData(response: PlantIdService.PlantIdResponse, plantId: Option<string>)

  datatype IdentifyBody =
    | Forwarded(data: IdentifyData)
    | IdentifyFailed(message: string, error: string)

  /** The fields passed to `prisma.plant.create`. */
  datatype NewPlant = NewPlant(
    commonName: string,
    scientificName: string,
    description: string,
    imageUrl: string,
    careInfo: Option<string>,
    userId: string)

  /** `PLANT_ID_API_KEY` is set and not empty. */
  predicate KeyConfigured(apiKey: Option<string>) { apiKey.Some? && apiKey.value != "" }

  /** `error.response?.data || error.message` */
  function ErrorDetail(e: Error): (r: string)
    ensures e.responseData.Some? && e.responseData.value != "" ==> r == e.responseData.value
    ensures e.responseData.None? || e.responseData == Some("") ==> r == e.message
  {
    if e.responseData.Some? && e.responseData.value != "" then e.responseData.value else e.message
  }

  /** The 500 reply of the handler's catch block. */
  function Failure(e: Error): Response<IdentifyBody> {
    Response(500, IdentifyFailed(IdentifyFailedMessage, ErrorDetail(e)))
  }

  /** The record saved for the first suggestion, with its fallbacks. */
  function NewPlantFrom(s: PlantIdService.PlantIdSuggestion, image: string, userId: string): (p: NewPlant)
    ensures PlantIdService.FirstCommonName(s).Some? ==> p.commonName == PlantIdService.FirstCommonName(s).value
    ensures PlantIdService.FirstCommonName(s).None? && s.name != "" ==> p.commonName == s.name
    ensures PlantIdService.FirstCommonName(s).None? && s.name == "" ==> p.commonName == "Unknown Plant"
    ensures s.name != "" ==> p.scientificName == s.name
    ensures s.name == "" ==> p.scientificName == "Unknown Scientific Name"
    ensures s.details.Some? && s.details.value.description.Some? ==> p.description == s.details.value.description.value
    ensures s.details.None? || s.details.value.description.None? ==> p.description == ""
    ensures p.commonName != "" && p.scientificName != ""
    ensures p.imageUrl == image && p.careInfo == None && p.userId == userId
  {
    var name := if s.name != "" then s.name else "Unknown Plant";
    NewPlant(
      PlantIdService.FirstCommonName(s).GetOr(name),
      if s.name != "" then s.name else "Unknown Scientific Name",
      if s.details.Some? then s.details.value.description.GetOr("") else "",
      image,
      None,
      userId)
  }

  /** The `/identify` handler. `image` is the request body's `image`, `None`
      when it is missing or not a string, in which case `image.includes`
      throws a TypeError whose message is `typeError`. `classify` is the
      Plant.id request on the stripped payload; `create` saves a record and
      returns its id. */
  method Identify(
    apiKey: Option<string>,
    image: Option<string>,
    typeError: string,
    userId: string,
    classify: string -> Result<PlantIdService.PlantIdResponse>,
    create: NewPlant -> Result<string>)
    returns (res: Response<IdentifyBody>)
    ensures !KeyConfigured(apiKey) ==> res == Failure(Error(PlantService.ConfigMessage, None))
    ensures KeyConfigured(apiKey) && image.None? ==> res == Failure(Error(typeError, None))
    ensures KeyConfigured(apiKey) && image.Some? && classify(StripBase64Prefix(image.value)).Err? ==>
              res == Failure(classify(StripBase64Prefix(image.value)).error)
    ensures KeyConfigured(apiKey) && image.Some? && classify(StripBase64Prefix(image.value)).Ok?
            && !PlantIdService.HasSuggestions(classify(StripBase64Prefix(image.value)).value) ==>
              res == Response(200, Forwarded(IdentifyData(classify(StripBase64Prefix(image.value)).value, None)))
    ensures KeyConfigured(apiKey) && image.Some? && classify(StripBase64Prefix(image.value)).Ok?
            && PlantIdService.HasSuggestions(classify(StripBase64Prefix(image.value)).value) ==>
              var resp := classify(StripBase64Prefix(image.value)).value;
              var saved := create(NewPlantFrom(resp.suggestions.value[0], image.value, userId));
              res == (if saved.Ok? then Response(200, Forwarded(IdentifyData(resp, Some(saved.value))))
                      else Failure(saved.error))
  {
    if !KeyConfigured(apiKey) {
      return Failure(Error(PlantService.ConfigMessage, None));
    }
    if image.None? {
      return Failure(Error(typeError, None));
    }
    var base64Data := StripBase64Prefix(image.value);
    var response := classify(base64Data);
    if response.Err? {
      return Failure(response.error);
    }
    var data := IdentifyData(response.value, None);
    if PlantIdService.HasSuggestions(response.value) {
      var suggestion := response.value.suggestions.value[0];
      var plant := create(NewPlantFrom(suggestion, image.value, userId));
      if plant.Err? {
        return Failure(plant.error);
      }
      data := data.(plantId := Some(plant.value));
    }
    return Response(200, Forwarded(data));
  }

  /** Without a key the reply is the same 500 whatever the classifier and the
      database would do, and it carries the missing-key message. */
  lemma MissingKeyReply()
    ensures Failure(Error(PlantService.ConfigMessage, None))
         == Response(500, IdentifyFailed(IdentifyFailedMessage, PlantService.ConfigMessage))
  {
  }

  // ---------------------------------------------------------------------
  // /history

  /** The outcome of `parseInt` on a query parameter. */
  datatype ParsedInt = NaN | Int(value: int)

  /** `parseInt(q) || d`: the default replaces NaN and 0. */
  function OrDefault(p: ParsedInt, d: int): (r: int)
    ensures p.NaN? || p == Int(0) ==> r == d
    ensures p.Int? && p.value != 0 ==> r == p.value
    ensures d != 0 ==> r != 0
  {
    if p.NaN? || p.value == 0 then d else p.value
  }

  /** The caller's records, in table order. */
  function OwnRecords(table: seq<PlantRecord>, userId: string): (r: seq<PlantRecord>)
    ensures |r| <= |table|
    ensures forall i :: 0 <= i < |r| ==> r[i].userId == userId
  {
    if table == [] then []
    else (if table[0].userId == userId then [table[0]] else []) + OwnRecords(table[1..], userId)
  }

  /** The owner filter keeps each of the caller's records as often as it occurs, and nothing else. */
  lemma {:induction false} OwnRecordsCounts(table: seq<PlantRecord>, userId: string, p: PlantRecord)
    ensures multiset(OwnRecords(table, userId))[p] == if p.userId == userId then multiset(table)[p] else 0
  {
    if table != [] {
      OwnRecordsCounts(table[1..], userId, p);
      var h := if table[0].userId == userId then [table[0]] else [];
      assert OwnRecords(table, userId) == h + OwnRecords(table[1..], userId);
      assert multiset(table) == multiset([table[0]]) + multiset(table[1..]) by {
        assert table == [table[0]] + table[1..];
      }
    }
  }

  /** `orderBy: { createdAt: 'desc' }` */
  function Newest(rs: seq<PlantRecord>): (r: seq<PlantRecord>)
    ensures |r| == |rs| && multiset(r) == multiset(rs)
    ensures SortedDesc(r, CreatedAt)
  {
    SortDesc(rs, CreatedAt)
  }

  /** `a >= b ==> a * c >= b * c` for `c >= 0`. */
  lemma MulMonotone(a: int, b: int, c: int)
    requires c >= 0
    ensures a >= b ==> a * c >= b * c
  {
    assert a * c - b * c == (a - b) * c;
  }

  /** `Math.ceil(total / limit)` for a positive limit. */
  function CeilDiv(total: nat, limit: nat): (r: nat)
    requires limit > 0
    ensures r * limit >= total
    ensures r > 0 ==> (r - 1) * limit < total
  {
    (total + limit - 1) / limit
  }

  /** `totalPages` is the least number of pages of `limit` records that hold them all. */
  lemma TotalPagesIsLeast(total: nat, limit: nat, pages: nat)
    requires limit > 0 && pages * limit >= total
    ensures CeilDiv(total, limit) <= pages
  {
    var r: int := CeilDiv(total, limit);
    MulMonotone(r - 1, pages, limit);
  }

  /** `(page - 1) * limit` */
  function Skip(page: int, limit: int): (r: nat)
    requires page >= 1 && limit >= 1
  {
    MulMonotone(page - 1, 0, limit);
    (page - 1) * limit
  }

  datatype HistoryBody =
    | HistoryPage(plants: seq<PlantRecord>, total: nat, currentPage: int, totalPages: int)
    | HistoryFailed(message: string)

  /** The records of one page: `skip` dropped, at most `take` kept. */
  function PageSlice(rs: seq<PlantRecord>, skip: nat, take: nat): (r: seq<PlantRecord>)
    ensures |r| == PlantService.Min(take, if skip <= |rs| then |rs| - skip else 0)
    ensures forall i :: 0 <= i < |r| ==> r[i] == rs[skip + i]
  {
    if skip >= |rs| then [] else rs[skip..PlantService.Min(skip + take, |rs|)]
  }

  /** The page of the caller's records `own` for valid `page` and `limit`. */
  function HistoryReply(own: seq<PlantRecord>, page: int, limit: int): HistoryBody
    requires page >= 1 && limit >= 1
  {
    HistoryPage(PageSlice(Newest(own), Skip(page, limit), limit), |own|, page, CeilDiv(|own|, limit))
  }

  /** The `/history` handler. `None` stands for a page or limit below 1,
      whose negative skip or take this model does not describe. */
  function History(table: Option<seq<PlantRecord>>, userId: string, pageQ: ParsedInt, limitQ: ParsedInt)
    : (r: Option<Response<HistoryBody>>)
    ensures r.None? <==> OrDefault(pageQ, 1) < 1 || OrDefault(limitQ, 10) < 1
    ensures r.Some? && table.None? ==> r.value == Response(500, HistoryFailed(HistoryFailedMessage))
    ensures r.Some? && table.Some? ==>
              r.value == Response(200, HistoryReply(OwnRecords(table.value, userId), OrDefault(pageQ, 1), OrDefault(limitQ, 10)))
  {
    var page := OrDefault(pageQ, 1);
    var limit := OrDefault(limitQ, 10);
    if page < 1 || limit < 1 then None
    else if table.None? then Some(Response(500, HistoryFailed(HistoryFailedMessage)))
    else Some(Response(200, HistoryReply(OwnRecords(table.value, userId), page, limit)))
  }

  /** A page holds at most `limit` records, newest first, starting at
      `(page - 1) * limit` of the newest-first list; `total` counts them all. */
  lemma HistoryPageContents(own: seq<PlantRecord>, page: int, limit: int)
    requires page >= 1 && limit >= 1
    ensures HistoryReply(own, page, limit).total == |own|
    ensures HistoryReply(own, page, limit).currentPage == page
    ensures |HistoryReply(own, page, limit).plants| <= limit
    ensures forall i :: 0 <= i < |HistoryReply(own, page, limit).plants| ==>
              HistoryReply(own, page, limit).plants[i] == Newest(own)[Skip(page, limit) + i]
    ensures SortedDesc(HistoryReply(own, page, limit).plants, CreatedAt)
  {
    var plants := HistoryReply(own, page, limit).plants;
    var sorted := Newest(own);
    var skip := Skip(page, limit);
    forall i, j | 0 <= i < j < |plants| ensures CreatedAt(plants[i]) >= CreatedAt(plants[j]) {
      assert plants[i] == sorted[skip + i] && plants[j] == sorted[skip + j];
    }
  }

  /** A page never shows another user's record. */
  lemma HistoryOwnerOnly(table: seq<PlantRecord>, userId: string, page: int, limit: int)
    requires page >= 1 && limit >= 1
    ensures forall i :: 0 <= i < |HistoryReply(OwnRecords(table, userId), page, limit).plants| ==>
              HistoryReply(OwnRecords(table, userId), page, limit).plants[i].userId == userId
  {
    var own := OwnRecords(table, userId);
    var plants := HistoryReply(own, page, limit).plants;
    var sorted := Newest(own);
    forall i | 0 <= i < |plants| ensures plants[i].userId == userId {
      assert plants[i] == sorted[Skip(page, limit) + i];
      assert plants[i] in multiset(sorted);
      assert plants[i] in multiset(own);
    }
  }

  /** The `k`-th newest record is entry `k % limit` of page `k / limit + 1`. */
  lemma RecordOnItsPage(own: seq<PlantRecord>, limit: int, k: nat)
    requires limit >= 1 && k < |own|
    ensures k % limit < |HistoryReply(own, k / limit + 1, limit).plants|
    ensures HistoryReply(own, k / limit + 1, limit).plants[k % limit] == Newest(own)[k]
  {
    var page := k / limit + 1;
    assert Skip(page, limit) + k % limit == k;
  }

  // ---------------------------------------------------------------------
  // /details/:id

  datatype DetailsBody = Found(plant: PlantRecord) | DetailsMessage(message: string)

  /** `findFirst` on id and owner: the first such record in table order. */
  function FirstWith(table: seq<PlantRecord>, id: string, userId: string): (r: Option<PlantRecord>)
    ensures r.Some? ==> r.value in table && r.value.id == id && r.value.userId == userId
    ensures r.None? <==> forall i :: 0 <= i < |table| ==> !(table[i].id == id && table[i].userId == userId)
    ensures r.Some? ==> exists k :: 0 <= k < |table| && table[k] == r.value
                          && forall i :: 0 <= i < k ==> !(table[i].id == id && table[i].userId == userId)
  {
    if table == [] then None
    else if table[0].id == id && table[0].userId == userId then Some(table[0])
    else
      var r := FirstWith(table[1..], id, userId);
      assert forall i :: 1 <= i < |table| ==> table[i] == table[1..][i - 1];
      r
  }

  /** The `/details/:id` handler. */
  function Details(table: Option<seq<PlantRecord>>, id: string, userId: string): (r: Response<DetailsBody>)
    ensures table.None? ==> r == Response(500, DetailsMessage(DetailsFailedMessage))
    ensures r.status == 404 <==> table.Some? && forall i :: 0 <= i < |table.value| ==>
                                   !(table.value[i].id == id && table.value[i].userId == userId)
    ensures r.status == 404 ==> r.body == DetailsMessage(NotFoundMessage)
    ensures r.status == 200 ==> r.body.Found? && r.body.plant.id == id && r.body.plant.userId == userId
                                && r.body.plant in table.value
    ensures r.status == 500 <==> table.None?
    ensures r.status == 200 <==> table.Some? && exists i :: 0 <= i < |table.value| &&
                                                  table.value[i].id == id && table.value[i].userId == userId
    ensures r.status == 200 ==> r.body == Found(FirstWith(table.value, id, userId).value)
    ensures r.status in {200, 404, 500}
  {
    if table.None? then Response(500, DetailsMessage(DetailsFailedMessage))
    else
      match FirstWith(table.value, id, userId)
      case None => Response(404, DetailsMessage(NotFoundMessage))
      case Some(p) => Response(200, Found(p))
  }

  /** Another user's record is never returned, even with the right id. */
  lemma DetailsNeverLeaks(table: seq<PlantRecord>, id: string, userId: string, p: PlantRecord)
    requires p in table && p.userId != userId
    ensures Details(Some(table), id, userId) != Response(200, Found(p))
  {
  }
}
