/** The heuristic identification path of src/services/plantService.ts: the
    vision service's tags are filtered, ranked by confidence, matched against
    a small catalogue of houseplants, enriched by web search and assembled
    into a ranked `IdentificationResult`; and `identifyPlant`, which falls
    back to the mock fixture when the Plant.id key is missing. */
module PlantService {
  import opened Strings
  import opened Sorting
  import opened PlantTypes
  import BingService
  import MockData
  import PlantIdService

  // ---------------------------------------------------------------------
  // Constants

  /** `GENERIC_PLANT_TERMS`: labels too vague to name a plant. */
  const GenericPlantTerms: set<string> := {
    "plant", "terrestrial plant", "vascular plant", "flowering plant", "houseplant",
    "indoor plant", "potted plant", "garden", "nature", "flora"
  }

  /** A catalogue entry: a plant and the phrases that suggest it. */
  datatype Houseplant = Houseplant(plant: string, features: seq<string>)

  /** `COMMON_HOUSEPLANTS`, in definition order (the order `Object.entries` yields). */
  const CommonHouseplants: seq<Houseplant> := [
    Houseplant("monstera", ["split leaf", "swiss cheese", "large leaves", "tropical", "holes", "fenestration"]),
    Houseplant("snake plant", ["upright", "sword-like", "vertical", "striped"]),
    Houseplant("pothos", ["trailing", "heart-shaped", "vine"]),
    Houseplant("peace lily", ["white flower", "dark green", "spadix"]),
    Houseplant("fiddle leaf fig", ["violin-shaped", "large leaves", "tropical"]),
    Houseplant("zz plant", ["dark green", "glossy", "stems"]),
    Houseplant("philodendron", ["heart-shaped", "climbing", "tropical"]),
    Houseplant("spider plant", ["arching leaves", "striped", "babies"]),
    Houseplant("aloe vera", ["succulent", "spiky", "medicinal"]),
    Houseplant("rubber plant", ["burgundy", "thick leaves", "rubber"])
  ]

  const MatchedConfidence: real := 0.8

  const DefaultPlant := "monstera deliciosa"

  const DefaultConfidence: real := 0.4

  const MaxSuggestions := 3

  function Min(a: int, b: int): int { if a <= b then a else b }

  // ---------------------------------------------------------------------
  // The vision response

  datatype CaptionEntry = CaptionEntry(text: Option<string>)
  datatype VisionDescription = VisionDescription(captions: Option<seq<CaptionEntry>>)

  /** The parts of the vision response the pipeline reads. `tags` is spread
      into a list, so the pipeline needs it present; the rest may be absent. */
  datatype VisionData = VisionData(
    description: Option<VisionDescription>,
    tags: seq<Tag>,
    objects: Option<seq<DetectedObject>>)

  /** `description?.captions?.[0]?.text`, when it is present. */
  function FirstCaptionText(v: VisionData): Option<string> {
    match v.description
    case None => None
    case Some(d) =>
      match d.captions
      case None => None
      case Some(cs) => if |cs| > 0 then cs[0].text else None
  }

  /** The caption, or "" when it is missing. */
  function CaptionOf(v: VisionData): (r: string)
    ensures r != "" ==> FirstCaptionText(v) == Some(r)
    ensures r == "" <==> FirstCaptionText(v).None? || FirstCaptionText(v) == Some("")
  {
    FirstCaptionText(v).GetOr("")
  }

  /** The tags followed by the detected objects read as tags. */
  function AllTags(v: VisionData): (r: seq<Tag>)
    ensures v.objects.None? ==> r == v.tags
    ensures v.objects.Some? ==> |r| == |v.tags| + |v.objects.value|
    ensures r[..|v.tags|] == v.tags
    ensures v.objects.Some? ==> forall i :: 0 <= i < |v.objects.value| ==>
              r[|v.tags| + i] == Tag(v.objects.value[i].objectName, v.objects.value[i].confidence)
  {
    var objs := v.objects.GetOr([]);
    v.tags + seq(|objs|, i requires 0 <= i < |objs| => Tag(objs[i].objectName, objs[i].confidence))
  }

  // ---------------------------------------------------------------------
  // Filtering and ranking

  /** The filter's test: confident enough and not a generic term. */
  predicate KeepTag(t: Tag) {
    !(t.confidence < 0.5 || Lower(t.name) in GenericPlantTerms)
  }

  function FilterTags(s: seq<Tag>): (r: seq<Tag>)
    ensures |r| <= |s|
    ensures forall i :: 0 <= i < |r| ==> KeepTag(r[i])
  {
    if s == [] then []
    else (if KeepTag(s[0]) then [s[0]] else []) + FilterTags(s[1..])
  }

  /** The filter keeps every kept tag as often as it occurs, and nothing else. */
  lemma {:induction false} FilterTagsCounts(s: seq<Tag>, t: Tag)
    ensures multiset(FilterTags(s))[t] == if KeepTag(t) then multiset(s)[t] else 0
  {
    if s != [] {
      FilterTagsCounts(s[1..], t);
      assert s == [s[0]] + s[1..];
    }
  }

  /** `allTags.filter(...).sort(...)`: the stable sort by descending confidence. */
  function RankTags(all: seq<Tag>): seq<Tag> {
    SortDesc(FilterTags(all), Confidence)
  }

  /** The ranked list holds exactly the kept tags, non-increasing by confidence. */
  lemma RankTagsExact(all: seq<Tag>, t: Tag)
    ensures SortedDesc(RankTags(all), Confidence)
    ensures multiset(RankTags(all))[t] == if KeepTag(t) then multiset(all)[t] else 0
    ensures t in RankTags(all) <==> t in all && KeepTag(t)
  {
    FilterTagsCounts(all, t);
  }

  /** Tags of equal confidence keep the order the vision service gave them. */
  lemma RankTagsStable(all: seq<Tag>, c: real)
    ensures WithKey(RankTags(all), Confidence, c) == WithKey(FilterTags(all), Confidence, c)
  {
    SortIsStable(FilterTags(all), Confidence, c);
  }

  // ---------------------------------------------------------------------
  // The catalogue matcher (findSpecificPlant)

  function LowerNames(tags: seq<Tag>): seq<string> {
    seq(|tags|, i requires 0 <= i < |tags| => Lower(tags[i].name))
  }

  /** The lower-cased caption, a space, and the lower-cased tag names joined by spaces. */
  function AllText(tags: seq<Tag>, caption: string): string {
    Lower(caption) + " " + Join(" ", LowerNames(tags))
  }

  /** The number of `features` that occur in `text`. */
  function Score(features: seq<string>, text: string): (r: nat)
    ensures r <= |features|
  {
    if features == [] then 0
    else (if Contains(text, features[0]) then 1 else 0) + Score(features[1..], text)
  }

  /** The score is zero exactly when no feature occurs in the text. */
  lemma {:induction false} ScoreZeroIff(features: seq<string>, text: string)
    ensures Score(features, text) == 0 <==> forall k :: 0 <= k < |features| ==> !Contains(text, features[k])
  {
    if features != [] {
      ScoreZeroIff(features[1..], text);
      assert forall k :: 1 <= k < |features| ==> features[1..][k - 1] == features[k];
    }
  }

  /** A feature that does not occur keeps the score below the number of features. */
  lemma {:induction false} ScoreMiss(features: seq<string>, text: string, k: nat)
    requires k < |features| && !Contains(text, features[k])
    ensures Score(features, text) < |features|
  {
    if k > 0 {
      ScoreMiss(features[1..], text, k - 1);
    }
  }

  datatype ScoredPlant = ScoredPlant(plant: string, score: nat)

  function Scores(text: string): (r: seq<ScoredPlant>)
    ensures |r| == |CommonHouseplants|
    ensures forall k :: 0 <= k < |r| ==>
              r[k] == ScoredPlant(CommonHouseplants[k].plant, Score(CommonHouseplants[k].features, text))
  {
    seq(|CommonHouseplants|, k requires 0 <= k < |CommonHouseplants| =>
      ScoredPlant(CommonHouseplants[k].plant, Score(CommonHouseplants[k].features, text)))
  }

  /** `scores.reduce(...)` from `{ plant: '', score: 0 }`, taking a later
      entry only when its score is strictly higher. */
  function Best(ss: seq<ScoredPlant>): (b: ScoredPlant)
    ensures forall k :: 0 <= k < |ss| ==> ss[k].score <= b.score
    ensures b.score == 0 ==> b == ScoredPlant("", 0)
    ensures b.score > 0 ==> exists k :: 0 <= k < |ss| && ss[k] == b
  {
    if ss == [] then ScoredPlant("", 0)
    else
      var prev := Best(ss[..|ss| - 1]);
      assert forall k :: 0 <= k < |ss| - 1 ==> ss[..|ss| - 1][k] == ss[k];
      if ss[|ss| - 1].score > prev.score then ss[|ss| - 1] else prev
  }

  /** Among equal best scores the earliest entry wins. */
  lemma {:induction false} BestIsFirstMaximum(ss: seq<ScoredPlant>, k: nat)
    requires k < |ss| && ss[k].score > 0
    requires forall j :: 0 <= j < |ss| ==> ss[j].score <= ss[k].score
    requires forall j :: 0 <= j < k ==> ss[j].score < ss[k].score
    ensures Best(ss) == ss[k]
  {
    var n := |ss| - 1;
    assert forall j :: 0 <= j < n ==> ss[..n][j] == ss[j];
    if k < n {
      BestIsFirstMaximum(ss[..n], k);
    } else {
      var prev := Best(ss[..n]);
      if prev.score > 0 {
        var j :| 0 <= j < n && ss[..n][j] == prev;
        assert ss[j] == prev;
      }
    }
  }

  /** `findSpecificPlant`: the best-scoring plant, if it scores at least 2. */
  function FindSpecificPlant(tags: seq<Tag>, caption: string): (r: Option<string>)
    ensures r.Some? ==> exists k :: 0 <= k < |CommonHouseplants| && CommonHouseplants[k].plant == r.value
  {
    var b := Best(Scores(AllText(tags, caption)));
    if b.score >= 2 then Some(b.plant) else None
  }

  /** No species is named exactly when every entry scores below 2. */
  lemma FindSpecificPlantNoneIff(tags: seq<Tag>, caption: string)
    ensures FindSpecificPlant(tags, caption).None? <==>
              forall k :: 0 <= k < |CommonHouseplants| ==>
                Score(CommonHouseplants[k].features, AllText(tags, caption)) < 2
  {
    var ss := Scores(AllText(tags, caption));
    if Best(ss).score >= 2 {
      var k :| 0 <= k < |ss| && ss[k] == Best(ss);
      assert Score(CommonHouseplants[k].features, AllText(tags, caption)) >= 2;
    }
  }

  /** The named species is the first entry with the highest score, when that score is at least 2. */
  lemma FindSpecificPlantIsFirstBest(tags: seq<Tag>, caption: string, k: nat)
    requires k < |CommonHouseplants|
    requires Score(CommonHouseplants[k].features, AllText(tags, caption)) >= 2
    requires forall j :: 0 <= j < |CommonHouseplants| ==>
               Score(CommonHouseplants[j].features, AllText(tags, caption))
               <= Score(CommonHouseplants[k].features, AllText(tags, caption))
    requires forall j :: 0 <= j < k ==>
               Score(CommonHouseplants[j].features, AllText(tags, caption))
               < Score(CommonHouseplants[k].features, AllText(tags, caption))
    ensures FindSpecificPlant(tags, caption) == Some(CommonHouseplants[k].plant)
  {
    BestIsFirstMaximum(Scores(AllText(tags, caption)), k);
  }

  /** The positions of features that occur, in increasing order, bound the score from below. */
  lemma {:induction false} ScoreCountsHits(features: seq<string>, text: string, hits: seq<nat>)
    requires forall i :: 0 <= i < |hits| ==> hits[i] < |features| && Contains(text, features[hits[i]])
    requires forall i, j :: 0 <= i < j < |hits| ==> hits[i] < hits[j]
    ensures Score(features, text) >= |hits|
  {
    if hits != [] {
      assert hits[0] < |features|;
      if hits[0] == 0 {
        var rest := seq(|hits| - 1, i requires 0 <= i < |hits| - 1 => hits[i + 1] - 1);
        assert forall i :: 0 <= i < |rest| ==> features[1..][rest[i]] == features[hits[i + 1]];
        ScoreCountsHits(features[1..], text, rest);
      } else {
        var rest := seq(|hits|, i requires 0 <= i < |hits| => hits[i] - 1);
        assert forall i :: 0 <= i < |hits| ==> hits[i] >= hits[0] >= 1;
        assert forall i :: 0 <= i < |rest| ==> features[1..][rest[i]] == features[hits[i]];
        ScoreCountsHits(features[1..], text, rest);
      }
    }
  }

  /** The positions of the features that occur in `text`. */
  function Hits(features: seq<string>, text: string): set<nat> {
    set k: nat | k < |features| && Contains(text, features[k])
  }

  /** The score is the number of features that occur in the text. */
  lemma {:induction false} ScoreIsHitCount(features: seq<string>, text: string)
    ensures Score(features, text) == |Hits(features, text)|
  {
    if features == [] {
      assert Hits(features, text) == {};
    } else {
      var rest := Hits(features[1..], text);
      ScoreIsHitCount(features[1..], text);
      var head: set<nat> := if Contains(text, features[0]) then {0} else {};
      forall k: nat ensures k in Hits(features, text) <==> k in head + Shift(rest) {
        if k > 0 {
          assert k < |features| ==> features[k] == features[1..][k - 1];
          assert k in Shift(rest) <==> k - 1 in rest;
        }
      }
      assert Hits(features, text) == head + Shift(rest);
      assert head !! Shift(rest);
      ShiftSize(rest);
    }
  }

  /** Every position moved one to the right. */
  function Shift(s: set<nat>): (r: set<nat>)
    ensures forall k: nat :: k in r <==> k > 0 && k - 1 in s
  {
    set k | k in s :: k + 1
  }

  /** Helper for ScoreIsHitCount: moving the positions keeps their number. */
  lemma {:induction false} ShiftSize(s: set<nat>)
    ensures |Shift(s)| == |s|
    decreases |s|
  {
    if s != {} {
      var x :| x in s;
      ShiftSize(s - {x});
      assert Shift(s) == Shift(s - {x}) + {x + 1};
    }
  }

  /** Helper for MatcherExample: the lower-cased caption and tag names. */
  lemma ExampleText(c1: real, c2: real, c3: real)
    ensures AllText([Tag("large leaves", c1), Tag("tropical", c2), Tag("holes", c3)], "")
         == " " + "large leaves" + " " + "tropical" + " " + "holes"
  {
    var tags := [Tag("large leaves", c1), Tag("tropical", c2), Tag("holes", c3)];
    LowerOfLower("large leaves");
    LowerOfLower("tropical");
    LowerOfLower("holes");
    assert LowerNames(tags) == ["large leaves", "tropical", "holes"];
    assert Join(" ", ["tropical", "holes"]) == "tropical" + " " + "holes";
  }

  /** Helper for MatcherExample: which features occur. */
  lemma ExampleHits(text: string)
    requires text == " " + "large leaves" + " " + "tropical" + " " + "holes"
    ensures Contains(text, "large leaves") && Contains(text, "tropical") && Contains(text, "holes")
  {
    ContainsMiddle(" ", "large leaves", "");
    assert " " + "large leaves" + "" == " " + "large leaves";
    ContainsAppend(" " + "large leaves", " ", "large leaves");
    ContainsAppend(" " + "large leaves" + " ", "tropical", "large leaves");
    ContainsAppend(" " + "large leaves" + " " + "tropical", " ", "large leaves");
    ContainsAppend(" " + "large leaves" + " " + "tropical" + " ", "holes", "large leaves");
    ContainsMiddle(" " + "large leaves" + " ", "tropical", "");
    assert " " + "large leaves" + " " + "tropical" + "" == " " + "large leaves" + " " + "tropical";
    ContainsAppend(" " + "large leaves" + " " + "tropical", " ", "tropical");
    ContainsAppend(" " + "large leaves" + " " + "tropical" + " ", "holes", "tropical");
    ContainsMiddle(" " + "large leaves" + " " + "tropical" + " ", "holes", "");
    assert text + "" == text;
  }

  /** Helper for MatcherExample: the first snake-plant feature does not occur. */
  lemma ExampleMiss(text: string)
    requires text == " " + "large leaves" + " " + "tropical" + " " + "holes"
    ensures !Contains(text, "upright")
  {
    assert 'u' !in "large leaves";
    assert 'u' !in "tropical";
    assert 'u' !in "holes";
    NotContainsWithoutFirst(text, "upright");
  }

  /** Helper for MatcherExample: monstera scores at least as high as every entry. */
  lemma ExampleScores(text: string)
    requires Contains(text, "large leaves") && Contains(text, "tropical") && Contains(text, "holes")
    requires !Contains(text, "upright")
    ensures Score(CommonHouseplants[0].features, text) >= 3
    ensures forall j :: 0 <= j < |CommonHouseplants| ==>
              Score(CommonHouseplants[j].features, text) <= Score(CommonHouseplants[0].features, text)
  {
    ScoreCountsHits(CommonHouseplants[0].features, text, [2, 3, 4]);
    var best := Score(CommonHouseplants[0].features, text);
    forall j | 0 <= j < |CommonHouseplants| ensures Score(CommonHouseplants[j].features, text) <= best {
      if j == 1 {
        ScoreMiss(CommonHouseplants[1].features, text, 0);
      } else if j > 1 {
        assert |CommonHouseplants[j].features| == 3;
      }
    }
  }

  /** Tags "large leaves", "tropical" and "holes" with no caption name the monstera. */
  lemma MatcherExample(c1: real, c2: real, c3: real)
    ensures FindSpecificPlant([Tag("large leaves", c1), Tag("tropical", c2), Tag("holes", c3)], "")
         == Some("monstera")
  {
    var tags := [Tag("large leaves", c1), Tag("tropical", c2), Tag("holes", c3)];
    ExampleText(c1, c2, c3);
    ExampleHits(AllText(tags, ""));
    ExampleMiss(AllText(tags, ""));
    ExampleScores(AllText(tags, ""));
    FindSpecificPlantIsFirstBest(tags, "", 0);
  }

  // ---------------------------------------------------------------------
  // The candidate list (plantTags after unshift/push) and its top three

  /** The ranked tags with the matched species in front, or the default when empty. */
  function CandidateTags(v: VisionData): (r: seq<Tag>)
    ensures |r| >= 1
  {
    var ranked := RankTags(AllTags(v));
    var withMatch :=
      match FindSpecificPlant(ranked, CaptionOf(v))
      case Some(p) => [Tag(p, MatchedConfidence)] + ranked
      case None => ranked;
    if |withMatch| == 0 then [Tag(DefaultPlant, DefaultConfidence)] else withMatch
  }

  /** `plantTags.slice(0, 3)` */
  function TopTags(v: VisionData): (r: seq<Tag>)
    ensures 1 <= |r| <= MaxSuggestions
    ensures |r| == Min(MaxSuggestions, |CandidateTags(v)|)
    ensures r == CandidateTags(v)[..|r|]
  {
    CandidateTags(v)[..Min(MaxSuggestions, |CandidateTags(v)|)]
  }

  /** A matched species comes first at 0.8, followed by the ranked tags. */
  lemma CandidatesWithMatch(v: VisionData, p: string)
    requires FindSpecificPlant(RankTags(AllTags(v)), CaptionOf(v)) == Some(p)
    ensures CandidateTags(v)[0] == Tag(p, MatchedConfidence)
    ensures CandidateTags(v)[1..] == RankTags(AllTags(v))
  {
  }

  /** Without a match the candidates are the ranked tags, or the single default. */
  lemma CandidatesWithoutMatch(v: VisionData)
    requires FindSpecificPlant(RankTags(AllTags(v)), CaptionOf(v)).None?
    ensures RankTags(AllTags(v)) != [] ==> CandidateTags(v) == RankTags(AllTags(v))
    ensures RankTags(AllTags(v)) == [] ==> CandidateTags(v) == [Tag(DefaultPlant, DefaultConfidence)]
  {
  }

  /** Confidences never increase from index 1 on, and from index 0 on when
      no species was matched. */
  lemma CandidatesOrder(v: VisionData)
    ensures SortedDesc(CandidateTags(v)[1..], Confidence)
    ensures FindSpecificPlant(RankTags(AllTags(v)), CaptionOf(v)).None? ==> SortedDesc(CandidateTags(v), Confidence)
  {
    var ranked := RankTags(AllTags(v));
    var c := CandidateTags(v);
    if FindSpecificPlant(ranked, CaptionOf(v)).Some? {
      assert c[1..] == ranked;
    } else if ranked == [] {
      assert c[1..] == [];
    } else {
      assert c == ranked;
      forall i, j | 0 <= i < j < |c[1..]| ensures Confidence(c[1..][i]) >= Confidence(c[1..][j]) {
        assert c[1..][i] == c[i + 1] && c[1..][j] == c[j + 1];
      }
    }
  }

  /** The candidates are in descending order exactly when no species was
      matched, or nothing was ranked, or the best ranked tag is not above 0.8. */
  lemma CandidatesSortedIff(v: VisionData)
    ensures SortedDesc(CandidateTags(v), Confidence) <==>
              FindSpecificPlant(RankTags(AllTags(v)), CaptionOf(v)).None?
              || RankTags(AllTags(v)) == []
              || RankTags(AllTags(v))[0].confidence <= MatchedConfidence
  {
    var ranked := RankTags(AllTags(v));
    CandidatesOrder(v);
    match FindSpecificPlant(ranked, CaptionOf(v))
    case None =>
    case Some(p) =>
      CandidatesWithMatch(v, p);
      var c := CandidateTags(v);
      assert c == [Tag(p, MatchedConfidence)] + ranked;
      if ranked != [] && ranked[0].confidence > MatchedConfidence {
        assert Confidence(c[0]) < Confidence(c[1]);
      } else {
        RankTagsExact(AllTags(v), Tag(p, MatchedConfidence));
        forall j | 0 <= j < |ranked| ensures MatchedConfidence >= Confidence(ranked[j]) {
          assert Confidence(ranked[0]) >= Confidence(ranked[j]) || j == 0;
        }
        ConsSorted(Tag(p, MatchedConfidence), ranked, Confidence);
      }
  }

  /** The first suggestions are a prefix of a list whose tail is ranked, so
      they are ranked from index 1 on as well. */
  lemma TopTagsOrder(v: VisionData)
    ensures SortedDesc(TopTags(v)[1..], Confidence)
    ensures FindSpecificPlant(RankTags(AllTags(v)), CaptionOf(v)).None? ==> SortedDesc(TopTags(v), Confidence)
  {
    CandidatesOrder(v);
    var c, t := CandidateTags(v), TopTags(v);
    var m := |t|;
    assert t == c[..m];
    PrefixTailSorted(c, Confidence, m);
    if FindSpecificPlant(RankTags(AllTags(v)), CaptionOf(v)).None? {
      PrefixSorted(c, Confidence, m);
    }
  }


  /** The caption of MatchCanBreakDescendingOrder, "tropical plant with large leaves". */
  function CounterCaption(): string { "tropical" + " plant with " + "large leaves" }

  /** Helper for MatchCanBreakDescendingOrder: the only tag is kept. */
  lemma CounterRanked()
    ensures RankTags([Tag("leaf", 0.95)]) == [Tag("leaf", 0.95)]
  {
    LowerOfLower("leaf");
    assert KeepTag(Tag("leaf", 0.95));
    assert FilterTags([Tag("leaf", 0.95)]) == [Tag("leaf", 0.95)];
  }

  /** Helper for MatchCanBreakDescendingOrder: the text the matcher sees. */
  lemma CounterText()
    ensures AllText([Tag("leaf", 0.95)], CounterCaption()) == CounterCaption() + " " + "leaf"
  {
    LowerOfLower("tropical");
    LowerOfLower(" plant with ");
    LowerOfLower("large leaves");
    LowerOfLower("leaf");
    LowerAppend("tropical", " plant with ");
    LowerAppend("tropical" + " plant with ", "large leaves");
    assert LowerNames([Tag("leaf", 0.95)]) == ["leaf"];
  }

  /** Helper for MatchCanBreakDescendingOrder: two monstera features occur. */
  lemma CounterHits()
    ensures Contains(CounterCaption() + " " + "leaf", "tropical")
    ensures Contains(CounterCaption() + " " + "leaf", "large leaves")
  {
    ContainsMiddle("", "tropical", "");
    assert "" + "tropical" + "" == "tropical";
    ContainsAppend("tropical", " plant with ", "tropical");
    ContainsAppend("tropical" + " plant with ", "large leaves", "tropical");
    ContainsAppend(CounterCaption(), " ", "tropical");
    ContainsAppend(CounterCaption() + " ", "leaf", "tropical");
    ContainsMiddle("tropical" + " plant with ", "large leaves", "");
    assert "tropical" + " plant with " + "large leaves" + "" == CounterCaption();
    ContainsAppend(CounterCaption(), " ", "large leaves");
    ContainsAppend(CounterCaption() + " ", "leaf", "large leaves");
  }

  /** The matched species is put first at 0.8 even when a ranked tag is more
      confident, so the candidate list need not be in descending order: a
      caption naming two monstera features and a tag at 0.95 give
      [monstera 0.8, leaf 0.95]. */
  lemma MatchCanBreakDescendingOrder()
    ensures var v := VisionData(Some(VisionDescription(Some([CaptionEntry(Some(CounterCaption()))]))),
                                [Tag("leaf", 0.95)], None);
            FindSpecificPlant(RankTags(AllTags(v)), CaptionOf(v)).Some?
            && !SortedDesc(CandidateTags(v), Confidence)
  {
    var v := VisionData(Some(VisionDescription(Some([CaptionEntry(Some(CounterCaption()))]))),
                        [Tag("leaf", 0.95)], None);
    assert AllTags(v) == [Tag("leaf", 0.95)];
    assert CaptionOf(v) == CounterCaption();
    CounterRanked();
    CounterMatch();
    CandidatesSortedIff(v);
  }

  /** Helper for MatchCanBreakDescendingOrder: the matcher names a species. */
  lemma CounterMatch()
    ensures FindSpecificPlant([Tag("leaf", 0.95)], CounterCaption()).Some?
  {
    CounterText();
    CounterHits();
    var text := CounterCaption() + " " + "leaf";
    ScoreCountsHits(CommonHouseplants[0].features, text, [2, 3]);
    assert Scores(text)[0].score >= 2;
  }

  // ---------------------------------------------------------------------
  // Suggestions

  /** The search term passed to the enrichment call. */
  function SearchTerm(name: string): string { name + " houseplant species" }

  /** The text `encodeURIComponent` is applied to in the care-guide link. */
  function CareGuideQuery(name: string): string { name + " houseplant care guide" }

  const CareGuidePrefix := "https://www.bing.com/search?q="

  /** The value of `x || ''` for an optional string. */
  function OrEmpty(o: Option<string>): (r: string)
    ensures o.Some? ==> r == o.value
    ensures o.None? ==> r == ""
  {
    o.GetOr("")
  }

  /** The suggestion built for the tag at `index` from its enrichment `details`. */
  function MakeSuggestion(index: nat, tag: Tag, details: BingService.BingSearchResult, caption: string,
                          encode: string -> string): (s: Suggestion)
    ensures s.id == index + 1 && s.plantName == tag.name && s.probability == tag.confidence
    ensures s.plantDetails.taxonomy.kingdom == "Plantae"
    ensures s.plantDetails.taxonomy.phylum == "Tracheophyta"
    ensures s.plantDetails.taxonomy.class_ == "Unknown"
    ensures s.scientificName == OrEmpty(details.scientificName)
    ensures details.commonNames.None? ==> s.plantDetails.commonNames == [tag.name]
    ensures details.commonNames.Some? ==> s.plantDetails.commonNames == details.commonNames.value
    ensures details.description.Some? && details.description.value != "" ==>
              s.plantDetails.description == details.description.value
    ensures details.description.None? || details.description == Some("") ==>
              s.plantDetails.description == caption
    ensures details.taxonomy.None? ==>
              s.plantDetails.taxonomy.family == "" && s.plantDetails.taxonomy.genus == ""
              && s.plantDetails.taxonomy.order == ""
    ensures details.taxonomy.Some? ==>
              s.plantDetails.taxonomy.family == OrEmpty(details.taxonomy.value.family)
              && s.plantDetails.taxonomy.genus == OrEmpty(details.taxonomy.value.genus)
              && s.plantDetails.taxonomy.order == OrEmpty(details.taxonomy.value.order)
    ensures s.plantDetails.url == CareGuidePrefix + encode(CareGuideQuery(tag.name))
    ensures s.plantDetails.imageUrl == OrEmpty(details.imageUrl)
  {
    var tax := details.taxonomy.GetOr(BingService.BingTaxonomy(None, None, None));
    var description := if details.description.Some? && details.description.value != "" then details.description.value
                       else caption;
    Suggestion(
      index + 1,
      tag.name,
      OrEmpty(details.scientificName),
      tag.confidence,
      PlantDetails(
        details.commonNames.GetOr([tag.name]),
        description,
        Taxonomy("Plantae", OrEmpty(tax.family), OrEmpty(tax.genus), OrEmpty(tax.order), "Tracheophyta", "Unknown"),
        CareGuidePrefix + encode(CareGuideQuery(tag.name)),
        OrEmpty(details.imageUrl)))
  }

  /** The enrichment extractor never writes `order`, so a suggestion's order is always "". */
  lemma SuggestionOrderAlwaysEmpty(index: nat, tag: Tag, info: Option<seq<BingService.WebPage>>,
                                   images: Option<seq<BingService.ImageHit>>, names: Option<seq<BingService.WebPage>>,
                                   caption: string, encode: string -> string)
    ensures MakeSuggestion(index, tag, BingService.Extract(info, images, names), caption, encode)
              .plantDetails.taxonomy.order == ""
    ensures MakeSuggestion(index, tag, BingService.Extract(info, images, names), caption, encode)
              .scientificName == ""
  {
    if info.Some? && images.Some? && names.Some? {
      BingService.ExtractMeaning(info.value, images.value, names.value);
    }
  }

  /** The `Promise.all` over the top tags, taken in order: one enrichment call per tag. */
  method EnrichAll(topTags: seq<Tag>, caption: string, enrich: string -> BingService.BingSearchResult,
                   encode: string -> string)
    returns (suggestions: seq<Suggestion>)
    ensures |suggestions| == |topTags|
    ensures forall i :: 0 <= i < |topTags| ==>
              suggestions[i] == MakeSuggestion(i, topTags[i], enrich(SearchTerm(topTags[i].name)), caption, encode)
  {
    suggestions := [];
    for i := 0 to |topTags|
      invariant |suggestions| == i
      invariant forall j :: 0 <= j < i ==>
                  suggestions[j] == MakeSuggestion(j, topTags[j], enrich(SearchTerm(topTags[j].name)), caption, encode)
    {
      var tag := topTags[i];
      var details := enrich(SearchTerm(tag.name));
      suggestions := suggestions + [MakeSuggestion(i, tag, details, caption, encode)];
    }
  }

  /** `transformToResult`. The enrichment call and `encodeURIComponent` are
      parameters, and so are the three readings of the clock: `Date.now()`
      for the id and the two ISO timestamps. */
  method TransformToResult(
    visionData: VisionData,
    imageBase64: string,
    enrich: string -> BingService.BingSearchResult,
    encode: string -> string,
    nowMillis: nat,
    dateIso: string,
    datetimeIso: string)
    returns (result: IdentificationResult)
    ensures result.id == "plant-" + NatToString(nowMillis)
    ensures result.metaData == MetaData(BeforeFirst(dateIso, 'T'), datetimeIso)
    ensures result.images == [imageBase64]
    ensures result.debug == Some(Debug(visionData.tags, visionData.objects))
    ensures |result.suggestions| == |TopTags(visionData)|
    ensures forall i :: 0 <= i < |result.suggestions| ==>
              result.suggestions[i] == MakeSuggestion(i, TopTags(visionData)[i],
                enrich(SearchTerm(TopTags(visionData)[i].name)), CaptionOf(visionData), encode)
  {
    var caption := CaptionOf(visionData);
    var allTags := AllTags(visionData);
    var plantTags := RankTags(allTags);

    var specificPlant := FindSpecificPlant(plantTags, caption);
    if specificPlant.Some? {
      plantTags := [Tag(specificPlant.value, MatchedConfidence)] + plantTags;
    }
    if |plantTags| == 0 {
      plantTags := plantTags + [Tag(DefaultPlant, DefaultConfidence)];
    }
    assert plantTags == CandidateTags(visionData);

    var topTags := plantTags[..Min(MaxSuggestions, |plantTags|)];
    var suggestions := EnrichAll(topTags, caption, enrich, encode);

    result := IdentificationResult(
      "plant-" + NatToString(nowMillis),
      MetaData(BeforeFirst(dateIso, 'T'), datetimeIso),
      [imageBase64],
      suggestions,
      Some(Debug(visionData.tags, visionData.objects)));
  }

  // ---------------------------------------------------------------------
  // identifyPlant

  const ConfigMessage := "Plant.id API key is not configured"

  const MockDelayMs: nat := 1500

  /** What `identifyPlant` resolves to: the Plant.id result, or the mock
      fixture after a delay. */
  datatype Identified =
    | FromPlantId(identification: PlantIdentification)
    | FromMock(delayMs: nat, fixture: IdentificationResult)

  /** `identifyPlant`, given the outcome of `identifyPlantWithPlantId` and
      the fixture it imports (`MockData.MockIdentificationResult()`). */
  function IdentifyPlant(outcome: Result<PlantIdentification>, mock: IdentificationResult): (r: Result<Identified>)
    ensures outcome.Ok? ==> r == Ok(FromPlantId(outcome.value))
    ensures (r.Ok? && r.value.FromMock?) <==> outcome.Err? && outcome.error.message == ConfigMessage
    ensures r.Ok? && r.value.FromMock? ==> r.value == FromMock(MockDelayMs, mock)
    ensures r.Err? <==> outcome.Err? && outcome.error.message != ConfigMessage
    ensures r.Err? ==> r.error == outcome.error
  {
    match outcome
    case Ok(v) => Ok(FromPlantId(v))
    case Err(e) =>
      if e.message == ConfigMessage then Ok(FromMock(MockDelayMs, mock))
      else Err(e)
  }

  /** A Plant.id response without suggestions surfaces as "No plant matches
      found", never as the mock fixture; a response with suggestions always
      yields the Plant.id result. */
  lemma IdentifyPlantFromResponse(imageBase64: string, response: PlantIdService.PlantIdResponse, mock: IdentificationResult)
    ensures !PlantIdService.HasSuggestions(response) ==>
              IdentifyPlant(PlantIdService.IdentifyWithPlantId(imageBase64, Ok(response)), mock)
              == Err(Error(PlantIdService.NoMatchesMessage, None))
    ensures PlantIdService.HasSuggestions(response) ==>
              IdentifyPlant(PlantIdService.IdentifyWithPlantId(imageBase64, Ok(response)), mock)
              == Ok(FromPlantId(PlantIdService.Normalise(response.suggestions.value[0], imageBase64)))
  {
    assert PlantIdService.NoMatchesMessage != ConfigMessage by {
      assert |PlantIdService.NoMatchesMessage| != |ConfigMessage|;
    }
  }

  /** A failed request is answered with the fixture exactly when its message
      is the missing-key message; the fixture then has the two ranked suggestions. */
  lemma IdentifyPlantOnRequestError(imageBase64: string, e: Error)
    ensures IdentifyPlant(PlantIdService.IdentifyWithPlantId(imageBase64, Err(e)), MockData.MockIdentificationResult()).Ok?
            <==> e.message == ConfigMessage
    ensures e.message == ConfigMessage ==>
              var r := IdentifyPlant(PlantIdService.IdentifyWithPlantId(imageBase64, Err(e)), MockData.MockIdentificationResult()).value;
              r.FromMock? && r.delayMs == 1500 && |r.fixture.suggestions| == 2
              && r.fixture.suggestions[0].probability >= r.fixture.suggestions[1].probability
  {
    MockData.MockFixture();
  }
}
