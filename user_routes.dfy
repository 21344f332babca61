/** The `/stats` route of server/src/routes/user.ts: a summary of the
    caller's saved identifications. The two database queries are read from
    one snapshot of the `Plant` table (`None` when the database throws). */
module UserRoutes {
  import opened Strings
  import opened Sorting
  import opened PlantTypes
  import PlantService
  import PlantRoutes

  /** "获取用户统计信息失败" */
  const StatsFailedMessage: string := "\U{83B7}\U{53D6}\U{7528}\U{6237}\U{7EDF}\U{8BA1}\U{4FE1}\U{606F}\U{5931}\U{8D25}"

  /** The number of `commonPlants` groups (`take: 3`). */
  const TopGroups: nat := 3

  // ---------------------------------------------------------------------
  // plantFamilies

  /** `scientificName.split(' ')[0]` */
  function FirstToken(scientificName: string): (r: string)
    ensures IsPrefix(r, scientificName) && ' ' !in r
    ensures |r| < |scientificName| ==> scientificName[|r|] == ' '
  {
    BeforeFirst(scientificName, ' ')
  }

  /** The distinct first tokens of the records' scientific names. */
  function FamilySet(rs: seq<PlantRecord>): (r: set<string>)
    ensures |r| <= |rs|
    ensures r == {} <==> rs == []
    ensures forall x :: x in r <==> exists p :: p in rs && x == FirstToken(p.scientificName)
  {
    if rs == [] then {}
    else
      var rest := FamilySet(rs[1..]);
      assert forall p :: p in rs <==> p == rs[0] || p in rs[1..];
      {FirstToken(rs[0].scientificName)} + rest
  }

  /** The family count does not depend on the order of the records. */
  lemma FamilySetPermutation(a: seq<PlantRecord>, b: seq<PlantRecord>)
    requires multiset(a) == multiset(b)
    ensures FamilySet(a) == FamilySet(b)
  {
    forall p ensures p in a <==> p in b {
      assert p in a <==> p in multiset(a);
      assert p in b <==> p in multiset(b);
    }
  }

  // ---------------------------------------------------------------------
  // commonPlants

  /** One row of `groupBy({ by: ['commonName'], _count: { commonName: true } })`. */
  datatype Group = Group(commonName: string, count: nat)

  /** The sort key of `orderBy: { _count: { commonName: 'desc' } }`. */
  function GroupCount(g: Group): real { g.count as real }

  function CommonNamesOf(rs: seq<PlantRecord>): (r: seq<string>)
    ensures |r| == |rs| && forall i :: 0 <= i < |rs| ==> r[i] == rs[i].commonName
  {
    seq(|rs|, i requires 0 <= i < |rs| => rs[i].commonName)
  }

  /** The number of records whose `commonName` is `name`. */
  function Count(rs: seq<PlantRecord>, name: string): nat {
    multiset(CommonNamesOf(rs))[name]
  }

  /** Each name once, in order of first appearance. */
  function Distinct(names: seq<string>): (r: seq<string>)
    ensures forall x :: x in r <==> x in names
    ensures forall i, j :: 0 <= i < j < |r| ==> r[i] != r[j]
    decreases |names|
  {
    if names == [] then []
    else
      var d := Distinct(names[..|names| - 1]);
      assert forall x :: x in names <==> x in names[..|names| - 1] || x == names[|names| - 1] by {
        assert names == names[..|names| - 1] + [names[|names| - 1]];
      }
      if names[|names| - 1] in d then d else d + [names[|names| - 1]]
  }

  /** One group per distinct common name, with its number of records. */
  function Groups(rs: seq<PlantRecord>): (r: seq<Group>)
    ensures forall i :: 0 <= i < |r| ==> r[i].count == Count(rs, r[i].commonName) && r[i].count >= 1
    ensures forall i, j :: 0 <= i < j < |r| ==> r[i].commonName != r[j].commonName
    ensures forall x :: x in CommonNamesOf(rs) <==> exists i :: 0 <= i < |r| && r[i].commonName == x
  {
    var d := Distinct(CommonNamesOf(rs));
    var r := seq(|d|, i requires 0 <= i < |d| => Group(d[i], Count(rs, d[i])));
    forall i | 0 <= i < |d| ensures Count(rs, d[i]) >= 1 {
      assert d[i] in d;
      assert d[i] in multiset(CommonNamesOf(rs));
    }
    assert forall x :: x in CommonNamesOf(rs) ==> exists i :: 0 <= i < |r| && r[i].commonName == x by {
      forall x | x in CommonNamesOf(rs) ensures exists i :: 0 <= i < |r| && r[i].commonName == x {
        var i :| 0 <= i < |d| && d[i] == x;
        assert r[i].commonName == x;
      }
    }
    r
  }

  /** The `commonPlants` field: the groups ordered by descending count
      (ties kept in order of first appearance), at most three of them. */
  function CommonPlants(rs: seq<PlantRecord>): (r: seq<Group>)
    ensures |r| == PlantService.Min(TopGroups, |Groups(rs)|)
    ensures r == SortDesc(Groups(rs), GroupCount)[..|r|]
  {
    var sorted := SortDesc(Groups(rs), GroupCount);
    sorted[..PlantService.Min(TopGroups, |sorted|)]
  }

  /** Every listed group is a real group with its true count; the names are
      distinct; the counts do not increase. */
  lemma CommonPlantsAreGroups(rs: seq<PlantRecord>)
    ensures |CommonPlants(rs)| <= TopGroups
    ensures forall i :: 0 <= i < |CommonPlants(rs)| ==>
              CommonPlants(rs)[i].commonName in CommonNamesOf(rs)
              && CommonPlants(rs)[i].count == Count(rs, CommonPlants(rs)[i].commonName)
    ensures forall i, j :: 0 <= i < j < |CommonPlants(rs)| ==>
              CommonPlants(rs)[i].commonName != CommonPlants(rs)[j].commonName
    ensures SortedDesc(CommonPlants(rs), GroupCount)
  {
    var gs := Groups(rs);
    var sorted := SortDesc(gs, GroupCount);
    var r := CommonPlants(rs);
    forall i | 0 <= i < |r|
      ensures r[i].commonName in CommonNamesOf(rs) && r[i].count == Count(rs, r[i].commonName)
    {
      assert r[i] == sorted[i];
      assert sorted[i] in multiset(gs);
      var k :| 0 <= k < |gs| && gs[k] == sorted[i];
    }
    forall i, j | 0 <= i < j < |r| ensures r[i].commonName != r[j].commonName {
      GroupsOfSortedDistinct(gs, sorted, i, j);
    }
  }

  /** Two positions of a permutation of `Groups(rs)` hold different names. */
  lemma GroupsOfSortedDistinct(gs: seq<Group>, sorted: seq<Group>, i: int, j: int)
    requires forall a, b :: 0 <= a < b < |gs| ==> gs[a].commonName != gs[b].commonName
    requires multiset(sorted) == multiset(gs)
    requires 0 <= i < j < |sorted|
    ensures sorted[i].commonName != sorted[j].commonName
  {
    if sorted[i].commonName == sorted[j].commonName {
      assert sorted[i] in multiset(gs) && sorted[j] in multiset(gs);
      var a :| 0 <= a < |gs| && gs[a] == sorted[i];
      var b :| 0 <= b < |gs| && gs[b] == sorted[j];
      assert a == b;
      assert sorted[i] == sorted[j];
      MultisetTwoPositions(sorted, i, j);
      GroupOccursOnce(gs, a);
      assert false;
    }
  }

  /** A seq holding the same value at two positions counts it at least twice. */
  lemma MultisetTwoPositions<T>(s: seq<T>, i: int, j: int)
    requires 0 <= i < j < |s| && s[i] == s[j]
    ensures multiset(s)[s[i]] >= 2
  {
    assert s == s[..i] + [s[i]] + s[i + 1..j] + [s[j]] + s[j + 1..];
  }

  /** In a seq of groups with distinct names each group occurs once. */
  lemma {:induction false} GroupOccursOnce(gs: seq<Group>, a: int)
    requires forall x, y :: 0 <= x < y < |gs| ==> gs[x].commonName != gs[y].commonName
    requires 0 <= a < |gs|
    ensures multiset(gs)[gs[a]] == 1
  {
    var g := gs[a];
    assert gs == gs[..a] + [g] + gs[a + 1..];
    forall k | 0 <= k < |gs| && k != a ensures gs[k] != g {
      assert gs[k].commonName != g.commonName;
    }
    assert g !in gs[..a];
    assert g !in gs[a + 1..];
  }

  /** A common name left out of `commonPlants` has no more records than any
      name listed there. */
  lemma UnlistedNameIsNoMoreCommon(rs: seq<PlantRecord>, x: string, i: int)
    requires x in CommonNamesOf(rs)
    requires forall k :: 0 <= k < |CommonPlants(rs)| ==> CommonPlants(rs)[k].commonName != x
    requires 0 <= i < |CommonPlants(rs)|
    ensures Count(rs, x) <= CommonPlants(rs)[i].count
  {
    var gs := Groups(rs);
    var sorted := SortDesc(gs, GroupCount);
    var r := CommonPlants(rs);
    var a :| 0 <= a < |gs| && gs[a].commonName == x;
    assert gs[a] in multiset(sorted);
    var j :| 0 <= j < |sorted| && sorted[j] == gs[a];
    forall k | 0 <= k < |r| ensures sorted[k].commonName != x {
      assert r[k] == sorted[k];
    }
    assert j >= |r|;
    assert r[i] == sorted[i];
    assert GroupCount(sorted[i]) >= GroupCount(sorted[j]);
  }

  /** With at most three distinct names every name is listed. */
  lemma FewNamesAllListed(rs: seq<PlantRecord>, x: string)
    requires |Groups(rs)| <= TopGroups && x in CommonNamesOf(rs)
    ensures exists k :: 0 <= k < |CommonPlants(rs)| && CommonPlants(rs)[k].commonName == x
  {
    var gs := Groups(rs);
    var sorted := SortDesc(gs, GroupCount);
    var r := CommonPlants(rs);
    assert r == sorted;
    var a :| 0 <= a < |gs| && gs[a].commonName == x;
    assert gs[a] in multiset(sorted);
    var j :| 0 <= j < |sorted| && sorted[j] == gs[a];
    assert r[j].commonName == x;
  }

  // ---------------------------------------------------------------------
  // The handler

  datatype StatsBody =
    | Stats(totalIdentifications: nat, lastIdentification: Option<int>, plantFamilies: nat, commonPlants: seq<Group>)
    | StatsFailed(message: string)

  /** The summary of the caller's records `own`. `lastIdentification` is the
      first record's `createdAt`: a date is never falsy, so `|| null` only
      applies to an empty list. */
  function StatsOf(own: seq<PlantRecord>): StatsBody {
    var newest := PlantRoutes.Newest(own);
    Stats(
      |own|,
      if |newest| > 0 then Some(newest[0].createdAt) else None,
      |FamilySet(newest)|,
      CommonPlants(own))
  }

  /** The `/stats` handler. */
  function UserStats(table: Option<seq<PlantRecord>>, userId: string): (r: Response<StatsBody>)
    ensures table.None? ==> r == Response(500, StatsFailed(StatsFailedMessage))
    ensures table.Some? ==> r == Response(200, StatsOf(PlantRoutes.OwnRecords(table.value, userId)))
  {
    match table
    case None => Response(500, StatsFailed(StatsFailedMessage))
    case Some(t) => Response(200, StatsOf(PlantRoutes.OwnRecords(t, userId)))
  }

  /** `totalIdentifications` counts the records, `plantFamilies` counts their
      distinct first tokens: never more, and zero exactly when there are none. */
  lemma StatsCounts(own: seq<PlantRecord>)
    ensures StatsOf(own).totalIdentifications == |own|
    ensures StatsOf(own).plantFamilies == |FamilySet(own)|
    ensures StatsOf(own).plantFamilies <= StatsOf(own).totalIdentifications
    ensures StatsOf(own).plantFamilies == 0 <==> |own| == 0
  {
    FamilySetPermutation(PlantRoutes.Newest(own), own);
  }

  /** `lastIdentification` is absent exactly when there are no records, and
      otherwise is the latest `createdAt` among them. */
  lemma LastIsLatest(own: seq<PlantRecord>)
    ensures StatsOf(own).lastIdentification.None? <==> own == []
    ensures StatsOf(own).lastIdentification.Some? ==>
              (exists p :: p in own && p.createdAt == StatsOf(own).lastIdentification.value)
              && forall p :: p in own ==> p.createdAt <= StatsOf(own).lastIdentification.value
  {
    var newest := PlantRoutes.Newest(own);
    if |newest| > 0 {
      assert newest[0] in multiset(own);
      forall p | p in own ensures p.createdAt <= newest[0].createdAt {
        assert p in multiset(newest);
        var j :| 0 <= j < |newest| && newest[j] == p;
        if j > 0 {
          assert CreatedAt(newest[0]) >= CreatedAt(newest[j]);
        }
      }
    }
  }
}
