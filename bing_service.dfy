/** Enrichment of a plant name from web and image search results
    (src/services/bingService.ts). The three search requests are parameters:
    each returns `None` when the request, or reading `webPages.value` from
    its response, throws. Extraction is pattern matching over the page text. */
module BingService {
  import opened Strings

  datatype BingTaxonomy = BingTaxonomy(family: Option<string>, genus: Option<string>, order: Option<string>)

  /** `BingSearchResult`: every field is optional. */
  datatype BingSearchResult = BingSearchResult(
    scientificName: Option<string>,
    description: Option<string>,
    taxonomy: Option<BingTaxonomy>,
    commonNames: Option<seq<string>>,
    imageUrl: Option<string>)

  /** The object literal `{}`. */
  const Empty := BingSearchResult(None, None, None, None, None)

  datatype WebPage = WebPage(name: string, snippet: string)
  datatype ImageHit = ImageHit(contentUrl: string)

  /** The parameters of a `/search` request. */
  datatype WebQuery = WebQuery(q: string, count: nat, webpagesOnly: bool)
  /** The parameters of an `/images/search` request. */
  datatype ImageQuery = ImageQuery(q: string, count: nat)

  function InfoQuery(plantName: string): WebQuery {
    WebQuery(plantName + " plant scientific name taxonomy", 5, true)
  }

  function PictureQuery(plantName: string): ImageQuery {
    ImageQuery(plantName + " plant", 1)
  }

  function NamesQuery(plantName: string): WebQuery {
    WebQuery(plantName + " plant common names", 3, false)
  }

  // ---------------------------------------------------------------------
  // Character classes and runs

  /** The regular-expression class `\s` (white space and line terminators). */
  predicate IsRegexSpace(c: char) {
    c == '\t' || c == '\n' || c == '\U{000B}' || c == '\U{000C}' || c == '\r' || c == ' '
    || c == '\U{00A0}' || c == '\U{1680}' || ('\U{2000}' <= c <= '\U{200A}')
    || c == '\U{2028}' || c == '\U{2029}' || c == '\U{202F}' || c == '\U{205F}'
    || c == '\U{3000}' || c == '\U{FEFF}'
  }

  /** The length of the longest run of characters satisfying `p` from `i`. */
  function Run(t: string, i: nat, p: char -> bool): (n: nat)
    requires i <= |t|
    ensures i + n <= |t|
    ensures forall k :: i <= k < i + n ==> p(t[k])
    ensures i + n == |t| || !p(t[i + n])
    decreases |t| - i
  {
    if i < |t| && p(t[i]) then 1 + Run(t, i + 1, p) else 0
  }

  // ---------------------------------------------------------------------
  // /\b([A-Z][a-z]+ [a-z]+)\b/

  /** The match of the scientific-name pattern that starts at `i`, if any. */
  function ScientificAt(t: string, i: nat): (r: Option<string>)
    requires i <= |t|
    ensures r.Some? ==> i < |t| && IsUpperAscii(t[i])
  {
    if i < |t| && (i == 0 || !IsWordChar(t[i - 1])) && IsUpperAscii(t[i]) then
      var a := Run(t, i + 1, IsLowerAscii);
      var sp := i + 1 + a;
      if a >= 1 && sp < |t| && t[sp] == ' ' then
        var b := Run(t, sp + 1, IsLowerAscii);
        var e := sp + 1 + b;
        if b >= 1 && (e == |t| || !IsWordChar(t[e])) then Some(t[i..e]) else None
      else None
    else None
  }

  /** The leftmost match at or after `i`. */
  function ScientificFrom(t: string, i: nat): Option<string>
    requires i <= |t|
    decreases |t| - i
  {
    if ScientificAt(t, i).Some? then ScientificAt(t, i)
    else if i == |t| then None
    else ScientificFrom(t, i + 1)
  }

  function ScientificMatch(t: string): Option<string> { ScientificFrom(t, 0) }

  /** The pattern needs a capital letter, so it never matches lower-cased text. */
  lemma {:induction false} NoCapitalNoMatch(t: string, i: nat)
    requires i <= |t|
    requires forall k :: 0 <= k < |t| ==> !IsUpperAscii(t[k])
    ensures ScientificFrom(t, i) == None
    decreases |t| - i
  {
    if i < |t| {
      NoCapitalNoMatch(t, i + 1);
    }
  }

  // ---------------------------------------------------------------------
  // /family:\s*([A-Za-z]+aceae)/i  and  /genus:\s*([A-Za-z]+)/i

  /** `w[..k]` ends in "aceae" (any case) after at least one more letter. */
  predicate EndsInAceae(w: string, k: nat)
    requires k <= |w|
  {
    k >= 6 && Lower(w[k - 5..k]) == "aceae"
  }

  /** The greedy `[A-Za-z]+aceae` backtracks to the longest such prefix. */
  function LongestAceae(w: string, k: nat): (r: Option<nat>)
    requires k <= |w|
    ensures r.Some? ==> r.value <= k && EndsInAceae(w, r.value)
    ensures r.Some? ==> forall m :: r.value < m <= k ==> !EndsInAceae(w, m)
    ensures r.None? ==> forall m :: 0 <= m <= k ==> !EndsInAceae(w, m)
  {
    if k < 6 then None
    else if EndsInAceae(w, k) then Some(k)
    else LongestAceae(w, k - 1)
  }

  /** A case-insensitive literal `lit` at `i`, followed by white space; the
      position after the white space. */
  function AfterLabel(t: string, i: nat, lit: string): (r: Option<nat>)
    requires i <= |t|
    ensures r.Some? <==> i + |lit| <= |t| && Lower(t[i..i + |lit|]) == lit
    ensures r.Some? ==> i + |lit| <= r.value <= |t|
    ensures r.Some? ==> forall k :: i + |lit| <= k < r.value ==> IsRegexSpace(t[k])
    ensures r.Some? ==> r.value == |t| || !IsRegexSpace(t[r.value])
  {
    if i + |lit| <= |t| && Lower(t[i..i + |lit|]) == lit then
      Some(i + |lit| + Run(t, i + |lit|, IsRegexSpace))
    else None
  }

  /** `w` occurs in `t` starting at `j`. */
  predicate SliceAt(t: string, j: nat, w: string) {
    j + |w| <= |t| && t[j..j + |w|] == w
  }

  /** The capture of the family pattern at `i`: ASCII letters ending in
      "aceae", read right after "family:" and its white space. */
  function FamilyAt(t: string, i: nat): (r: Option<string>)
    requires i <= |t|
    ensures r.Some? ==> EndsInAceae(r.value, |r.value|)
    ensures r.Some? ==> forall k :: 0 <= k < |r.value| ==> IsAsciiLetter(r.value[k])
    ensures r.Some? ==> AfterLabel(t, i, "family:").Some?
                        && SliceAt(t, AfterLabel(t, i, "family:").value, r.value)
  {
    match AfterLabel(t, i, "family:")
    case None => None
    case Some(j) => AceaeCapture(t, j)
  }

  /** The group `([A-Za-z]+aceae)` read at `j`: the longest prefix of the
      letter run at `j` that ends in "aceae". */
  function AceaeCapture(t: string, j: nat): (r: Option<string>)
    requires j <= |t|
    ensures r.Some? ==> EndsInAceae(r.value, |r.value|)
    ensures r.Some? ==> forall k :: 0 <= k < |r.value| ==> IsAsciiLetter(r.value[k])
    ensures r.Some? ==> SliceAt(t, j, r.value)
  {
    var n := Run(t, j, IsAsciiLetter);
    match LongestAceae(t[j..j + n], n)
    case None => None
    case Some(k) =>
      var w := t[j..j + n];
      AceaePrefix(t, j, n, k);
      assert w[..k] == t[j..j + k];
      Some(w[..k])
  }


  /** Helper for FamilyAt: the prefix `t[j..j + k]` of the letter run keeps
      its letters and its "aceae" ending. */
  lemma AceaePrefix(t: string, j: nat, n: nat, k: nat)
    requires j + n <= |t| && k <= n
    requires forall m :: j <= m < j + n ==> IsAsciiLetter(t[m])
    requires EndsInAceae(t[j..j + n], k)
    ensures EndsInAceae(t[j..j + k], k)
    ensures forall m :: j <= m < j + k ==> IsAsciiLetter(t[m])
  {
    var a, b := t[j..j + n][k - 5..k], t[j..j + k][k - 5..k];
    assert |a| == |b| == 5;
    forall m | 0 <= m < 5 ensures a[m] == b[m] {
      assert a[m] == t[j + k - 5 + m] == b[m];
    }
    assert a == b;
  }

  /** The leftmost family capture at or after `i`. */
  function FamilyFrom(t: string, i: nat): (r: Option<string>)
    requires i <= |t|
    ensures r.Some? ==> exists m :: i <= m <= |t| && FamilyAt(t, m) == r
    ensures r.None? ==> forall m :: i <= m <= |t| ==> FamilyAt(t, m).None?
    decreases |t| - i
  {
    var here := FamilyAt(t, i);
    if here.Some? then here
    else if i == |t| then None
    else
      var r := FamilyFrom(t, i + 1);
      assert here.None?;
      r
  }

  function FamilyMatch(t: string): Option<string> { FamilyFrom(t, 0) }

  /** The family pattern is found at `i` exactly when "family:" and its white
      space are followed by a letter run with a prefix ending in "aceae", and
      the capture is the longest such prefix. */
  lemma FamilyAtComplete(t: string, i: nat)
    requires i <= |t|
    ensures AfterLabel(t, i, "family:").None? ==> FamilyAt(t, i).None?
    ensures AfterLabel(t, i, "family:").Some? ==>
              var j := AfterLabel(t, i, "family:").value;
              var w := t[j..j + Run(t, j, IsAsciiLetter)];
              && (FamilyAt(t, i).None? <==> forall m :: 0 <= m <= |w| ==> !EndsInAceae(w, m))
              && (FamilyAt(t, i).Some? ==>
                    |FamilyAt(t, i).value| <= |w| && FamilyAt(t, i).value == w[..|FamilyAt(t, i).value|]
                    && forall m :: |FamilyAt(t, i).value| < m <= |w| ==> !EndsInAceae(w, m))
  {
    var a := AfterLabel(t, i, "family:");
    if a.Some? {
      AceaeCaptureComplete(t, a.value);
    }
  }

  /** Helper for FamilyAtComplete: the capture at `j` exists exactly when a
      prefix of the letter run ends in "aceae", and it is the longest one. */
  lemma AceaeCaptureComplete(t: string, j: nat)
    requires j <= |t|
    ensures var w := t[j..j + Run(t, j, IsAsciiLetter)];
            && (AceaeCapture(t, j).None? <==> forall m :: 0 <= m <= |w| ==> !EndsInAceae(w, m))
            && (AceaeCapture(t, j).Some? ==>
                  |AceaeCapture(t, j).value| <= |w| && AceaeCapture(t, j).value == w[..|AceaeCapture(t, j).value|]
                  && forall m :: |AceaeCapture(t, j).value| < m <= |w| ==> !EndsInAceae(w, m))
  {
  }

  /** No family capture starts at a position in `[i, m)`. */
  ghost predicate NoFamilyBetween(t: string, i: nat, m: nat)
    requires i <= m <= |t|
    decreases m - i
  {
    i == m || (FamilyAt(t, i).None? && NoFamilyBetween(t, i + 1, m))
  }

  /** NoFamilyBetween holds when no position in `[i, m)` has a capture. */
  lemma {:induction false} NoFamilyBetweenIntro(t: string, i: nat, m: nat)
    requires i <= m <= |t|
    requires forall k :: i <= k < m ==> FamilyAt(t, k).None?
    ensures NoFamilyBetween(t, i, m)
    decreases m - i
  {
    if i < m {
      NoFamilyBetweenIntro(t, i + 1, m);
    }
  }

  /** `String.match` returns the leftmost match: a family capture at `m` with
      none before it, from `i` on, is the one found. */
  lemma {:induction false} FamilyFromIsLeftmost(t: string, i: nat, m: nat)
    requires i <= m <= |t|
    requires FamilyAt(t, m).Some?
    requires forall k :: i <= k < m ==> FamilyAt(t, k).None?
    ensures FamilyFrom(t, i) == FamilyAt(t, m)
  {
    NoFamilyBetweenIntro(t, i, m);
    FamilyFromSkips(t, i, m);
    FamilyFromHere(t, m);
  }

  /** Helper for FamilyFromIsLeftmost: the search passes over positions without
      a capture, by induction on `m - i`. */
  lemma {:induction false} FamilyFromSkips(t: string, i: nat, m: nat)
    requires i <= m <= |t|
    requires NoFamilyBetween(t, i, m)
    ensures FamilyFrom(t, i) == FamilyFrom(t, m)
    decreases m - i
  {
    if i < m {
      FamilyFromSkips(t, i + 1, m);
      FamilyFromStep(t, i);
    }
  }

  /** Helper for FamilyFromIsLeftmost: a position without a capture is passed over. */
  lemma FamilyFromStep(t: string, i: nat)
    requires i < |t| && FamilyAt(t, i).None?
    ensures FamilyFrom(t, i) == FamilyFrom(t, i + 1)
  {
  }

  /** Helper for FamilyFromIsLeftmost: a capture at `i` is the one found. */
  lemma FamilyFromHere(t: string, i: nat)
    requires i <= |t| && FamilyAt(t, i).Some?
    ensures FamilyFrom(t, i) == FamilyAt(t, i)
  {
  }

  /** The capture of the genus pattern at `i`: the whole run of ASCII letters
      right after "genus:" and its white space. */
  function GenusAt(t: string, i: nat): (r: Option<string>)
    requires i <= |t|
    ensures r.Some? ==> |r.value| >= 1 && forall k :: 0 <= k < |r.value| ==> IsAsciiLetter(r.value[k])
    ensures r.Some? ==> AfterLabel(t, i, "genus:").Some?
                        && SliceAt(t, AfterLabel(t, i, "genus:").value, r.value)
    ensures r.Some? ==> var e := AfterLabel(t, i, "genus:").value + |r.value|;
                        e == |t| || !IsAsciiLetter(t[e])
  {
    match AfterLabel(t, i, "genus:")
    case None => None
    case Some(j) =>
      var n := Run(t, j, IsAsciiLetter);
      if n >= 1 then Some(t[j..j + n]) else None
  }

  /** The leftmost genus capture at or after `i`. */
  function GenusFrom(t: string, i: nat): (r: Option<string>)
    requires i <= |t|
    ensures r.Some? ==> exists m :: i <= m <= |t| && GenusAt(t, m) == r
    ensures r.None? ==> forall m :: i <= m <= |t| ==> GenusAt(t, m).None?
    decreases |t| - i
  {
    var here := GenusAt(t, i);
    if here.Some? then here
    else if i == |t| then None
    else
      var r := GenusFrom(t, i + 1);
      assert here.None?;
      r
  }

  function GenusMatch(t: string): Option<string> { GenusFrom(t, 0) }

  /** The genus pattern is found at `i` exactly when "genus:" and its white
      space are followed by at least one letter. */
  lemma GenusAtComplete(t: string, i: nat)
    requires i <= |t|
    ensures AfterLabel(t, i, "genus:").None? ==> GenusAt(t, i).None?
    ensures AfterLabel(t, i, "genus:").Some? ==>
              var j := AfterLabel(t, i, "genus:").value;
              (GenusAt(t, i).None? <==> j == |t| || !IsAsciiLetter(t[j]))
  {
  }

  /** No genus capture starts at a position in `[i, m)`. */
  ghost predicate NoGenusBetween(t: string, i: nat, m: nat)
    requires i <= m <= |t|
    decreases m - i
  {
    i == m || (GenusAt(t, i).None? && NoGenusBetween(t, i + 1, m))
  }

  /** NoGenusBetween holds when no position in `[i, m)` has a capture. */
  lemma {:induction false} NoGenusBetweenIntro(t: string, i: nat, m: nat)
    requires i <= m <= |t|
    requires forall k :: i <= k < m ==> GenusAt(t, k).None?
    ensures NoGenusBetween(t, i, m)
    decreases m - i
  {
    if i < m {
      NoGenusBetweenIntro(t, i + 1, m);
    }
  }

  /** `String.match` returns the leftmost match: a genus capture at `m` with
      none before it, from `i` on, is the one found. */
  lemma {:induction false} GenusFromIsLeftmost(t: string, i: nat, m: nat)
    requires i <= m <= |t|
    requires GenusAt(t, m).Some?
    requires forall k :: i <= k < m ==> GenusAt(t, k).None?
    ensures GenusFrom(t, i) == GenusAt(t, m)
  {
    NoGenusBetweenIntro(t, i, m);
    GenusFromSkips(t, i, m);
    GenusFromHere(t, m);
  }

  /** Helper for GenusFromIsLeftmost: the search passes over positions without
      a capture, by induction on `m - i`. */
  lemma {:induction false} GenusFromSkips(t: string, i: nat, m: nat)
    requires i <= m <= |t|
    requires NoGenusBetween(t, i, m)
    ensures GenusFrom(t, i) == GenusFrom(t, m)
    decreases m - i
  {
    if i < m {
      GenusFromSkips(t, i + 1, m);
      GenusFromStep(t, i);
    }
  }

  /** Helper for GenusFromIsLeftmost: a position without a capture is passed over. */
  lemma GenusFromStep(t: string, i: nat)
    requires i < |t| && GenusAt(t, i).None?
    ensures GenusFrom(t, i) == GenusFrom(t, i + 1)
  {
  }

  /** Helper for GenusFromIsLeftmost: a capture at `i` is the one found. */
  lemma GenusFromHere(t: string, i: nat)
    requires i <= |t| && GenusAt(t, i).Some?
    ensures GenusFrom(t, i) == GenusAt(t, i)
  {
  }

  // ---------------------------------------------------------------------
  // The per-page loop, specified on prefixes of the page list

  /** The text the patterns run on: snippet and name, lower-cased. */
  function PageText(p: WebPage): string { Lower(p.snippet + " " + p.name) }

  /** A page long enough to supply the description. */
  predicate IsLong(p: WebPage) { |PageText(p)| > 100 }

  /** A field still unset in the JavaScript sense (`undefined` or ""). */
  predicate Unset(o: Option<string>) { o.None? || o == Some("") }

  function FirstScientific(ps: seq<WebPage>): Option<string> {
    if ps == [] then None
    else
      var prev := FirstScientific(ps[..|ps| - 1]);
      var m := ScientificMatch(PageText(ps[|ps| - 1]));
      if m.Some? && Unset(prev) then m else prev
  }

  /** The match of the last page on which `m` matches: a later match overwrites. */
  function LastMatch(ps: seq<WebPage>, m: string -> Option<string>): Option<string> {
    if ps == [] then None
    else if m(PageText(ps[|ps| - 1])).Some? then m(PageText(ps[|ps| - 1]))
    else LastMatch(ps[..|ps| - 1], m)
  }

  function Description(ps: seq<WebPage>): Option<string> {
    if ps == [] then None
    else
      var prev := Description(ps[..|ps| - 1]);
      if Unset(prev) && IsLong(ps[|ps| - 1]) then Some(ps[|ps| - 1].snippet) else prev
  }

  /** The result after the loop over `ps`. */
  function ScanPages(ps: seq<WebPage>): BingSearchResult {
    BingSearchResult(
      FirstScientific(ps),
      Description(ps),
      if LastMatch(ps, FamilyMatch).Some? || LastMatch(ps, GenusMatch).Some?
      then Some(BingTaxonomy(LastMatch(ps, FamilyMatch), LastMatch(ps, GenusMatch), None))
      else None,
      None,
      None)
  }

  /** The scientific-name pattern runs on lower-cased text, so it never sets the field. */
  lemma {:induction false} ScientificNeverSet(ps: seq<WebPage>)
    ensures FirstScientific(ps) == None
  {
    if ps != [] {
      ScientificNeverSet(ps[..|ps| - 1]);
      var t := PageText(ps[|ps| - 1]);
      LowerHasNoUpper(ps[|ps| - 1].snippet + " " + ps[|ps| - 1].name);
      NoCapitalNoMatch(t, 0);
    }
  }

  /** `LastMatch` is the match of some page after which no page matches. */
  lemma {:induction false} LastMatchIff(ps: seq<WebPage>, m: string -> Option<string>, v: string)
    ensures LastMatch(ps, m) == Some(v) <==>
              exists k :: 0 <= k < |ps| && m(PageText(ps[k])) == Some(v)
                && forall l :: k < l < |ps| ==> m(PageText(ps[l])).None?
  {
    if ps != [] {
      var n := |ps| - 1;
      var front := ps[..n];
      LastMatchIff(front, m, v);
      assert forall k :: 0 <= k < n ==> front[k] == ps[k];
      if m(PageText(ps[n])).Some? {
        if m(PageText(ps[n])) != Some(v) {
          forall k | 0 <= k < n && m(PageText(ps[k])) == Some(v)
            ensures exists l :: k < l < |ps| && m(PageText(ps[l])).Some?
          {
            assert k < n;
          }
        }
      }
    }
  }

  /** `LastMatch` is absent exactly when no page matches. */
  lemma {:induction false} LastMatchNone(ps: seq<WebPage>, m: string -> Option<string>)
    ensures LastMatch(ps, m).None? <==> forall k :: 0 <= k < |ps| ==> m(PageText(ps[k])).None?
  {
    if ps != [] {
      var n := |ps| - 1;
      LastMatchNone(ps[..n], m);
      assert forall k :: 0 <= k < n ==> ps[..n][k] == ps[k];
    }
  }

  /** `description` is unset exactly when no page is long enough. */
  lemma {:induction false} DescriptionNone(ps: seq<WebPage>)
    ensures Description(ps).None? <==> forall k :: 0 <= k < |ps| ==> !IsLong(ps[k])
  {
    if ps != [] {
      var n := |ps| - 1;
      DescriptionNone(ps[..n]);
      assert forall k :: 0 <= k < n ==> ps[..n][k] == ps[k];
    }
  }

  /** While every long page so far has an empty snippet, the field stays falsy. */
  lemma {:induction false} DescriptionStaysUnset(ps: seq<WebPage>)
    requires forall k :: 0 <= k < |ps| && IsLong(ps[k]) ==> ps[k].snippet == ""
    ensures Unset(Description(ps))
  {
    if ps != [] {
      var n := |ps| - 1;
      assert forall k :: 0 <= k < n ==> ps[..n][k] == ps[k];
      DescriptionStaysUnset(ps[..n]);
    }
  }

  /** Page `k` is the first long page with a non-empty snippet. */
  ghost predicate FirstFilled(ps: seq<WebPage>, k: int) {
    0 <= k < |ps| && IsLong(ps[k]) && ps[k].snippet != ""
    && forall m :: 0 <= m < k && IsLong(ps[m]) ==> ps[m].snippet == ""
  }

  /** The description is the snippet of the first long page with a non-empty
      snippet; later pages never overwrite it. */
  lemma {:induction false} DescriptionIsFirstFilled(ps: seq<WebPage>, k: int)
    requires FirstFilled(ps, k)
    ensures Description(ps) == Some(ps[k].snippet)
  {
    var n := |ps| - 1;
    assert forall j :: 0 <= j < n ==> ps[..n][j] == ps[j];
    if k == n {
      DescriptionStaysUnset(ps[..n]);
    } else {
      assert FirstFilled(ps[..n], k);
      DescriptionIsFirstFilled(ps[..n], k);
    }
  }

  // ---------------------------------------------------------------------
  // Quoted common names: /"([^"]+)"|'([^']+)'/g

  predicate IsQuote(c: char) { c == '"' || c == '\'' }

  /** The first index at or after `j` holding `c`. */
  function NextIndex(t: string, c: char, j: nat): (r: Option<nat>)
    requires j <= |t|
    ensures r.Some? ==> j <= r.value < |t| && t[r.value] == c
    ensures r.Some? ==> forall k :: j <= k < r.value ==> t[k] != c
    ensures r.None? ==> forall k :: j <= k < |t| ==> t[k] != c
    decreases |t| - j
  {
    if j == |t| then None
    else if t[j] == c then Some(j)
    else NextIndex(t, c, j + 1)
  }

  /** The global matches from `p` on, each with its quotes. */
  function QuotedFrom(t: string, p: nat): seq<string>
    requires p <= |t|
    decreases |t| - p
  {
    if p == |t| then []
    else if IsQuote(t[p]) then
      match NextIndex(t, t[p], p + 1)
      case Some(j) =>
        if j > p + 1 then [t[p..j + 1]] + QuotedFrom(t, j + 1)
        else QuotedFrom(t, p + 1)
      case None => QuotedFrom(t, p + 1)
    else QuotedFrom(t, p + 1)
  }

  /** A segment `t[i..j+1]` that one alternative of the pattern matches. */
  ghost predicate QuotedSegment(t: string, i: int, j: int) {
    0 <= i && i + 1 < j < |t| && IsQuote(t[i]) && t[j] == t[i]
    && forall k :: i < k < j ==> t[k] != t[i]
  }

  /** The scan finds nothing exactly when no quoted segment starts at or after `p`. */
  lemma {:induction false} QuotedFromEmptyIff(t: string, p: nat)
    requires p <= |t|
    ensures QuotedFrom(t, p) == [] <==> !exists i, j :: p <= i && QuotedSegment(t, i, j)
    decreases |t| - p
  {
    if p < |t| {
      QuotedFromEmptyIff(t, p + 1);
      if IsQuote(t[p]) {
        var n := NextIndex(t, t[p], p + 1);
        if n.Some? && n.value > p + 1 {
          assert QuotedSegment(t, p, n.value);
        } else {
          forall j ensures !QuotedSegment(t, p, j) {
            if n.Some? {
              assert n.value == p + 1;
            }
          }
        }
      }
    }
  }

  /** Where a match of the scan starts and where its closing quote is. */
  datatype Span = Span(start: nat, stop: nat)

  /** The spans of `QuotedFrom(t, p)`, found by the same scan. */
  ghost function QuotedSpans(t: string, p: nat): seq<Span>
    requires p <= |t|
    decreases |t| - p
  {
    if p == |t| then []
    else if IsQuote(t[p]) then
      match NextIndex(t, t[p], p + 1)
      case Some(j) =>
        if j > p + 1 then [Span(p, j)] + QuotedSpans(t, j + 1)
        else QuotedSpans(t, p + 1)
      case None => QuotedSpans(t, p + 1)
    else QuotedSpans(t, p + 1)
  }

  /** `ms` are the texts of the quoted segments `sp` of `t`, each starting at
      or after `p`, in order and without overlap. */
  ghost predicate SpansMatch(t: string, p: nat, sp: seq<Span>, ms: seq<string>) {
    |sp| == |ms|
    && (forall k :: 0 <= k < |sp| ==>
          p <= sp[k].start && QuotedSegment(t, sp[k].start, sp[k].stop)
          && ms[k] == t[sp[k].start..sp[k].stop + 1])
    && (forall k :: 0 < k < |sp| ==> sp[k - 1].stop < sp[k].start)
  }

  /** Every global match is a quoted segment of `t[p..]`, and the matches
      follow each other from left to right without overlapping. */
  lemma {:induction false} QuotedFromSegments(t: string, p: nat)
    requires p <= |t|
    ensures SpansMatch(t, p, QuotedSpans(t, p), QuotedFrom(t, p))
    decreases |t| - p
  {
    if p < |t| {
      var n := if IsQuote(t[p]) then NextIndex(t, t[p], p + 1) else None;
      if n.Some? && n.value > p + 1 {
        QuotedFromSegments(t, n.value + 1);
        SegmentsTake(t, p, n.value);
      } else {
        QuotedFromSegments(t, p + 1);
        SegmentsSkip(t, p);
      }
    }
  }

  /** Helper for QuotedFromSegments: the step that takes a match. */
  lemma SegmentsTake(t: string, p: nat, j: nat)
    requires p < |t| && IsQuote(t[p]) && NextIndex(t, t[p], p + 1) == Some(j) && j > p + 1
    requires SpansMatch(t, j + 1, QuotedSpans(t, j + 1), QuotedFrom(t, j + 1))
    ensures SpansMatch(t, p, QuotedSpans(t, p), QuotedFrom(t, p))
  {
    QuotedFromTake(t, p, j);
    assert QuotedSpans(t, p) == [Span(p, j)] + QuotedSpans(t, j + 1);
    assert QuotedSegment(t, p, j);
    SpansCons(t, p, j, QuotedSpans(t, j + 1), QuotedFrom(t, j + 1));
  }

  /** Helper for QuotedFromSegments: a step that takes nothing. */
  lemma SegmentsSkip(t: string, p: nat)
    requires p < |t|
    requires !IsQuote(t[p]) || NextIndex(t, t[p], p + 1).None? || NextIndex(t, t[p], p + 1) == Some(p + 1)
    requires SpansMatch(t, p + 1, QuotedSpans(t, p + 1), QuotedFrom(t, p + 1))
    ensures SpansMatch(t, p, QuotedSpans(t, p), QuotedFrom(t, p))
  {
    assert QuotedSpans(t, p) == QuotedSpans(t, p + 1);
    assert QuotedFrom(t, p) == QuotedFrom(t, p + 1);
  }

  /** Helper for QuotedFromSegments: a segment taken in front of the later ones. */
  lemma SpansCons(t: string, p: nat, j: nat, sp: seq<Span>, ms: seq<string>)
    requires QuotedSegment(t, p, j) && SpansMatch(t, j + 1, sp, ms)
    ensures SpansMatch(t, p, [Span(p, j)] + sp, [t[p..j + 1]] + ms)
  {
    var sp', ms' := [Span(p, j)] + sp, [t[p..j + 1]] + ms;
    ConsItems(t, p, j, sp, ms, sp', ms');
    ConsOrder(p, j, sp, sp');
  }

  /** Helper for SpansCons: every span of the longer list is a segment with its text. */
  lemma ConsItems(t: string, p: nat, j: nat, sp: seq<Span>, ms: seq<string>, sp': seq<Span>, ms': seq<string>)
    requires QuotedSegment(t, p, j) && SpansMatch(t, j + 1, sp, ms)
    requires sp' == [Span(p, j)] + sp && ms' == [t[p..j + 1]] + ms
    ensures forall k :: 0 <= k < |sp'| ==>
              p <= sp'[k].start && QuotedSegment(t, sp'[k].start, sp'[k].stop)
              && ms'[k] == t[sp'[k].start..sp'[k].stop + 1]
  {
    forall k | 0 < k < |sp'|
      ensures p <= sp'[k].start && QuotedSegment(t, sp'[k].start, sp'[k].stop)
              && ms'[k] == t[sp'[k].start..sp'[k].stop + 1]
    {
      assert sp'[k] == sp[k - 1] && ms'[k] == ms[k - 1];
    }
  }

  /** Helper for SpansCons: the longer list is still ordered. */
  lemma ConsOrder(p: nat, j: nat, sp: seq<Span>, sp': seq<Span>)
    requires forall k :: 0 <= k < |sp| ==> j + 1 <= sp[k].start
    requires forall k :: 0 < k < |sp| ==> sp[k - 1].stop < sp[k].start
    requires sp' == [Span(p, j)] + sp
    ensures forall k :: 0 < k < |sp'| ==> sp'[k - 1].stop < sp'[k].start
  {
    forall k | 0 < k < |sp'| ensures sp'[k - 1].stop < sp'[k].start {
      assert sp'[k] == sp[k - 1];
      if k > 1 {
        assert sp'[k - 1] == sp[k - 2];
      }
    }
  }

  /** Some span of `sp` covers position `i`. */
  ghost predicate Covers(sp: seq<Span>, i: nat) {
    exists k :: 0 <= k < |sp| && sp[k].start <= i <= sp[k].stop
  }

  /** No quoted segment is missed: every one starting at or after `p` lies
      inside a match of the scan (its own, or an earlier one that overlaps it). */
  lemma {:induction false} QuotedFromComplete(t: string, p: nat, i: nat, j: nat)
    requires p <= i && QuotedSegment(t, i, j)
    ensures Covers(QuotedSpans(t, p), i)
    decreases |t| - p
  {
    var n := if IsQuote(t[p]) then NextIndex(t, t[p], p + 1) else None;
    if p == i {
      NextIndexOfSegment(t, i, j);
      CoverFirst(t, p, j, i);
    } else if n.Some? && n.value > p + 1 {
      if i <= n.value {
        CoverFirst(t, p, n.value, i);
      } else {
        QuotedFromComplete(t, n.value + 1, i, j);
        CoverTake(t, p, n.value, i);
      }
    } else {
      QuotedFromComplete(t, p + 1, i, j);
      CoverSkip(t, p, i);
    }
  }

  /** Helper for QuotedFromComplete: a segment's closing quote is the next one. */
  lemma NextIndexOfSegment(t: string, i: nat, j: nat)
    requires QuotedSegment(t, i, j)
    ensures NextIndex(t, t[i], i + 1) == Some(j)
  {
  }

  /** Helper for QuotedFromComplete: the match taken at `p` covers its own span. */
  lemma CoverFirst(t: string, p: nat, j: nat, i: nat)
    requires p < |t| && IsQuote(t[p]) && NextIndex(t, t[p], p + 1) == Some(j) && j > p + 1
    requires p <= i <= j
    ensures Covers(QuotedSpans(t, p), i)
  {
    SpansTake(t, p, j);
    var sp := QuotedSpans(t, p);
    assert sp[0] == Span(p, j);
    assert 0 < |sp| && sp[0].start <= i <= sp[0].stop;
  }

  /** The step of `QuotedSpans` that takes a match. */
  lemma SpansTake(t: string, p: nat, j: nat)
    requires p < |t| && IsQuote(t[p]) && NextIndex(t, t[p], p + 1) == Some(j) && j > p + 1
    ensures QuotedSpans(t, p) == [Span(p, j)] + QuotedSpans(t, j + 1)
  {
  }

  /** Helper for QuotedFromComplete: a cover after the match taken at `p` is kept. */
  lemma CoverTake(t: string, p: nat, j: nat, i: nat)
    requires p < |t| && IsQuote(t[p]) && NextIndex(t, t[p], p + 1) == Some(j) && j > p + 1
    requires Covers(QuotedSpans(t, j + 1), i)
    ensures Covers(QuotedSpans(t, p), i)
  {
    SpansTake(t, p, j);
    CoversCons(Span(p, j), QuotedSpans(t, j + 1), i);
  }

  /** A cover survives a span put in front. */
  lemma CoversCons(s: Span, sp: seq<Span>, i: nat)
    requires Covers(sp, i)
    ensures Covers([s] + sp, i)
  {
    var k :| 0 <= k < |sp| && sp[k].start <= i <= sp[k].stop;
    assert ([s] + sp)[k + 1] == sp[k];
  }

  /** Helper for QuotedFromComplete: a step that takes nothing keeps the cover. */
  lemma CoverSkip(t: string, p: nat, i: nat)
    requires p < |t|
    requires !IsQuote(t[p]) || NextIndex(t, t[p], p + 1).None? || NextIndex(t, t[p], p + 1) == Some(p + 1)
    requires Covers(QuotedSpans(t, p + 1), i)
    ensures Covers(QuotedSpans(t, p), i)
  {
    assert QuotedSpans(t, p) == QuotedSpans(t, p + 1);
  }

  /** `name.replace(/['"]/g, '')` */
  function StripQuotes(s: string): (r: string)
    ensures forall k :: 0 <= k < |r| ==> !IsQuote(r[k])
    ensures |r| <= |s|
  {
    if s == [] then []
    else (if IsQuote(s[0]) then [] else [s[0]]) + StripQuotes(s[1..])
  }

  /** The quote-free matches of length more than one, in order. */
  function CleanNames(ms: seq<string>): (r: seq<string>)
    ensures forall n :: n in r ==> |n| > 1 && forall k :: 0 <= k < |n| ==> !IsQuote(n[k])
    ensures |r| <= |ms|
  {
    if ms == [] then []
    else
      var n := StripQuotes(ms[0]);
      (if |n| > 1 then [n] else []) + CleanNames(ms[1..])
  }

  /** One match is kept, quote-free, exactly when more than one character remains. */
  lemma CleanNamesOne(m: string)
    ensures CleanNames([m]) == if |StripQuotes(m)| > 1 then [StripQuotes(m)] else []
  {
    assert [m][1..] == [];
  }

  /** Cleaning works match by match: it keeps the order and drops nothing else. */
  lemma {:induction false} CleanNamesAppend(a: seq<string>, b: seq<string>)
    ensures CleanNames(a + b) == CleanNames(a) + CleanNames(b)
    decreases |a|
  {
    if a != [] {
      assert (a + b)[0] == a[0];
      assert (a + b)[1..] == a[1..] + b;
      CleanNamesAppend(a[1..], b);
    } else {
      assert a + b == b;
    }
  }

  function Snippets(ps: seq<WebPage>): seq<string> {
    seq(|ps|, i requires 0 <= i < |ps| => ps[i].snippet)
  }

  /** The snippets joined with spaces: the text the names are read from. */
  function NamesText(ps: seq<WebPage>): string { Join(" ", Snippets(ps)) }

  /** `commonNames`: absent when nothing is quoted, else the cleaned matches. */
  function CommonNames(ps: seq<WebPage>): Option<seq<string>> {
    var ms := QuotedFrom(NamesText(ps), 0);
    if ms == [] then None else Some(CleanNames(ms))
  }

  /** `commonNames` is absent exactly when the joined snippets hold no quoted segment. */
  lemma CommonNamesAbsentIff(ps: seq<WebPage>)
    ensures CommonNames(ps).None? <==> !exists i, j :: QuotedSegment(NamesText(ps), i, j)
  {
    QuotedFromEmptyIff(NamesText(ps), 0);
  }

  /** Characters without quotes are skipped by the scan. */
  lemma {:induction false} SkipUnquoted(t: string, p: nat, q: nat)
    requires p <= q <= |t|
    requires forall k :: p <= k < q ==> !IsQuote(t[k])
    ensures QuotedFrom(t, p) == QuotedFrom(t, q)
    decreases q - p
  {
    if p < q {
      SkipUnquoted(t, p + 1, q);
    }
  }

  /** Looking for the closing quote never looks back. */
  lemma {:induction false} NextIndexShift(a: string, b: string, c: char, j: nat)
    requires j <= |b|
    ensures NextIndex(b, c, j).Some? ==> NextIndex(a + b, c, |a| + j) == Some(|a| + NextIndex(b, c, j).value)
    ensures NextIndex(b, c, j).None? ==> NextIndex(a + b, c, |a| + j).None?
    decreases |b| - j
  {
    if j < |b| {
      assert (a + b)[|a| + j] == b[j];
      NextIndexShift(a, b, c, j + 1);
    }
  }

  /** A match of the scan taken at `p` in `b` is taken at `|a| + p` in `a + b`. */
  lemma ShiftTake(a: string, b: string, p: nat, j: nat)
    requires p < |b| && IsQuote(b[p]) && NextIndex(b, b[p], p + 1) == Some(j) && j > p + 1
    requires QuotedFrom(a + b, |a| + j + 1) == QuotedFrom(b, j + 1)
    ensures QuotedFrom(a + b, |a| + p) == QuotedFrom(b, p)
  {
    var t := a + b;
    var x := t[|a| + p..|a| + j + 1];
    TakeShifted(a, b, p, j);
    assert x == b[p..j + 1] by {
      SliceOfAppend(a, b, p, j);
    }
    assert QuotedFrom(b, p) == [b[p..j + 1]] + QuotedFrom(b, j + 1) by {
      QuotedFromTake(b, p, j);
    }
    EqualByParts(QuotedFrom(t, |a| + p), x, QuotedFrom(t, |a| + j + 1),
                 QuotedFrom(b, p), b[p..j + 1], QuotedFrom(b, j + 1));
  }

  /** The match taken at `p` in `b` is taken at `|a| + p` in `a + b`. */
  lemma TakeShifted(a: string, b: string, p: nat, j: nat)
    requires p < |b| && IsQuote(b[p]) && NextIndex(b, b[p], p + 1) == Some(j) && j > p + 1
    ensures QuotedFrom(a + b, |a| + p) == [(a + b)[|a| + p..|a| + j + 1]] + QuotedFrom(a + b, |a| + j + 1)
  {
    assert (a + b)[|a| + p] == b[p];
    NextIndexShift(a, b, b[p], p + 1);
    QuotedFromTake(a + b, |a| + p, |a| + j);
  }

  /** Two lists with equal heads and equal tails are equal. */
  lemma EqualByParts(l1: seq<string>, x1: string, r1: seq<string>, l2: seq<string>, x2: string, r2: seq<string>)
    requires l1 == [x1] + r1 && l2 == [x2] + r2 && x1 == x2 && r1 == r2
    ensures l1 == l2
  {
  }

  /** One step of the scan that takes a match. */
  lemma QuotedFromTake(t: string, p: nat, j: nat)
    requires p < |t| && IsQuote(t[p]) && NextIndex(t, t[p], p + 1) == Some(j) && j > p + 1
    ensures QuotedFrom(t, p) == [t[p..j + 1]] + QuotedFrom(t, j + 1)
  {
  }

  /** A slice of the second part of a concatenation. */
  lemma SliceOfAppend(a: string, b: string, i: nat, k: nat)
    requires i <= k < |b|
    ensures (a + b)[|a| + i..|a| + k + 1] == b[i..k + 1]
  {
    var s1, s2 := (a + b)[|a| + i..|a| + k + 1], b[i..k + 1];
    forall m | 0 <= m < |s1| ensures s1[m] == s2[m] {
      assert s1[m] == (a + b)[|a| + i + m];
    }
  }

  /** A position the scan steps over in `b` is stepped over in `a + b`. */
  lemma ShiftSkip(a: string, b: string, p: nat)
    requires p < |b|
    requires !IsQuote(b[p]) || NextIndex(b, b[p], p + 1).None? || NextIndex(b, b[p], p + 1) == Some(p + 1)
    requires QuotedFrom(a + b, |a| + p + 1) == QuotedFrom(b, p + 1)
    ensures QuotedFrom(a + b, |a| + p) == QuotedFrom(b, p)
  {
    var t := a + b;
    assert t[|a| + p] == b[p];
    if IsQuote(b[p]) {
      NextIndexShift(a, b, b[p], p + 1);
    }
  }

  /** The scan of a suffix does not depend on what precedes it. */
  lemma {:induction false} ScanShift(a: string, b: string, p: nat)
    requires p <= |b|
    ensures QuotedFrom(a + b, |a| + p) == QuotedFrom(b, p)
    decreases |b| - p
  {
    if p < |b| {
      var n := if IsQuote(b[p]) then NextIndex(b, b[p], p + 1) else None;
      if n.Some? && n.value > p + 1 {
        ScanShift(a, b, n.value + 1);
        ShiftTake(a, b, p, n.value);
      } else {
        ScanShift(a, b, p + 1);
        ShiftSkip(a, b, p);
      }
    }
  }

  /** An unquoted prefix contributes no match. */
  lemma SkipPlain(a: string, b: string)
    requires forall k :: 0 <= k < |a| ==> !IsQuote(a[k])
    ensures QuotedFrom(a + b, 0) == QuotedFrom(b, 0)
  {
    SkipUnquoted(a + b, 0, |a|);
    ScanShift(a, b, 0);
  }

  /** A quoted segment at the front is one whole match. */
  lemma TakeQuoted(q: char, body: string, c: string)
    requires IsQuote(q) && |body| >= 1 && q !in body
    ensures QuotedFrom([q] + body + [q] + c, 0) == [[q] + body + [q]] + QuotedFrom(c, 0)
  {
    var seg := [q] + body + [q];
    var t := seg + c;
    assert t == [q] + body + [q] + c;
    assert forall k :: 1 <= k <= |body| ==> t[k] == body[k - 1];
    assert t[|body| + 1] == q;
    assert NextIndex(t, q, 1) == Some(|body| + 1);
    assert t[0..|body| + 2] == seg;
    ScanShift(seg, c, 0);
  }

  lemma {:induction false} StripQuotesAppend(a: string, b: string)
    ensures StripQuotes(a + b) == StripQuotes(a) + StripQuotes(b)
  {
    if a != [] {
      var h := if IsQuote(a[0]) then [] else [a[0]];
      assert (a + b)[0] == a[0];
      assert (a + b)[1..] == a[1..] + b;
      StripQuotesAppend(a[1..], b);
      assert StripQuotes(a + b) == h + StripQuotes(a[1..] + b);
      assert StripQuotes(a) == h + StripQuotes(a[1..]);
    } else {
      assert a + b == b;
    }
  }

  lemma {:induction false} StripQuotesPlain(s: string)
    requires forall k :: 0 <= k < |s| ==> !IsQuote(s[k])
    ensures StripQuotes(s) == s
  {
    if s != [] {
      StripQuotesPlain(s[1..]);
    }
  }

  /** Removing the quotes of a quoted segment gives back its body. */
  lemma StripQuotedSegment(q: char, body: string)
    requires IsQuote(q) && QuoteFree(body)
    ensures StripQuotes([q] + body + [q]) == body
  {
    StripQuotesAppend([q] + body, [q]);
    StripQuotesAppend([q], body);
    StripQuotesPlain(body);
  }

  predicate QuoteFree(s: string) { forall k :: 0 <= k < |s| ==> !IsQuote(s[k]) }

  /** Helper for CommonNamesOfTwoQuoted: the raw matches. */
  lemma TwoQuotedMatches(pre: string, s1: string, mid: string, s2: string, post: string)
    requires |s1| >= 3 && IsQuote(s1[0]) && s1[0] == s1[|s1| - 1] && QuoteFree(s1[1..|s1| - 1])
    requires |s2| >= 3 && IsQuote(s2[0]) && s2[0] == s2[|s2| - 1] && QuoteFree(s2[1..|s2| - 1])
    requires QuoteFree(pre) && QuoteFree(mid) && QuoteFree(post)
    ensures QuotedFrom(pre + (s1 + (mid + (s2 + post))), 0) == [s1, s2]
  {
    var b1, b2 := s1[1..|s1| - 1], s2[1..|s2| - 1];
    assert s1 == [s1[0]] + b1 + [s1[0]];
    assert s2 == [s2[0]] + b2 + [s2[0]];
    SkipPlain(pre, s1 + (mid + (s2 + post)));
    TakeQuoted(s1[0], b1, mid + (s2 + post));
    SkipPlain(mid, s2 + post);
    TakeQuoted(s2[0], b2, post);
    SkipPlain(post, "");
    assert post + "" == post;
    assert QuotedFrom(post, 0) == [];
  }

  /** The names text of a single page is its snippet. */
  lemma SinglePageText(title: string, snippet: string)
    ensures NamesText([WebPage(title, snippet)]) == snippet
  {
    assert Snippets([WebPage(title, snippet)]) == [snippet];
  }

  /** Helper for CommonNamesOfTwoQuoted: cleaning two quoted names keeps both bodies. */
  lemma CleanTwoQuoted(q1: char, n1: string, q2: char, n2: string)
    requires IsQuote(q1) && IsQuote(q2) && |n1| > 1 && |n2| > 1 && QuoteFree(n1) && QuoteFree(n2)
    ensures CleanNames([[q1] + n1 + [q1], [q2] + n2 + [q2]]) == [n1, n2]
  {
    var s1, s2 := [q1] + n1 + [q1], [q2] + n2 + [q2];
    StripQuotedSegment(q1, n1);
    StripQuotedSegment(q2, n2);
    assert [s1, s2][1..] == [s2];
    assert CleanNames([s2]) == [n2] + CleanNames([]);
    assert CleanNames([s1, s2]) == [n1] + CleanNames([s2]);
  }

  /** Two quoted names in quote-free text are found, in order, without their
      quotes (for instance `known as "Moon Orchid" and 'White Star Orchid'`). */
  lemma CommonNamesOfTwoQuoted(title: string, pre: string, q1: char, n1: string, mid: string,
                                q2: char, n2: string, post: string)
    requires IsQuote(q1) && IsQuote(q2) && |n1| > 1 && |n2| > 1
    requires QuoteFree(pre) && QuoteFree(n1) && QuoteFree(mid) && QuoteFree(n2) && QuoteFree(post)
    ensures CommonNames([WebPage(title, pre + [q1] + n1 + [q1] + mid + [q2] + n2 + [q2] + post)])
         == Some([n1, n2])
  {
    var s1, s2 := [q1] + n1 + [q1], [q2] + n2 + [q2];
    var text := pre + [q1] + n1 + [q1] + mid + [q2] + n2 + [q2] + post;
    SinglePageText(title, text);
    assert text == pre + (s1 + (mid + (s2 + post)));
    assert s1[1..|s1| - 1] == n1 && s2[1..|s2| - 1] == n2;
    TwoQuotedMatches(pre, s1, mid, s2, post);
    CleanTwoQuoted(q1, n1, q2, n2);
  }

  /** A quoted segment of one character is dropped, leaving a present but
      empty list (for instance `say 'a' once`). */
  lemma CommonNamesCanBeEmpty(title: string, pre: string, q: char, c: char, post: string)
    requires IsQuote(q) && !IsQuote(c) && QuoteFree(pre) && QuoteFree(post)
    ensures CommonNames([WebPage(title, pre + [q, c, q] + post)]) == Some([])
  {
    var ps := [WebPage(title, pre + [q, c, q] + post)];
    var s := [q] + [c] + [q];
    SinglePageText(title, pre + [q, c, q] + post);
    assert NamesText(ps) == pre + (s + post);
    SkipPlain(pre, s + post);
    TakeQuoted(q, [c], post);
    SkipPlain(post, "");
    assert post + "" == post;
    assert QuotedFrom(post, 0) == [];
    assert QuotedFrom(NamesText(ps), 0) == [s];
    StripQuotedSegment(q, [c]);
    assert CleanNames([s]) == [] + CleanNames([]);
  }

  // ---------------------------------------------------------------------
  // The whole extraction

  /** The value `searchPlantInfo` resolves to, given its three responses. */
  function Extract(info: Option<seq<WebPage>>, images: Option<seq<ImageHit>>, names: Option<seq<WebPage>>)
    : (r: BingSearchResult)
    ensures info.None? || images.None? || names.None? ==> r == Empty
    ensures r.taxonomy.Some? ==> r.taxonomy.value.order == None
  {
    if info.None? || images.None? || names.None? then Empty
    else
      ScanPages(info.value).(
        imageUrl := if |images.value| > 0 then Some(images.value[0].contentUrl) else None,
        commonNames := CommonNames(names.value))
  }

  /** What the resolved value means when all three requests succeed. */
  lemma ExtractMeaning(info: seq<WebPage>, images: seq<ImageHit>, names: seq<WebPage>)
    ensures Extract(Some(info), Some(images), Some(names)).scientificName == None
    ensures Extract(Some(info), Some(images), Some(names)).description.None?
        <==> forall k :: 0 <= k < |info| ==> !IsLong(info[k])
    ensures Extract(Some(info), Some(images), Some(names)).taxonomy.None?
        <==> forall k :: 0 <= k < |info| ==>
               FamilyMatch(PageText(info[k])).None? && GenusMatch(PageText(info[k])).None?
    ensures Extract(Some(info), Some(images), Some(names)).imageUrl.Some? <==> |images| > 0
    ensures |images| > 0 ==> Extract(Some(info), Some(images), Some(names)).imageUrl == Some(images[0].contentUrl)
    ensures Extract(Some(info), Some(images), Some(names)).commonNames.None?
        <==> !exists i, j :: QuotedSegment(NamesText(names), i, j)
    ensures Extract(Some(info), Some(images), Some(names)).description == Description(info)
    ensures Extract(Some(info), Some(images), Some(names)).taxonomy.Some? ==>
              Extract(Some(info), Some(images), Some(names)).taxonomy.value
              == BingTaxonomy(LastMatch(info, FamilyMatch), LastMatch(info, GenusMatch), None)
    ensures Extract(Some(info), Some(images), Some(names)).commonNames.Some? ==>
              Extract(Some(info), Some(images), Some(names)).commonNames.value
              == CleanNames(QuotedFrom(NamesText(names), 0))
  {
    ScientificNeverSet(info);
    DescriptionNone(info);
    LastMatchNone(info, FamilyMatch);
    LastMatchNone(info, GenusMatch);
    CommonNamesAbsentIff(names);
  }

  method SearchPlantInfo(
    plantName: string,
    webSearch: WebQuery -> Option<seq<WebPage>>,
    imageSearch: ImageQuery -> Option<seq<ImageHit>>)
    returns (result: BingSearchResult)
    ensures result == Extract(webSearch(InfoQuery(plantName)),
                              imageSearch(PictureQuery(plantName)),
                              webSearch(NamesQuery(plantName)))
  {
    var response := webSearch(InfoQuery(plantName));
    if response.None? {
      return Empty;
    }
    var pages := response.value;
    result := Empty;
    for i := 0 to |pages|
      invariant result.scientificName == FirstScientific(pages[..i])
      invariant result.description == Description(pages[..i])
      invariant result.taxonomy.Some? <==> LastMatch(pages[..i], FamilyMatch).Some? || LastMatch(pages[..i], GenusMatch).Some?
      invariant result.taxonomy.Some? ==> result.taxonomy.value == BingTaxonomy(LastMatch(pages[..i], FamilyMatch), LastMatch(pages[..i], GenusMatch), None)
      invariant result.commonNames == None && result.imageUrl == None
    {
      var page := pages[i];
      assert pages[..i + 1][..i] == pages[..i];
      var text := Lower(page.snippet + " " + page.name);

      var scientificMatch := ScientificMatch(text);
      if scientificMatch.Some? && Unset(result.scientificName) {
        result := result.(scientificName := scientificMatch);
      }

      var familyMatch := FamilyMatch(text);
      if familyMatch.Some? {
        var taxonomy := result.taxonomy.GetOr(BingTaxonomy(None, None, None));
        result := result.(taxonomy := Some(taxonomy.(family := familyMatch)));
      }

      var genusMatch := GenusMatch(text);
      if genusMatch.Some? {
        var taxonomy := result.taxonomy.GetOr(BingTaxonomy(None, None, None));
        result := result.(taxonomy := Some(taxonomy.(genus := genusMatch)));
      }

      if Unset(result.description) && |text| > 100 {
        result := result.(description := Some(page.snippet));
      }
    }
    assert pages[..|pages|] == pages;

    var imageResponse := imageSearch(PictureQuery(plantName));
    if imageResponse.None? {
      return Empty;
    }
    if |imageResponse.value| > 0 {
      result := result.(imageUrl := Some(imageResponse.value[0].contentUrl));
    }

    var namesResponse := webSearch(NamesQuery(plantName));
    if namesResponse.None? {
      return Empty;
    }
    var commonNamesText := Join(" ", Snippets(namesResponse.value));
    assert commonNamesText == NamesText(namesResponse.value);
    var commonNamesMatches := QuotedFrom(commonNamesText, 0);
    if commonNamesMatches != [] {
      result := result.(commonNames := Some(CleanNames(commonNamesMatches)));
    }
  }
}
