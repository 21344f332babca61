/** String helpers shared by the model: the parts of JavaScript's string API
    that the pipeline uses (`toLowerCase` on ASCII letters, `includes`,
    `join`, `split(sep)[k]`, template numbers). */
module Strings {

  predicate IsUpperAscii(c: char) { 'A' <= c <= 'Z' }

  predicate IsLowerAscii(c: char) { 'a' <= c <= 'z' }

  predicate IsAsciiLetter(c: char) { IsUpperAscii(c) || IsLowerAscii(c) }

  predicate IsDigit(c: char) { '0' <= c <= '9' }

  /** A character of the regular-expression class `\w`. */
  predicate IsWordChar(c: char) { IsAsciiLetter(c) || IsDigit(c) || c == '_' }

  function LowerChar(c: char): (d: char)
    ensures !IsUpperAscii(d)
    ensures IsUpperAscii(c) ==> IsLowerAscii(d)
    ensures !IsUpperAscii(c) ==> d == c
  {
    if IsUpperAscii(c) then (c as int + 32) as char else c
  }

  /** `toLowerCase`, restricted to the ASCII letters. */
  function Lower(s: string): (r: string)
    ensures |r| == |s|
    ensures forall i :: 0 <= i < |s| ==> r[i] == LowerChar(s[i])
  {
    seq(|s|, i requires 0 <= i < |s| => LowerChar(s[i]))
  }

  lemma LowerHasNoUpper(s: string)
    ensures forall i :: 0 <= i < |Lower(s)| ==> !IsUpperAscii(Lower(s)[i])
  {
  }

  /** Text without capitals is its own lower case. */
  lemma LowerOfLower(s: string)
    requires forall i :: 0 <= i < |s| ==> !IsUpperAscii(s[i])
    ensures Lower(s) == s
  {
  }

  lemma LowerAppend(a: string, b: string)
    ensures Lower(a + b) == Lower(a) + Lower(b)
  {
  }

  /** `s.startsWith(p)` */
  predicate IsPrefix(p: string, s: string) {
    |p| <= |s| && s[..|p|] == p
  }

  /** `s.includes(p)` */
  predicate Contains(s: string, p: string)
    decreases |s|
  {
    IsPrefix(p, s) || (|s| > 0 && Contains(s[1..], p))
  }

  /** `p` occurs in `s` at offset `i`. */
  ghost predicate OccursAt(s: string, p: string, i: int) {
    0 <= i && i + |p| <= |s| && s[i..i + |p|] == p
  }

  /** `includes` holds exactly when the pattern occurs at some offset. */
  lemma {:induction false} ContainsIff(s: string, p: string)
    ensures Contains(s, p) <==> exists i :: OccursAt(s, p, i)
    decreases |s|
  {
    if IsPrefix(p, s) {
      assert OccursAt(s, p, 0);
    } else if |s| == 0 {
      assert |p| > 0;
    } else {
      ContainsIff(s[1..], p);
      if Contains(s[1..], p) {
        var i :| OccursAt(s[1..], p, i);
        assert s[1..][i..i + |p|] == s[i + 1..i + 1 + |p|];
        assert OccursAt(s, p, i + 1);
      } else {
        forall i | 0 < i && i + |p| <= |s| ensures !OccursAt(s, p, i) {
          assert s[1..][i - 1..i - 1 + |p|] == s[i..i + |p|];
          assert !OccursAt(s[1..], p, i - 1);
        }
        assert |p| <= |s| ==> s[0..|p|] == s[..|p|];
      }
    }
  }

  /** A text holds each of its own middle parts. */
  lemma ContainsMiddle(a: string, p: string, b: string)
    ensures Contains(a + p + b, p)
  {
    var s := a + p + b;
    assert s[|a|..|a| + |p|] == p;
    assert OccursAt(s, p, |a|);
    ContainsIff(s, p);
  }

  /** Text that holds a pattern still holds it with more text after it. */
  lemma ContainsAppend(s: string, b: string, p: string)
    requires Contains(s, p)
    ensures Contains(s + b, p)
  {
    ContainsIff(s, p);
    var i :| OccursAt(s, p, i);
    assert (s + b)[i..i + |p|] == s[i..i + |p|];
    assert OccursAt(s + b, p, i);
    ContainsIff(s + b, p);
  }

  /** Text that holds a pattern still holds it with more text before it. */
  lemma ContainsPrepend(a: string, s: string, p: string)
    requires Contains(s, p)
    ensures Contains(a + s, p)
  {
    ContainsIff(s, p);
    var i :| OccursAt(s, p, i);
    assert (a + s)[|a| + i..|a| + i + |p|] == s[i..i + |p|];
    assert OccursAt(a + s, p, |a| + i);
    ContainsIff(a + s, p);
  }

  /** A pattern whose first character is absent does not occur. */
  lemma NotContainsWithoutFirst(s: string, p: string)
    requires |p| > 0 && p[0] !in s
    ensures !Contains(s, p)
  {
    forall i | 0 <= i && i + |p| <= |s| ensures !OccursAt(s, p, i) {
      assert s[i..i + |p|][0] == s[i];
    }
    ContainsIff(s, p);
  }

  /** The index of the first occurrence of `p` in `s`, like `indexOf`. */
  function IndexOf(s: string, p: string): (r: Option<nat>)
    ensures r.Some? ==> OccursAt(s, p, r.value)
    ensures r.Some? ==> forall j :: 0 <= j < r.value ==> !OccursAt(s, p, j)
    ensures r.None? ==> forall j :: !OccursAt(s, p, j)
    decreases |s|
  {
    if IsPrefix(p, s) then Some(0)
    else if |s| == 0 then None
    else
      match IndexOf(s[1..], p)
      case Some(k) =>
        assert s[1..][k..k + |p|] == s[k + 1..k + 1 + |p|];
        ShiftedMisses(s, p, k);
        Some(k + 1)
      case None =>
        ShiftedMisses(s, p, |s|);
        None
  }

  /** Helper for IndexOf: a miss in `s[1..]` before `k` is a miss in `s` before `k + 1`. */
  lemma ShiftedMisses(s: string, p: string, k: int)
    requires |s| > 0 && !IsPrefix(p, s)
    requires forall j :: 0 <= j < k ==> !OccursAt(s[1..], p, j)
    ensures forall j :: 0 <= j < k + 1 ==> !OccursAt(s, p, j)
  {
    forall j | 0 < j < k + 1 && j + |p| <= |s| ensures !OccursAt(s, p, j) {
      assert s[1..][j - 1..j - 1 + |p|] == s[j..j + |p|];
      assert !OccursAt(s[1..], p, j - 1);
    }
    assert |p| <= |s| ==> s[0..|p|] == s[..|p|];
  }

  datatype Option<+T> = None | Some(value: T) {
    function GetOr(default: T): T {
      match this
      case Some(v) => v
      case None => default
    }
  }

  /** `ss.join(sep)` */
  function Join(sep: string, ss: seq<string>): string {
    if |ss| == 0 then ""
    else if |ss| == 1 then ss[0]
    else ss[0] + sep + Join(sep, ss[1..])
  }

  /** `s.split(c)[0]`: everything before the first `c`, or all of `s`. */
  function BeforeFirst(s: string, c: char): (r: string)
    ensures IsPrefix(r, s)
    ensures c !in r
    ensures |r| < |s| ==> s[|r|] == c
    decreases |s|
  {
    if |s| == 0 || s[0] == c then "" else [s[0]] + BeforeFirst(s[1..], c)
  }

  /** The number a string of decimal digits denotes (Horner's rule). */
  function DigitsValue(s: string): int
    decreases |s|
  {
    if s == [] then 0 else DigitsValue(s[..|s| - 1]) * 10 + (s[|s| - 1] as int - '0' as int)
  }

  /** Decimal digits of a natural number, as in a template literal: the
      digits denote `n` and carry no leading zero. */
  function NatToString(n: nat): (r: string)
    ensures |r| >= 1
    ensures forall i :: 0 <= i < |r| ==> IsDigit(r[i])
    ensures DigitsValue(r) == n
    ensures r[0] == '0' ==> n == 0
    decreases n
  {
    var d := [(n % 10 + '0' as int) as char];
    if n < 10 then
      assert d[..0] == [];
      d
    else
      var h := NatToString(n / 10);
      assert (h + d)[..|h + d| - 1] == h;
      h + d
  }

  /** Different numbers render differently. */
  lemma NatToStringInjective(m: nat, n: nat)
    ensures NatToString(m) == NatToString(n) ==> m == n
  {
  }
}
