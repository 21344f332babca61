/** The stable sort by descending key that `Array.prototype.sort` performs
    with a comparator of the form `(a, b) => key(b) - key(a)`, and that the
    database performs for `orderBy: { ...: 'desc' }`. It is specified here by
    insertion sort, which is stable, so it yields the one stable ordering. */
module Sorting {

  ghost predicate SortedDesc<T>(s: seq<T>, key: T -> real) {
    forall i, j :: 0 <= i < j < |s| ==> key(s[i]) >= key(s[j])
  }

  /** Inserts `x` in front of the first element whose key is not larger. */
  function InsertDesc<T>(x: T, s: seq<T>, key: T -> real): (r: seq<T>)
    ensures |r| == |s| + 1
    ensures multiset(r) == multiset(s) + multiset{x}
  {
    if s == [] then [x]
    else if key(s[0]) > key(x) then
      assert s == [s[0]] + s[1..];
      [s[0]] + InsertDesc(x, s[1..], key)
    else
      [x] + s
  }

  lemma {:induction false} InsertSorted<T>(x: T, s: seq<T>, key: T -> real)
    requires SortedDesc(s, key)
    ensures SortedDesc(InsertDesc(x, s, key), key)
  {
    if s != [] {
      if key(s[0]) > key(x) {
        var rest := InsertDesc(x, s[1..], key);
        TailSorted(s, key);
        InsertSorted(x, s[1..], key);
        assert InsertDesc(x, s, key) == [s[0]] + rest;
        forall j | 0 <= j < |rest| ensures key(s[0]) >= key(rest[j]) {
          assert rest[j] in multiset(rest);
          if rest[j] != x {
            HeadDominates(s, key, rest[j]);
          }
        }
        ConsSorted(s[0], rest, key);
      } else {
        assert InsertDesc(x, s, key) == [x] + s;
        forall j | 0 <= j < |s| ensures key(x) >= key(s[j]) {
          assert key(s[0]) >= key(s[j]) || j == 0;
        }
        ConsSorted(x, s, key);
      }
    }
  }

  /** A head that dominates a sorted tail makes a sorted list. */
  lemma ConsSorted<T>(y: T, t: seq<T>, key: T -> real)
    requires SortedDesc(t, key)
    requires forall j :: 0 <= j < |t| ==> key(y) >= key(t[j])
    ensures SortedDesc([y] + t, key)
  {
    var r := [y] + t;
    forall i, j | 0 <= i < j < |r| ensures key(r[i]) >= key(r[j]) {
      assert r[j] == t[j - 1];
      if i > 0 {
        assert r[i] == t[i - 1];
      }
    }
  }

  /** The tail of a sorted list is sorted. */
  lemma TailSorted<T>(s: seq<T>, key: T -> real)
    requires s != [] && SortedDesc(s, key)
    ensures SortedDesc(s[1..], key)
  {
    forall i, j | 0 <= i < j < |s| - 1 ensures key(s[1..][i]) >= key(s[1..][j]) {
      assert s[1..][i] == s[i + 1] && s[1..][j] == s[j + 1];
    }
  }

  /** The head of a sorted list has the largest key. */
  lemma HeadDominates<T>(s: seq<T>, key: T -> real, y: T)
    requires s != [] && SortedDesc(s, key) && y in s[1..]
    ensures key(s[0]) >= key(y)
  {
    var k :| 0 <= k < |s[1..]| && s[1..][k] == y;
    assert s[k + 1] == y;
  }

  function SortDesc<T>(s: seq<T>, key: T -> real): (r: seq<T>)
    ensures |r| == |s|
    ensures multiset(r) == multiset(s)
    ensures SortedDesc(r, key)
  {
    if s == [] then []
    else
      assert s == [s[0]] + s[1..];
      InsertSorted(s[0], SortDesc(s[1..], key), key);
      InsertDesc(s[0], SortDesc(s[1..], key), key)
  }

  /** The elements whose key equals `c`, in order. */
  function WithKey<T>(s: seq<T>, key: T -> real, c: real): seq<T> {
    if s == [] then []
    else (if key(s[0]) == c then [s[0]] else []) + WithKey(s[1..], key, c)
  }

  lemma WithKeyCons<T>(y: T, s: seq<T>, key: T -> real, c: real)
    ensures WithKey([y] + s, key, c) == (if key(y) == c then [y] else []) + WithKey(s, key, c)
  {
    assert ([y] + s)[0] == y;
    assert ([y] + s)[1..] == s;
  }

  /** Inserting an element with key `c` puts it first among the elements with key `c`. */
  lemma {:induction false} InsertKeepsTies<T>(x: T, s: seq<T>, key: T -> real)
    ensures WithKey(InsertDesc(x, s, key), key, key(x)) == [x] + WithKey(s, key, key(x))
  {
    if s == [] {
      WithKeyCons(x, s, key, key(x));
    } else if key(s[0]) > key(x) {
      var rest := InsertDesc(x, s[1..], key);
      assert InsertDesc(x, s, key) == [s[0]] + rest;
      InsertKeepsTies(x, s[1..], key);
      WithKeyCons(s[0], rest, key, key(x));
    } else {
      WithKeyCons(x, s, key, key(x));
    }
  }

  /** Inserting an element whose key is not `c` leaves the elements with key `c` alone. */
  lemma {:induction false} InsertKeepsOtherTies<T>(x: T, s: seq<T>, key: T -> real, c: real)
    requires key(x) != c
    ensures WithKey(InsertDesc(x, s, key), key, c) == WithKey(s, key, c)
  {
    if s == [] {
      WithKeyCons(x, s, key, c);
    } else if key(s[0]) > key(x) {
      var rest := InsertDesc(x, s[1..], key);
      assert InsertDesc(x, s, key) == [s[0]] + rest;
      InsertKeepsOtherTies(x, s[1..], key, c);
      WithKeyCons(s[0], rest, key, c);
    } else {
      WithKeyCons(x, s, key, c);
    }
  }

  /** A prefix of a list sorted from its second element is sorted from its second element. */
  lemma PrefixTailSorted<T>(s: seq<T>, key: T -> real, m: nat)
    requires 1 <= m <= |s| && SortedDesc(s[1..], key)
    ensures SortedDesc(s[..m][1..], key)
  {
    assert s[..m][1..] == s[1..][..m - 1];
    PrefixSorted(s[1..], key, m - 1);
  }

  /** A prefix of a sorted list is sorted. */
  lemma PrefixSorted<T>(s: seq<T>, key: T -> real, m: nat)
    requires SortedDesc(s, key) && m <= |s|
    ensures SortedDesc(s[..m], key)
  {
    forall i, j | 0 <= i < j < m ensures key(s[..m][i]) >= key(s[..m][j]) {
      assert s[..m][i] == s[i] && s[..m][j] == s[j];
    }
  }

  /** Stability: elements with equal keys keep their relative order. */
  lemma {:induction false} SortIsStable<T>(s: seq<T>, key: T -> real, c: real)
    ensures WithKey(SortDesc(s, key), key, c) == WithKey(s, key, c)
  {
    if s != [] {
      var t := SortDesc(s[1..], key);
      SortIsStable(s[1..], key, c);
      assert SortDesc(s, key) == InsertDesc(s[0], t, key);
      var h: seq<T> := if key(s[0]) == c then [s[0]] else [];
      assert WithKey(s, key, c) == h + WithKey(s[1..], key, c);
      assert WithKey(InsertDesc(s[0], t, key), key, c) == h + WithKey(t, key, c) by {
        if key(s[0]) == c {
          InsertKeepsTies(s[0], t, key);
        } else {
          InsertKeepsOtherTies(s[0], t, key, c);
        }
      }
    }
  }
}
