/** Small value-level helpers shared by both stores: an optional value, ASCII
    lower-casing (Python's str.lower on the characters the stores see) and a
    filter over sequences with the facts the table invariants need. */
module Common {

  datatype Option<T> = None | Some(value: T)

  /** str.lower() on one character, for the ASCII letters. */
  function LowerChar(c: char): char
  {
    if 'A' <= c <= 'Z' then (c as int + 32) as char else c
  }

  predicate IsUpper(c: char)
  {
    'A' <= c <= 'Z'
  }

  /** str.lower() on a string: same length, each upper-case letter replaced
      by its lower-case letter (32 code points further on), every other
      character kept, and so no upper-case letter left. */
  function Lower(s: string): (r: string)
    ensures |r| == |s|
    ensures forall i :: 0 <= i < |s| && IsUpper(s[i]) ==> r[i] as int == s[i] as int + 32
    ensures forall i :: 0 <= i < |r| && !IsUpper(s[i]) ==> r[i] == s[i]
    ensures forall i :: 0 <= i < |r| ==> !IsUpper(r[i])
  {
    if s == [] then [] else [LowerChar(s[0])] + Lower(s[1..])
  }

  /** Lower-casing twice is lower-casing once. */
  lemma LowerIdempotent(s: string)
    ensures Lower(Lower(s)) == Lower(s)
  {
    LowerOfLowerCase(Lower(s));
  }

  /** A string without upper-case letters is its own lower-case form. */
  lemma LowerOfLowerCase(s: string)
    requires forall i :: 0 <= i < |s| ==> !IsUpper(s[i])
    ensures Lower(s) == s
  {
  }

  /** The rows a `DELETE ... WHERE` leaves behind: those `keep` accepts, in order. */
  function Filter<T>(s: seq<T>, keep: T -> bool): (r: seq<T>)
    ensures |r| <= |s|
  {
    if s == [] then [] else (if keep(s[0]) then [s[0]] else []) + Filter(s[1..], keep)
  }

  /** The filtered sequence holds exactly the accepted elements. */
  lemma {:induction false} FilterMembers<T(!new)>(s: seq<T>, keep: T -> bool)
    ensures forall x :: x in Filter(s, keep) <==> x in s && keep(x)
  {
    if s != [] {
      FilterMembers(s[1..], keep);
      assert s == [s[0]] + s[1..];
    }
  }

  /** Filtering removes exactly the rejected elements: when every element is
      kept the sequence is unchanged. */
  lemma {:induction false} FilterAllKept<T>(s: seq<T>, keep: T -> bool)
    requires forall i :: 0 <= i < |s| ==> keep(s[i])
    ensures Filter(s, keep) == s
  {
    if s != [] {
      FilterAllKept(s[1..], keep);
    }
  }

  /** Filtering a concatenation filters each part. */
  lemma {:induction false} FilterAppend<T>(a: seq<T>, b: seq<T>, keep: T -> bool)
    ensures Filter(a + b, keep) == Filter(a, keep) + Filter(b, keep)
  {
    if a == [] {
      assert a + b == b;
    } else {
      var ab := a + b;
      assert ab[0] == a[0];
      assert ab[1..] == a[1..] + b;
      var head := if keep(a[0]) then [a[0]] else [];
      FilterAppend(a[1..], b, keep);
      calc {
        Filter(ab, keep);
        head + Filter(a[1..] + b, keep);
        head + (Filter(a[1..], keep) + Filter(b, keep));
        (head + Filter(a[1..], keep)) + Filter(b, keep);
      }
    }
  }

  /** Filtering drops the one rejected element between two kept runs. */
  lemma {:induction false} FilterDropsMiddle<T>(a: seq<T>, x: T, b: seq<T>, keep: T -> bool)
    requires forall i :: 0 <= i < |a| ==> keep(a[i])
    requires !keep(x)
    requires forall i :: 0 <= i < |b| ==> keep(b[i])
    ensures Filter(a + ([x] + b), keep) == a + b
  {
    FilterAllKept(a, keep);
    FilterAllKept(b, keep);
    var mid := [x] + b;
    assert mid[0] == x && mid[1..] == b;
    FilterAppend(a, mid, keep);
  }

  /** Filtering drops one element per rejected position. */
  lemma {:induction false} FilterDropsOne<T>(s: seq<T>, keep: T -> bool, k: nat)
    requires k < |s| && !keep(s[k])
    requires forall i :: 0 <= i < |s| && i != k ==> keep(s[i])
    ensures Filter(s, keep) == s[..k] + s[k + 1..]
  {
    var a, b := s[..k], s[k + 1..];
    assert forall i :: 0 <= i < |a| ==> a[i] == s[i];
    assert forall i :: 0 <= i < |b| ==> b[i] == s[k + 1 + i];
    assert s == a + ([s[k]] + b);
    FilterDropsMiddle(a, s[k], b, keep);
  }

  /** The rows `DELETE ... WHERE <key column> = v` keeps. */
  function Except<T, K(==)>(key: T -> K, v: K): T -> bool
  {
    (x: T) => key(x) != v
  }

  /** No two positions of `s` agree on `key`: a UNIQUE column. */
  predicate DistinctBy<T, K(==)>(s: seq<T>, key: T -> K)
  {
    forall i, j :: 0 <= i < j < |s| ==> key(s[i]) != key(s[j])
  }

  /** Deleting by a UNIQUE key removes the one row holding it, keeping the
      others in order, or changes nothing when no row holds it. */
  lemma {:induction false} FilterOutKey<T, K>(s: seq<T>, key: T -> K, v: K)
    requires DistinctBy(s, key)
    ensures (forall i :: 0 <= i < |s| ==> key(s[i]) != v) ==> Filter(s, Except(key, v)) == s
    ensures forall k :: 0 <= k < |s| && key(s[k]) == v ==> Filter(s, Except(key, v)) == s[..k] + s[k + 1..]
  {
    var keep := Except(key, v);
    if forall i :: 0 <= i < |s| ==> key(s[i]) != v {
      FilterAllKept(s, keep);
    }
    forall k | 0 <= k < |s| && key(s[k]) == v
      ensures Filter(s, keep) == s[..k] + s[k + 1..]
    {
      forall i | 0 <= i < |s| && i != k ensures keep(s[i]) {
        if i < k {
          assert key(s[i]) != key(s[k]);
        } else {
          assert key(s[k]) != key(s[i]);
        }
      }
      FilterDropsOne(s, keep, k);
    }
  }

  /** Deleting rows never breaks a UNIQUE column. */
  lemma {:induction false} FilterKeepsDistinct<T(!new), K>(s: seq<T>, keep: T -> bool, key: T -> K)
    requires DistinctBy(s, key)
    ensures DistinctBy(Filter(s, keep), key)
  {
    if s != [] {
      var rest := Filter(s[1..], keep);
      FilterKeepsDistinct(s[1..], keep, key);
      FilterMembers(s[1..], keep);
      if keep(s[0]) {
        var r := Filter(s, keep);
        assert r == [s[0]] + rest;
        forall i, j | 0 <= i < j < |r| ensures key(r[i]) != key(r[j]) {
          if i == 0 {
            assert r[j] in s[1..];
            var m :| 0 <= m < |s[1..]| && s[1..][m] == r[j];
            assert s[m + 1] == r[j];
          }
        }
      }
    }
  }

  /** Appending a row whose key no existing row has keeps a UNIQUE column. */
  lemma AppendKeepsDistinct<T, K>(s: seq<T>, x: T, key: T -> K)
    requires DistinctBy(s, key)
    requires forall i :: 0 <= i < |s| ==> key(s[i]) != key(x)
    ensures DistinctBy(s + [x], key)
  {
    var r := s + [x];
    forall i, j | 0 <= i < j < |r| ensures key(r[i]) != key(r[j]) {
      if j == |s| {
        assert r[i] == s[i];
      } else {
        assert r[i] == s[i] && r[j] == s[j];
      }
    }
  }

  /** An update that leaves the key column of every row alone keeps it UNIQUE. */
  lemma SameKeysKeepDistinct<T, U, K>(s: seq<T>, t: seq<U>, keyS: T -> K, keyT: U -> K)
    requires DistinctBy(s, keyS)
    requires |t| == |s|
    requires forall i :: 0 <= i < |s| ==> keyT(t[i]) == keyS(s[i])
    ensures DistinctBy(t, keyT)
  {
  }
}
