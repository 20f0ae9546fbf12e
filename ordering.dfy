/**
 * The order in which the diff visits addresses: Python's `sorted()` on
 * strings, which compares them lexicographically by code point.
 */
module Ordering {

  /** Python's `a < b` on `str`: the first differing character decides, and a
    * proper prefix comes first. */
  predicate Below(a: string, b: string) {
    if a == [] then b != []
    else b != [] && (a[0] < b[0] || (a[0] == b[0] && Below(a[1..], b[1..])))
  }

  lemma {:induction false} BelowIrreflexive(a: string)
    ensures !Below(a, a)
  {
    if a != [] {
      BelowIrreflexive(a[1..]);
    }
  }

  lemma {:induction false} BelowTransitive(a: string, b: string, c: string)
    requires Below(a, b) && Below(b, c)
    ensures Below(a, c)
  {
    if a != [] && a[0] == b[0] && b[0] == c[0] {
      BelowTransitive(a[1..], b[1..], c[1..]);
    }
  }

  /** The order is total: two strings are equal or one is below the other. */
  lemma {:induction false} BelowTotal(a: string, b: string)
    ensures a == b || Below(a, b) || Below(b, a)
  {
    if a != [] && b != [] && a[0] == b[0] {
      BelowTotal(a[1..], b[1..]);
      if a[1..] == b[1..] {
        assert a == [a[0]] + a[1..] && b == [b[0]] + b[1..];
      }
    }
  }

  lemma BelowAsymmetric(a: string, b: string)
    ensures !(Below(a, b) && Below(b, a))
  {
    if Below(a, b) && Below(b, a) {
      BelowTransitive(a, b, a);
      BelowIrreflexive(a);
    }
  }

  /** "Not above" is transitive too. */
  lemma AtMostTransitive(a: string, b: string, c: string)
    requires !Below(b, a) && !Below(c, b)
    ensures !Below(c, a)
  {
    BelowTotal(a, b);
    BelowTotal(b, c);
    if a != b && b != c {
      BelowTransitive(a, b, c);
    }
    if a != c {
      BelowTotal(a, c);
      if Below(c, a) {
        if a == b {
          assert false;
        } else {
          BelowAsymmetric(a, c);
        }
      }
    } else {
      BelowIrreflexive(a);
    }
  }

  /** Comparison is by characters, not by numbers: the dotted quad ending in
    * `.10` sorts before the one ending in `.2`. */
  lemma TextualNotNumeric()
    ensures Below("10.0.0.10", "10.0.0.2")
  {
    var p: string := "10.0.0.";
    BelowCommonPrefix(p, "10", "2");
    assert p + "10" == "10.0.0.10" && p + "2" == "10.0.0.2";
  }

  /** A common prefix does not change the order. */
  lemma {:induction false} BelowCommonPrefix(p: string, a: string, b: string)
    requires Below(a, b)
    ensures Below(p + a, p + b)
  {
    if p == [] {
      assert p + a == a && p + b == b;
    } else {
      BelowCommonPrefix(p[1..], a, b);
      assert (p + a)[0] == p[0] && (p + b)[0] == p[0];
      assert (p + a)[1..] == p[1..] + a && (p + b)[1..] == p[1..] + b;
    }
  }

  ghost predicate Distinct(s: seq<string>) {
    forall i, j :: 0 <= i < j < |s| ==> s[i] != s[j]
  }

  /** Non-decreasing: what `sorted()` promises for any input. */
  ghost predicate Sorted(s: seq<string>) {
    forall i, j :: 0 <= i < j < |s| ==> !Below(s[j], s[i])
  }

  /** Strictly increasing. */
  ghost predicate Ascending(s: seq<string>) {
    forall i, j :: 0 <= i < j < |s| ==> Below(s[i], s[j])
  }

  lemma PrependSorted(x: string, t: seq<string>)
    requires Sorted(t)
    requires forall j :: 0 <= j < |t| ==> !Below(t[j], x)
    ensures Sorted([x] + t)
  {
    var r := [x] + t;
    forall i, j | 0 <= i < j < |r| ensures !Below(r[j], r[i]) {
      assert r[j] == t[j - 1];
      if i > 0 {
        assert r[i] == t[i - 1];
      }
    }
  }

  lemma PrependAscending(x: string, t: seq<string>)
    requires Ascending(t)
    requires forall j :: 0 <= j < |t| ==> Below(x, t[j])
    ensures Ascending([x] + t)
  {
    var r := [x] + t;
    forall i, j | 0 <= i < j < |r| ensures Below(r[i], r[j]) {
      assert r[j] == t[j - 1];
      if i > 0 {
        assert r[i] == t[i - 1];
      }
    }
  }

  /** Places `k` before the first element of the sorted `s` that is not below it. */
  function Insert(k: string, s: seq<string>): (r: seq<string>)
    requires Sorted(s)
    ensures Sorted(r)
    ensures multiset(r) == multiset(s) + multiset{k}
    ensures Ascending(s) && k !in s ==> Ascending(r)
  {
    if s == [] || !Below(s[0], k) then
      InsertFront(k, s);
      [k] + s
    else
      var tail := Insert(k, s[1..]);
      InsertBehind(k, s, tail);
      [s[0]] + tail
  }

  lemma InsertFront(k: string, s: seq<string>)
    requires Sorted(s)
    requires s == [] || !Below(s[0], k)
    ensures Sorted([k] + s)
    ensures Ascending(s) && k !in s ==> Ascending([k] + s)
  {
    forall j | 0 <= j < |s| ensures !Below(s[j], k) {
      if j > 0 {
        AtMostTransitive(k, s[0], s[j]);
      }
    }
    PrependSorted(k, s);
    if Ascending(s) && k !in s && s != [] {
      BelowTotal(k, s[0]);
      forall j | 0 <= j < |s| ensures Below(k, s[j]) {
        if j > 0 {
          BelowTransitive(k, s[0], s[j]);
        }
      }
      PrependAscending(k, s);
    }
  }

  lemma InsertBehind(k: string, s: seq<string>, tail: seq<string>)
    requires Sorted(s) && s != [] && Below(s[0], k)
    requires Sorted(tail) && multiset(tail) == multiset(s[1..]) + multiset{k}
    requires Ascending(s[1..]) && k !in s[1..] ==> Ascending(tail)
    ensures Sorted([s[0]] + tail)
    ensures multiset([s[0]] + tail) == multiset(s) + multiset{k}
    ensures Ascending(s) && k !in s ==> Ascending([s[0]] + tail)
  {
    assert s == [s[0]] + s[1..];
    forall j | 0 <= j < |tail| ensures tail[j] == k || tail[j] in s[1..] {
      assert tail[j] in multiset(tail);
    }
    forall j | 0 <= j < |tail| ensures !Below(tail[j], s[0]) && (Ascending(s) ==> Below(s[0], tail[j])) {
      BelowAsymmetric(s[0], k);
      if tail[j] != k {
        var m :| 0 <= m < |s[1..]| && s[1..][m] == tail[j];
        assert s[m + 1] == tail[j];
      }
    }
    PrependSorted(s[0], tail);
    if Ascending(s) && k !in s {
      assert Ascending(s[1..]);
      PrependAscending(s[0], tail);
    }
  }

  /** Python's `sorted()` on a sequence of strings: a sorted permutation of its
    * input, strictly ascending when the input has no repeats. */
  function SortKeys(s: seq<string>): (r: seq<string>)
    ensures Sorted(r)
    ensures multiset(r) == multiset(s)
    ensures Distinct(s) ==> Ascending(r)
  {
    if s == [] then []
    else
      var rest := SortKeys(s[1..]);
      assert multiset(s) == multiset{s[0]} + multiset(s[1..]) by {
        assert s == [s[0]] + s[1..];
      }
      assert Distinct(s) ==> Ascending(rest) && s[0] !in rest by {
        if Distinct(s) {
          DistinctTail(s);
          assert s[0] !in multiset(s[1..]);
          assert s[0] !in multiset(rest);
        }
      }
      Insert(s[0], rest)
  }

  lemma DistinctTail(s: seq<string>)
    requires s != [] && Distinct(s)
    ensures Distinct(s[1..]) && s[0] !in s[1..]
  {
    var t := s[1..];
    forall i, j | 0 <= i < j < |t| ensures t[i] != t[j] {
      assert t[i] == s[i + 1] && t[j] == s[j + 1];
    }
    forall i | 0 <= i < |t| ensures t[i] != s[0] {
      assert t[i] == s[i + 1];
    }
  }

  /** Two keys already in order come out as they are. */
  lemma SortTwo(a: string, b: string)
    requires Below(a, b)
    ensures SortKeys([a, b]) == [a, b]
  {
    BelowAsymmetric(a, b);
    var ab: seq<string> := [a, b];
    assert ab[1..] == [b];
    var one: seq<string> := [b];
    assert one[1..] == [];
    assert SortKeys(one) == [b];
  }

  /** A strictly ascending sequence has no repeats. */
  lemma AscendingDistinct(s: seq<string>)
    requires Ascending(s)
    ensures Distinct(s)
  {
    forall i, j | 0 <= i < j < |s| ensures s[i] != s[j] {
      BelowIrreflexive(s[i]);
    }
  }
}
