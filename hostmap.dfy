/**
 * The address-to-hostname mappings of dnswatch (`current` and `stored` in
 * `watch`): Python dicts keyed by dotted-quad strings, whose values are
 * hostnames or `None`, iterated in insertion order.
 */
module HostMap {
  import opened Wrappers
  import opened Text
  import opened Ordering

  /** A hostname as the program holds it: a string, or Python's `None`. */
  type Host = Option<string>

  /** The test dnswatch applies before recording or writing a name: it is
    * present and does not end in `.local`. */
  predicate Kept(h: Host) {
    h.Some? && !EndsWith(h.value, ".local")
  }

  function Elements(s: seq<string>): set<string> {
    set x | x in s
  }

  /** `s` without the elements of `drop`, in the order `s` has them. */
  function FilterOut(s: seq<string>, drop: set<string>): (r: seq<string>)
    ensures forall x :: x in r <==> x in s && x !in drop
    ensures Distinct(s) ==> Distinct(r)
  {
    if s == [] then []
    else
      var init, last := s[..|s| - 1], s[|s| - 1];
      assert s == init + [last];
      var r0 := FilterOut(init, drop);
      if last in drop then r0 else r0 + [last]
  }

  /** Filtering keeps the relative order of what it keeps: an element kept from
    * an earlier position comes before one kept from a later position. */
  lemma {:induction false} FilterOutKeepsOrder(s: seq<string>, drop: set<string>, p: nat, q: nat)
    requires p < q < |s| && s[p] !in drop && s[q] !in drop
    ensures exists i, j :: 0 <= i < j < |FilterOut(s, drop)| && FilterOut(s, drop)[i] == s[p] && FilterOut(s, drop)[j] == s[q]
  {
    var init, last := s[..|s| - 1], s[|s| - 1];
    var r, r0 := FilterOut(s, drop), FilterOut(init, drop);
    assert r == r0 + if last in drop then [] else [last];
    assert init[p] == s[p];
    if q == |s| - 1 {
      var i := IndexIn(r0, s[p]);
      assert r[i] == s[p] && r[|r0|] == s[q];
    } else {
      assert init[q] == s[q];
      FilterOutKeepsOrder(init, drop, p, q);
      var i, j :| 0 <= i < j < |r0| && r0[i] == s[p] && r0[j] == s[q];
      assert r[i] == s[p] && r[j] == s[q];
    }
  }

  lemma FilterOutSingle(x: string, drop: set<string>)
    requires x !in drop
    ensures FilterOut([x], drop) == [x]
  {
    assert [x][..0] == [];
  }

  /** A position at which `x` occurs in `s`. */
  function IndexIn(s: seq<string>, x: string): (i: nat)
    requires x in s
    ensures i < |s| && s[i] == x
  {
    if s[0] == x then 0 else 1 + IndexIn(s[1..], x)
  }

  /** Dropping `a` and then `b` is dropping both at once. */
  lemma {:induction false} FilterOutTwice(s: seq<string>, a: set<string>, b: set<string>)
    ensures FilterOut(FilterOut(s, a), b) == FilterOut(s, a + b)
  {
    if s != [] {
      var init, last := s[..|s| - 1], s[|s| - 1];
      FilterOutTwice(init, a, b);
      var once := FilterOut(init, a);
      if last !in a {
        assert (once + [last])[..|once + [last]| - 1] == once;
      }
    }
  }

  /** A dict as a value: its entries and the order in which its keys were first inserted. */
  datatype Dict = Dict(vals: map<string, Host>, order: seq<string>) {

    /** Every key appears once in the order, and the order lists exactly the keys. */
    ghost predicate Valid() {
      Distinct(order) && forall k :: k in vals <==> k in order
    }

    /** `d.get(k)`, and `d.pop(k, None)`'s result: the value, or `None` for a missing key. */
    function Get(k: string): Host {
      if k in vals then vals[k] else None
    }

    /** `d[k] = v`: a new key goes last, an existing key keeps its place. */
    function Put(k: string, v: Host): (r: Dict)
      ensures Valid() ==> r.Valid()
      ensures k in r.vals && r.Get(k) == v
      ensures forall j :: j != k ==> (j in r.vals <==> j in vals) && r.Get(j) == Get(j)
      ensures k !in vals ==> r.order == order + [k]
      ensures k in vals ==> r.order == order
    {
      Dict(vals[k := v], if k in vals then order else order + [k])
    }

    /** What is left after `d.pop(k, None)`: the entry for `k` is gone, and the
      * other entries stay as they were. */
    function Without(k: string): (r: Dict)
      ensures Valid() ==> r.Valid()
      ensures k !in r.vals && r.Get(k) == None
      ensures forall j :: j != k ==> (j in r.vals <==> j in vals) && r.Get(j) == Get(j)
    {
      Dict(vals - {k}, FilterOut(order, {k}))
    }

    /** `d.items()`: every entry exactly once, keyed in insertion order. */
    function Items(): (r: seq<(string, Host)>)
      requires Valid()
      ensures forall k, v :: (k, v) in r <==> k in vals && vals[k] == v
      ensures forall i, j :: 0 <= i < j < |r| ==> r[i].0 != r[j].0
      ensures |r| == |order| && forall i :: 0 <= i < |r| ==> r[i].0 == order[i]
    {
      var r := seq(|order|, i requires 0 <= i < |order| => (order[i], vals[order[i]]));
      assert forall k, v :: (k, v) in r ==> k in vals && vals[k] == v;
      assert forall k :: k in vals ==> (k, vals[k]) in r by {
        forall k | k in vals ensures (k, vals[k]) in r {
          var i :| 0 <= i < |order| && order[i] == k;
          assert r[i] == (k, vals[k]);
        }
      }
      r
    }
  }

  const Empty: Dict := Dict(map[], [])

  /** Popping each key of `keys` in turn. */
  function PopAll(d: Dict, keys: seq<string>): Dict {
    if keys == [] then d else PopAll(d, keys[..|keys| - 1]).Without(keys[|keys| - 1])
  }

  /** Popping a sequence of keys removes exactly those keys and leaves the other
    * entries, values and order alike, as they were. */
  lemma {:induction false} PopAllRemovesExactly(d: Dict, keys: seq<string>)
    ensures PopAll(d, keys) == Dict(d.vals - Elements(keys), FilterOut(d.order, Elements(keys)))
  {
    if keys == [] {
      assert Elements(keys) == {};
      assert FilterOut(d.order, {}) == d.order by {
        FilterOutNothing(d.order);
      }
      assert d.vals - {} == d.vals;
    } else {
      var init, last := keys[..|keys| - 1], keys[|keys| - 1];
      PopAllRemovesExactly(d, init);
      assert keys == init + [last];
      ElementsSnoc(init, last);
      MapMinusTwice(d.vals, Elements(init), {last});
      FilterOutTwice(d.order, Elements(init), {last});
    }
  }

  lemma ElementsSnoc(s: seq<string>, x: string)
    ensures Elements(s + [x]) == Elements(s) + {x}
  {
  }

  lemma MapMinusTwice(m: map<string, Host>, a: set<string>, b: set<string>)
    ensures m - a - b == m - (a + b)
  {
  }

  lemma {:induction false} FilterOutNothing(s: seq<string>)
    ensures FilterOut(s, {}) == s
  {
    if s != [] {
      var init, last := s[..|s| - 1], s[|s| - 1];
      FilterOutNothing(init);
      assert last !in {};
      assert FilterOut(s, {}) == FilterOut(init, {}) + [last];
      assert s == init + [last];
    }
  }

  /**
   * A Python dict that the program updates in place: `lookup` and `load`
   * assign into the one they are given, and the diff pops from `stored`.
   */
  class HostMapping {
    var vals: map<string, Host>
    var order: seq<string>

    function Value(): Dict
      reads this
    {
      Dict(vals, order)
    }

    ghost predicate Valid()
      reads this
    {
      Value().Valid()
    }

    /** `dict()` */
    constructor ()
      ensures Valid() && Value() == Empty
    {
      vals := map[];
      order := [];
    }

    /** `mapping[k] = v` */
    method Set(k: string, v: Host)
      requires Valid()
      modifies this
      ensures Valid() && Value() == old(Value()).Put(k, v)
    {
      if k !in vals {
        order := order + [k];
      }
      vals := vals[k := v];
    }

    /** `mapping.pop(k, None)` */
    method Pop(k: string) returns (v: Host)
      requires Valid()
      modifies this
      ensures Valid() && v == old(Value()).Get(k) && Value() == old(Value()).Without(k)
    {
      v := if k in vals then vals[k] else None;
      vals := vals - {k};
      order := FilterOut(order, {k});
    }
  }
}
