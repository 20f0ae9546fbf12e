/**
 * The sweep: a reverse lookup for every address of the subnet, recording the
 * names that resolved and do not end in `.local`. The resolver itself
 * (`socket.gethostbyaddr`) is the parameter `resolve`; `None` stands for the
 * `socket.herror` it raises when an address has no name.
 */
module Resolver {
  import opened Wrappers
  import opened Text
  import opened Ordering
  import opened HostMap

  /** `lookup(ip, mapping)`: resolves `ip`, records the name in `mapping` when it
    * is kept, and returns the name whether kept or not (`None` after `herror`). */
  method Lookup(ip: string, resolve: string -> Host, mapping: HostMapping) returns (hostname: Host)
    requires mapping.Valid()
    modifies mapping
    ensures mapping.Valid()
    ensures hostname == resolve(ip)
    ensures mapping.Value() == if Kept(hostname) then old(mapping.Value()).Put(ip, hostname) else old(mapping.Value())
  {
    hostname := resolve(ip);
    if hostname != None && !EndsWith(hostname.value, ".local") {
      mapping.Set(ip, hostname);
    }
  }

  /** The dict `d` after looking up each of `addrs` in turn. */
  function SweepFrom(d: Dict, addrs: seq<string>, resolve: string -> Host): (r: Dict)
    ensures d.Valid() ==> r.Valid()
  {
    if addrs == [] then d
    else
      var a := addrs[|addrs| - 1];
      var p := SweepFrom(d, addrs[..|addrs| - 1], resolve);
      if Kept(resolve(a)) then p.Put(a, resolve(a)) else p
  }

  /** The lines `<address>: <hostname>` echoed during a verbose prepare sweep. */
  function Echoes(addrs: seq<string>, resolve: string -> Host): seq<(string, string)> {
    if addrs == [] then []
    else
      var a := addrs[|addrs| - 1];
      Echoes(addrs[..|addrs| - 1], resolve) + (if Kept(resolve(a)) then [(a, resolve(a).value)] else [])
  }

  /** The loop of `watch` over the subnet's addresses: `lookup` each one, and
    * echo the kept names when `echo` (prepare and verbose) is set. */
  method Sweep(addrs: seq<string>, resolve: string -> Host, current: HostMapping, echo: bool)
    returns (echoed: seq<(string, string)>)
    requires current.Valid()
    modifies current
    ensures current.Valid()
    ensures current.Value() == SweepFrom(old(current.Value()), addrs, resolve)
    ensures echoed == if echo then Echoes(addrs, resolve) else []
  {
    echoed := [];
    for i := 0 to |addrs|
      invariant current.Valid()
      invariant current.Value() == SweepFrom(old(current.Value()), addrs[..i], resolve)
      invariant echoed == if echo then Echoes(addrs[..i], resolve) else []
    {
      var addr := addrs[i];
      assert addrs[..i + 1][..i] == addrs[..i];
      var hostname := Lookup(addr, resolve, current);
      if echo && hostname != None && !EndsWith(hostname.value, ".local") {
        echoed := echoed + [(addr, hostname.value)];
      }
    }
    assert addrs[..|addrs|] == addrs;
  }

  /** An address ends up in the mapping exactly when it was already there or it
    * was swept and its name resolved and is not `.local`; a swept address holds
    * the name the resolver gave, and any other keeps its old value. */
  lemma {:induction false} SweepRecords(d: Dict, addrs: seq<string>, resolve: string -> Host, a: string)
    ensures var s := SweepFrom(d, addrs, resolve);
      && (a in s.vals <==> a in d.vals || (a in addrs && Kept(resolve(a))))
      && s.Get(a) == if a in addrs && Kept(resolve(a)) then resolve(a) else d.Get(a)
  {
    if addrs != [] {
      var init := addrs[..|addrs| - 1];
      SweepRecords(d, init, resolve, a);
      assert addrs == init + [addrs[|addrs| - 1]];
    }
  }

  /** A sweep that starts from an empty mapping records no `.local` name and no `None`. */
  lemma SweepKeepsOnlyKept(addrs: seq<string>, resolve: string -> Host, a: string)
    requires a in SweepFrom(Empty, addrs, resolve).vals
    ensures Kept(SweepFrom(Empty, addrs, resolve).vals[a])
  {
    SweepRecords(Empty, addrs, resolve, a);
  }

  /** The addresses that did not resolve to a kept name. */
  function Unrecorded(addrs: seq<string>, resolve: string -> Host): set<string> {
    set a | a in addrs && !Kept(resolve(a))
  }

  /** Over distinct fresh addresses, the mapping's order is the enumeration
    * order of the addresses that resolved to a kept name. */
  lemma {:induction false} SweepOrder(d: Dict, addrs: seq<string>, resolve: string -> Host)
    requires d.Valid() && Distinct(addrs)
    requires forall a :: a in addrs ==> a !in d.vals
    ensures SweepFrom(d, addrs, resolve).order == d.order + FilterOut(addrs, Unrecorded(addrs, resolve))
  {
    if addrs != [] {
      var init, a := addrs[..|addrs| - 1], addrs[|addrs| - 1];
      assert addrs == init + [a];
      SweepOrder(d, init, resolve);
      FilterOutOnly(init, Unrecorded(init, resolve), Unrecorded(addrs, resolve));
      SweepRecords(d, init, resolve, a);
    }
  }

  /** Filtering by two sets that agree on the elements of `s` gives the same result. */
  lemma {:induction false} FilterOutOnly(s: seq<string>, a: set<string>, b: set<string>)
    requires forall x :: x in s ==> (x in a <==> x in b)
    ensures FilterOut(s, a) == FilterOut(s, b)
  {
    if s != [] {
      FilterOutOnly(s[..|s| - 1], a, b);
    }
  }

  /** Every echoed line names an address with the name the sweep recorded for it. */
  lemma {:induction false} EchoesAreRecorded(addrs: seq<string>, resolve: string -> Host, i: nat)
    requires i < |Echoes(addrs, resolve)|
    ensures SweepFrom(Empty, addrs, resolve).Get(Echoes(addrs, resolve)[i].0) == Some(Echoes(addrs, resolve)[i].1)
  {
    var e := Echoes(addrs, resolve)[i];
    EchoesResolved(addrs, resolve, i);
    SweepRecords(Empty, addrs, resolve, e.0);
  }

  lemma {:induction false} EchoesResolved(addrs: seq<string>, resolve: string -> Host, i: nat)
    requires i < |Echoes(addrs, resolve)|
    ensures var e := Echoes(addrs, resolve)[i];
      e.0 in addrs && Kept(resolve(e.0)) && resolve(e.0) == Some(e.1)
  {
    var init := addrs[..|addrs| - 1];
    if i < |Echoes(init, resolve)| {
      EchoesResolved(init, resolve, i);
    }
  }

  /** Every swept address that resolved to a kept name is echoed with that name. */
  lemma {:induction false} EchoesComplete(addrs: seq<string>, resolve: string -> Host, a: string)
    requires a in addrs && Kept(resolve(a))
    ensures (a, resolve(a).value) in Echoes(addrs, resolve)
  {
    var init, last := addrs[..|addrs| - 1], addrs[|addrs| - 1];
    assert addrs == init + [last];
    if a != last {
      assert a in init;
      EchoesComplete(init, resolve, a);
    }
  }

  /** The addresses of a sequence of echoed lines. */
  function Addresses(e: seq<(string, string)>): seq<string> {
    seq(|e|, i requires 0 <= i < |e| => e[i].0)
  }

  /** The echoed addresses are the swept addresses that resolved to a kept
    * name, in enumeration order. */
  lemma {:induction false} EchoesInOrder(addrs: seq<string>, resolve: string -> Host)
    ensures Addresses(Echoes(addrs, resolve)) == FilterOut(addrs, Unrecorded(addrs, resolve))
  {
    if addrs != [] {
      var init, last := addrs[..|addrs| - 1], addrs[|addrs| - 1];
      var e0 := Echoes(init, resolve);
      var tail := if Kept(resolve(last)) then [(last, resolve(last).value)] else [];
      EchoesInOrder(init, resolve);
      FilterOutOnly(init, Unrecorded(init, resolve), Unrecorded(addrs, resolve));
      AddressesAppend(e0, tail);
      var u := Unrecorded(addrs, resolve);
      assert last in u <==> !Kept(resolve(last));
      assert Addresses(tail) == if last in u then [] else [last];
      assert FilterOut(addrs, u) == FilterOut(init, u) + if last in u then [] else [last];
    }
  }

  lemma AddressesAppend(a: seq<(string, string)>, b: seq<(string, string)>)
    ensures Addresses(a + b) == Addresses(a) + Addresses(b)
  {
    forall i | 0 <= i < |a + b| ensures Addresses(a + b)[i] == (Addresses(a) + Addresses(b))[i] {
      if i < |a| {
        assert (a + b)[i] == a[i];
      } else {
        assert (a + b)[i] == b[i - |a|];
      }
    }
  }
}
