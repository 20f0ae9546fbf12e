/**
 * The comparison of a fresh sweep (`current`) with the baseline (`stored`):
 * visit `current` in sorted address order, pop each address from `stored` and
 * print a verdict, then walk what is left in `stored`. That last loop raises
 * `TypeError` on its first entry (line 94 gives the three-placeholder message
 * two values), so a departed host ends the run instead of being reported;
 * `IntendedReport` is the report the loop evidently means to print. Printing
 * is modelled by the sequence of verdicts it would print.
 */
module Reconcile {
  import opened Wrappers
  import opened Ordering
  import opened HostMap

  /** One printed line: `OK: <ip> (<host>)` or `MISMATCH: <ip> (STORED: <s>, NOW: <n>)`. */
  datatype Verdict =
    | Ok(ip: string, host: Host)
    | Mismatch(ip: string, stored: Host, now: Host)

  /** The verdict for one address of `current`: a mismatch when the popped stored
    * name differs from the current one, otherwise an OK line only when verbose. */
  function Classify(ip: string, stored: Host, now: Host, verbose: bool): seq<Verdict> {
    if stored != now then [Mismatch(ip, stored, now)]
    else if verbose then [Ok(ip, now)]
    else []
  }

  /** The verdicts printed for the addresses `keys` of `cur`, in that order. Each
    * address is compared with the entry `stored` had before the loop: the keys
    * are distinct, so no earlier pop has touched it. */
  function Verdicts(cur: Dict, stored: Dict, keys: seq<string>, verbose: bool): seq<Verdict> {
    if keys == [] then []
    else
      var ip := keys[|keys| - 1];
      Verdicts(cur, stored, keys[..|keys| - 1], verbose) + Classify(ip, stored.Get(ip), cur.Get(ip), verbose)
  }

  /** What the diff loop leaves: the printed verdicts and the stored entries not popped. */
  datatype Reconciliation = Reconciliation(report: seq<Verdict>, leftover: Dict)

  /** The diff loop of `watch` (the `for` over `sorted(current.items())`). */
  function Reconcile(cur: Dict, stored: Dict, verbose: bool): Reconciliation {
    var keys := SortKeys(cur.order);
    Reconciliation(Verdicts(cur, stored, keys, verbose), PopAll(stored, keys))
  }

  /** Popping other keys does not change what a key holds. */
  lemma PopAllGet(d: Dict, keys: seq<string>, k: string)
    requires k !in keys
    ensures PopAll(d, keys).Get(k) == d.Get(k)
  {
    PopAllRemovesExactly(d, keys);
  }

  /** The sorted keys of a well-formed dict are its keys, each once, ascending. */
  lemma SortedKeys(cur: Dict)
    requires cur.Valid()
    ensures Ascending(SortKeys(cur.order)) && Distinct(SortKeys(cur.order))
    ensures Elements(SortKeys(cur.order)) == cur.vals.Keys
  {
    var keys := SortKeys(cur.order);
    AscendingDistinct(keys);
    forall k ensures k in keys <==> k in cur.order {
      assert k in keys <==> k in multiset(keys);
      assert k in cur.order <==> k in multiset(cur.order);
    }
  }

  /** One more address of the diff loop. */
  lemma DiffStep(cur: Dict, stored: Dict, keys: seq<string>, i: nat, verbose: bool)
    requires i < |keys| && Distinct(keys)
    ensures var ip := keys[i];
      && PopAll(stored, keys[..i]).Get(ip) == stored.Get(ip)
      && PopAll(stored, keys[..i + 1]) == PopAll(stored, keys[..i]).Without(ip)
      && Verdicts(cur, stored, keys[..i + 1], verbose)
         == Verdicts(cur, stored, keys[..i], verbose) + Classify(ip, stored.Get(ip), cur.Get(ip), verbose)
  {
    var ip := keys[i];
    assert keys[..i + 1][..i] == keys[..i];
    assert ip !in keys[..i];
    PopAllGet(stored, keys[..i], ip);
  }

  /**
   * Lines 87-94 of `watch`: the sorted loop pops every address of `current`
   * from `stored` and reports it; the loop over what is left in `stored` then
   * raises `TypeError` on its first entry, because line 94 gives two values to
   * the three-placeholder mismatch message. `crash` is the address whose line
   * raised.
   */
  method Diff(current: HostMapping, stored: HostMapping, verbose: bool)
    returns (report: seq<Verdict>, crash: Option<string>)
    requires current.Valid() && stored.Valid()
    modifies stored
    ensures stored.Valid()
    ensures Reconcile(old(current.Value()), old(stored.Value()), verbose) == Reconciliation(report, stored.Value())
    ensures crash == if stored.order == [] then None else Some(stored.order[0])
  {
    var cur := current.Value();
    var keys := SortKeys(current.order);
    SortedKeys(cur);
    report := [];
    for i := 0 to |keys|
      invariant stored.Valid()
      invariant stored.Value() == PopAll(old(stored.Value()), keys[..i])
      invariant report == Verdicts(cur, old(stored.Value()), keys[..i], verbose)
    {
      var ip := keys[i];
      var hostname := cur.vals[ip];
      DiffStep(cur, old(stored.Value()), keys, i, verbose);
      var storedHostname := stored.Pop(ip);
      if storedHostname != hostname {
        report := report + [Mismatch(ip, storedHostname, hostname)];
      } else if verbose {
        report := report + [Ok(ip, hostname)];
      }
    }
    assert keys[..|keys|] == keys;
    crash := None;
    if stored.order != [] {
      crash := Some(stored.order[0]);
    }
  }

  /** A mismatch is printed for an address exactly when it is among `keys` and
    * its stored and current names differ; an OK line exactly when they agree
    * and the run is verbose. */
  lemma {:induction false} VerdictsExactly(cur: Dict, stored: Dict, keys: seq<string>, verbose: bool, ip: string, s: Host, n: Host)
    ensures Mismatch(ip, s, n) in Verdicts(cur, stored, keys, verbose) <==>
      ip in keys && s == stored.Get(ip) && n == cur.Get(ip) && s != n
    ensures Ok(ip, n) in Verdicts(cur, stored, keys, verbose) <==>
      ip in keys && verbose && n == cur.Get(ip) && stored.Get(ip) == n
  {
    if keys != [] {
      var init := keys[..|keys| - 1];
      VerdictsExactly(cur, stored, init, verbose, ip, s, n);
      assert keys == init + [keys[|keys| - 1]];
    }
  }

  /** Every verdict is about one of `keys`, and with `verbose` off every verdict is a mismatch. */
  lemma {:induction false} VerdictsAbout(cur: Dict, stored: Dict, keys: seq<string>, verbose: bool, i: nat)
    requires i < |Verdicts(cur, stored, keys, verbose)|
    ensures Verdicts(cur, stored, keys, verbose)[i].ip in keys
    ensures !verbose ==> Verdicts(cur, stored, keys, verbose)[i].Mismatch?
  {
    var init := keys[..|keys| - 1];
    if i < |Verdicts(cur, stored, init, verbose)| {
      VerdictsAbout(cur, stored, init, verbose, i);
    }
  }

  function Ips(report: seq<Verdict>): seq<string> {
    seq(|report|, i requires 0 <= i < |report| => report[i].ip)
  }

  /** Verdicts come in the order of the keys they are about. */
  lemma {:induction false} VerdictsInKeyOrder(cur: Dict, stored: Dict, keys: seq<string>, verbose: bool)
    requires Ascending(keys)
    ensures Ascending(Ips(Verdicts(cur, stored, keys, verbose)))
  {
    if keys != [] {
      var init, last := keys[..|keys| - 1], keys[|keys| - 1];
      VerdictsInKeyOrder(cur, stored, init, verbose);
      var v0 := Verdicts(cur, stored, init, verbose);
      var v := Verdicts(cur, stored, keys, verbose);
      forall i | 0 <= i < |v0| ensures Below(v0[i].ip, last) {
        VerdictsAbout(cur, stored, init, verbose, i);
        var m :| 0 <= m < |init| && init[m] == v0[i].ip;
        assert keys[m] == init[m];
      }
      assert forall i :: 0 <= i < |v| ==> if i < |v0| then v[i] == v0[i] else v[i].ip == last;
      forall i, j | 0 <= i < j < |v| ensures Below(v[i].ip, v[j].ip) {
        if j < |v0| {
          assert Ips(v0)[i] == v0[i].ip && Ips(v0)[j] == v0[j].ip;
        }
      }
    }
  }

  /** The diff visits `current` in ascending address order, and its verdicts are
    * printed in that order. */
  lemma ReportAscending(cur: Dict, stored: Dict, verbose: bool)
    requires cur.Valid()
    ensures Ascending(Ips(Reconcile(cur, stored, verbose).report))
  {
    SortedKeys(cur);
    VerdictsInKeyOrder(cur, stored, SortKeys(cur.order), verbose);
  }

  /** After the loop, `stored` holds exactly its original entries whose address
    * is not a key of `current`, in their original order. */
  lemma LeftoverExactly(cur: Dict, stored: Dict, verbose: bool)
    requires cur.Valid() && stored.Valid()
    ensures Reconcile(cur, stored, verbose).leftover == Dict(stored.vals - cur.vals.Keys, FilterOut(stored.order, cur.vals.Keys))
    ensures Reconcile(cur, stored, verbose).leftover.Valid()
  {
    SortedKeys(cur);
    PopAllRemovesExactly(stored, SortKeys(cur.order));
  }

  /** The lines the leftover loop evidently means to print: `NOW: None` for each
    * entry left in `stored`, in stored order. */
  function LeftoverVerdicts(left: Dict): seq<Verdict> {
    seq(|left.order|, i requires 0 <= i < |left.order| => Mismatch(left.order[i], left.Get(left.order[i]), None))
  }

  /** The report the diff is meant to print: the sorted-loop verdicts, then a
    * mismatch for every baseline address the sweep no longer sees. */
  function IntendedReport(cur: Dict, stored: Dict, verbose: bool): seq<Verdict> {
    var r := Reconcile(cur, stored, verbose);
    r.report + LeftoverVerdicts(r.leftover)
  }

  /** The intended report holds a mismatch for an address exactly when the
    * address is in either mapping and the two sides differ (a missing side
    * counting as `None`), and an OK line exactly when both agree and the run is
    * verbose. */
  lemma IntendedReportComplete(cur: Dict, stored: Dict, verbose: bool, ip: string, s: Host, n: Host)
    requires cur.Valid() && stored.Valid()
    ensures Mismatch(ip, s, n) in IntendedReport(cur, stored, verbose) <==>
      && (ip in cur.vals || ip in stored.vals)
      && s == stored.Get(ip) && n == cur.Get(ip)
      && (ip in cur.vals ==> s != n)
    ensures Ok(ip, n) in IntendedReport(cur, stored, verbose) <==>
      ip in cur.vals && verbose && n == cur.Get(ip) && stored.Get(ip) == n
  {
    var r := Reconcile(cur, stored, verbose);
    var keys := SortKeys(cur.order);
    SortedKeys(cur);
    assert ip in keys <==> ip in cur.vals by {
      assert ip in keys <==> ip in Elements(keys);
    }
    VerdictsExactly(cur, stored, keys, verbose, ip, s, n);
    LeftoverExactly(cur, stored, verbose);
    LeftoverVerdictsExactly(r.leftover, ip, s, n);
    assert Mismatch(ip, s, n) in r.report + LeftoverVerdicts(r.leftover) <==>
      Mismatch(ip, s, n) in r.report || Mismatch(ip, s, n) in LeftoverVerdicts(r.leftover);
    assert Ok(ip, n) in r.report + LeftoverVerdicts(r.leftover) <==>
      Ok(ip, n) in r.report || Ok(ip, n) in LeftoverVerdicts(r.leftover);
  }

  /** The leftover lines are exactly the `NOW: None` mismatches of the leftover entries. */
  lemma LeftoverVerdictsExactly(left: Dict, ip: string, s: Host, n: Host)
    ensures Mismatch(ip, s, n) in LeftoverVerdicts(left) <==> ip in left.order && s == left.Get(ip) && n == None
    ensures Ok(ip, n) !in LeftoverVerdicts(left)
  {
    var lv := LeftoverVerdicts(left);
    if Mismatch(ip, s, n) in lv {
      var i :| 0 <= i < |lv| && lv[i] == Mismatch(ip, s, n);
      assert left.order[i] == ip;
    }
    if ip in left.order && s == left.Get(ip) && n == None {
      var i :| 0 <= i < |left.order| && left.order[i] == ip;
      assert lv[i] == Mismatch(ip, s, n);
    }
  }

  /** The intended report speaks of every address at most once. */
  lemma IntendedReportOncePerAddress(cur: Dict, stored: Dict, verbose: bool)
    requires cur.Valid() && stored.Valid()
    ensures Distinct(Ips(IntendedReport(cur, stored, verbose)))
  {
    var keys := SortKeys(cur.order);
    var rep := Reconcile(cur, stored, verbose).report;
    var left := Reconcile(cur, stored, verbose).leftover;
    var lv := LeftoverVerdicts(left);
    ReportAscending(cur, stored, verbose);
    AscendingDistinct(Ips(rep));
    LeftoverExactly(cur, stored, verbose);
    SortedKeys(cur);
    forall i | 0 <= i < |rep| ensures Ips(rep)[i] in cur.vals {
      VerdictsAbout(cur, stored, keys, verbose, i);
      assert rep[i].ip in Elements(keys);
    }
    assert Ips(lv) == left.order;
    DistinctAppend(Ips(rep), left.order, cur.vals.Keys);
    IpsAppend(rep, lv);
  }

  lemma IpsAppend(a: seq<Verdict>, b: seq<Verdict>)
    ensures Ips(a + b) == Ips(a) + Ips(b)
  {
    assert |Ips(a + b)| == |Ips(a) + Ips(b)|;
    forall i | 0 <= i < |a + b| ensures Ips(a + b)[i] == (Ips(a) + Ips(b))[i] {
      if i < |a| {
        assert (a + b)[i] == a[i];
      } else {
        assert (a + b)[i] == b[i - |a|];
      }
    }
  }

  lemma DistinctAppend(x: seq<string>, y: seq<string>, inX: set<string>)
    requires Distinct(x) && Distinct(y)
    requires forall i :: 0 <= i < |x| ==> x[i] in inX
    requires forall j :: 0 <= j < |y| ==> y[j] !in inX
    ensures Distinct(x + y)
  {
    var xy := x + y;
    forall i, j | 0 <= i < j < |xy| ensures xy[i] != xy[j] {
      if j < |x| {
      } else if i < |x| {
        assert xy[i] == x[i] && xy[j] == y[j - |x|];
      } else {
        assert xy[i] == y[i - |x|] && xy[j] == y[j - |x|];
      }
    }
  }

  /** The code as written prints the intended report exactly when nothing is left
    * in `stored`, which is when every baseline address is still in `current`;
    * otherwise line 94 raises and the leftover mismatches are never printed. */
  lemma LeftoverRaises(cur: Dict, stored: Dict, verbose: bool)
    requires cur.Valid() && stored.Valid()
    ensures Reconcile(cur, stored, verbose).leftover.order == [] <==> stored.vals.Keys <= cur.vals.Keys
    ensures Reconcile(cur, stored, verbose).leftover.order == [] <==>
      Reconcile(cur, stored, verbose).report == IntendedReport(cur, stored, verbose)
  {
    var r := Reconcile(cur, stored, verbose);
    LeftoverExactly(cur, stored, verbose);
    if !(stored.vals.Keys <= cur.vals.Keys) {
      var k :| k in stored.vals && k !in cur.vals;
      assert k in r.leftover.order;
    }
    if r.leftover.order != [] {
      assert r.leftover.order[0] in r.leftover.order;
    }
    assert r.report + LeftoverVerdicts(r.leftover) == r.report <==> LeftoverVerdicts(r.leftover) == [] by {
      assert (r.report + LeftoverVerdicts(r.leftover))[..|r.report|] == r.report;
    }
  }

  /** Comparing a mapping with itself reports no mismatch and leaves nothing
    * over; a quiet run prints nothing. */
  lemma ReconcileWithItself(cur: Dict, verbose: bool)
    requires cur.Valid()
    ensures var r := Reconcile(cur, cur, verbose);
      && r.leftover.order == []
      && (forall v :: v in r.report ==> v.Ok? && v.ip in cur.vals)
      && (!verbose ==> r.report == [])
  {
    var r := Reconcile(cur, cur, verbose);
    LeftoverRaises(cur, cur, verbose);
    forall v | v in r.report ensures v.Ok? && v.ip in cur.vals {
      assert v in IntendedReport(cur, cur, verbose);
      match v
      case Ok(ip, h) => IntendedReportComplete(cur, cur, verbose, ip, h, h);
      case Mismatch(ip, s, n) => IntendedReportComplete(cur, cur, verbose, ip, s, n);
    }
    if r.report != [] {
      VerdictsAbout(cur, cur, SortKeys(cur.order), verbose, 0);
      assert r.report[0] in r.report;
    }
  }

  /** The two-host example: `10.0.0.2` has left the network since the baseline
    * was taken and `10.0.0.3` has joined it. */
  const SweptNow: Dict := Dict(map["10.0.0.1" := Some("host1"), "10.0.0.3" := Some("host3")], ["10.0.0.1", "10.0.0.3"])
  const Snapshot: Dict := Dict(map["10.0.0.1" := Some("host1"), "10.0.0.2" := Some("host2")], ["10.0.0.1", "10.0.0.2"])

  lemma ScenarioKeys()
    ensures SortKeys(SweptNow.order) == ["10.0.0.1", "10.0.0.3"]
  {
    var a: string, b: string := "10.0.0.1", "10.0.0.3";
    BelowCommonPrefix("10.0.0.", "1", "3");
    assert "10.0.0." + "1" == a && "10.0.0." + "3" == b;
    SortTwo(a, b);
  }

  lemma ScenarioVerdicts()
    ensures Verdicts(SweptNow, Snapshot, ["10.0.0.1", "10.0.0.3"], true) ==
      [Ok("10.0.0.1", Some("host1")), Mismatch("10.0.0.3", None, Some("host3"))]
  {
    var a: string, b: string := "10.0.0.1", "10.0.0.3";
    assert a[7] != b[7] && b[7] != "10.0.0.2"[7];
    assert [a, b][..1] == [a];
    assert Verdicts(SweptNow, Snapshot, [a], true) == [Ok(a, Some("host1"))] by {
      assert [a][..0] == [];
    }
    assert Snapshot.Get(b) == None;
  }

  lemma ScenarioLeftover()
    ensures PopAll(Snapshot, ["10.0.0.1", "10.0.0.3"]).order == ["10.0.0.2"]
    ensures PopAll(Snapshot, ["10.0.0.1", "10.0.0.3"]).Get("10.0.0.2") == Some("host2")
  {
    var a: string, b: string, x: string := "10.0.0.1", "10.0.0.3", "10.0.0.2";
    assert a[7] != x[7] && b[7] != x[7];
    PopTwo(Snapshot, a, b);
    FilterOutPair(a, x, {a});
    FilterOutSingle(x, {b});
  }

  lemma PopTwo(d: Dict, a: string, b: string)
    ensures PopAll(d, [a, b]) == d.Without(a).Without(b)
  {
    var ab: seq<string> := [a, b];
    assert ab[..1] == [a];
    var one: seq<string> := [a];
    assert one[..0] == [];
    assert PopAll(d, one) == PopAll(d, []).Without(a);
  }

  lemma FilterOutPair(a: string, x: string, drop: set<string>)
    requires a in drop && x !in drop
    ensures FilterOut([a, x], drop) == [x]
  {
    var ax: seq<string> := [a, x];
    var one: seq<string> := [a];
    assert one[..0] == [];
    assert FilterOut(one, drop) == FilterOut([], drop);
    assert ax[..1] == one;
    assert FilterOut(ax, drop) == FilterOut(one, drop) + [x];
  }

  lemma OneLeftover(cur: Dict, stored: Dict, verbose: bool, x: string)
    requires Reconcile(cur, stored, verbose).leftover.order == [x]
    ensures IntendedReport(cur, stored, verbose) ==
      Reconcile(cur, stored, verbose).report + [Mismatch(x, Reconcile(cur, stored, verbose).leftover.Get(x), None)]
  {
  }

  /** On the two-host example, the code as written prints the OK line and the
    * mismatch for the new host, and then `10.0.0.2` is still in `stored`, so
    * the leftover loop raises. */
  lemma DepartedHostAsWritten()
    ensures Reconcile(SweptNow, Snapshot, true).report ==
      [Ok("10.0.0.1", Some("host1")), Mismatch("10.0.0.3", None, Some("host3"))]
    ensures Reconcile(SweptNow, Snapshot, true).leftover.order == ["10.0.0.2"]
    ensures Reconcile(SweptNow, Snapshot, true).leftover.Get("10.0.0.2") == Some("host2")
  {
    ScenarioKeys();
    ScenarioVerdicts();
    ScenarioLeftover();
  }

  /** The intended report on the two-host example ends with the departed host. */
  lemma DepartedHostIntended()
    ensures IntendedReport(SweptNow, Snapshot, true) ==
      [Ok("10.0.0.1", Some("host1")), Mismatch("10.0.0.3", None, Some("host3")), Mismatch("10.0.0.2", Some("host2"), None)]
  {
    DepartedHostAsWritten();
    OneLeftover(SweptNow, Snapshot, true, "10.0.0.2");
  }
}
