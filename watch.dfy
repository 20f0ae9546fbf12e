/**
 * One run of `watch` for one subnet: pick the baseline file, sweep the subnet
 * into `current`, then either store `current` as the new baseline (prepare
 * mode) or load the baseline and compare it with `current` (watch mode).
 *
 * The filesystem is modelled by its inputs: the user's home directory, and
 * the baseline file's text, `None` when the file does not exist. Enumerating
 * the subnet and reverse resolution are modelled by the list of addresses and
 * the resolver oracle.
 */
module Watch {
  import opened Wrappers
  import opened Text
  import opened HostMap
  import opened Baseline
  import opened Resolver
  import opened Reconcile

  /** `settings_dir`: the `.dnswatch` directory under the home directory. */
  function SettingsDir(home: string): string {
    home + "/.dnswatch"
  }

  /** `subnet.replace('/', '_')`: the subnet written as one file name. */
  function BaselineName(subnet: string): (name: string)
    ensures |name| == |subnet|
    ensures forall i :: 0 <= i < |subnet| ==> name[i] == if subnet[i] == '/' then '_' else subnet[i]
  {
    if subnet == [] then []
    else [if subnet[0] == '/' then '_' else subnet[0]] + BaselineName(subnet[1..])
  }

  /** The baseline file of a subnet. */
  function BaselinePath(home: string, subnet: string): string {
    SettingsDir(home) + "/" + BaselineName(subnet)
  }

  /** The baseline file lies directly in the settings directory: its name holds
    * no path separator. */
  lemma BaselineInSettingsDir(home: string, subnet: string)
    ensures var dir := SettingsDir(home) + "/";
      && BaselinePath(home, subnet)[..|dir|] == dir
      && '/' !in BaselinePath(home, subnet)[|dir|..]
  {
    var dir := SettingsDir(home) + "/";
    var name := BaselineName(subnet);
    assert BaselinePath(home, subnet)[|dir|..] == name;
    forall i | 0 <= i < |name| ensures name[i] != '/' {
    }
  }

  /** Two subnets written without `_` (as IPv4 subnets are) never share a
    * baseline file. */
  lemma DistinctSubnetsDistinctFiles(a: string, b: string)
    requires '_' !in a && '_' !in b
    requires BaselineName(a) == BaselineName(b)
    ensures a == b
  {
    assert |a| == |b|;
    forall i | 0 <= i < |a| ensures a[i] == b[i] {
      assert a[i] != '_' && b[i] != '_';
      assert BaselineName(a)[i] == BaselineName(b)[i];
    }
  }

  /** Why a comparison stopped early: `load` raised `IndexError` at a line, or
    * the leftover loop raised `TypeError` at an address. */
  datatype Fault =
    | MalformedLine(index: nat)
    | UnformattableLeftover(ip: string)

  /** What a run produced after the sweep: the text written as the new
    * baseline, or the verdicts printed before the run ended and the fault
    * that ended it, if any. */
  datatype Outcome =
    | Stored(text: string)
    | Compared(report: seq<Verdict>, fault: Option<Fault>)

  /** The baseline file, the `<address>: <hostname>` lines echoed during the
    * sweep, and the outcome. */
  datatype Run = Run(file: string, echoed: seq<(string, string)>, outcome: Outcome)

  /** Watch mode after the sweep: load the baseline text into an empty mapping
    * and compare it with `cur`. The run ends early, with a fault, when a line
    * has no comma, or when any baseline address is missing from `cur`. */
  function Compare(cur: Dict, text: string, verbose: bool): (r: Outcome)
    requires cur.Valid()
    ensures r.Compared?
    ensures r.fault.None? <==>
      LoadLines(Empty, ReadLines(text)).Loaded? && LoadLines(Empty, ReadLines(text)).d.vals.Keys <= cur.vals.Keys
    ensures (r.fault.Some? && r.fault.value.MalformedLine?) <==> exists i :: 0 <= i < |ReadLines(text)| && !HasComma(ReadLines(text)[i])
    ensures r.fault.Some? && r.fault.value.MalformedLine? ==> r.report == []
  {
    LoadCompletesIff(Empty, ReadLines(text));
    match LoadLines(Empty, ReadLines(text))
    case Malformed(n, _) => Compared([], Some(MalformedLine(n)))
    case Loaded(st) =>
      LoadKeepsValid(Empty, ReadLines(text));
      LeftoverRaises(cur, st, verbose);
      var rec := Reconcile.Reconcile(cur, st, verbose);
      Compared(rec.report, if rec.leftover.order == [] then None else Some(UnformattableLeftover(rec.leftover.order[0])))
  }

  /** `watch(subnet, prepare, verbose)` */
  method Watch(home: string, subnet: string, prepare: bool, verbose: bool, baseline: Option<string>,
               addrs: seq<string>, resolve: string -> Host)
    returns (run: Run)
    ensures run.file == BaselinePath(home, subnet)
    ensures run.outcome.Stored? <==> prepare || baseline.None?
    ensures run.echoed == if (prepare || baseline.None?) && verbose then Echoes(addrs, resolve) else []
    ensures run.outcome.Stored? ==> run.outcome.text == StoreText(SweepFrom(Empty, addrs, resolve))
    ensures run.outcome.Compared? ==> run.outcome == Compare(SweepFrom(Empty, addrs, resolve), baseline.value, verbose)
  {
    var current := new HostMapping();
    var stored := new HostMapping();
    var file := BaselinePath(home, subnet);
    var prepare := prepare || baseline.None?;
    var echoed := Sweep(addrs, resolve, current, prepare && verbose);
    if prepare {
      var text := Store(current);
      return Run(file, echoed, Stored(text));
    }
    var failedAt := Load(baseline.value, stored);
    if failedAt.Some? {
      return Run(file, echoed, Compared([], Some(MalformedLine(failedAt.value))));
    }
    var report, crash := Diff(current, stored, verbose);
    var fault := if crash.None? then None else Some(UnformattableLeftover(crash.value));
    return Run(file, echoed, Compared(report, fault));
  }

  /** Prepare, then watch while every address resolves as before: the baseline
    * loads back as the swept mapping, and the comparison finds no mismatch and
    * no fault (and prints nothing when quiet), provided every recorded address
    * and name can be stored and read back in one piece. */
  lemma UnchangedNetworkIsQuiet(addrs: seq<string>, resolve: string -> Host, verbose: bool)
    requires StorableDict(SweepFrom(Empty, addrs, resolve))
    ensures var cur := SweepFrom(Empty, addrs, resolve);
      && LoadLines(Empty, ReadLines(StoreText(cur))) == Loaded(cur)
      && Compare(cur, StoreText(cur), verbose).fault.None?
      && (forall v :: v in Compare(cur, StoreText(cur), verbose).report ==> v.Ok?)
      && (!verbose ==> Compare(cur, StoreText(cur), verbose).report == [])
  {
    var cur := SweepFrom(Empty, addrs, resolve);
    forall k | k in cur.vals ensures Kept(cur.vals[k]) {
      SweepKeepsOnlyKept(addrs, resolve, k);
    }
    RoundTrip(cur);
    RetainedAllKept(cur);
    ReconcileWithItself(cur, verbose);
  }

  /** The two-host example end to end: the baseline written for
    * `{10.0.0.1: host1, 10.0.0.2: host2}` is compared with a sweep that found
    * `{10.0.0.1: host1, 10.0.0.3: host3}`. The two verdicts of the sorted loop
    * are printed, and then the leftover loop raises on `10.0.0.2`. */
  lemma DepartedHostFaults()
    ensures SweptNow.Valid()
    ensures Compare(SweptNow, StoreText(Snapshot), true) ==
      Compared([Ok("10.0.0.1", Some("host1")), Mismatch("10.0.0.3", None, Some("host3"))],
               Some(UnformattableLeftover("10.0.0.2")))
  {
    ScenarioValid();
    SnapshotReadsBack();
    DepartedHostAsWritten();
  }

  lemma ScenarioValid()
    ensures SweptNow.Valid() && Snapshot.Valid()
  {
    var a: string, b: string, c: string := "10.0.0.1", "10.0.0.2", "10.0.0.3";
    assert a[7] != b[7] && a[7] != c[7];
  }

  /** The baseline written for the example reads back unchanged. */
  lemma SnapshotReadsBack()
    ensures LoadLines(Empty, ReadLines(StoreText(Snapshot))) == Loaded(Snapshot)
  {
    ScenarioValid();
    forall k | k in Snapshot.vals
      ensures Kept(Snapshot.vals[k]) && Storable(k, Snapshot.vals[k].value)
    {
    }
    RoundTrip(Snapshot);
    RetainedAllKept(Snapshot);
  }
}
