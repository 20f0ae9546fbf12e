/**
 * The baseline file: `store` writes a mapping as `ip,hostname` lines and
 * `load` reads such lines back into a mapping. The file is modelled by its
 * text; opening, closing and the settings directory are not part of this model.
 */
module Baseline {
  import opened Wrappers
  import opened Text
  import opened Ordering
  import opened HostMap

  /** One record of the file: `"%s,%s\n" % (ip, hostname)`. */
  function Line(ip: string, host: string): string {
    ip + "," + host + "\n"
  }

  /** The records `store` writes for the keys `keys` of `vals`, in that order:
    * one per key whose name passes `Kept`. */
  function Written(vals: map<string, Host>, keys: seq<string>): seq<string> {
    if keys == [] then []
    else
      var k := keys[|keys| - 1];
      Written(vals, keys[..|keys| - 1])
        + (if k in vals && Kept(vals[k]) then [Line(k, vals[k].value)] else [])
  }

  /** The whole text `store` writes for the dict `d`. */
  function StoreText(d: Dict): string {
    Concat(Written(d.vals, d.order))
  }

  /** `store`: loops over `mapping.items()` and writes a record for every kept name. */
  method Store(mapping: HostMapping) returns (text: string)
    requires mapping.Valid()
    ensures text == StoreText(mapping.Value())
  {
    var d := mapping.Value();
    var items := d.Items();
    text := "";
    var i := 0;
    while i < |items|
      invariant 0 <= i <= |items|
      invariant text == Concat(Written(d.vals, d.order[..i]))
    {
      var (ip, hostname) := items[i];
      assert items[i] in items;
      assert ip == d.order[i] && d.vals[ip] == hostname;
      WrittenStep(d.vals, d.order, i);
      ghost var w := Written(d.vals, d.order[..i]);
      if hostname != None && !EndsWith(hostname.value, ".local") {
        ConcatAppend(w, [Line(ip, hostname.value)]);
        text := text + Line(ip, hostname.value);
      } else {
        assert w + [] == w;
      }
      i := i + 1;
    }
    assert d.order[..i] == d.order;
  }

  /** One more key of `store`'s loop. */
  lemma WrittenStep(vals: map<string, Host>, keys: seq<string>, i: nat)
    requires i < |keys|
    ensures Written(vals, keys[..i + 1]) == Written(vals, keys[..i])
      + (if keys[i] in vals && Kept(vals[keys[i]]) then [Line(keys[i], vals[keys[i]].value)] else [])
  {
    assert keys[..i + 1][..i] == keys[..i];
  }

  /** `line.strip().split(',')` followed by `entry[0]` and `entry[1]`: the first
    * two fields, or `None` where `entry[1]` raises `IndexError` because the
    * stripped line has no comma. The two fields are the text before the first
    * comma and the text up to the next comma or the end. */
  function ParseLine(line: string): (r: Option<(string, string)>)
    ensures r.None? <==> ',' !in Strip(line)
    ensures r.Some? ==> ',' !in r.value.0 && ',' !in r.value.1
    ensures r.Some? ==>
      var s, n := Strip(line), |r.value.0| + 1 + |r.value.1|;
      n <= |s| && s[..n] == r.value.0 + "," + r.value.1 && (n == |s| || s[n] == ',')
  {
    var entry := Split(Strip(line), ',');
    if |entry| < 2 then None
    else
      JoinFirstTwo(entry, ',');
      Some((entry[0], entry[1]))
  }

  lemma JoinFirstTwo(fields: seq<string>, sep: char)
    requires |fields| >= 2
    ensures var j, n := Join(fields, sep), |fields[0]| + 1 + |fields[1]|;
      n <= |j| && j[..n] == fields[0] + [sep] + fields[1] && (n == |j| || j[n] == sep)
  {
    if |fields| > 2 {
      assert Join(fields[1..], sep) == fields[1] + [sep] + Join(fields[2..], sep);
    }
  }

  /** What `load` has done after a sequence of lines. */
  datatype LoadResult =
    | Loaded(d: Dict)
      /** `entry[1]` raised `IndexError` on line `index`; `partial` holds the
        * assignments made before it. */
    | Malformed(index: nat, partial: Dict)

  /** `load`'s loop over `lines`, starting from the dict `d`: each line assigns
    * its second field to its first, until a line without a comma. */
  function LoadLines(d: Dict, lines: seq<string>): LoadResult {
    if lines == [] then Loaded(d)
    else
      match LoadLines(d, lines[..|lines| - 1])
      case Malformed(n, p) => Malformed(n, p)
      case Loaded(p) =>
        match ParseLine(lines[|lines| - 1])
        case None => Malformed(|lines| - 1, p)
        case Some(entry) => Loaded(p.Put(entry.0, Some(entry.1)))
  }

  /** Loading into a well-formed mapping leaves it well formed. */
  lemma {:induction false} LoadKeepsValid(d: Dict, lines: seq<string>)
    requires d.Valid()
    ensures LoadLines(d, lines).Loaded? ==> LoadLines(d, lines).d.Valid()
    ensures LoadLines(d, lines).Malformed? ==> LoadLines(d, lines).partial.Valid()
  {
    if lines != [] {
      LoadKeepsValid(d, lines[..|lines| - 1]);
    }
  }

  /** Once a line has raised, later lines change nothing. */
  lemma {:induction false} MalformedStays(d: Dict, lines: seq<string>, n: nat)
    requires n <= |lines| && LoadLines(d, lines[..n]).Malformed?
    ensures LoadLines(d, lines) == LoadLines(d, lines[..n])
    decreases |lines| - n
  {
    if n < |lines| {
      assert lines[..n + 1][..n] == lines[..n];
      MalformedStays(d, lines, n + 1);
    } else {
      assert lines[..n] == lines;
    }
  }

  /** The name a sequence of lines leaves for `ip`: the second field of the last
    * line whose first field is `ip`, or `dflt` when no line names it. */
  function LastFor(lines: seq<string>, ip: string, dflt: Host): Host {
    if lines == [] then dflt
    else
      var rest := LastFor(lines[..|lines| - 1], ip, dflt);
      match ParseLine(lines[|lines| - 1])
      case Some(entry) => if entry.0 == ip then Some(entry.1) else rest
      case None => rest
  }

  /** A later line for the same address overwrites an earlier one, and addresses
    * no line names keep what the dict held before. */
  lemma {:induction false} LaterLineWins(d: Dict, lines: seq<string>, ip: string)
    requires LoadLines(d, lines).Loaded?
    ensures LoadLines(d, lines).d.Get(ip) == LastFor(lines, ip, d.Get(ip))
  {
    if lines != [] {
      LaterLineWins(d, lines[..|lines| - 1], ip);
    }
  }

  /** The test that decides whether `entry[1]` exists. */
  predicate HasComma(line: string) {
    ',' in Strip(line)
  }

  /** `load` gets through all lines exactly when every stripped line holds a comma. */
  lemma LoadCompletesIff(d: Dict, lines: seq<string>)
    ensures LoadLines(d, lines).Loaded? <==> forall i :: 0 <= i < |lines| ==> HasComma(lines[i])
  {
    LoadCompletesExactly(d, lines);
    AllHaveCommaIff(lines);
  }

  /** Every line of `lines` holds a comma once stripped. */
  predicate AllHaveComma(lines: seq<string>) {
    lines == [] || (AllHaveComma(lines[..|lines| - 1]) && HasComma(lines[|lines| - 1]))
  }

  lemma {:induction false} LoadCompletesExactly(d: Dict, lines: seq<string>)
    ensures LoadLines(d, lines).Loaded? <==> AllHaveComma(lines)
  {
    if lines != [] {
      LoadCompletesExactly(d, lines[..|lines| - 1]);
      LoadedStep(d, lines);
    }
  }

  lemma {:induction false} AllHaveCommaIff(lines: seq<string>)
    ensures AllHaveComma(lines) <==> forall i :: 0 <= i < |lines| ==> HasComma(lines[i])
  {
    if lines != [] {
      var init, last := lines[..|lines| - 1], lines[|lines| - 1];
      AllHaveCommaIff(init);
      AllCommaSnoc(init, last);
      assert lines == init + [last];
    }
  }

  lemma AllCommaSnoc(init: seq<string>, last: string)
    ensures (forall i :: 0 <= i < |init + [last]| ==> HasComma((init + [last])[i])) <==>
      (forall i :: 0 <= i < |init| ==> HasComma(init[i])) && HasComma(last)
  {
    var lines := init + [last];
    assert forall i :: 0 <= i < |init| ==> lines[i] == init[i];
    assert lines[|init|] == last;
  }

  lemma LoadedStep(d: Dict, lines: seq<string>)
    requires lines != []
    ensures LoadLines(d, lines).Loaded? <==>
      LoadLines(d, lines[..|lines| - 1]).Loaded? && HasComma(lines[|lines| - 1])
  {
    assert ParseLine(lines[|lines| - 1]).Some? <==> HasComma(lines[|lines| - 1]);
  }

  /** Otherwise it stops at the first line without a comma, having assigned the
    * lines before it. */
  lemma {:induction false} LoadStopsAtFirstCommaless(d: Dict, lines: seq<string>)
    requires LoadLines(d, lines).Malformed?
    ensures var n := LoadLines(d, lines).index;
      && n < |lines| && !HasComma(lines[n])
      && (forall i :: 0 <= i < n ==> HasComma(lines[i]))
      && LoadLines(d, lines[..n]) == Loaded(LoadLines(d, lines).partial)
  {
    var init, last := lines[..|lines| - 1], lines[|lines| - 1];
    assert lines == init + [last];
    if LoadLines(d, init).Malformed? {
      LoadStopsAtFirstCommaless(d, init);
      var n := LoadLines(d, init).index;
      assert init[..n] == lines[..n];
      assert LoadLines(d, lines) == LoadLines(d, init);
    } else {
      LoadCompletesIff(d, init);
      assert ParseLine(last).None?;
      assert LoadLines(d, lines) == Malformed(|init|, LoadLines(d, init).d);
    }
  }

  /** One more line of `load`'s loop. */
  lemma LoadStep(d: Dict, lines: seq<string>, i: nat, p: Dict)
    requires i < |lines| && LoadLines(d, lines[..i]) == Loaded(p)
    ensures LoadLines(d, lines[..i + 1]) ==
      match ParseLine(lines[i])
      case None => Malformed(i, p)
      case Some(entry) => Loaded(p.Put(entry.0, Some(entry.1)))
  {
    assert lines[..i + 1][..i] == lines[..i];
  }

  /** `load`: reads the lines of `text` and assigns into `mapping`. Returns the
    * index of the line at which `IndexError` was raised, if any. */
  method Load(text: string, mapping: HostMapping) returns (failedAt: Option<nat>)
    requires mapping.Valid()
    modifies mapping
    ensures mapping.Valid()
    ensures LoadLines(old(mapping.Value()), ReadLines(text)) ==
      if failedAt.None? then Loaded(mapping.Value()) else Malformed(failedAt.value, mapping.Value())
  {
    var lines := ReadLines(text);
    ghost var d0 := mapping.Value();
    var i := 0;
    while i < |lines|
      invariant 0 <= i <= |lines|
      invariant mapping.Valid()
      invariant LoadLines(d0, lines[..i]) == Loaded(mapping.Value())
    {
      var entry := ParseLine(lines[i]);
      LoadStep(d0, lines, i, mapping.Value());
      if entry.None? {
        MalformedStays(d0, lines, i + 1);
        return Some(i);
      }
      mapping.Set(entry.value.0, Some(entry.value.1));
      i := i + 1;
    }
    assert lines[..i] == lines;
    return None;
  }

  /** Lines are read back in one piece only when these hold: no comma or line
    * break in either field, no leading whitespace in the address and no
    * trailing whitespace in the name. */
  predicate Storable(ip: string, host: string) {
    && ',' !in ip && '\n' !in ip && '\r' !in ip
    && ',' !in host && '\n' !in host && '\r' !in host
    && (ip == [] || !IsSpace(ip[0]))
    && (host == [] || !IsSpace(host[|host| - 1]))
  }

  /** Every entry `store` writes can be read back in one piece. */
  ghost predicate StorableDict(d: Dict) {
    forall k :: k in d.vals && Kept(d.vals[k]) ==> Storable(k, d.vals[k].value)
  }

  /** A record reads back as the address and name it was written from. */
  lemma LineParses(ip: string, host: string)
    requires Storable(ip, host)
    ensures ParseLine(Line(ip, host)) == Some((ip, host))
  {
    var core := ip + "," + host;
    assert Line(ip, host) == core + "\n";
    assert core[0] == (if ip == [] then ',' else ip[0]);
    assert core[|core| - 1] == (if host == [] then ',' else host[|host| - 1]);
    StripFramed(core, "\n");
    SplitPair(ip, host, ',');
  }

  /** `d` restricted to the entries `store` writes, in the order `store` writes them. */
  function Retained(vals: map<string, Host>, keys: seq<string>): Dict {
    if keys == [] then Empty
    else
      var k := keys[|keys| - 1];
      var r := Retained(vals, keys[..|keys| - 1]);
      if k in vals && Kept(vals[k]) then r.Put(k, vals[k]) else r
  }

  /** The names `store` skips. */
  function Skipped(vals: map<string, Host>): set<string> {
    set k | k in vals && !Kept(vals[k])
  }

  /** The restriction keeps exactly the entries with a kept name, with their
    * values and in their original order. */
  lemma {:induction false} RetainedExactly(vals: map<string, Host>, keys: seq<string>)
    requires Distinct(keys) && forall k :: k in keys ==> k in vals
    ensures Retained(vals, keys).Valid()
    ensures Retained(vals, keys).vals == map k | k in vals && k in keys && Kept(vals[k]) :: vals[k]
    ensures Retained(vals, keys).order == FilterOut(keys, Skipped(vals))
  {
    if keys != [] {
      var init, k := keys[..|keys| - 1], keys[|keys| - 1];
      assert keys == init + [k];
      assert k !in init;
      RetainedExactly(vals, init);
      var r := Retained(vals, init);
      KeptEntriesSnoc(vals, init, k);
      if Kept(vals[k]) {
        assert Retained(vals, keys) == r.Put(k, vals[k]);
        assert k !in r.vals;
        assert FilterOut(keys, Skipped(vals)) == FilterOut(init, Skipped(vals)) + [k];
      } else {
        assert Retained(vals, keys) == r;
        assert FilterOut(keys, Skipped(vals)) == FilterOut(init, Skipped(vals));
      }
    }
  }

  lemma KeptEntriesSnoc(vals: map<string, Host>, init: seq<string>, k: string)
    requires k in vals
    ensures var m0 := map x | x in vals && x in init && Kept(vals[x]) :: vals[x];
      (map x | x in vals && x in init + [k] && Kept(vals[x]) :: vals[x]) ==
        if Kept(vals[k]) then m0[k := vals[k]] else m0
  {
  }

  /** One complete line: ends in its only `\n` and holds no `\r`. */
  ghost predicate CompleteLine(line: string) {
    line != [] && line[|line| - 1] == '\n' && '\n' !in line[..|line| - 1] && '\r' !in line
  }

  /** Every record `store` writes is one complete line when no field holds a
    * line break; a comma in a field does not split the record. */

  lemma {:induction false} WrittenAreLines(vals: map<string, Host>, keys: seq<string>)
    requires forall k :: k in keys && k in vals && Kept(vals[k]) ==>
      '\n' !in k && '\r' !in k && '\n' !in vals[k].value && '\r' !in vals[k].value
    ensures forall i :: 0 <= i < |Written(vals, keys)| ==> CompleteLine(Written(vals, keys)[i])
  {
    if keys != [] {
      var init, k := keys[..|keys| - 1], keys[|keys| - 1];
      WrittenAreLines(vals, init);
      var w0 := Written(vals, init);
      if k in vals && Kept(vals[k]) {
        var line := Line(k, vals[k].value);
        assert line[..|line| - 1] == k + "," + vals[k].value;
        assert CompleteLine(line);
        var w := w0 + [line];
        assert Written(vals, keys) == w;
        assert forall i :: 0 <= i < |w| ==> w[i] == if i < |w0| then w0[i] else line;
      } else {
        assert Written(vals, keys) == w0 + [];
      }
    }
  }

  /** Loading the records of a sequence of keys rebuilds the restriction to them. */
  lemma {:induction false} LoadWritten(vals: map<string, Host>, keys: seq<string>)
    requires forall k :: k in keys && k in vals && Kept(vals[k]) ==> Storable(k, vals[k].value)
    ensures LoadLines(Empty, Written(vals, keys)) == Loaded(Retained(vals, keys))
  {
    if keys != [] {
      var init, k := keys[..|keys| - 1], keys[|keys| - 1];
      LoadWritten(vals, init);
      var w := Written(vals, init);
      if k in vals && Kept(vals[k]) {
        LineParses(k, vals[k].value);
        assert (w + [Line(k, vals[k].value)])[..|w|] == w;
      } else {
        assert w + [] == w;
      }
    }
  }

  /** A mapping holding no skipped name is its own restriction. */
  lemma RetainedAllKept(d: Dict)
    requires d.Valid() && forall k :: k in d.vals ==> Kept(d.vals[k])
    ensures Retained(d.vals, d.order) == d
  {
    RetainedExactly(d.vals, d.order);
    var r := Retained(d.vals, d.order);
    assert r.vals == d.vals;
    assert Skipped(d.vals) == {};
    FilterOutNothing(d.order);
  }

  /** `load` after `store` on an empty dict gives back the stored dict
    * restricted to the names `store` writes: same entries, same order. */
  lemma RoundTrip(d: Dict)
    requires d.Valid() && StorableDict(d)
    ensures LoadLines(Empty, ReadLines(StoreText(d))) == Loaded(Retained(d.vals, d.order))
  {
    var w := Written(d.vals, d.order);
    WrittenAreLines(d.vals, d.order);
    assert forall i :: 0 <= i < |w| ==> CompleteLine(w[i]);
    ConcatLacks(w, '\r');
    SplitLinesConcat(w);
    LoadWritten(d.vals, d.order);
  }
}
