# dnswatch in Dafny

dnswatch keeps an eye on the reverse-DNS names of an IPv4 subnet. One run of
`watch` for a subnet does the following:

- It looks up every address of the subnet with `socket.gethostbyaddr`. The
  resulting mapping `current` keeps each name that resolved and does not end
  in `.local`.
- In prepare mode, or when the subnet has no baseline file yet, it writes
  `current` to the baseline file in `~/.dnswatch` as `ip,hostname` lines.
- Otherwise it loads the baseline into `stored`. It then walks `current` in
  sorted address order, pops each address from `stored` and prints a
  `MISMATCH` or (when verbose) `OK` line. Finally it walks what is left in
  `stored`. Line 94 raises `TypeError` on the first leftover entry (see
  "## Findings"), so a departed host ends the run instead of being reported.

This project models that core of `dnswatch.py` and proves what it promises.
The modules follow the program:

- `HostMap`: Python dicts as ordered maps. `Dict` is a dict as a value: its
  entries plus its insertion order. `HostMapping` is a dict the program
  updates in place, with `Set` for `d[k] = v` and `Pop` for `d.pop(k, None)`.
- `Text`: the Python string and file-text operations the baseline format
  relies on. These are `endswith`, `strip`, `split(',')`, universal-newline
  translation and `readlines()`.
- `Ordering`: `sorted()` on address strings, as lexicographic code-point
  order.
- `Resolver`: `lookup`, and the sweep loop over the subnet's addresses.
- `Baseline`: `store` and `load`, and the round trip between them.
- `Reconcile`: the diff loop and the leftover loop, with printed lines
  modelled as `Verdict` records.
- `Watch`: the baseline file name, the choice between prepare mode and
  watch mode, and one whole run.

The imperative parts of the program are Dafny methods: `lookup`, and the
loops of `store`, `load`, the sweep and the diff, which carry loop invariants.
Each loop is proved against a specification function that folds over its
input: `StoreText`, `LoadLines`, `SweepFrom` and `Reconcile`. The properties are proved as lemmas
about those functions.

`load` splits each line on every comma and keeps the first two fields
(dnswatch.py:60-61): `a,b,c` loads as `a -> b`, and the fields after the
second are ignored rather than joined back to the name (`Baseline.ParseLine`).

## Model

| member | source | states |
|---|---|---|
| HostMap.Dict.Put | dnswatch.py:40 | `d[k] = v`: k now maps to v and every other key keeps its value. A new key is appended to the order, and an existing key keeps its place. A well-formed dict stays well formed. |
| HostMap.Dict.Without | dnswatch.py:88 | After `d.pop(k, None)`, k is gone and every other key keeps its presence and value. A well-formed dict stays well formed. |
| HostMap.Dict.Items | dnswatch.py:49 | `d.items()` holds a pair (k, v) exactly when the dict maps k to v. No key appears twice, and the keys come in insertion order. `store` iterates it. |
| HostMap.HostMapping.constructor | dnswatch.py:67-68 | `dict()` is a well-formed empty mapping. |
| HostMap.HostMapping.Set | dnswatch.py:61 | The in-place assignment leaves the mapping equal to the old dict with `Put(k, v)` applied, still well formed. |
| HostMap.HostMapping.Pop | dnswatch.py:88 | `pop(k, None)` returns the old value, or None for a missing key, and leaves the old dict `Without(k)`. |
| HostMap.FilterOut | dnswatch.py:88 | Dropping a set of keys from an order keeps exactly the other keys, and introduces no repeats. |
| HostMap.FilterOutKeepsOrder | dnswatch.py:88 | Dropping keys keeps the relative order of the rest: of two kept elements, the earlier one in the input comes first in the result. |
| HostMap.PopAllRemovesExactly | dnswatch.py:87-88 | Popping a sequence of keys removes exactly those keys. All other entries keep their values and their order. |
| Text.TrimLeftShape | dnswatch.py:60 | `lstrip()` returns the longest suffix that does not start with whitespace; everything it drops is whitespace. |
| Text.TrimRightShape | dnswatch.py:60 | `rstrip()` returns the longest prefix that does not end with whitespace; everything it drops is whitespace. |
| Text.StripFramed | dnswatch.py:60 | `strip()` gives back a string that starts and ends with non-space characters, even after trailing whitespace such as the newline is appended to it. |
| Text.Split | dnswatch.py:60 | `split(',')` returns at least one field, and no field holds a comma. Joining the fields with commas gives back the input. There is more than one field exactly when the input holds a comma. |
| Text.SplitPair | dnswatch.py:60 | Two comma-free fields joined by a comma split back into exactly those two fields. |
| Text.SplitLines | dnswatch.py:59 | The lines `readlines()` returns concatenate back to the text. |
| Text.SplitLinesShape | dnswatch.py:59 | Every line `readlines()` returns is non-empty and holds no `\n` except as its last character. Every line except possibly the last ends in `\n`. |
| Text.SplitLinesConcat | dnswatch.py:59 | Text made of complete lines reads back as exactly those lines. |
| Text.UniversalNewlines | dnswatch.py:58 | Text-mode reading leaves no `\r` in the text, and text without `\r` is unchanged. |
| Ordering.BelowTotal | dnswatch.py:87 | String comparison is total: two strings are equal or one sorts before the other. |
| Ordering.BelowTransitive | dnswatch.py:87 | String comparison is transitive. |
| Ordering.SortKeys | dnswatch.py:87 | `sorted()` returns a sorted permutation of its input. A repeat-free input comes out strictly ascending. |
| Ordering.TextualNotNumeric | dnswatch.py:87 | Addresses sort as text: `10.0.0.10` comes before `10.0.0.2`. |
| Resolver.Lookup | dnswatch.py:36-43 | `lookup` returns the resolver's answer, None standing for `herror`. It records the name in the mapping exactly when the name is present and not `.local`, and otherwise leaves the mapping unchanged. |
| Resolver.SweepFrom | dnswatch.py:77-78 | The sweep keeps the mapping well formed. |
| Resolver.Sweep | dnswatch.py:77-81 | The loop leaves `current` equal to the sweep of the addresses. It echoes `address: hostname` for the kept names exactly when prepare and verbose are both set. |
| Resolver.SweepRecords | dnswatch.py:77-78 | After the sweep, an address is in the mapping exactly when it was there before, or when it was swept and resolved to a name that is not `.local`. A swept address holds that name, and every other address keeps its old value. |
| Resolver.SweepKeepsOnlyKept | dnswatch.py:39-40 | A sweep from an empty mapping records only kept names: no None and no `.local` name. |
| Resolver.SweepOrder | dnswatch.py:77-78 | Over distinct addresses, the mapping's order is the enumeration order of the addresses that resolved to a kept name. |
| Resolver.EchoesAreRecorded | dnswatch.py:79-81 | Every echoed line names an address together with the name the sweep recorded for it. |
| Resolver.EchoesResolved | dnswatch.py:79-81 | Every echoed line is a swept address and the kept name the resolver gave it. |
| Resolver.EchoesComplete | dnswatch.py:79-81 | Every swept address that resolved to a kept name is echoed with that name. |
| Resolver.EchoesInOrder | dnswatch.py:77-81 | The echoed addresses are exactly the swept addresses that resolved to a kept name, in enumeration order. |
| Baseline.Store | dnswatch.py:46-53 | `store` iterates `items()` and writes one `ip,hostname\n` line per entry in mapping order. It skips every entry whose name is None or ends in `.local`. |
| Baseline.ParseLine | dnswatch.py:60-61 | On a stripped line with no comma, `entry[1]` fails. Otherwise the two fields hold no comma. They are the text before the first comma, and the text after it up to the next comma or the end of the line. |
| Baseline.Load | dnswatch.py:56-63 | `load` assigns field 1 to field 0 for every line in turn. It stops at the first line without a comma and reports that line's index. The assignments made before that line are kept. |
| Baseline.LoadKeepsValid | dnswatch.py:59-61 | Loading into a well-formed mapping leaves it well formed, whether `load` completes or stops early. |
| Baseline.MalformedStays | dnswatch.py:59-61 | Once a line has raised, the lines after it change nothing. |
| Baseline.LaterLineWins | dnswatch.py:59-61 | After a completed load, each address holds the name from the last line that names it. An address no line names keeps its earlier value. |
| Baseline.LoadCompletesIff | dnswatch.py:59-61 | `load` gets through all lines exactly when every stripped line holds a comma. |
| Baseline.LoadStopsAtFirstCommaless | dnswatch.py:59-61 | An incomplete load stops at the first line without a comma. Every earlier line holds one and has been assigned. |
| Baseline.LineParses | dnswatch.py:51 | A written line reads back as its address and name. This needs no comma or line break in either field, no leading whitespace in the address and no trailing whitespace in the name. |
| Baseline.WrittenAreLines | dnswatch.py:51 | Every line `store` writes is one complete line, provided neither field of a written entry holds a line break (`\n` or `\r`). A comma in a field does not split the line. |
| Baseline.RetainedExactly | dnswatch.py:49-50 | The restriction `store` writes holds exactly the entries with a kept name. Their values and their original order are kept. |
| Baseline.LoadWritten | dnswatch.py:46-63 | Loading the written lines of a sequence of keys rebuilds the restriction to those keys. This holds when every written entry is storable: no comma or line break in either field, no leading whitespace in the address and no trailing whitespace in the name. |
| Baseline.RetainedAllKept | dnswatch.py:49-50 | A mapping that holds no skipped name is written in full. |
| Baseline.RoundTrip | dnswatch.py:46-63 | `load` applied to the text `store` wrote gives back the stored mapping restricted to its non-None, non-`.local` names, in the same order. This holds when every written entry is storable. |
| Reconcile.SortedKeys | dnswatch.py:87 | The sorted keys of `current` are its keys, each exactly once, in ascending order. |
| Reconcile.PopAllGet | dnswatch.py:88 | Popping other addresses does not change what `stored` holds for an address. |
| Reconcile.DiffStep | dnswatch.py:87-92 | Each step pops the address from `stored` as it was before the loop. It then appends that address's verdict. |
| Reconcile.Diff | dnswatch.py:87-94 | The diff loop's printed verdicts and leftover `stored` are those of the sorted-key reconciliation. The leftover loop raises at the first leftover address, and only when something is left. |
| Reconcile.VerdictsExactly | dnswatch.py:88-92 | A `MISMATCH (ip, s, h)` is printed exactly when ip is visited with `s = stored.pop(ip, None)`, `h = current[ip]` and `s != h`. An `OK (ip, h)` is printed exactly when the two are equal and the run is verbose. |
| Reconcile.VerdictsAbout | dnswatch.py:89-92 | Every verdict is about a visited address. A quiet run prints only mismatches. |
| Reconcile.VerdictsInKeyOrder | dnswatch.py:87-92 | Verdicts come out in the order of the addresses they are about. |
| Reconcile.ReportAscending | dnswatch.py:87-92 | The diff loop's verdicts appear in strictly ascending address order. |
| Reconcile.LeftoverExactly | dnswatch.py:87-93 | After the loop, `stored` holds exactly the original entries whose address is not in `current`, in their original order. |
| Reconcile.LeftoverRaises | dnswatch.py:93-94 | Something is left exactly when some baseline address is missing from `current`. The code as written prints the full intended report exactly when nothing is left; otherwise line 94 raises. |
| Reconcile.LeftoverVerdictsExactly | dnswatch.py:93-94 | The intended leftover lines are exactly a `NOW: None` mismatch per leftover entry, and contain no OK line. |
| Reconcile.IntendedReportComplete | dnswatch.py:87-94 | In the intended report, a mismatch appears for a current address exactly when its stored name (None when missing) differs from its current name. Every address found only in the baseline is reported as a mismatch with its stored name and `NOW: None`. An OK line appears exactly when the address is current, both sides agree and the run is verbose. |
| Reconcile.IntendedReportOncePerAddress | dnswatch.py:87-94 | The intended report mentions every address at most once. |
| Reconcile.ReconcileWithItself | dnswatch.py:87-93 | Comparing a mapping with itself leaves nothing over and gives only OK lines about its own addresses. A quiet run prints nothing. |
| Reconcile.ScenarioKeys | dnswatch.py:87 | In the two-host example, the sweep is visited as `10.0.0.1` then `10.0.0.3`. |
| Reconcile.ScenarioVerdicts | dnswatch.py:87-92 | In the two-host example, the verbose diff loop prints `OK 10.0.0.1 (host1)` and then `MISMATCH 10.0.0.3 (STORED None, NOW host3)`. |
| Reconcile.ScenarioLeftover | dnswatch.py:88-93 | In the two-host example, only `10.0.0.2 -> host2` is left in `stored`. |
| Reconcile.DepartedHostAsWritten | dnswatch.py:87-94 | The two-host example as written: after the two verdicts, `10.0.0.2` is left over, and line 94 raises on it. |
| Reconcile.DepartedHostIntended | dnswatch.py:87-94 | The intended report for the two-host example ends with `MISMATCH 10.0.0.2 (STORED host2, NOW None)`. |
| Watch.BaselineName | dnswatch.py:73 | The file name is the subnet with every `/` replaced by `_` and every other character kept. |
| Watch.BaselineInSettingsDir | dnswatch.py:73 | The baseline file lies directly in the settings directory: its name holds no path separator. |
| Watch.DistinctSubnetsDistinctFiles | dnswatch.py:73 | Two subnets written without `_` never share a baseline file. |
| Watch.Compare | dnswatch.py:86-94 | A comparison ends without a fault exactly when the baseline loads completely and all its addresses are current. It faults on a line exactly when some line lacks a comma, and then prints nothing. |
| Watch.Watch | dnswatch.py:66-94 | The run uses the subnet's baseline file. A missing baseline forces prepare mode. Exactly one of store or load-and-compare happens. The echo is printed only in prepare mode with verbose. Prepare stores the swept mapping's text, which depends only on the addresses and the resolver's answers. Watch mode compares the sweep with the baseline text. |
| Watch.UnchangedNetworkIsQuiet | dnswatch.py:77-94 | After a prepare run whose every recorded entry is storable (no comma or line break in either field, no leading whitespace in the address, no trailing whitespace in the name), the baseline loads back as the swept mapping when every address resolves as before. The comparison then finds no fault and no mismatch, and a quiet run prints nothing. |
| Watch.SnapshotReadsBack | dnswatch.py:46-63 | The baseline written for `{10.0.0.1: host1, 10.0.0.2: host2}` loads back as that mapping, in the same order. |
| Watch.DepartedHostFaults | dnswatch.py:83-94 | The two-host example end to end, as written. The loaded baseline is compared with the sweep: `OK 10.0.0.1` and `MISMATCH 10.0.0.3 (STORED None, NOW host3)` are printed, and the run then faults at `10.0.0.2` on line 94. |

## Left out

- Argument parsing and the loop over several subnets in `main` (dnswatch.py:97-113) are not modelled; a run is one call of `watch`.
- The filesystem is not modelled: `expanduser`, `os.path.exists`, `os.mkdir`, `open` and `close`. Instead, the home directory is a parameter and `os.path.sep` is taken to be `/`. The baseline file is an `Option<string>`, None when it does not exist. The text `store` writes is returned.
- A failed `open` is not modelled, and neither is the `finally: close()` on an unbound variable that follows it (dnswatch.py:47-53, 57-63).
- `socket.gethostbyaddr` is the oracle `resolve`, and None stands for `socket.herror`. Other exceptions from the resolver, and its timeout, are not modelled.
- `IPv4Network(subnet)` enumeration is not modelled; the addresses are an input sequence.
- Printing is not modelled: `print` output is returned as data, the `address: hostname` echo pairs and `Verdict` records. The text formatting of lines 32-33, 81, 90 and 92 is not modelled.
- File encoding and decoding are not modelled; text is a sequence of characters.
- An exception aborts the whole run in the source, so later subnets are not processed. The model returns the fault for the one subnet.
- Concurrency is not modelled: the sweep is sequential in the source.

## Findings

| source | as written | input that shows it | evidently intended | confidence | as-written member | corrected member |
|---|---|---|---|---|---|---|
| dnswatch.py:94 | `mismatch_message % (ip, hostname)` gives two values to the three-placeholder message of line 33. It raises `TypeError` on the first entry left in `stored`, so no leftover is reported. | baseline `{10.0.0.1: host1, 10.0.0.2: host2}`, sweep `{10.0.0.1: host1, 10.0.0.3: host3}`: `10.0.0.2` is left over | one `MISMATCH: ip (STORED: hostname, NOW: None)` line per leftover entry, in stored order | not executed | Watch.DepartedHostFaults | Reconcile.IntendedReportComplete |
