/** The counting half of `write_csv` in gpufi-instinject/analysis_fault.py:
    every record of every frozen snapshot adds one to its row's per-source,
    per-outcome counter, and records that are not the sentinel add the
    trial's register names to the row's name counter. */
module CsvAggregate {
  import opened Wrappers
  import opened Seqs
  import opened Strings
  import opened Effects
  import opened Outcomes
  import opened LogParser

  /** A CSV row: `(kernel, inst_line, inst_text)`. */
  datatype RowKey = RowKey(kernel: string, line: int, text: string)

  /** The four outcome counters of one row and source. */
  datatype Tally = Tally(masked: nat, sdc: nat, due: nat, others: nat)

  const Zero := Tally(0, 0, 0, 0)

  function Of(t: Tally, o: Outcome): nat
  {
    match o
    case Masked => t.masked
    case SDC => t.sdc
    case DUE => t.due
    case Others => t.others
  }

  /** `counter[outcome] += 1` */
  function Bump(t: Tally, o: Outcome): (u: Tally)
    ensures Of(u, o) == Of(t, o) + 1
    ensures forall o' :: o' != o ==> Of(u, o') == Of(t, o')
  {
    match o
    case Masked => t.(masked := t.masked + 1)
    case SDC => t.(sdc := t.sdc + 1)
    case DUE => t.(due := t.due + 1)
    case Others => t.(others := t.others + 1)
  }

  /** Masked + SDC + DUE + Others */
  function Sum(t: Tally): nat
  {
    t.masked + t.sdc + t.due + t.others
  }

  lemma BumpSum(t: Tally, o: Outcome)
    ensures Sum(Bump(t, o)) == Sum(t) + 1
  {
    match o
    case Masked =>
    case SDC =>
    case DUE =>
    case Others =>
  }

  /** The row a record lands on: an empty kernel or text reads "unknown". */
  function RowOf(rec: EffectRecord): (row: RowKey)
    ensures row.line == rec.instLine
    ensures row.kernel != "" && row.text != ""
    ensures rec.kernel != "" ==> row.kernel == rec.kernel
    ensures rec.instText != "" ==> row.text == rec.instText
    ensures rec.kernel == "" ==> row.kernel == "unknown"
    ensures rec.instText == "" ==> row.text == "unknown"
  {
    RowKey(if rec.kernel == "" then "unknown" else rec.kernel, rec.instLine,
           if rec.instText == "" then "unknown" else rec.instText)
  }

  /** Records of the sentinel's kind are counted but never add register names. */
  predicate Skipped(rec: EffectRecord)
  {
    RowOf(rec).kernel == "invalid_summary" || rec.src == "invalid"
  }

  lemma SentinelSkipped()
    ensures Skipped(Sentinel)
    ensures RowOf(Sentinel) == RowKey("invalid_summary", -1, "unknown")
  {
  }

  // ---------------------------------------------------------------------
  // Register names of a trial, from its parameters text

  const RegPrefix := "reg_name="

  /** The first `;`-separated part that, stripped, starts with `reg_name=`. */
  function RegEntry(parts: seq<string>): (r: Option<string>)
    ensures r.Some? ==> StartsWith(r.value, RegPrefix)
  {
    if parts == [] then None
    else if StartsWith(Strip(parts[0]), RegPrefix) then Some(Strip(parts[0]))
    else RegEntry(parts[1..])
  }

  /** A part that names the registers: stripped, it starts with `reg_name=`. */
  predicate NamesRegs(part: string)
  {
    StartsWith(Strip(part), RegPrefix)
  }

  /** There is an entry exactly when some part names the registers, and the
      entry is the first such part, stripped. */
  lemma {:induction false} RegEntryFirst(parts: seq<string>)
    ensures RegEntry(parts).None? <==> forall k :: 0 <= k < |parts| ==> !NamesRegs(parts[k])
    ensures forall k :: 0 <= k < |parts| && NamesRegs(parts[k]) && (forall j :: 0 <= j < k ==> !NamesRegs(parts[j])) ==>
              RegEntry(parts) == Some(Strip(parts[k]))
  {
    if parts != [] {
      var rest := parts[1..];
      RegEntryFirst(rest);
      if !NamesRegs(parts[0]) {
        assert RegEntry(parts) == RegEntry(rest);
        assert forall k :: 1 <= k < |parts| ==> parts[k] == rest[k - 1];
        forall k | 0 <= k < |parts| && NamesRegs(parts[k]) && (forall j :: 0 <= j < k ==> !NamesRegs(parts[j]))
          ensures RegEntry(parts) == Some(Strip(parts[k]))
        {
          assert k >= 1 && rest[k - 1] == parts[k];
          assert forall j :: 0 <= j < k - 1 ==> !NamesRegs(rest[j]) by {
            forall j | 0 <= j < k - 1 ensures !NamesRegs(rest[j]) {
              assert rest[j] == parts[j + 1];
            }
          }
        }
        if RegEntry(parts).None? {
          forall k | 0 <= k < |parts| ensures !NamesRegs(parts[k]) {
            if k >= 1 {
              assert parts[k] == rest[k - 1];
            }
          }
        } else {
          var k :| 0 <= k < |rest| && NamesRegs(rest[k]);
          assert parts[k + 1] == rest[k];
        }
      }
    }
  }

  /** `[x.strip() for x in xs if x.strip()]` */
  function KeepStripped(xs: seq<string>): (ys: seq<string>)
    ensures |ys| <= |xs|
  {
    if xs == [] then []
    else
      var y := Strip(xs[0]);
      (if y != "" then [y] else []) + KeepStripped(xs[1..])
  }

  /** `KeepStripped` keeps exactly the non-empty stripped parts. */
  lemma {:induction false} KeepStrippedMembers(xs: seq<string>)
    ensures forall y :: y in KeepStripped(xs) <==> y != "" && exists x :: x in xs && Strip(x) == y
  {
    if xs != [] {
      KeepStrippedMembers(xs[1..]);
      assert xs == [xs[0]] + xs[1..];
      forall y
        ensures y in KeepStripped(xs) <==> y != "" && exists x :: x in xs && Strip(x) == y
      {
        if y != "" && (exists x :: x in xs && Strip(x) == y) {
          var x :| x in xs && Strip(x) == y;
          if x != xs[0] {
            assert x in xs[1..];
          }
        }
      }
    }
  }

  /** What `KeepStripped` keeps is non-empty and already stripped. */
  lemma {:induction false} KeepStrippedClean(xs: seq<string>)
    ensures forall k :: 0 <= k < |KeepStripped(xs)| ==>
      KeepStripped(xs)[k] != "" && Strip(KeepStripped(xs)[k]) == KeepStripped(xs)[k]
  {
    if xs != [] {
      KeepStrippedClean(xs[1..]);
      var y := Strip(xs[0]);
      if y != "" {
        StripIdempotent(xs[0]);
        assert forall k :: 1 <= k < |KeepStripped(xs)| ==> KeepStripped(xs)[k] == KeepStripped(xs[1..])[k - 1];
      }
    }
  }

  /** The register names a parameters text gives: the first `reg_name=` entry
      decides; its value, stripped, is split on ':' and the stripped non-empty
      pieces are the names. */
  function RegNames(combo: string): seq<string>
  {
    match RegEntry(Split(combo, ';'))
    case None => []
    case Some(part) => RegValue(part)
  }

  /** The names of a `reg_name=` entry: the text after its first '=',
      stripped, split on ':'; the stripped non-empty pieces. */
  function RegValue(part: string): seq<string>
    requires StartsWith(part, RegPrefix)
  {
    var raw := Strip(part[|RegPrefix|..]);
    if raw == "" then [] else KeepStripped(Split(raw, ':'))
  }

  /** Every name is non-empty, has no surrounding white space and no ':'. */
  lemma RegNamesWellFormed(combo: string)
    ensures forall k :: 0 <= k < |RegNames(combo)| ==>
      RegNames(combo)[k] != "" && Strip(RegNames(combo)[k]) == RegNames(combo)[k] && ':' !in RegNames(combo)[k]
  {
    match RegEntry(Split(combo, ';'))
    case None =>
    case Some(part) =>
      RegValueWellFormed(part);
  }

  lemma RegValueWellFormed(part: string)
    requires StartsWith(part, RegPrefix)
    ensures forall k :: 0 <= k < |RegValue(part)| ==>
      RegValue(part)[k] != "" && Strip(RegValue(part)[k]) == RegValue(part)[k] && ':' !in RegValue(part)[k]
  {
    var raw := Strip(part[|RegPrefix|..]);
    if raw != "" {
      SplitPartsFree(raw, ':');
      KeepStrippedNoSep(Split(raw, ':'), ':');
      KeepStrippedClean(Split(raw, ':'));
    }
  }

  lemma {:induction false} KeepStrippedNoSep(xs: seq<string>, c: char)
    requires forall k :: 0 <= k < |xs| ==> c !in xs[k]
    ensures forall k :: 0 <= k < |KeepStripped(xs)| ==> c !in KeepStripped(xs)[k]
  {
    if xs != [] {
      KeepStrippedNoSep(xs[1..], c);
      var y := Strip(xs[0]);
      StripInside(xs[0]);
      assert c !in y;
    }
  }

  lemma {:induction false} KeepStrippedIdentity(xs: seq<string>)
    requires forall k :: 0 <= k < |xs| ==> xs[k] != "" && NoSpace(xs[k])
    ensures KeepStripped(xs) == xs
  {
    if xs != [] {
      KeepStrippedIdentity(xs[1..]);
      StripNoSpace(xs[0]);
      assert [xs[0]] + xs[1..] == xs;
    }
  }

  lemma {:induction false} JoinAvoids(parts: seq<string>, sep: string, c: char)
    requires c !in sep && forall k :: 0 <= k < |parts| ==> c !in parts[k]
    ensures c !in Join(parts, sep)
  {
    if |parts| > 1 {
      JoinAvoids(parts[1..], sep, c);
    }
  }

  lemma {:induction false} JoinNoSpace(parts: seq<string>, sep: string)
    requires NoSpace(sep) && forall k :: 0 <= k < |parts| ==> NoSpace(parts[k])
    ensures NoSpace(Join(parts, sep))
  {
    if |parts| > 1 {
      JoinNoSpace(parts[1..], sep);
      var rest := Join(parts[1..], sep);
      assert Join(parts, sep) == parts[0] + sep + rest;
      forall i | 0 <= i < |Join(parts, sep)| ensures !IsSpace(Join(parts, sep)[i]) {
        if i < |parts[0]| {
          assert Join(parts, sep)[i] == parts[0][i];
        } else if i < |parts[0]| + |sep| {
          assert Join(parts, sep)[i] == sep[i - |parts[0]|];
        } else {
          assert Join(parts, sep)[i] == rest[i - |parts[0]| - |sep|];
        }
      }
    }
  }

  lemma NoSpaceConcat(a: string, b: string)
    requires NoSpace(a) && NoSpace(b)
    ensures NoSpace(a + b)
  {
    forall i | 0 <= i < |a + b| ensures !IsSpace((a + b)[i]) {
      if i >= |a| {
        assert (a + b)[i] == b[i - |a|];
      }
    }
  }

  lemma PrefixNoSpace()
    ensures NoSpace(RegPrefix)
  {
    forall i | 0 <= i < |RegPrefix| ensures !IsSpace(RegPrefix[i]) {
      assert '!' <= RegPrefix[i] <= '~';
    }
  }

  /** A parameters text that is a single `reg_name=` entry, free of white
      space and of ';', is its own register entry. */
  lemma SingleRegEntry(j: string)
    requires NoSpace(j) && ';' !in j
    ensures RegEntry(Split(RegPrefix + j, ';')) == Some(RegPrefix + j)
  {
    var combo := RegPrefix + j;
    assert ';' !in RegPrefix;
    PrefixNoSpace();
    NoSpaceConcat(RegPrefix, j);
    assert Split(combo, ';') == [combo];
    StripNoSpace(combo);
    assert combo[..|RegPrefix|] == RegPrefix;
  }

  lemma SingleRegValue(j: string)
    requires NoSpace(j) && j != ""
    ensures StartsWith(RegPrefix + j, RegPrefix)
    ensures RegValue(RegPrefix + j) == KeepStripped(Split(j, ':'))
  {
    assert (RegPrefix + j)[..|RegPrefix|] == RegPrefix;
    assert (RegPrefix + j)[|RegPrefix|..] == j;
    StripNoSpace(j);
  }

  /** Register names written as `reg_name=` followed by the names joined with
      ':' come back as they were. */
  lemma RegNamesRoundTrip(names: seq<string>)
    requires names != []
    requires forall k :: 0 <= k < |names| ==>
      names[k] != "" && NoSpace(names[k]) && ':' !in names[k] && ';' !in names[k]
    ensures RegNames(RegPrefix + Join(names, ":")) == names
  {
    var j := Join(names, ":");
    JoinedNames(names);
    SingleRegEntry(j);
    SingleRegValue(j);
    calc {
      RegNames(RegPrefix + j);
      RegValue(RegPrefix + j);
      KeepStripped(Split(j, ':'));
      { SplitJoin(names, ':'); }
      KeepStripped(names);
      { KeepStrippedIdentity(names); }
      names;
    }
  }

  /** The names joined with ':' form a non-empty text without white space or ';'. */
  lemma JoinedNames(names: seq<string>)
    requires names != []
    requires forall k :: 0 <= k < |names| ==>
      names[k] != "" && NoSpace(names[k]) && ';' !in names[k]
    ensures Join(names, ":") != "" && NoSpace(Join(names, ":")) && ';' !in Join(names, ":")
  {
    var j := Join(names, ":");
    JoinAvoids(names, ":", ';');
    JoinNoSpace(names, ":");
    assert |j| >= |names[0]| by {
      if |names| > 1 {
        assert j == names[0] + ":" + Join(names[1..], ":");
      }
    }
  }

  /** The loop over the parts of the parameters text, stopping at the first
      `reg_name=` entry. */
  method ExtractRegNames(combo: string) returns (names: seq<string>)
    ensures names == RegNames(combo)
  {
    var parts := Split(combo, ';');
    names := [];
    var i := 0;
    while i < |parts|
      invariant i <= |parts|
      invariant RegEntry(parts) == RegEntry(parts[i..])
    {
      assert parts[i..][1..] == parts[i + 1..];
      var part := Strip(parts[i]);
      if StartsWith(part, RegPrefix) {
        var raw := Strip(part[|RegPrefix|..]);
        if raw != "" {
          names := KeepStripped(Split(raw, ':'));
        }
        return;
      }
      i := i + 1;
    }
  }

  // ---------------------------------------------------------------------
  // The counters, as a fold over every record of every trial

  /** One record of one trial, with the trial's outcome and register names. */
  datatype Entry = Entry(rec: EffectRecord, outcome: Outcome, regs: seq<string>)

  /** One item of `effects_occ.items()`. */
  datatype Trial = Trial(key: InjKey, recs: seq<EffectRecord>)

  /** `effects_occ.items()` in insertion order. */
  function Items(p: Parsed): seq<Trial>
    decreases |p.order|
  {
    if p.order == [] then []
    else
      var k := p.order[|p.order| - 1];
      var init := Items(p.(order := p.order[..|p.order| - 1]));
      if k in p.effectsOcc then init + [Trial(k, p.effectsOcc[k])] else init
  }

  /** `results_occ.get(inj_key, "Others")` */
  function OutcomeOf(results: map<InjKey, Outcome>, k: InjKey): Outcome
  {
    if k in results then results[k] else Others
  }

  /** `params_by_pair.get((run_id, name), "") or ""` */
  function ParamsOf(params: map<Pair, string>, k: InjKey): string
  {
    if k.pair in params then params[k.pair] else ""
  }

  /** The records of one trial, each with the trial's outcome and names. */
  function Stamped(recs: seq<EffectRecord>, o: Outcome, regs: seq<string>): (es: seq<Entry>)
    ensures |es| == |recs|
  {
    if recs == [] then []
    else Stamped(recs[..|recs| - 1], o, regs) + [Entry(recs[|recs| - 1], o, regs)]
  }

  lemma StampedStep(recs: seq<EffectRecord>, j: nat, o: Outcome, regs: seq<string>)
    requires j < |recs|
    ensures Stamped(recs[..j + 1], o, regs) == Stamped(recs[..j], o, regs) + [Entry(recs[j], o, regs)]
  {
    assert recs[..j + 1][..j] == recs[..j];
  }

  function TrialEntries(t: Trial, results: map<InjKey, Outcome>, params: map<Pair, string>): seq<Entry>
  {
    Stamped(t.recs, OutcomeOf(results, t.key), RegNames(ParamsOf(params, t.key)))
  }

  /** Every record of every trial, in iteration order. */
  function Entries(items: seq<Trial>, results: map<InjKey, Outcome>, params: map<Pair, string>): seq<Entry>
  {
    if items == [] then []
    else Entries(items[..|items| - 1], results, params) + TrialEntries(items[|items| - 1], results, params)
  }

  lemma EntriesStep(items: seq<Trial>, i: nat, results: map<InjKey, Outcome>, params: map<Pair, string>)
    requires i < |items|
    ensures Entries(items[..i + 1], results, params)
         == Entries(items[..i], results, params) + TrialEntries(items[i], results, params)
  {
    assert items[..i + 1][..i] == items[..i];
  }

  /** `inst_counts`, `all_srcs` and `regname_counts`. */
  datatype Counts = Counts(
    inst: map<RowKey, map<string, Tally>>,
    srcs: set<string>,
    regs: map<RowKey, map<string, nat>>)

  const NoCounts := Counts(map[], {}, map[])

  /** `inst_counts[row][src]`, zero where absent. */
  function TallyAt(c: Counts, row: RowKey, src: string): Tally
  {
    if row in c.inst && src in c.inst[row] then c.inst[row][src] else Zero
  }

  /** `regname_counts[row]`, empty where absent. */
  function NamesAt(c: Counts, row: RowKey): map<string, nat>
  {
    if row in c.regs then c.regs[row] else map[]
  }

  /** `regname_counts[row][rn]`, zero where absent. */
  function RegAt(c: Counts, row: RowKey, rn: string): nat
  {
    if rn in NamesAt(c, row) then NamesAt(c, row)[rn] else 0
  }

  /** `counter[rn] += 1` for every name in turn. */
  function AddNames(m: map<string, nat>, names: seq<string>): map<string, nat>
  {
    if names == [] then m
    else
      var m' := AddNames(m, names[..|names| - 1]);
      var rn := names[|names| - 1];
      m'[rn := (if rn in m' then m'[rn] else 0) + 1]
  }

  /** The body of the loop over a trial's records. */
  function Added(c: Counts, e: Entry): Counts
  {
    var row := RowOf(e.rec);
    var bySrc := if row in c.inst then c.inst[row] else map[];
    var c1 := c.(inst := c.inst[row := bySrc[e.rec.src := Bump(TallyAt(c, row, e.rec.src), e.outcome)]],
                 srcs := c.srcs + {e.rec.src});
    if Skipped(e.rec) || e.regs == [] then c1
    else c1.(regs := c1.regs[row := AddNames(NamesAt(c, row), e.regs)])
  }

  /** The counters after `es`. */
  function Tallied(es: seq<Entry>): Counts
  {
    if es == [] then NoCounts else Added(Tallied(es[..|es| - 1]), es[|es| - 1])
  }

  // ---------------------------------------------------------------------
  // The loops

  method AddNamesLoop(m: map<string, nat>, names: seq<string>) returns (m': map<string, nat>)
    ensures m' == AddNames(m, names)
  {
    m' := m;
    for i := 0 to |names|
      invariant m' == AddNames(m, names[..i])
    {
      assert names[..i + 1][..i] == names[..i];
      var rn := names[i];
      m' := m'[rn := (if rn in m' then m'[rn] else 0) + 1];
    }
    assert names[..|names|] == names;
  }

  /** One record: count it, remember its source, and add the trial's register
      names unless it is of the sentinel's kind. */
  method AddRecord(c: Counts, ghost before: seq<Entry>, rec: EffectRecord, res: Outcome, regs: seq<string>)
    returns (c': Counts)
    requires c == Tallied(before)
    ensures c' == Tallied(before + [Entry(rec, res, regs)])
  {
    TalliedStep(before, before + [Entry(rec, res, regs)], Entry(rec, res, regs));
    var row := RowOf(rec);
    var bySrc := if row in c.inst then c.inst[row] else map[];
    var t := if rec.src in bySrc then bySrc[rec.src] else Zero;
    c' := c.(inst := c.inst[row := bySrc[rec.src := Bump(t, res)]], srcs := c.srcs + {rec.src});
    if Skipped(rec) {
      return;
    }
    if regs != [] {
      var names := if row in c.regs then c.regs[row] else map[];
      names := AddNamesLoop(names, regs);
      c' := c'.(regs := c'.regs[row := names]);
    }
  }

  lemma TalliedStep(es: seq<Entry>, es': seq<Entry>, e: Entry)
    requires es' == es + [e]
    ensures Tallied(es') == Added(Tallied(es), e)
  {
    assert es'[..|es|] == es;
  }

  /** The loop over one trial's records. */
  method AddTrial(c: Counts, ghost done: seq<Entry>, recs: seq<EffectRecord>, res: Outcome, regs: seq<string>)
    returns (c': Counts)
    requires c == Tallied(done)
    ensures c' == Tallied(done + Stamped(recs, res, regs))
  {
    ghost var pre := done;
    c' := c;
    for j := 0 to |recs|
      invariant pre == done + Stamped(recs[..j], res, regs)
      invariant c' == Tallied(pre)
    {
      var e := Entry(recs[j], res, regs);
      c' := AddRecord(c', pre, recs[j], res, regs);
      StampedStep(recs, j, res, regs);
      AppendAssoc(done, Stamped(recs[..j], res, regs), e);
      pre := pre + [e];
    }
    assert recs[..|recs|] == recs;
  }

  lemma AppendAssoc(a: seq<Entry>, b: seq<Entry>, e: Entry)
    ensures a + (b + [e]) == (a + b) + [e]
  {
  }

  /** The loop over `effects_occ.items()`. */
  method CountAll(items: seq<Trial>, results: map<InjKey, Outcome>, params: map<Pair, string>) returns (c: Counts)
    ensures c == Tallied(Entries(items, results, params))
  {
    c := NoCounts;
    for i := 0 to |items|
      invariant c == Tallied(Entries(items[..i], results, params))
    {
      var t := items[i];
      var res := OutcomeOf(results, t.key);
      var regs := ExtractRegNames(ParamsOf(params, t.key));
      EntriesStep(items, i, results, params);
      c := AddTrial(c, Entries(items[..i], results, params), t.recs, res, regs);
    }
    assert items[..|items|] == items;
  }

  // ---------------------------------------------------------------------
  // What the counters hold

  /** `effects_occ.items()` of a well-formed parse: one trial per listed key,
      in order, with that key's snapshot. */
  lemma {:induction false} ItemsFollowOrder(p: Parsed)
    requires forall k :: k in p.order ==> k in p.effectsOcc
    ensures |Items(p)| == |p.order|
    ensures forall i :: 0 <= i < |p.order| ==> Items(p)[i] == Trial(p.order[i], p.effectsOcc[p.order[i]])
    decreases |p.order|
  {
    if p.order != [] {
      var p' := p.(order := p.order[..|p.order| - 1]);
      ItemsFollowOrder(p');
    }
  }

  /** The entries of `es` that land on `row`, come from `src` and carry `o`. */
  function Matching(es: seq<Entry>, row: RowKey, src: string, o: Outcome): nat
  {
    if es == [] then 0
    else
      var e := es[|es| - 1];
      Matching(es[..|es| - 1], row, src, o) + (if RowOf(e.rec) == row && e.rec.src == src && e.outcome == o then 1 else 0)
  }

  /** The entries of `es` that land on `row` and carry `o`, whatever their source. */
  function RowMatching(es: seq<Entry>, row: RowKey, o: Outcome): nat
  {
    if es == [] then 0
    else
      var e := es[|es| - 1];
      RowMatching(es[..|es| - 1], row, o) + (if RowOf(e.rec) == row && e.outcome == o then 1 else 0)
  }

  /** How often `rn` is named by the entries of `row` that add names. */
  function NameHits(es: seq<Entry>, row: RowKey, rn: string): nat
  {
    if es == [] then 0
    else
      var e := es[|es| - 1];
      NameHits(es[..|es| - 1], row, rn) + (if RowOf(e.rec) == row && !Skipped(e.rec) then Count(e.regs, rn) else 0)
  }

  /** The sources of the entries of `es`. */
  function SourcesOf(es: seq<Entry>): set<string>
  {
    set i | 0 <= i < |es| :: es[i].rec.src
  }

  /** The rows of the entries of `es`. */
  function RowsOf(es: seq<Entry>): set<RowKey>
  {
    set i | 0 <= i < |es| :: RowOf(es[i].rec)
  }

  lemma AddedTally(c: Counts, e: Entry, row: RowKey, src: string, o: Outcome)
    ensures Of(TallyAt(Added(c, e), row, src), o)
         == Of(TallyAt(c, row, src), o) + (if RowOf(e.rec) == row && e.rec.src == src && e.outcome == o then 1 else 0)
  {
    if RowOf(e.rec) == row && e.rec.src == src {
      assert TallyAt(Added(c, e), row, src) == Bump(TallyAt(c, row, src), e.outcome);
    } else {
      assert TallyAt(Added(c, e), row, src) == TallyAt(c, row, src);
    }
  }

  /** `inst_counts[row][src][o]` is the number of records of that row, source
      and outcome. */
  lemma {:induction false} TalliedCounts(es: seq<Entry>, row: RowKey, src: string, o: Outcome)
    ensures Of(TallyAt(Tallied(es), row, src), o) == Matching(es, row, src, o)
  {
    if es != [] {
      TalliedCounts(es[..|es| - 1], row, src, o);
      AddedTally(Tallied(es[..|es| - 1]), es[|es| - 1], row, src, o);
    }
  }

  /** `all_srcs` is the set of sources of all records, and the rows of
      `inst_counts` are the rows of all records. */
  lemma {:induction false} TalliedKeys(es: seq<Entry>)
    ensures Tallied(es).srcs == SourcesOf(es)
    ensures Tallied(es).inst.Keys == RowsOf(es)
  {
    if es != [] {
      var init := es[..|es| - 1];
      TalliedKeys(init);
      AddedKeys(Tallied(init), es[|es| - 1]);
      EntriesOfStep(es);
    }
  }

  lemma AddedKeys(c: Counts, e: Entry)
    ensures Added(c, e).srcs == c.srcs + {e.rec.src}
    ensures Added(c, e).inst.Keys == c.inst.Keys + {RowOf(e.rec)}
  {
  }

  lemma EntriesOfStep(es: seq<Entry>)
    requires es != []
    ensures SourcesOf(es) == SourcesOf(es[..|es| - 1]) + {es[|es| - 1].rec.src}
    ensures RowsOf(es) == RowsOf(es[..|es| - 1]) + {RowOf(es[|es| - 1].rec)}
  {
    var init := es[..|es| - 1];
    assert forall i :: 0 <= i < |init| ==> init[i] == es[i];
    assert es[|es| - 1].rec.src in SourcesOf(es);
    assert RowOf(es[|es| - 1].rec) in RowsOf(es);
  }

  /** The name counter after adding `names`: every name's count grows by its
      number of occurrences, and the keys are the old keys and the names. */
  lemma {:induction false} AddNamesCounts(m: map<string, nat>, names: seq<string>, rn: string)
    ensures rn in AddNames(m, names) <==> rn in m || rn in names
    ensures (if rn in AddNames(m, names) then AddNames(m, names)[rn] else 0)
         == (if rn in m then m[rn] else 0) + Count(names, rn)
  {
    if names != [] {
      var init := names[..|names| - 1];
      AddNamesCounts(m, init, rn);
      assert names == init + [names[|names| - 1]];
    }
  }

  lemma AddedNames(c: Counts, e: Entry, row: RowKey, rn: string)
    ensures RegAt(Added(c, e), row, rn)
         == RegAt(c, row, rn) + (if RowOf(e.rec) == row && !Skipped(e.rec) then Count(e.regs, rn) else 0)
    ensures rn in NamesAt(Added(c, e), row)
        <==> rn in NamesAt(c, row) || (RowOf(e.rec) == row && !Skipped(e.rec) && rn in e.regs)
  {
    if RowOf(e.rec) == row && !Skipped(e.rec) {
      if e.regs == [] {
        assert Count(e.regs, rn) == 0;
      } else {
        AddNamesCounts(NamesAt(c, row), e.regs, rn);
      }
    }
  }

  /** `regname_counts[row][rn]` is how often `rn` was named by the trials of
      the row's non-sentinel records; a name is listed exactly when that is
      positive. */
  lemma {:induction false} TalliedNames(es: seq<Entry>, row: RowKey, rn: string)
    ensures RegAt(Tallied(es), row, rn) == NameHits(es, row, rn)
    ensures rn in NamesAt(Tallied(es), row) <==> NameHits(es, row, rn) > 0
  {
    if es != [] {
      var init, e := es[..|es| - 1], es[|es| - 1];
      TalliedNames(init, row, rn);
      AddedNames(Tallied(init), e, row, rn);
      CountPositive(e.regs, rn);
    }
  }

  /** Rows of the sentinel's kernel never collect register names. */
  lemma {:induction false} SentinelRowsHaveNoNames(es: seq<Entry>, row: RowKey)
    requires row.kernel == "invalid_summary"
    ensures NamesAt(Tallied(es), row) == map[]
  {
    if es != [] {
      SentinelRowsHaveNoNames(es[..|es| - 1], row);
    }
  }

  /** The sum over a list of sources of the counts of `row` and `o`. */
  function SourceSum(es: seq<Entry>, row: RowKey, srcs: seq<string>, o: Outcome): nat
  {
    if srcs == [] then 0
    else SourceSum(es, row, srcs[..|srcs| - 1], o) + Matching(es, row, srcs[|srcs| - 1], o)
  }

  lemma {:induction false} SourceSumStep(es: seq<Entry>, e: Entry, row: RowKey, srcs: seq<string>, o: Outcome)
    ensures SourceSum(es + [e], row, srcs, o)
         == SourceSum(es, row, srcs, o) + (if RowOf(e.rec) == row && e.outcome == o then Count(srcs, e.rec.src) else 0)
  {
    if srcs != [] {
      SourceSumStep(es, e, row, srcs[..|srcs| - 1], o);
      assert (es + [e])[..|es|] == es;
    }
  }

  /** Summing a row's per-source counts over every source, each listed once,
      gives the number of the row's records with that outcome. */
  lemma {:induction false} SourceSumTotal(es: seq<Entry>, row: RowKey, srcs: seq<string>, o: Outcome)
    requires Distinct(srcs)
    requires forall i :: 0 <= i < |es| ==> es[i].rec.src in srcs
    ensures SourceSum(es, row, srcs, o) == RowMatching(es, row, o)
  {
    if es != [] {
      var init, e := es[..|es| - 1], es[|es| - 1];
      SourceSumTotal(init, row, srcs, o);
      assert es == init + [e];
      SourceSumStep(init, e, row, srcs, o);
      DistinctCount(srcs, e.rec.src);
    } else if srcs != [] {
      SourceSumTotal(es, row, srcs[..|srcs| - 1], o);
    }
  }
}
