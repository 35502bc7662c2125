/** `parse_log` of gpufi-instinject/analysis_fault.py: the single pass over the
    injection log that reassembles effect evidence into per-pair groups and
    freezes one snapshot and one outcome per injection.

    The state machine is given twice: as the value-level function `Step` over
    a `State` (the specification, about which the properties are proved), and
    as the class `LogParser`, whose fields are the variables the source
    mutates and whose methods are proved to follow `Step`. */
module LogParser {
  import opened Wrappers
  import opened Seqs
  import opened Strings
  import opened Effects
  import opened Outcomes

  /** (run id, instance name): one logical execution file. */
  datatype Pair = Pair(run: nat, name: string)

  /** One injection trial: a pair and the occurrence number of its result line. */
  datatype InjKey = InjKey(pair: Pair, idx: nat)

  /** What the inline effects-header pattern captures: the pair, and the
      trailing text matched once more against the WRITER and READER patterns. */
  datatype InlineMatch = InlineMatch(key: Pair, restWriter: Option<EffectRecord>, restReader: Option<EffectRecord>)

  /** One log line, as the six patterns of the parser see it: for each pattern,
      what it captures, or `None` when it does not match. */
  datatype LineMatch = LineMatch(
    inline: Option<InlineMatch>,
    legacy: Option<Pair>,
    writer: Option<EffectRecord>,
    reader: Option<EffectRecord>,
    params: Option<(Pair, string)>,
    result: Option<(Pair, string)>)

  /** The evidence an inline header carries on its own line. */
  datatype Evidence = NoEvidence | WriterEvidence(rec: EffectRecord) | ReaderEvidence(rec: EffectRecord)

  /** A classified log line. */
  datatype Event =
    | InlineHeader(key: Pair, evidence: Evidence)
    | LegacyHeader(key: Pair)
    | WriterEntry(rec: EffectRecord)
    | ReaderEntry(rec: EffectRecord)
    | ParamsLine(key: Pair, text: string)
    | ResultLine(key: Pair, text: string)
    | Unrecognized

  /** The evidence found on an inline header's own line: a WRITER entry if the
      trailing text holds one, else a READER entry, else none. */
  function InlineEvidence(m: InlineMatch): (ev: Evidence)
    ensures ev.WriterEvidence? <==> m.restWriter.Some?
    ensures ev.ReaderEvidence? <==> m.restWriter.None? && m.restReader.Some?
    ensures ev.WriterEvidence? ==> ev.rec == m.restWriter.value
    ensures ev.ReaderEvidence? ==> ev.rec == m.restReader.value
  {
    if m.restWriter.Some? then WriterEvidence(m.restWriter.value)
    else if m.restReader.Some? then ReaderEvidence(m.restReader.value)
    else NoEvidence
  }

  /** The parser's dispatch: inline header, then legacy header, then (only while
      a key is open) WRITER and READER entries, then parameters, then results;
      anything else is dropped. */
  function Classify(line: LineMatch, open: bool): (e: Event)
    ensures e.InlineHeader? <==> line.inline.Some?
    ensures e.LegacyHeader? <==> line.inline.None? && line.legacy.Some?
    ensures e.InlineHeader? ==> e.key == line.inline.value.key && e.evidence == InlineEvidence(line.inline.value)
    ensures e.LegacyHeader? ==> e.key == line.legacy.value
    ensures e.WriterEntry? <==> line.inline.None? && line.legacy.None? && open && line.writer.Some?
    ensures e.ReaderEntry? <==> line.inline.None? && line.legacy.None? && open && line.writer.None? && line.reader.Some?
    ensures e.WriterEntry? ==> e.rec == line.writer.value
    ensures e.ReaderEntry? ==> e.rec == line.reader.value
    ensures e.ParamsLine? <==>
      line.inline.None? && line.legacy.None? && !(open && (line.writer.Some? || line.reader.Some?))
      && line.params.Some?
    ensures e.ResultLine? <==>
      line.inline.None? && line.legacy.None? && !(open && (line.writer.Some? || line.reader.Some?))
      && line.params.None? && line.result.Some?
    ensures e.ParamsLine? ==> e.key == line.params.value.0 && e.text == line.params.value.1
    ensures e.ResultLine? ==> e.key == line.result.value.0 && e.text == line.result.value.1
    ensures e.Unrecognized? <==>
      line.inline.None? && line.legacy.None? && line.params.None? && line.result.None?
      && !(open && (line.writer.Some? || line.reader.Some?))
  {
    if line.inline.Some? then
      var m := line.inline.value;
      InlineHeader(m.key, InlineEvidence(m))
    else if line.legacy.Some? then LegacyHeader(line.legacy.value)
    else if open && line.writer.Some? then WriterEntry(line.writer.value)
    else if open && line.reader.Some? then ReaderEntry(line.reader.value)
    else if line.params.Some? then ParamsLine(line.params.value.0, line.params.value.1)
    else if line.result.Some? then ResultLine(line.result.value.0, line.result.value.1)
    else Unrecognized
  }

  /** Everything `parse_log` keeps while it reads: the open key and its
      buffers, the registry of latest groups, the parameters, the occurrence
      counters, the frozen snapshots and outcomes, and the insertion order of
      the snapshot dictionary. */
  datatype State = State(
    cur: Option<Pair>,
    writers: seq<EffectRecord>,
    readers: seq<EffectRecord>,
    latest: map<Pair, seq<EffectRecord>>,
    params: map<Pair, string>,
    occ: map<Pair, nat>,
    effectsOcc: map<InjKey, seq<EffectRecord>>,
    resultsOcc: map<InjKey, Outcome>,
    order: seq<InjKey>)

  const Init := State(None, [], [], map[], map[], map[], map[], map[], [])

  /** `occ_counter[p]`, a counter that defaults to zero. */
  function Occ(st: State, p: Pair): nat
  {
    if p in st.occ then st.occ[p] else 0
  }

  /** `latest_effects_by_pair.get(p, dflt)` */
  function LatestOr(st: State, p: Pair, dflt: seq<EffectRecord>): seq<EffectRecord>
  {
    if p in st.latest then st.latest[p] else dflt
  }

  /** `flush_current_effects()`: merge the open buffers into the open key's
      registry entry and close the key. */
  function Flushed(st: State): State
  {
    match st.cur
    case None => st
    case Some(k) =>
      var group := Combined(LatestOr(st, k, []), Unique(st.writers, st.readers));
      st.(latest := st.latest[k := group], cur := None, writers := [], readers := [])
  }

  /** Flush and open `k` with empty buffers. */
  function Opened(st: State, k: Pair): State
  {
    Flushed(st).(cur := Some(k), writers := [], readers := [])
  }

  /** The snapshot a result line for `p` freezes. */
  function Snapshot(st: State, p: Pair): seq<EffectRecord>
  {
    if st.cur == Some(p) then Combined(LatestOr(st, p, []), Unique(st.writers, st.readers))
    else LatestOr(st, p, [Sentinel])
  }

  /** The snapshot does not depend on the occurrence counters. */
  lemma SnapshotIgnoresCounters(st: State, occ: map<Pair, nat>, p: Pair)
    ensures Snapshot(st.(occ := occ), p) == Snapshot(st, p)
  {
  }

  /** Freezing snapshot `recs` and outcome `o` under trial `key`; a key seen for
      the first time is appended to the insertion order. */
  function Frozen(st: State, key: InjKey, recs: seq<EffectRecord>, o: Outcome): State
  {
    st.(effectsOcc := st.effectsOcc[key := recs],
        resultsOcc := st.resultsOcc[key := o],
        order := if key in st.effectsOcc then st.order else st.order + [key])
  }

  /** A result line for `p` with outcome `o`: next occurrence number, snapshot,
      outcome. */
  function Resolved(st: State, p: Pair, o: Outcome): State
  {
    var idx := Occ(st, p) + 1;
    var recs := Snapshot(st, p);
    var counted := st.(occ := st.occ[p := idx],
                       latest := if st.cur == Some(p) then st.latest[p := recs] else st.latest);
    Frozen(counted, InjKey(p, idx), recs, o)
  }

  /** An inline header keeps the open key when it names it, and otherwise
      flushes and opens its own. */
  function Switched(st: State, k: Pair): State
  {
    if st.cur != Some(k) then Opened(st, k) else st
  }

  /** The evidence of an inline header's own line, appended to its buffer. */
  function WithEvidence(st: State, ev: Evidence): State
  {
    match ev
    case NoEvidence => st
    case WriterEvidence(r) => st.(writers := st.writers + [r])
    case ReaderEvidence(r) => st.(readers := st.readers + [r])
  }

  function Apply(st: State, e: Event): State
  {
    match e
    case InlineHeader(k, ev) => WithEvidence(Switched(st, k), ev)
    case LegacyHeader(k) => Opened(st, k)
    case WriterEntry(r) => st.(writers := st.writers + [r])
    case ReaderEntry(r) => st.(readers := st.readers + [r])
    case ParamsLine(k, text) => st.(params := st.params[k := Strip(text)])
    case ResultLine(k, text) => Resolved(st, k, NormalizeResult(text))
    case Unrecognized => st
  }

  /** One iteration of the loop over the log. */
  function Step(st: State, line: LineMatch): State
  {
    Apply(st, Classify(line, st.cur.Some?))
  }

  /** The state after reading `lines` from `st`. */
  function Run(st: State, lines: seq<LineMatch>): State
  {
    if lines == [] then st else Step(Run(st, lines[..|lines| - 1]), lines[|lines| - 1])
  }

  /** What `parse_log` returns; `order` is the key order of `effects_occ`. */
  datatype Parsed = Parsed(
    effectsOcc: map<InjKey, seq<EffectRecord>>,
    resultsOcc: map<InjKey, Outcome>,
    params: map<Pair, string>,
    order: seq<InjKey>)

  /** The whole log read, then the final flush. */
  function Final(lines: seq<LineMatch>): Parsed
  {
    var st := Flushed(Run(Init, lines));
    Parsed(st.effectsOcc, st.resultsOcc, st.params, st.order)
  }

  /** The variables `parse_log` updates as it reads. */
  class LogParser {
    var cur: Option<Pair>
    var writers: seq<EffectRecord>
    var readers: seq<EffectRecord>
    var latest: map<Pair, seq<EffectRecord>>
    var params: map<Pair, string>
    var occ: map<Pair, nat>
    var effectsOcc: map<InjKey, seq<EffectRecord>>
    var resultsOcc: map<InjKey, Outcome>
    var order: seq<InjKey>

    function Abstract(): State
      reads this
    {
      State(cur, writers, readers, latest, params, occ, effectsOcc, resultsOcc, order)
    }

    constructor ()
      ensures Abstract() == Init
    {
      cur := None;
      writers, readers := [], [];
      latest, params, occ := map[], map[], map[];
      effectsOcc, resultsOcc := map[], map[];
      order := [];
    }

    /** `flush_current_effects()` */
    method FlushCurrentEffects()
      modifies this
      ensures Abstract() == Flushed(old(Abstract()))
    {
      if cur.Some? {
        var k := cur.value;
        var newPack := MergeUnique(writers, readers);
        var existed := if k in latest then latest[k] else [];
        var group := MergeRecords(existed, newPack);
        latest := latest[k := group];
        cur := None;
        writers, readers := [], [];
      }
    }

    /** The snapshot a result line for `pair` freezes; when `pair` is the open
        key, the merged group also becomes its registry entry. */
    method TakeSnapshot(pair: Pair) returns (recs: seq<EffectRecord>)
      modifies this
      ensures recs == Snapshot(old(Abstract()), pair)
      ensures Abstract() == old(Abstract()).(latest := if old(cur) == Some(pair) then old(latest)[pair := recs] else old(latest))
    {
      if cur == Some(pair) {
        var currentPack := MergeUnique(writers, readers);
        var existed := if pair in latest then latest[pair] else [];
        recs := MergeRecords(existed, currentPack);
        latest := latest[pair := recs];
      } else {
        recs := if pair in latest then latest[pair] else [Sentinel];
      }
    }

    /** Storing one trial's snapshot and outcome. */
    method Freeze(key: InjKey, recs: seq<EffectRecord>, res: Outcome)
      modifies this
      ensures Abstract() == Frozen(old(Abstract()), key, recs, res)
    {
      if key !in effectsOcc {
        order := order + [key];
      }
      effectsOcc := effectsOcc[key := recs];
      resultsOcc := resultsOcc[key := res];
    }

    /** A result line: count the occurrence, freeze the snapshot and the outcome. */
    method RecordResult(pair: Pair, res: Outcome)
      modifies this
      ensures Abstract() == Resolved(old(Abstract()), pair, res)
    {
      ghost var st := Abstract();
      var idx := (if pair in occ then occ[pair] else 0) + 1;
      occ := occ[pair := idx];
      SnapshotIgnoresCounters(st, st.occ[pair := idx], pair);
      var recs := TakeSnapshot(pair);
      Freeze(InjKey(pair, idx), recs, res);
    }

    /** The key switch of an inline effects header. */
    method SwitchTo(k: Pair)
      modifies this
      ensures Abstract() == Switched(old(Abstract()), k)
    {
      if cur != Some(k) {
        FlushCurrentEffects();
        cur := Some(k);
        writers, readers := [], [];
      }
    }

    /** An inline effects header, with the evidence on its own line. */
    method OpenInline(m: InlineMatch)
      modifies this
      ensures Abstract() == Apply(old(Abstract()), InlineHeader(m.key, InlineEvidence(m)))
    {
      SwitchTo(m.key);
      if m.restWriter.Some? {
        writers := writers + [m.restWriter.value];
      } else if m.restReader.Some? {
        readers := readers + [m.restReader.value];
      }
    }

    /** The body of the loop over the log's lines, branch for branch. */
    method Feed(line: LineMatch)
      modifies this
      ensures Abstract() == Step(old(Abstract()), line)
    {
      if line.inline.Some? {
        var m := line.inline.value;
        assert Classify(line, cur.Some?) == InlineHeader(m.key, InlineEvidence(m));
        OpenInline(m);
      } else if line.legacy.Some? {
        assert Classify(line, cur.Some?) == LegacyHeader(line.legacy.value);
        FlushCurrentEffects();
        cur := line.legacy;
        writers, readers := [], [];
      } else if cur.Some? && line.writer.Some? {
        assert Classify(line, cur.Some?) == WriterEntry(line.writer.value);
        writers := writers + [line.writer.value];
      } else if cur.Some? && line.reader.Some? {
        assert Classify(line, cur.Some?) == ReaderEntry(line.reader.value);
        readers := readers + [line.reader.value];
      } else if line.params.Some? {
        var (k, text) := line.params.value;
        assert Classify(line, cur.Some?) == ParamsLine(k, text);
        params := params[k := Strip(text)];
      } else if line.result.Some? {
        var (pair, text) := line.result.value;
        assert Classify(line, cur.Some?) == ResultLine(pair, text);
        var res := NormalizeResult(text);
        RecordResult(pair, res);
      } else {
        assert Classify(line, cur.Some?) == Unrecognized;
      }
    }
  }

  /** `parse_log` over the lines of the log. */
  method ParseLog(lines: seq<LineMatch>) returns (out: Parsed)
    ensures out == Final(lines)
  {
    var parser := new LogParser();
    for i := 0 to |lines|
      invariant parser.Abstract() == Run(Init, lines[..i])
    {
      assert lines[..i + 1][..i] == lines[..i];
      parser.Feed(lines[i]);
    }
    assert lines[..|lines|] == lines;
    parser.FlushCurrentEffects();
    out := Parsed(parser.effectsOcc, parser.resultsOcc, parser.params, parser.order);
  }
}
