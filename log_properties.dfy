/** What `parse_log` promises about the trials it reconstructs: one trial per
    result line, numbered 1, 2, 3, ... per pair; every snapshot frozen when it
    is taken; parameters last-wins; the registry of a pair only growing. */
module LogProperties {
  import opened Wrappers
  import opened Seqs
  import opened Strings
  import opened Effects
  import opened Outcomes
  import opened LogParser

  /** Every trial has both a snapshot and an outcome. */
  ghost predicate KeysAgree(st: State)
  {
    st.effectsOcc.Keys == st.resultsOcc.Keys
  }

  /** The insertion order lists each trial exactly once. */
  ghost predicate OrderLists(st: State)
  {
    Distinct(st.order) && forall k :: k in st.order <==> k in st.effectsOcc
  }

  /** The trials of a pair are numbered 1 to its counter, without gaps. */
  ghost predicate Numbered(st: State)
  {
    && (forall k :: k in st.effectsOcc ==> 1 <= k.idx <= Occ(st, k.pair))
    && (forall p, i :: 1 <= i <= Occ(st, p) ==> InjKey(p, i) in st.effectsOcc)
  }

  /** Every group in the registry is non-empty and free of repeats. */
  ghost predicate LatestValid(st: State)
  {
    forall p :: p in st.latest ==> ValidGroup(st.latest[p])
  }

  /** Every group held is non-empty and free of repeats. */
  ghost predicate GroupsValid(st: State)
  {
    && (forall k :: k in st.effectsOcc ==> ValidGroup(st.effectsOcc[k]))
    && (LatestValid(st))
  }

  /** The trials of one pair appear in the insertion order by occurrence. */
  ghost predicate OrderedByOccurrence(st: State)
  {
    forall i, j :: 0 <= i < j < |st.order| && st.order[i].pair == st.order[j].pair ==>
      st.order[i].idx < st.order[j].idx
  }

  /** The invariant of the parser state. */
  ghost predicate Inv(st: State)
  {
    && KeysAgree(st) && OrderLists(st)
    && Numbered(st) && GroupsValid(st) && OrderedByOccurrence(st)
  }

  /** Nothing about trials or occurrence counters differs. */
  ghost predicate SameTrials(st: State, st': State)
  {
    && st'.effectsOcc == st.effectsOcc && st'.resultsOcc == st.resultsOcc
    && st'.order == st.order && st'.occ == st.occ
  }

  /** The registry only grows: every pair keeps its group in front, as it was. */
  ghost predicate RegistryGrows(st: State, st': State)
  {
    forall p :: p in st.latest ==> p in st'.latest && st.latest[p] <= st'.latest[p]
  }

  lemma SameTrialsInv(st: State, st': State)
    requires Inv(st) && SameTrials(st, st')
    requires LatestValid(st')
    ensures Inv(st')
  {
    assert forall p :: Occ(st', p) == Occ(st, p);
  }

  /** `flush_current_effects()` only merges into the registry and closes the key. */
  lemma FlushedFacts(st: State)
    requires LatestValid(st)
    ensures SameTrials(st, Flushed(st)) && RegistryGrows(st, Flushed(st))
    ensures Flushed(st).cur == None && Flushed(st).params == st.params
    ensures LatestValid(Flushed(st))
  {
    match st.cur
    case None =>
    case Some(c) =>
      var g := Combined(LatestOr(st, c, []), Unique(st.writers, st.readers));
      assert Flushed(st) == st.(latest := st.latest[c := g], cur := None, writers := [], readers := []);
      CombinedValid(LatestOr(st, c, []), Unique(st.writers, st.readers));
      if c in st.latest {
        CombinedKeepsExisting(st.latest[c], Unique(st.writers, st.readers));
      }
  }

  lemma FlushedInv(st: State)
    requires Inv(st)
    ensures Inv(Flushed(st)) && SameTrials(st, Flushed(st)) && Flushed(st).params == st.params
  {
    FlushedFacts(st);
    SameTrialsInv(st, Flushed(st));
  }

  /** The key a result line for `p` creates. */
  function NextKey(st: State, p: Pair): InjKey
  {
    InjKey(p, Occ(st, p) + 1)
  }

  lemma ResolvedNumbered(st: State, p: Pair, o: Outcome)
    requires Numbered(st)
    ensures NextKey(st, p) !in st.effectsOcc
    ensures Numbered(Resolved(st, p, o))
  {
    var st' := Resolved(st, p, o);
    assert Occ(st', p) == Occ(st, p) + 1;
    assert forall q :: q != p ==> Occ(st', q) == Occ(st, q);
    forall q, i | 1 <= i <= Occ(st', q)
      ensures InjKey(q, i) in st'.effectsOcc
    {
      if q != p || i <= Occ(st, p) {
        assert InjKey(q, i) in st.effectsOcc;
      }
    }
  }

  lemma ResolvedOrder(st: State, p: Pair, o: Outcome)
    requires Numbered(st) && OrderLists(st) && OrderedByOccurrence(st)
    ensures Resolved(st, p, o).order == st.order + [NextKey(st, p)]
    ensures OrderLists(Resolved(st, p, o)) && OrderedByOccurrence(Resolved(st, p, o))
  {
    var k := NextKey(st, p);
    var st' := Resolved(st, p, o);
    ResolvedNumbered(st, p, o);
    AppendDistinct(st.order, k);
    forall i, j | 0 <= i < j < |st'.order| && st'.order[i].pair == st'.order[j].pair
      ensures st'.order[i].idx < st'.order[j].idx
    {
      if j == |st.order| {
        assert st'.order[i] in st.effectsOcc;
      }
    }
  }

  /** A result line for `p` opens trial number `Occ(st, p) + 1`, which did not
      exist before, appends it to the insertion order, and leaves the open key
      and its buffers alone. */
  lemma ResolvedShape(st: State, p: Pair, o: Outcome)
    requires Inv(st)
    ensures var k := NextKey(st, p);
      && var st' := Resolved(st, p, o);
      && k !in st.effectsOcc
      && st'.order == st.order + [k]
      && st'.effectsOcc == st.effectsOcc[k := Snapshot(st, p)]
      && st'.resultsOcc == st.resultsOcc[k := o]
      && st'.cur == st.cur && st'.writers == st.writers && st'.readers == st.readers
  {
    ResolvedNumbered(st, p, o);
    ResolvedOrder(st, p, o);
  }

  lemma ResolvedGroupsValid(st: State, p: Pair, o: Outcome)
    requires GroupsValid(st)
    ensures GroupsValid(Resolved(st, p, o))
  {
    SnapshotValid(st, p);
  }

  /** A result line keeps the invariant. */
  lemma ResolvedInv(st: State, p: Pair, o: Outcome)
    requires Inv(st)
    ensures Inv(Resolved(st, p, o))
  {
    ResolvedNumbered(st, p, o);
    ResolvedOrder(st, p, o);
    ResolvedGroupsValid(st, p, o);
  }

  /** Every snapshot is a proper group. */
  lemma SnapshotValid(st: State, p: Pair)
    requires p in st.latest ==> ValidGroup(st.latest[p])
    ensures ValidGroup(Snapshot(st, p))
  {
    if st.cur == Some(p) {
      CombinedValid(LatestOr(st, p, []), Unique(st.writers, st.readers));
    } else if p !in st.latest {
      assert Snapshot(st, p) == [Sentinel];
    }
  }

  /** A step that leaves trials and counters alone, grows the registry, and
      keeps its groups proper. */
  ghost predicate Quiet(st: State, st': State)
  {
    SameTrials(st, st') && RegistryGrows(st, st') && LatestValid(st')
  }

  lemma InlineQuiet(st: State, k: Pair, ev: Evidence)
    requires LatestValid(st)
    ensures Quiet(st, Apply(st, InlineHeader(k, ev)))
    ensures Apply(st, InlineHeader(k, ev)).params == st.params
  {
    var st1 := Switched(st, k);
    if st.cur != Some(k) {
      FlushedFacts(st);
    }
    assert Quiet(st, st1);
    assert Apply(st, InlineHeader(k, ev)) == WithEvidence(st1, ev);
    match ev
    case NoEvidence =>
    case WriterEvidence(r) =>
    case ReaderEvidence(r) =>
  }

  lemma LegacyQuiet(st: State, k: Pair)
    requires LatestValid(st)
    ensures Quiet(st, Apply(st, LegacyHeader(k)))
    ensures Apply(st, LegacyHeader(k)).params == st.params
  {
    FlushedFacts(st);
  }

  /** Every event other than a result line leaves trials and counters alone
      and only grows the registry; only a parameters line changes the
      parameters. */
  lemma OtherEvent(st: State, e: Event)
    requires !e.ResultLine?
    requires LatestValid(st)
    ensures Quiet(st, Apply(st, e))
    ensures Apply(st, e).params == if e.ParamsLine? then st.params[e.key := Strip(e.text)] else st.params
  {
    match e
    case InlineHeader(k, ev) =>
      InlineQuiet(st, k, ev);
    case LegacyHeader(k) =>
      LegacyQuiet(st, k);
    case WriterEntry(r) =>
    case ReaderEntry(r) =>
    case ParamsLine(k, text) =>
    case Unrecognized =>
  }

  /** A result line grows the registry too: the open key's group stays in front. */
  lemma ResolvedGrowsRegistry(st: State, p: Pair, o: Outcome)
    requires LatestValid(st)
    ensures RegistryGrows(st, Resolved(st, p, o))
  {
    if st.cur == Some(p) && p in st.latest {
      CombinedKeepsExisting(st.latest[p], Unique(st.writers, st.readers));
    }
  }

  lemma ApplyResult(st: State, p: Pair, text: string)
    ensures Apply(st, ResultLine(p, text)) == Resolved(st, p, NormalizeResult(text))
  {
  }

  /** Every event keeps the invariant. */
  lemma ApplyInv(st: State, e: Event)
    requires Inv(st)
    ensures Inv(Apply(st, e))
  {
    match e
    case ResultLine(k, text) =>
      ResolvedInv(st, k, NormalizeResult(text));
    case _ =>
      OtherEvent(st, e);
      SameTrialsInv(st, Apply(st, e));
  }

  /** Trials already frozen are never touched again by any event, and the
      insertion order only grows at its end. */
  lemma ApplyKeepsSnapshots(st: State, e: Event)
    requires Inv(st)
    ensures st.order <= Apply(st, e).order
    ensures forall k :: k in st.effectsOcc ==>
      k in Apply(st, e).effectsOcc && Apply(st, e).effectsOcc[k] == st.effectsOcc[k]
    ensures forall k :: k in st.resultsOcc ==>
      k in Apply(st, e).resultsOcc && Apply(st, e).resultsOcc[k] == st.resultsOcc[k]
  {
    match e
    case ResultLine(k, text) =>
      ResolvedShape(st, k, NormalizeResult(text));
    case _ =>
      OtherEvent(st, e);
  }

  /** Only a result line moves an occurrence counter, and only its own, by one. */
  lemma ApplyOcc(st: State, e: Event, q: Pair)
    requires Inv(st)
    ensures Occ(Apply(st, e), q) == Occ(st, q) + (if e.ResultLine? && e.key == q then 1 else 0)
  {
    match e
    case ResultLine(k, text) =>
    case _ =>
      OtherEvent(st, e);
  }

  /** Only a parameters line changes the parameters, and only for its own pair. */
  lemma ApplyParams(st: State, e: Event)
    requires LatestValid(st)
    ensures Apply(st, e).params == if e.ParamsLine? then st.params[e.key := Strip(e.text)] else st.params
  {
    match e
    case ResultLine(k, text) =>
      assert Apply(st, e) == Resolved(st, k, NormalizeResult(text));
    case _ =>
      OtherEvent(st, e);
  }

  /** The registry entry of every pair only grows: what it held stays in front,
      in the same order. */
  lemma ApplyGrowsRegistry(st: State, e: Event)
    requires Inv(st)
    ensures RegistryGrows(st, Apply(st, e))
  {
    match e
    case ResultLine(k, text) =>
      ResolvedGrowsRegistry(st, k, NormalizeResult(text));
    case _ =>
      OtherEvent(st, e);
  }

  /** The event that line `j` of the log is read as: classification depends on
      whether a key is open after the lines before it. */
  function EventAt(lines: seq<LineMatch>, j: nat): Event
    requires j < |lines|
  {
    Classify(lines[j], Run(Init, lines[..j]).cur.Some?)
  }

  lemma RunStep(lines: seq<LineMatch>, j: nat)
    requires j < |lines|
    ensures Run(Init, lines[..j + 1]) == Apply(Run(Init, lines[..j]), EventAt(lines, j))
  {
    assert lines[..j + 1][..j] == lines[..j];
  }

  /** How many of the first `n` lines are result lines for `p`. */
  function ResultsBefore(lines: seq<LineMatch>, n: nat, p: Pair): nat
    requires n <= |lines|
  {
    if n == 0 then 0
    else ResultsBefore(lines, n - 1, p) + (if EventAt(lines, n - 1).ResultLine? && EventAt(lines, n - 1).key == p then 1 else 0)
  }

  /** The invariant holds after every prefix of the log, and the occurrence
      counter of a pair is the number of its result lines read so far. */
  lemma {:induction false} PrefixInv(lines: seq<LineMatch>, n: nat)
    requires n <= |lines|
    ensures Inv(Run(Init, lines[..n]))
    ensures forall p :: Occ(Run(Init, lines[..n]), p) == ResultsBefore(lines, n, p)
  {
    if n == 0 {
      assert lines[..0] == [];
    } else {
      PrefixInv(lines, n - 1);
      PrefixStep(lines, n - 1, n);
    }
  }

  /** One more line keeps the invariant and counts its result line, if any. */
  lemma PrefixStep(lines: seq<LineMatch>, j: nat, n: nat)
    requires n == j + 1 <= |lines|
    requires Inv(Run(Init, lines[..j]))
    requires forall p :: Occ(Run(Init, lines[..j]), p) == ResultsBefore(lines, j, p)
    ensures Inv(Run(Init, lines[..n]))
    ensures forall p :: Occ(Run(Init, lines[..n]), p) == ResultsBefore(lines, n, p)
  {
    RunStep(lines, j);
    var st := Run(Init, lines[..j]);
    var e := EventAt(lines, j);
    ApplyInv(st, e);
    forall p ensures Occ(Run(Init, lines[..n]), p) == ResultsBefore(lines, n, p) {
      ApplyOcc(st, e, p);
    }
  }

  /** Trials frozen after `m` lines are still there, unchanged, after `n >= m`
      lines. */
  lemma {:induction false} FrozenFrom(lines: seq<LineMatch>, m: nat, n: nat)
    requires m <= n <= |lines|
    ensures Run(Init, lines[..m]).order <= Run(Init, lines[..n]).order
    ensures forall k :: k in Run(Init, lines[..m]).effectsOcc ==>
      k in Run(Init, lines[..n]).effectsOcc && Run(Init, lines[..n]).effectsOcc[k] == Run(Init, lines[..m]).effectsOcc[k]
    ensures forall k :: k in Run(Init, lines[..m]).resultsOcc ==>
      k in Run(Init, lines[..n]).resultsOcc && Run(Init, lines[..n]).resultsOcc[k] == Run(Init, lines[..m]).resultsOcc[k]
    decreases n - m
  {
    if m < n {
      PrefixInv(lines, m);
      RunStep(lines, m);
      ApplyKeepsSnapshots(Run(Init, lines[..m]), EventAt(lines, m));
      FrozenFrom(lines, m + 1, n);
    }
  }

  /** What `parse_log` returns is well formed: every trial has a snapshot and an
      outcome, the order lists each trial exactly once, and each snapshot is a
      non-empty group without repeats. */
  lemma FinalWellFormed(lines: seq<LineMatch>)
    ensures Final(lines).effectsOcc.Keys == Final(lines).resultsOcc.Keys
    ensures Distinct(Final(lines).order)
    ensures forall k :: k in Final(lines).order <==> k in Final(lines).effectsOcc
    ensures forall k :: k in Final(lines).effectsOcc ==> ValidGroup(Final(lines).effectsOcc[k])
  {
    PrefixInv(lines, |lines|);
    assert lines[..|lines|] == lines;
    FlushedInv(Run(Init, lines));
  }

  /** The trials of a pair are exactly occurrences 1 to the number of its
      result lines in the log. */
  lemma FinalOccurrences(lines: seq<LineMatch>, p: Pair, i: nat)
    ensures InjKey(p, i) in Final(lines).effectsOcc <==> 1 <= i <= ResultsBefore(lines, |lines|, p)
  {
    PrefixInv(lines, |lines|);
    assert lines[..|lines|] == lines;
    FlushedInv(Run(Init, lines));
  }

  /** What `parse_log` returns are the trials and parameters of the state after
      the last line: the final flush adds none. */
  lemma FinalTrials(lines: seq<LineMatch>)
    ensures var st := Run(Init, lines[..|lines|]);
      && Final(lines).effectsOcc == st.effectsOcc && Final(lines).resultsOcc == st.resultsOcc
      && Final(lines).order == st.order && Final(lines).params == st.params
  {
    assert lines[..|lines|] == lines;
    PrefixInv(lines, |lines|);
    FlushedFacts(Run(Init, lines));
  }

  /** Reading the result line at position `j` creates its trial. */
  lemma ResultLineStep(lines: seq<LineMatch>, j: nat, p: Pair, text: string)
    requires j < |lines| && EventAt(lines, j) == ResultLine(p, text)
    ensures var k := InjKey(p, ResultsBefore(lines, j, p) + 1);
      var st1 := Run(Init, lines[..j + 1]);
      && k in st1.effectsOcc && k in st1.resultsOcc
      && st1.resultsOcc[k] == NormalizeResult(text)
      && st1.effectsOcc[k] == Snapshot(Run(Init, lines[..j]), p)
  {
    var st := Run(Init, lines[..j]);
    PrefixInv(lines, j);
    assert NextKey(st, p) == InjKey(p, ResultsBefore(lines, j, p) + 1);
    RunStep(lines, j);
    ApplyResult(st, p, text);
    ResolvedShape(st, p, NormalizeResult(text));
  }

  /** The result line at position `j` of the log, for pair `p`, becomes trial
      number (result lines for `p` before it) + 1; its outcome is the normalised
      result text and its snapshot is the group visible when it was read, both
      unchanged by anything that follows. */
  lemma ResultLineRecorded(lines: seq<LineMatch>, j: nat, p: Pair, text: string)
    requires j < |lines| && EventAt(lines, j) == ResultLine(p, text)
    ensures var k := InjKey(p, ResultsBefore(lines, j, p) + 1);
      && k in Final(lines).effectsOcc && k in Final(lines).resultsOcc
      && Final(lines).resultsOcc[k] == NormalizeResult(text)
      && Final(lines).effectsOcc[k] == Snapshot(Run(Init, lines[..j]), p)
  {
    ResultLineStep(lines, j, p, text);
    FrozenFrom(lines, j + 1, |lines|);
    FinalTrials(lines);
  }

  /** The open buffers merged into `p`'s registry entry, as a flush and a
      result line for the open key both do: the earlier group in front, as
      it was, then the buffered records, or the sentinel when nothing was
      buffered; nothing else. */
  lemma MergedGroup(st: State, p: Pair)
    requires LatestValid(st)
    ensures p in st.latest ==> st.latest[p] <= Combined(LatestOr(st, p, []), Unique(st.writers, st.readers))
    ensures forall r :: r in Combined(LatestOr(st, p, []), Unique(st.writers, st.readers)) <==>
      r in LatestOr(st, p, []) || r in st.writers + st.readers
      || (st.writers + st.readers == [] && r == Sentinel)
  {
    var pack := Unique(st.writers, st.readers);
    UniqueValid(st.writers, st.readers);
    if st.writers + st.readers != [] {
      UniqueMembers(st.writers, st.readers);
    }
    if p in st.latest {
      CombinedKeepsExisting(st.latest[p], pack);
    } else {
      CombinedKeepsExisting(pack, []);
      assert [] + pack + [] == pack + [] + [];
    }
  }

  /** The snapshot a result line for the open key freezes: the pair's earlier
      group in front, as it was, followed by the buffered records (or the
      sentinel when nothing was buffered), with nothing else; the merged group
      also becomes the pair's registry entry. */
  lemma SnapshotOfOpenKey(st: State, p: Pair, o: Outcome)
    requires Inv(st) && st.cur == Some(p)
    ensures p in st.latest ==> st.latest[p] <= Snapshot(st, p)
    ensures forall r :: r in Snapshot(st, p) <==>
      r in LatestOr(st, p, []) || r in st.writers + st.readers
      || (st.writers + st.readers == [] && r == Sentinel)
    ensures Resolved(st, p, o).latest[p] == Snapshot(st, p)
  {
    MergedGroup(st, p);
  }

  /** The snapshot a result line for any pair but the open key freezes: the
      registry entry as it stands, or the lone sentinel when the pair never
      had a group; the registry is left as it is. */
  lemma SnapshotOfOtherKey(st: State, p: Pair, o: Outcome)
    requires st.cur != Some(p)
    ensures Snapshot(st, p) == if p in st.latest then st.latest[p] else [Sentinel]
    ensures Resolved(st, p, o).latest == st.latest
  {
  }

  /** Parameters are last-wins: after the last parameter line for `p`, the
      stripped text of that line is what `parse_log` returns for `p`. */
  lemma ParamsLastWins(lines: seq<LineMatch>, i: nat, p: Pair, text: string)
    requires i < |lines| && EventAt(lines, i) == ParamsLine(p, text)
    requires forall j :: i < j < |lines| ==> !(EventAt(lines, j).ParamsLine? && EventAt(lines, j).key == p)
    ensures p in Final(lines).params && Final(lines).params[p] == Strip(text)
  {
    RunStep(lines, i);
    PrefixInv(lines, i);
    PrefixInv(lines, |lines|);
    ApplyParams(Run(Init, lines[..i]), EventAt(lines, i));
    ParamsKept(lines, i + 1, |lines|, p);
    assert lines[..|lines|] == lines;
    FlushedFacts(Run(Init, lines));
  }

  lemma {:induction false} ParamsKept(lines: seq<LineMatch>, m: nat, n: nat, p: Pair)
    requires m <= n <= |lines|
    requires p in Run(Init, lines[..m]).params
    requires forall j :: m <= j < n ==> !(EventAt(lines, j).ParamsLine? && EventAt(lines, j).key == p)
    ensures p in Run(Init, lines[..n]).params && Run(Init, lines[..n]).params[p] == Run(Init, lines[..m]).params[p]
    decreases n - m
  {
    if m < n {
      RunStep(lines, m);
      PrefixInv(lines, m);
      ApplyParams(Run(Init, lines[..m]), EventAt(lines, m));
      ParamsKept(lines, m + 1, n, p);
    }
  }

  /** What a flush makes of the open key's registry entry: its earlier group in
      front, as it was, then the buffered records, or the sentinel when nothing
      was buffered; nothing else. */
  lemma FlushMerges(st: State, c: Pair)
    requires st.cur == Some(c) && LatestValid(st)
    ensures c in Flushed(st).latest
    ensures c in st.latest ==> st.latest[c] <= Flushed(st).latest[c]
    ensures forall r :: r in Flushed(st).latest[c] <==>
      r in LatestOr(st, c, []) || r in st.writers + st.readers
      || (st.writers + st.readers == [] && r == Sentinel)
  {
    MergedGroup(st, c);
  }

  /** An inline header for the key that is already open continues its group:
      nothing is flushed and its own evidence joins the buffers. */
  lemma InlineSameKeyContinues(st: State, k: Pair, ev: Evidence)
    requires st.cur == Some(k)
    ensures var st' := Apply(st, InlineHeader(k, ev));
      && st'.cur == Some(k) && st'.latest == st.latest
      && st'.writers == st.writers + (if ev.WriterEvidence? then [ev.rec] else [])
      && st'.readers == st.readers + (if ev.ReaderEvidence? then [ev.rec] else [])
  {
  }

  /** An inline header for another key flushes the open group into the
      registry, then opens the new key with only the header's own evidence. */
  lemma InlineNewKeyFlushes(st: State, k: Pair, ev: Evidence)
    requires st.cur.Some? && st.cur != Some(k) && LatestValid(st)
    ensures var c := st.cur.value;
      var st' := Apply(st, InlineHeader(k, ev));
      && st'.cur == Some(k)
      && st'.writers == (if ev.WriterEvidence? then [ev.rec] else [])
      && st'.readers == (if ev.ReaderEvidence? then [ev.rec] else [])
      && c in st'.latest
      && (forall r :: r in st.writers + st.readers ==> r in st'.latest[c])
      && (c in st.latest ==> st.latest[c] <= st'.latest[c])
  {
    FlushMerges(st, st.cur.value);
    assert Apply(st, InlineHeader(k, ev)).latest == Flushed(st).latest;
  }

  /** A legacy header always flushes, even when it names the key already
      open, and opens its key with empty buffers. */
  lemma LegacyHeaderFlushes(st: State, k: Pair)
    requires st.cur.Some? && LatestValid(st)
    ensures var c := st.cur.value;
      var st' := Apply(st, LegacyHeader(k));
      && st'.cur == Some(k) && st'.writers == [] && st'.readers == []
      && c in st'.latest
      && (forall r :: r in st.writers + st.readers ==> r in st'.latest[c])
      && (c in st.latest ==> st.latest[c] <= st'.latest[c])
  {
    FlushMerges(st, st.cur.value);
  }
}
