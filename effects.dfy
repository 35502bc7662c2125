/** Effect evidence and its de-duplication: `_merge_unique` and
    `_merge_records` of gpufi-instinject/analysis_fault.py. */
module Effects {
  import opened Seqs

  /** One WRITER or READER evidence entry: the instruction an injected fault
      reached, and the component (`src`) that reported it. The four fields are
      also the de-duplication key. */
  datatype EffectRecord = EffectRecord(src: string, kernel: string, instLine: int, instText: string)

  /** The placeholder used when a group has no evidence at all. */
  const Sentinel := EffectRecord("invalid", "invalid_summary", -1, "")

  /** An effect group as the registry holds it: never empty, no key twice. */
  predicate ValidGroup(g: seq<EffectRecord>)
  {
    |g| > 0 && Distinct(g)
  }

  /** `s` with repeats dropped: the first occurrence of every record, in order. */
  function Dedup(s: seq<EffectRecord>): (d: seq<EffectRecord>)
    ensures |d| <= |s|
    ensures s != [] ==> |d| > 0
  {
    if s == [] then []
    else
      var d := Dedup(s[..|s| - 1]);
      if s[|s| - 1] in d then d else d + [s[|s| - 1]]
  }

  /** `Dedup` keeps every record of its input, and only those. */
  lemma {:induction false} DedupMembers(s: seq<EffectRecord>)
    ensures forall x :: x in Dedup(s) <==> x in s
  {
    if s != [] {
      var p := s[..|s| - 1];
      DedupMembers(p);
      assert s == p + [s[|s| - 1]];
    }
  }

  /** `Dedup` leaves no record twice. */
  lemma {:induction false} DedupDistinct(s: seq<EffectRecord>)
    ensures Distinct(Dedup(s))
  {
    if s != [] {
      var p := s[..|s| - 1];
      DedupDistinct(p);
      if s[|s| - 1] !in Dedup(p) {
        AppendDistinct(Dedup(p), s[|s| - 1]);
      }
    }
  }

  /** `_merge_unique(writers, readers)`: writers first, then readers, repeats
      dropped; a group without any evidence becomes the lone sentinel. */
  function Unique(writers: seq<EffectRecord>, readers: seq<EffectRecord>): (g: seq<EffectRecord>)
    ensures |g| > 0
    ensures writers + readers == [] ==> g == [Sentinel]
  {
    var d := Dedup(writers + readers);
    if d == [] then [Sentinel] else d
  }

  /** `_merge_unique` always gives a proper group. */
  lemma UniqueValid(writers: seq<EffectRecord>, readers: seq<EffectRecord>)
    ensures ValidGroup(Unique(writers, readers))
  {
    DedupDistinct(writers + readers);
  }

  /** A group built from some evidence holds every record of it, and only those. */
  lemma UniqueMembers(writers: seq<EffectRecord>, readers: seq<EffectRecord>)
    requires writers + readers != []
    ensures forall x :: x in Unique(writers, readers) <==> x in writers + readers
  {
    DedupMembers(writers + readers);
  }

  /** What `_merge_records(existing, add)` computes in each of its three
      branches: the existing group followed by the added records, repeats
      dropped. */
  function Combined(existing: seq<EffectRecord>, add: seq<EffectRecord>): (g: seq<EffectRecord>)
    ensures |g| > 0
  {
    Unique(existing + add, [])
  }

  /** `_merge_records` always gives a proper group. */
  lemma CombinedValid(existing: seq<EffectRecord>, add: seq<EffectRecord>)
    ensures ValidGroup(Combined(existing, add))
  {
    UniqueValid(existing + add, []);
  }

  /** The records of `d` all occur in `s`, in the order of their first
      occurrence there. */
  ghost predicate InFirstOccurrenceOrder(s: seq<EffectRecord>, d: seq<EffectRecord>)
  {
    forall i, j :: 0 <= i < j < |d| ==>
      d[i] in s && d[j] in s && FirstIndex(s, d[i]) < FirstIndex(s, d[j])
  }

  lemma FirstOccurrenceOrderExtend(s: seq<EffectRecord>, d: seq<EffectRecord>, x: EffectRecord)
    requires InFirstOccurrenceOrder(s, d)
    requires forall y :: y in d ==> y in s
    ensures InFirstOccurrenceOrder(s + [x], d)
    ensures x !in s ==> InFirstOccurrenceOrder(s + [x], d + [x])
  {
    FirstIndexExtend(s, x);
    forall i, j | 0 <= i < j < |d|
      ensures d[i] in s + [x] && d[j] in s + [x]
      ensures FirstIndex(s + [x], d[i]) < FirstIndex(s + [x], d[j])
    {
    }
    if x !in s {
      forall i, j | 0 <= i < j < |d + [x]|
        ensures (d + [x])[i] in s + [x] && (d + [x])[j] in s + [x]
        ensures FirstIndex(s + [x], (d + [x])[i]) < FirstIndex(s + [x], (d + [x])[j])
      {
        assert (d + [x])[i] == d[i];
        if j < |d| {
          assert (d + [x])[j] == d[j];
        }
      }
    }
  }

  /** The records that `Dedup` keeps appear in the order of their first
      occurrence in the input. */
  lemma {:induction false} DedupKeepsFirstOccurrences(s: seq<EffectRecord>)
    ensures forall i, j :: 0 <= i < j < |Dedup(s)| ==>
      Dedup(s)[i] in s && Dedup(s)[j] in s && FirstIndex(s, Dedup(s)[i]) < FirstIndex(s, Dedup(s)[j])
  {
    if s != [] {
      var p, x := s[..|s| - 1], s[|s| - 1];
      assert s == p + [x];
      DedupKeepsFirstOccurrences(p);
      DedupMembers(p);
      FirstOccurrenceOrderExtend(p, Dedup(p), x);
      assert InFirstOccurrenceOrder(s, Dedup(s));
    } else {
      assert Dedup(s) == [];
    }
  }

  /** `_merge_unique` keeps, in writers-then-readers order, the first occurrence
      of every record, and nothing else. */
  lemma UniqueKeepsFirstOccurrences(writers: seq<EffectRecord>, readers: seq<EffectRecord>)
    requires writers + readers != []
    ensures forall i, j :: 0 <= i < j < |Unique(writers, readers)| ==>
      && Unique(writers, readers)[i] in writers + readers && Unique(writers, readers)[j] in writers + readers
      && FirstIndex(writers + readers, Unique(writers, readers)[i])
           < FirstIndex(writers + readers, Unique(writers, readers)[j])
  {
    var s := writers + readers;
    var u := Unique(writers, readers);
    assert u == Dedup(s);
    DedupKeepsFirstOccurrences(s);
    forall i, j | 0 <= i < j < |u|
      ensures u[i] in s && u[j] in s && FirstIndex(s, u[i]) < FirstIndex(s, u[j])
    {
      assert u[i] == Dedup(s)[i] && u[j] == Dedup(s)[j];
    }
  }

  /** De-duplicating a list that has no repeats leaves it as it is. */
  lemma {:induction false} DedupOfDistinct(s: seq<EffectRecord>)
    requires Distinct(s)
    ensures Dedup(s) == s
  {
    if s != [] {
      var p := s[..|s| - 1];
      DedupOfDistinct(p);
      assert s[|s| - 1] !in p;
      assert p + [s[|s| - 1]] == s;
    }
  }

  /** Records that are all already present add nothing. */
  lemma {:induction false} DedupAbsorbs(s: seq<EffectRecord>, t: seq<EffectRecord>)
    requires forall x :: x in t ==> x in s
    ensures Dedup(s + t) == Dedup(s)
    decreases |t|
  {
    if t != [] {
      var t' := t[..|t| - 1];
      assert (s + t)[..|s + t| - 1] == s + t';
      assert (s + t)[|s + t| - 1] == t[|t| - 1];
      DedupAbsorbs(s, t');
      DedupMembers(s + t');
      assert t[|t| - 1] in Dedup(s + t');
    } else {
      assert s + t == s;
    }
  }

  /** De-duplicating a longer list only appends to what the shorter one gave. */
  lemma {:induction false} DedupExtends(s: seq<EffectRecord>, t: seq<EffectRecord>)
    ensures Dedup(s) <= Dedup(s + t)
    decreases |t|
  {
    if t == [] {
      assert s + t == s;
    } else {
      var t' := t[..|t| - 1];
      assert (s + t)[..|s + t| - 1] == s + t';
      DedupExtends(s, t');
    }
  }

  /** `_merge_records` keeps the existing group in front, as it was, and adds
      only records of `add`. */
  lemma CombinedKeepsExisting(g: seq<EffectRecord>, add: seq<EffectRecord>)
    requires ValidGroup(g)
    ensures g <= Combined(g, add)
    ensures forall x :: x in Combined(g, add) <==> x in g || x in add
  {
    assert g + add + [] == g + add;
    DedupMembers(g + add);
    DedupExtends(g, add);
    DedupOfDistinct(g);
  }

  /** Merging into a group evidence it already holds leaves the group unchanged. */
  lemma CombinedAbsorbs(g: seq<EffectRecord>, add: seq<EffectRecord>)
    requires ValidGroup(g)
    requires forall x :: x in add ==> x in g
    ensures Combined(g, add) == g
  {
    assert g + add + [] == g + add;
    DedupAbsorbs(g, add);
    DedupOfDistinct(g);
  }

  /** Re-merging a group with itself is idempotent. */
  lemma CombinedIdempotent(g: seq<EffectRecord>)
    requires ValidGroup(g)
    ensures Combined(g, g) == g
  {
    CombinedAbsorbs(g, g);
  }

  /** Two different records are both kept, in order. */
  lemma DedupTwo(x: EffectRecord, y: EffectRecord)
    requires x != y
    ensures Dedup([x, y]) == [x, y]
  {
    assert [x][..0] == [];
    assert [x, y][..1] == [x];
  }

  /** Merging one new record into a one-record group appends it. */
  lemma CombinedTwo(x: EffectRecord, y: EffectRecord)
    requires x != y
    ensures Combined([x], [y]) == [x, y]
  {
    DedupTwo(x, y);
    assert [x] + [y] + [] == [x, y];
  }

  /** Flushing an empty open group onto a pair that already has real evidence
      puts the sentinel next to that evidence. */
  lemma SentinelBesideRealRecords(rec: EffectRecord)
    requires rec != Sentinel
    ensures Combined([rec], Unique([], [])) == [rec, Sentinel]
  {
    CombinedTwo(rec, Sentinel);
  }

  /** `_merge_unique`, as the loop over `writers + readers` with a `seen` set. */
  method MergeUnique(writers: seq<EffectRecord>, readers: seq<EffectRecord>) returns (merged: seq<EffectRecord>)
    ensures merged == Unique(writers, readers)
  {
    var all := writers + readers;
    var seen: set<EffectRecord> := {};
    merged := [];
    for i := 0 to |all|
      invariant merged == Dedup(all[..i])
      invariant forall x :: x in seen <==> x in merged
    {
      assert all[..i + 1][..i] == all[..i];
      if all[i] !in seen {
        seen := seen + {all[i]};
        merged := merged + [all[i]];
      }
    }
    assert all[..|all|] == all;
    if merged == [] {
      merged := [Sentinel];
    }
  }

  /** `_merge_records`, branch for branch. */
  method MergeRecords(existing: seq<EffectRecord>, add: seq<EffectRecord>) returns (merged: seq<EffectRecord>)
    ensures merged == Combined(existing, add)
  {
    if existing == [] {
      assert existing + add + [] == add + [];
      merged := MergeUnique(add, []);
    } else if add == [] {
      assert existing + add + [] == existing + [];
      merged := MergeUnique(existing, []);
    } else {
      merged := MergeUnique(existing + add, []);
    }
  }
}
