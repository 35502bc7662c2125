/** accel/accel.py: per-register injection and SDC counts from the result
    CSV, dangerous-cycle lengths from danger.log, and the registers that take
    part in the estimate. */
module Accel {
  import opened Wrappers
  import opened Seqs
  import opened Strings
  import opened Ordering

  // ---------------------------------------------------------------------
  // parse_csv

  /** One row as `csv.DictReader` gives it: the `reg_names` and `SDC` cells,
      "" where the row has no such column. */
  datatype CsvRow = CsvRow(regNames: string, sdc: string)

  /** What an accepted row contributes. */
  datatype RowStat = RowStat(reg: string, n: int, sdc: int)

  /** The row's SDC cell: empty or not an integer counts as 0. */
  function SdcOf(cell: string): int
  {
    var s := Strip(cell);
    if s == "" then 0
    else match ParseInt(s)
      case None => 0
      case Some(v) => v
  }

  /** A row is taken when its stripped `reg_names` cell is `name:count` with
      exactly one ':' and a non-empty integer count. */
  function RowStatOf(row: CsvRow): (r: Option<RowStat>)
    ensures r.Some? ==> r.value.sdc == SdcOf(row.sdc)
  {
    var field := Strip(row.regNames);
    if field == "" then None
    else
      var parts := Split(field, ':');
      if |parts| != 2 then None
      else
        var cnt := Strip(parts[1]);
        if cnt == "" then None
        else match ParseInt(cnt)
          case None => None
          case Some(n) => Some(RowStat(Strip(parts[0]), n, SdcOf(row.sdc)))
  }

  /** `reg_stats[name]`: the sums of N and SDC. */
  datatype Stat = Stat(n: int, sdc: int)

  /** What every row contributes, in order. */
  function Reads(rows: seq<CsvRow>): (rs: seq<Option<RowStat>>)
    ensures |rs| == |rows|
  {
    seq(|rows|, i requires 0 <= i < |rows| => RowStatOf(rows[i]))
  }

  /** One row's contribution to `reg_stats`: a new register starts at 0. */
  function Add(m: map<string, Stat>, r: Option<RowStat>): map<string, Stat>
  {
    match r
    case None => m
    case Some(rs) =>
      var prior := if rs.reg in m then m[rs.reg] else Stat(0, 0);
      m[rs.reg := Stat(prior.n + rs.n, prior.sdc + rs.sdc)]
  }

  /** `reg_stats` after the contributions `rs`. */
  function Accumulate(rs: seq<Option<RowStat>>): map<string, Stat>
  {
    if rs == [] then map[] else Add(Accumulate(rs[..|rs| - 1]), rs[|rs| - 1])
  }

  function RegStats(rows: seq<CsvRow>): map<string, Stat>
  {
    Accumulate(Reads(rows))
  }

  lemma AccumulateStep(rs: seq<Option<RowStat>>, i: nat)
    requires i < |rs|
    ensures Accumulate(rs[..i + 1]) == Add(Accumulate(rs[..i]), rs[i])
  {
    assert rs[..i + 1][..i] == rs[..i];
  }

  /** The body of the loop over the rows: what one row contributes. */
  method ReadRow(row: CsvRow) returns (r: Option<RowStat>)
    ensures r == RowStatOf(row)
  {
    var field := Strip(row.regNames);
    if field == "" {
      return None;
    }
    var parts := Split(field, ':');
    if |parts| != 2 {
      return None;
    }
    var name, cnt := Strip(parts[0]), Strip(parts[1]);
    if cnt == "" {
      return None;
    }
    var n := ParseInt(cnt);
    if n.None? {
      return None;
    }
    var sdc := SdcOf(row.sdc);
    r := Some(RowStat(name, n.value, sdc));
  }

  /** A taken row's update of `reg_stats`: a new register starts at 0, then
      N and SDC grow by the row's values. */
  method Credit(stats: map<string, Stat>, r: RowStat) returns (m: map<string, Stat>)
    ensures m == Add(stats, Some(r))
  {
    m := stats;
    if r.reg !in m {
      m := m[r.reg := Stat(0, 0)];
    }
    var prior := m[r.reg];
    m := m[r.reg := Stat(prior.n + r.n, prior.sdc + r.sdc)];
  }

  /** The loop over the rows. */
  method ParseCsv(rows: seq<CsvRow>) returns (stats: map<string, Stat>)
    ensures stats == RegStats(rows)
  {
    ghost var rs := Reads(rows);
    stats := map[];
    for i := 0 to |rows|
      invariant stats == Accumulate(rs[..i])
    {
      AccumulateStep(rs, i);
      var r := ReadRow(rows[i]);
      if r.None? {
        continue;
      }
      stats := Credit(stats, r.value);
    }
    assert rs[..|rows|] == rs;
  }

  /** The taken rows that name `reg`. */
  function Taken(rs: seq<Option<RowStat>>, reg: string): nat
  {
    if rs == [] then 0
    else Taken(rs[..|rs| - 1], reg) + (if rs[|rs| - 1].Some? && rs[|rs| - 1].value.reg == reg then 1 else 0)
  }

  /** The sum of the counts of the taken rows that name `reg`. */
  function NSum(rs: seq<Option<RowStat>>, reg: string): int
  {
    if rs == [] then 0
    else NSum(rs[..|rs| - 1], reg) + (if rs[|rs| - 1].Some? && rs[|rs| - 1].value.reg == reg then rs[|rs| - 1].value.n else 0)
  }

  /** The sum of the SDC cells of the taken rows that name `reg`. */
  function SdcSum(rs: seq<Option<RowStat>>, reg: string): int
  {
    if rs == [] then 0
    else SdcSum(rs[..|rs| - 1], reg) + (if rs[|rs| - 1].Some? && rs[|rs| - 1].value.reg == reg then rs[|rs| - 1].value.sdc else 0)
  }

  /** A register is listed exactly when some row naming it was taken, and
      its N and SDC are the sums over those rows, starting from 0. */
  lemma {:induction false} AccumulateSums(rs: seq<Option<RowStat>>, reg: string)
    ensures reg in Accumulate(rs) <==> Taken(rs, reg) > 0
    ensures reg in Accumulate(rs) ==> Accumulate(rs)[reg] == Stat(NSum(rs, reg), SdcSum(rs, reg))
    ensures reg !in Accumulate(rs) ==> NSum(rs, reg) == SdcSum(rs, reg) == 0
  {
    if rs != [] {
      var init := rs[..|rs| - 1];
      var last := rs[|rs| - 1];
      AccumulateSums(init, reg);
      assert Accumulate(rs) == Add(Accumulate(init), last);
      assert Taken(rs, reg) == Taken(init, reg) + (if last.Some? && last.value.reg == reg then 1 else 0);
      assert NSum(rs, reg) == NSum(init, reg) + (if last.Some? && last.value.reg == reg then last.value.n else 0);
      assert SdcSum(rs, reg) == SdcSum(init, reg) + (if last.Some? && last.value.reg == reg then last.value.sdc else 0);
    }
  }

  /** `parse_csv` on whole rows: each register's N and SDC are the sums over
      the taken rows that name it. */
  lemma RegStatsSums(rows: seq<CsvRow>, reg: string)
    ensures reg in RegStats(rows) <==> Taken(Reads(rows), reg) > 0
    ensures reg in RegStats(rows) ==> RegStats(rows)[reg] == Stat(NSum(Reads(rows), reg), SdcSum(Reads(rows), reg))
  {
    AccumulateSums(Reads(rows), reg);
  }

  /** A `reg_names` cell that does not hold exactly one ':' (several
      registers, say) makes the row count for nothing. */
  lemma ColonsOtherThanOneSkipped(row: CsvRow)
    requires Count(Strip(row.regNames), ':') != 1
    ensures RowStatOf(row) == None
  {
    SplitCount(Strip(row.regNames), ':');
  }

  /** An empty or non-integer count makes the row count for nothing. */
  lemma BadCountSkipped(row: CsvRow)
    requires |Split(Strip(row.regNames), ':')| == 2
    requires ParseInt(Strip(Split(Strip(row.regNames), ':')[1])) == None
    ensures RowStatOf(row) == None
  {
  }

  lemma DigitsHaveNoSpace(s: string)
    requires AllDigits(s)
    ensures NoSpace(s)
  {
    forall i | 0 <= i < |s| ensures !IsSpace(s[i]) {
      assert IsDigit(s[i]);
    }
  }

  lemma NoSeparatorInDigits(s: string, c: char)
    requires AllDigits(s) && !IsDigit(c)
    ensures c !in s
  {
    forall i | 0 <= i < |s| ensures s[i] != c {
      assert IsDigit(s[i]);
    }
  }

  /** A written number is its own stripped text, non-empty, and reads back. */
  lemma NumberCell(n: nat)
    ensures Strip(NatToString(n)) == NatToString(n) != ""
    ensures ParseInt(NatToString(n)) == Some(n)
  {
    DigitsHaveNoSpace(NatToString(n));
    StripNoSpace(NatToString(n));
    ParseIntNatToString(n);
  }

  /** `a + [c] + b` has no white space when neither part has any and `c` is
      not white space. */
  lemma ConcatNoSpace(a: string, c: char, b: string)
    requires NoSpace(a) && NoSpace(b) && !IsSpace(c)
    ensures NoSpace(a + [c] + b)
  {
    var t := a + [c] + b;
    forall i | 0 <= i < |t| ensures !IsSpace(t[i]) {
      if i < |a| {
        assert t[i] == a[i];
      } else if i > |a| {
        assert t[i] == b[i - |a| - 1];
      }
    }
  }

  /** `a` and `b` joined by `c` split back on `c` when neither holds it. */
  lemma SplitPair(a: string, c: char, b: string)
    requires c !in a && c !in b
    ensures Split(a + [c] + b, c) == [a, b]
  {
    assert Join([a, b], [c]) == a + [c] + b;
    SplitJoin([a, b], c);
  }

  lemma NameCountCell(name: string, n: nat)
    requires NoSpace(name) && ':' !in name
    ensures Strip(name + ":" + NatToString(n)) == name + ":" + NatToString(n) != ""
    ensures Split(name + ":" + NatToString(n), ':') == [name, NatToString(n)]
  {
    var digits := NatToString(n);
    DigitsHaveNoSpace(digits);
    NoSeparatorInDigits(digits, ':');
    ConcatNoSpace(name, ':', digits);
    StripNoSpace(name + ":" + digits);
    SplitPair(name, ':', digits);
  }

  /** A one-register cell `name:count`, as `write_csv` writes it, is read back
      as that register and count, with the SDC cell's value. */
  lemma SingleRegisterCellRead(name: string, n: nat, sdc: nat)
    requires NoSpace(name) && ':' !in name
    ensures RowStatOf(CsvRow(name + ":" + NatToString(n), NatToString(sdc))) == Some(RowStat(name, n, sdc))
  {
    var cell := name + ":" + NatToString(n);
    NameCountCell(name, n);
    NumberCell(n);
    SdcCell(sdc);
    StripNoSpace(name);
    var parts := Split(Strip(cell), ':');
    assert parts == [name, NatToString(n)];
    assert Strip(parts[1]) == NatToString(n);
  }

  /** A written SDC count reads back. */
  lemma SdcCell(sdc: nat)
    ensures SdcOf(NatToString(sdc)) == sdc
  {
    NumberCell(sdc);
  }

  // ---------------------------------------------------------------------
  // parse_danger_log

  /** What the pattern `reg=(%\S+)\s+cycles=([0-9,\-]+)` captures on a line. */
  datatype DangerMatch = DangerMatch(reg: string, cycles: string)

  /** The exception `int(...)` or the unpacking of `seg.split("-")` raises. */
  datatype DangerError = BadRange(seg: string) | BadNumber(text: string)

  /** The length of one stripped, non-empty segment: `start-end` counts
      `end - start + 1`, a bare number counts 1. */
  function SegmentLength(seg: string): Result<int, DangerError>
  {
    if '-' in seg then
      var bounds := Split(seg, '-');
      if |bounds| != 2 then Failure(BadRange(seg))
      else match ParseInt(bounds[0])
        case None => Failure(BadNumber(bounds[0]))
        case Some(start) =>
          match ParseInt(bounds[1])
          case None => Failure(BadNumber(bounds[1]))
          case Some(end) => Success(end - start + 1)
    else match ParseInt(seg)
      case None => Failure(BadNumber(seg))
      case Some(_) => Success(1)
  }

  /** What one segment adds: nothing when it is blank once stripped. */
  function SegValue(seg: string): Option<Result<int, DangerError>>
  {
    var s := Strip(seg);
    if s == "" then None else Some(SegmentLength(s))
  }

  function SegValues(segs: seq<string>): (vs: seq<Option<Result<int, DangerError>>>)
    ensures |vs| == |segs|
  {
    seq(|segs|, i requires 0 <= i < |segs| => SegValue(segs[i]))
  }

  /** The sum of the lengths; the first bad segment aborts. */
  function SumLengths(vs: seq<Option<Result<int, DangerError>>>): Result<int, DangerError>
  {
    if vs == [] then Success(0) else AddLength(SumLengths(vs[..|vs| - 1]), vs[|vs| - 1])
  }

  /** One segment's value added to the running sum. */
  function AddLength(acc: Result<int, DangerError>, v: Option<Result<int, DangerError>>): Result<int, DangerError>
  {
    match acc
    case Failure(e) => Failure(e)
    case Success(t) =>
      match v
      case None => Success(t)
      case Some(Failure(e)) => Failure(e)
      case Some(Success(len)) => Success(t + len)
  }

  lemma SumLengthsStep(vs: seq<Option<Result<int, DangerError>>>, i: nat)
    requires i < |vs|
    ensures SumLengths(vs[..i + 1]) == AddLength(SumLengths(vs[..i]), vs[i])
  {
    assert vs[..i + 1][..i] == vs[..i];
  }

  /** `d_r` of one line: the segments between the commas. */
  function CyclesTotal(cycles: string): Result<int, DangerError>
  {
    SumLengths(SegValues(Split(cycles, ',')))
  }

  /** A matched line's register with its total. */
  datatype LineTotal = LineTotal(reg: string, total: Result<int, DangerError>)

  /** Every line with its total; `None` stands for a line that is blank or
      has no match. */
  function LineTotals(lines: seq<Option<DangerMatch>>): (ts: seq<Option<LineTotal>>)
    ensures |ts| == |lines|
  {
    seq(|lines|, i requires 0 <= i < |lines| =>
      match lines[i]
      case None => None
      case Some(dm) => Some(LineTotal(dm.reg, CyclesTotal(dm.cycles))))
  }

  /** `danger_stats` after the totals; the first failing line aborts. */
  function Collect(ts: seq<Option<LineTotal>>): Result<map<string, int>, DangerError>
  {
    if ts == [] then Success(map[])
    else
      match Collect(ts[..|ts| - 1])
      case Failure(e) => Failure(e)
      case Success(m) =>
        match ts[|ts| - 1]
        case None => Success(m)
        case Some(LineTotal(reg, Failure(e))) => Failure(e)
        case Some(LineTotal(reg, Success(t))) => Success(m[reg := t])
  }

  function DangerStats(lines: seq<Option<DangerMatch>>): Result<map<string, int>, DangerError>
  {
    Collect(LineTotals(lines))
  }

  /** The loop over the segments of one line. */
  method ParseCycles(cycles: string) returns (r: Result<int, DangerError>)
    ensures r == CyclesTotal(cycles)
  {
    var segs := Split(cycles, ',');
    ghost var vs := SegValues(segs);
    var total := 0;
    for i := 0 to |segs|
      invariant SumLengths(vs[..i]) == Success(total)
    {
      SumLengthsStep(vs, i);
      assert vs[i] == SegValue(segs[i]);
      var seg := Strip(segs[i]);
      if seg == "" {
        continue;
      }
      var len := SegmentLength(seg);
      if len.Failure? {
        SumFailureSticks(vs, i + 1);
        return Failure(len.error);
      }
      total := total + len.value;
    }
    assert vs[..|segs|] == vs;
    r := Success(total);
  }

  /** Once a prefix of the segments fails, the whole line fails the same way. */
  lemma {:induction false} SumFailureSticks(vs: seq<Option<Result<int, DangerError>>>, k: nat)
    requires k <= |vs| && SumLengths(vs[..k]).Failure?
    ensures SumLengths(vs) == SumLengths(vs[..k])
    decreases |vs| - k
  {
    if k == |vs| {
      assert vs[..k] == vs;
    } else {
      assert vs[..k + 1][..k] == vs[..k];
      SumFailureSticks(vs, k + 1);
    }
  }

  /** The loop over the lines of danger.log. */
  method ParseDangerLog(lines: seq<Option<DangerMatch>>) returns (r: Result<map<string, int>, DangerError>)
    ensures r == DangerStats(lines)
  {
    ghost var ts := LineTotals(lines);
    var stats: map<string, int> := map[];
    for i := 0 to |lines|
      invariant Collect(ts[..i]) == Success(stats)
    {
      assert ts[..i + 1][..i] == ts[..i];
      if lines[i].None? {
        continue;
      }
      var dm := lines[i].value;
      var total := ParseCycles(dm.cycles);
      if total.Failure? {
        CollectFailureSticks(ts, i + 1);
        return Failure(total.error);
      }
      stats := stats[dm.reg := total.value];
    }
    assert ts[..|lines|] == ts;
    r := Success(stats);
  }

  lemma {:induction false} CollectFailureSticks(ts: seq<Option<LineTotal>>, k: nat)
    requires k <= |ts| && Collect(ts[..k]).Failure?
    ensures Collect(ts) == Collect(ts[..k])
    decreases |ts| - k
  {
    if k == |ts| {
      assert ts[..k] == ts;
    } else {
      assert ts[..k + 1][..k] == ts[..k];
      CollectFailureSticks(ts, k + 1);
    }
  }

  /** A cycle range as it is written: `lo-hi`, or a single cycle. */
  datatype Span = Range(lo: nat, hi: nat) | Single(at: nat)

  function SpanText(sp: Span): string
  {
    match sp
    case Range(lo, hi) => NatToString(lo) + "-" + NatToString(hi)
    case Single(at) => NatToString(at)
  }

  /** The closed length of a span. */
  function SpanLength(sp: Span): int
  {
    match sp
    case Range(lo, hi) => hi - lo + 1
    case Single(_) => 1
  }

  function SpanTexts(sps: seq<Span>): (ts: seq<string>)
    ensures |ts| == |sps|
  {
    seq(|sps|, i requires 0 <= i < |sps| => SpanText(sps[i]))
  }

  function LengthSum(sps: seq<Span>): int
  {
    if sps == [] then 0 else LengthSum(sps[..|sps| - 1]) + SpanLength(sps[|sps| - 1])
  }

  lemma RangeText(lo: nat, hi: nat)
    ensures NoSpace(SpanText(Range(lo, hi))) && ',' !in SpanText(Range(lo, hi))
    ensures SegmentLength(SpanText(Range(lo, hi))) == Success(hi - lo + 1)
  {
    var a, b := NatToString(lo), NatToString(hi);
    DigitsHaveNoSpace(a);
    DigitsHaveNoSpace(b);
    NoSeparatorInDigits(a, ',');
    NoSeparatorInDigits(b, ',');
    NoSeparatorInDigits(a, '-');
    NoSeparatorInDigits(b, '-');
    ConcatNoSpace(a, '-', b);
    assert a + "-" + b == a + ['-'] + b;
    assert (a + ['-'] + b)[|a|] == '-';
    SplitPair(a, '-', b);
    NumberCell(lo);
    NumberCell(hi);
  }

  lemma SingleText(at: nat)
    ensures NoSpace(SpanText(Single(at))) && ',' !in SpanText(Single(at))
    ensures SegmentLength(SpanText(Single(at))) == Success(1)
  {
    var t := NatToString(at);
    DigitsHaveNoSpace(t);
    NoSeparatorInDigits(t, ',');
    NoSeparatorInDigits(t, '-');
    NumberCell(at);
  }

  /** One written span reads back as its closed length. */
  lemma SpanReadsBack(sp: Span)
    ensures ',' !in SpanText(sp)
    ensures SegValue(SpanText(sp)) == Some(Success(SpanLength(sp)))
  {
    var s := SpanText(sp);
    match sp {
      case Single(at) => SingleText(at);
      case Range(lo, hi) => RangeText(lo, hi);
    }
    assert NoSpace(s) && SegmentLength(s) == Success(SpanLength(sp));
    StripNoSpace(s);
    assert SegValue(s) == Some(SegmentLength(s));
  }

  /** Spans written comma-separated read back as the sum of their closed
      lengths. */
  lemma SpansReadBack(sps: seq<Span>)
    requires sps != []
    ensures CyclesTotal(Join(SpanTexts(sps), ",")) == Success(LengthSum(sps))
  {
    var ts := SpanTexts(sps);
    forall k | 0 <= k < |ts| ensures ',' !in ts[k] {
      SpanReadsBack(sps[k]);
    }
    SplitJoin(ts, ',');
    SpanValues(sps);
  }

  lemma {:induction false} SpanValues(sps: seq<Span>)
    ensures SumLengths(SegValues(SpanTexts(sps))) == Success(LengthSum(sps))
  {
    if sps != [] {
      var init, last := sps[..|sps| - 1], sps[|sps| - 1];
      var vs := SegValues(SpanTexts(sps));
      SpanValues(init);
      assert vs[..|vs| - 1] == SegValues(SpanTexts(init));
      SpanReadsBack(last);
      assert vs[|vs| - 1] == Some(Success(SpanLength(last)));
      assert LengthSum(sps) == LengthSum(init) + SpanLength(last);
    }
  }

  /** A segment that is blank once stripped adds nothing. */
  lemma BlankSegmentSkipped(segs: seq<string>, seg: string)
    requires Strip(seg) == ""
    ensures SumLengths(SegValues(segs + [seg])) == SumLengths(SegValues(segs))
  {
    var vs := SegValues(segs + [seg]);
    assert vs[..|segs|] == SegValues(segs);
    assert vs[|segs|] == SegValue(seg) == None;
    SumLengthsStep(vs, |segs|);
    assert vs[..|segs| + 1] == vs;
  }

  /** A segment with more than one '-' raises. */
  lemma TwoDashesFail(seg: string)
    requires Count(seg, '-') >= 2
    ensures SegmentLength(seg).Failure?
  {
    SplitCount(seg, '-');
    CountPositive(seg, '-');
  }

  /** `reg` names the matched line `t`. */
  predicate Names(t: Option<LineTotal>, reg: string)
  {
    t.Some? && t.value.reg == reg
  }

  /** A register's total is the one of the last line that names it, and it is
      listed exactly when some line names it. */
  lemma LastLineWins(ts: seq<Option<LineTotal>>, reg: string)
    requires Collect(ts).Success?
    ensures reg in Collect(ts).value <==> exists i :: 0 <= i < |ts| && Names(ts[i], reg)
    ensures forall i ::
      (0 <= i < |ts| && Names(ts[i], reg) && forall j :: i < j < |ts| ==> !Names(ts[j], reg))
      ==> reg in Collect(ts).value && ts[i].value.total == Success(Collect(ts).value[reg])
  {
    ListedIffNamed(ts, reg);
    forall i | 0 <= i < |ts| && Names(ts[i], reg) && forall j :: i < j < |ts| ==> !Names(ts[j], reg)
      ensures reg in Collect(ts).value && ts[i].value.total == Success(Collect(ts).value[reg])
    {
      LastNamingLine(ts, reg, i);
    }
  }

  lemma {:induction false} ListedIffNamed(ts: seq<Option<LineTotal>>, reg: string)
    requires Collect(ts).Success?
    ensures reg in Collect(ts).value <==> exists i :: 0 <= i < |ts| && Names(ts[i], reg)
  {
    if ts != [] {
      var init := ts[..|ts| - 1];
      CollectStep(ts);
      ListedIffNamed(init, reg);
      assert forall i :: 0 <= i < |init| ==> init[i] == ts[i];
      if Names(ts[|ts| - 1], reg) {
        assert reg in Collect(ts).value;
      }
    }
  }

  lemma {:induction false} LastNamingLine(ts: seq<Option<LineTotal>>, reg: string, i: nat)
    requires Collect(ts).Success?
    requires i < |ts| && Names(ts[i], reg)
    requires forall j :: i < j < |ts| ==> !Names(ts[j], reg)
    ensures reg in Collect(ts).value && ts[i].value.total == Success(Collect(ts).value[reg])
  {
    var init := ts[..|ts| - 1];
    CollectStep(ts);
    if i < |ts| - 1 {
      assert init[i] == ts[i];
      assert !Names(ts[|ts| - 1], reg);
      LastNamingLine(init, reg, i);
    }
  }

  /** One more line: the earlier lines succeeded, and the last one, if it
      matched, set its register's total. */
  lemma CollectStep(ts: seq<Option<LineTotal>>)
    requires ts != [] && Collect(ts).Success?
    ensures Collect(ts[..|ts| - 1]).Success?
    ensures ts[|ts| - 1].Some? ==> ts[|ts| - 1].value.total.Success?
    ensures Collect(ts).value ==
      if ts[|ts| - 1].Some?
      then Collect(ts[..|ts| - 1]).value[ts[|ts| - 1].value.reg := ts[|ts| - 1].value.total.value]
      else Collect(ts[..|ts| - 1]).value
  {
  }

  /** The log fails exactly when some matched line's cycles fail. */
  lemma {:induction false} CollectFails(ts: seq<Option<LineTotal>>)
    ensures Collect(ts).Failure? <==> exists i :: 0 <= i < |ts| && ts[i].Some? && ts[i].value.total.Failure?
  {
    if ts != [] {
      var init := ts[..|ts| - 1];
      CollectFails(init);
      assert forall i :: 0 <= i < |init| ==> init[i] == ts[i];
    }
  }

  // ---------------------------------------------------------------------
  // compute_p: which registers take part

  /** A register that takes part: its `d_r`, `N_r` and `SDC_r`. */
  datatype UsedReg = UsedReg(name: string, d: int, n: int, sdc: int)

  /** A register takes part when it has a danger length and a CSV entry
      with a positive N. */
  predicate Takes(danger: map<string, int>, stats: map<string, Stat>, u: UsedReg)
  {
    u.name in danger && u.name in stats && stats[u.name].n > 0
    && u.d == danger[u.name] && u.n == stats[u.name].n && u.sdc == stats[u.name].sdc
  }

  function UsedNames(danger: map<string, int>, stats: map<string, Stat>): set<string>
  {
    set r | r in danger && r in stats && stats[r].n > 0
  }

  /** The loop body's filter over `names`, in order. */
  function Selected(names: seq<string>, danger: map<string, int>, stats: map<string, Stat>): seq<UsedReg>
    requires forall r :: r in names ==> r in danger
  {
    if names == [] then []
    else
      var init, r := names[..|names| - 1], names[|names| - 1];
      Selected(init, danger, stats)
      + (if r in stats && stats[r].n > 0 then [UsedReg(r, danger[r], stats[r].n, stats[r].sdc)] else [])
  }

  lemma {:induction false} SelectedMembers(names: seq<string>, danger: map<string, int>, stats: map<string, Stat>)
    requires forall r :: r in names ==> r in danger
    ensures forall u :: u in Selected(names, danger, stats) <==> Takes(danger, stats, u) && u.name in names
  {
    if names != [] {
      var init := names[..|names| - 1];
      SelectedMembers(init, danger, stats);
      assert names == init + [names[|names| - 1]];
    }
  }

  lemma {:induction false} SelectedOrder(names: seq<string>, danger: map<string, int>, stats: map<string, Stat>)
    requires forall r :: r in names ==> r in danger
    requires forall i, j :: 0 <= i < j < |names| ==> StrLt(names[i], names[j])
    ensures forall i, j :: 0 <= i < j < |Selected(names, danger, stats)| ==>
      StrLt(Selected(names, danger, stats)[i].name, Selected(names, danger, stats)[j].name)
  {
    if names != [] {
      var init := names[..|names| - 1];
      SelectedOrder(init, danger, stats);
      SelectedMembers(init, danger, stats);
      var sel := Selected(init, danger, stats);
      forall k | 0 <= k < |sel| ensures StrLt(sel[k].name, names[|names| - 1]) {
        assert sel[k] in sel;
        var j :| 0 <= j < |init| && init[j] == sel[k].name;
      }
    }
  }

  /** The loop over `sorted(danger_stats.keys())`: the registers that take
      part, in name order, and `used_regs`, their number. */
  method SelectRegisters(danger: map<string, int>, stats: map<string, Stat>) returns (used: seq<UsedReg>, usedRegs: nat)
    ensures forall u :: u in used <==> Takes(danger, stats, u)
    ensures forall i, j :: 0 <= i < j < |used| ==> StrLt(used[i].name, used[j].name)
    ensures usedRegs == |used| == |UsedNames(danger, stats)|
  {
    StrLePreorder();
    var names := SortSet(danger.Keys, StrLe);
    used := [];
    usedRegs := 0;
    for i := 0 to |names|
      invariant usedRegs == |used|
      invariant used == Selected(names[..i], danger, stats)
    {
      SelectedStep(names, i, danger, stats);
      var name := names[i];
      if name !in stats {
        continue;
      }
      var st := stats[name];
      if st.n <= 0 {
        continue;
      }
      used := used + [UsedReg(name, danger[name], st.n, st.sdc)];
      usedRegs := usedRegs + 1;
    }
    assert names[..|names|] == names;
    SelectionOfSortedKeys(names, danger, stats);
  }

  lemma SelectedStep(names: seq<string>, i: nat, danger: map<string, int>, stats: map<string, Stat>)
    requires i < |names| && forall r :: r in names ==> r in danger
    ensures forall r :: r in names[..i] ==> r in danger
    ensures Selected(names[..i + 1], danger, stats) == Selected(names[..i], danger, stats)
      + (if names[i] in stats && stats[names[i]].n > 0
         then [UsedReg(names[i], danger[names[i]], stats[names[i]].n, stats[names[i]].sdc)] else [])
  {
    assert names[..i + 1][..i] == names[..i];
    assert names[..i + 1][i] == names[i];
  }

  /** The filter over the sorted keys of `danger` keeps exactly the
      registers that take part, in strictly increasing name order. */
  lemma SelectionOfSortedKeys(names: seq<string>, danger: map<string, int>, stats: map<string, Stat>)
    requires Distinct(names) && SortedBy(names, StrLe) && forall r :: r in names <==> r in danger
    ensures forall u :: u in Selected(names, danger, stats) <==> Takes(danger, stats, u)
    ensures forall i, j :: 0 <= i < j < |Selected(names, danger, stats)| ==>
      StrLt(Selected(names, danger, stats)[i].name, Selected(names, danger, stats)[j].name)
    ensures |Selected(names, danger, stats)| == |UsedNames(danger, stats)|
  {
    StrLtStrictTotal();
    DistinctSortedIncreasing(names, StrLt, StrLe);
    SelectedMembers(names, danger, stats);
    SelectedOrder(names, danger, stats);
    UsedCount(danger, stats, Selected(names, danger, stats));
  }

  function NamesOf(used: seq<UsedReg>): (ns: seq<string>)
    ensures |ns| == |used|
  {
    seq(|used|, i requires 0 <= i < |used| => used[i].name)
  }

  /** `used_regs` is the number of registers in both maps with a positive N. */
  lemma UsedCount(danger: map<string, int>, stats: map<string, Stat>, used: seq<UsedReg>)
    requires forall u :: u in used <==> Takes(danger, stats, u)
    requires forall i, j :: 0 <= i < j < |used| ==> StrLt(used[i].name, used[j].name)
    ensures |used| == |UsedNames(danger, stats)|
  {
    StrLtStrictTotal();
    var ns := NamesOf(used);
    forall r ensures r in ns <==> r in UsedNames(danger, stats) {
      if r in UsedNames(danger, stats) {
        var u := UsedReg(r, danger[r], stats[r].n, stats[r].sdc);
        assert Takes(danger, stats, u);
        var k :| 0 <= k < |used| && used[k] == u;
        assert ns[k] == r;
      }
      if r in ns {
        var k :| 0 <= k < |ns| && ns[k] == r;
        assert used[k] in used;
      }
    }
    assert Distinct(ns) by {
      forall i, j | 0 <= i < j < |ns| ensures ns[i] != ns[j] {
        assert StrLt(ns[i], ns[j]);
      }
    }
    DistinctCardinality(ns, UsedNames(danger, stats));
  }
}
