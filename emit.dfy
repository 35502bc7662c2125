/** The writing half of `write_csv` in gpufi-instinject/analysis_fault.py: the
    header, the order of the rows, the register-name cell and the per-source
    and total columns of every row. */
module CsvEmit {
  import opened Wrappers
  import opened Seqs
  import opened Strings
  import opened Ordering
  import opened Outcomes
  import opened CsvAggregate
  import opened LogParser

  // ---------------------------------------------------------------------
  // The header

  const Suffixes := ["_Masked", "_SDC", "_DUE", "_Others"]

  /** The outcome counted under each suffix, in the same order. */
  const Columns := [Masked, SDC, DUE, Others]

  /** `{src}_Masked, {src}_SDC, {src}_DUE, {src}_Others` for every source in turn. */
  function SourceColumns(srcs: seq<string>): (cols: seq<string>)
    ensures |cols| == 4 * |srcs|
  {
    if srcs == [] then []
    else
      var src := srcs[|srcs| - 1];
      SourceColumns(srcs[..|srcs| - 1]) + [src + Suffixes[0], src + Suffixes[1], src + Suffixes[2], src + Suffixes[3]]
  }

  const Leading := ["kernel", "inst_line", "inst_text", "reg_names"]
  const Trailing := ["Masked", "SDC", "DUE", "Others", "tot_inj"]

  function Header(srcs: seq<string>): seq<string>
  {
    Leading + SourceColumns(srcs) + Trailing
  }

  /** Column `4 + 4 * i + k` names source `i` and outcome `k`. */
  lemma {:induction false} SourceColumnsAt(srcs: seq<string>, i: nat, k: nat)
    requires i < |srcs| && k < 4
    ensures SourceColumns(srcs)[4 * i + k] == srcs[i] + Suffixes[k]
    decreases |srcs|
  {
    var init := srcs[..|srcs| - 1];
    if i < |init| {
      SourceColumnsAt(init, i, k);
    }
  }

  /** The header has the four leading names, four columns per source in the
      given order, then the five totals. */
  lemma HeaderShape(srcs: seq<string>)
    ensures |Header(srcs)| == 9 + 4 * |srcs|
    ensures Header(srcs)[..4] == Leading
    ensures Header(srcs)[4 + 4 * |srcs|..] == Trailing
    ensures forall i, k :: 0 <= i < |srcs| && 0 <= k < 4 ==> Header(srcs)[4 + 4 * i + k] == srcs[i] + Suffixes[k]
  {
    forall i, k | 0 <= i < |srcs| && 0 <= k < 4
      ensures Header(srcs)[4 + 4 * i + k] == srcs[i] + Suffixes[k]
    {
      SourceColumnsAt(srcs, i, k);
    }
  }

  // ---------------------------------------------------------------------
  // The order of the rows: Python's `<` on `(kernel, inst_line, inst_text)`

  predicate RowLt(a: RowKey, b: RowKey)
  {
    || StrLt(a.kernel, b.kernel)
    || (a.kernel == b.kernel && a.line < b.line)
    || (a.kernel == b.kernel && a.line == b.line && StrLt(a.text, b.text))
  }

  predicate RowLe(a: RowKey, b: RowKey)
  {
    !RowLt(b, a)
  }

  lemma RowLtStrictTotal()
    ensures StrictTotal(RowLt)
  {
    StrLtStrictTotal();
    forall a: RowKey, b: RowKey ensures a == b || RowLt(a, b) || RowLt(b, a) {
      if a.kernel == b.kernel && a.line == b.line && a.text == b.text {
        assert a == b;
      }
    }
  }

  lemma RowLePreorder()
    ensures TotalPreorder(RowLe)
  {
    RowLtStrictTotal();
    NotGreaterIsPreorder(RowLt, RowLe);
  }

  // ---------------------------------------------------------------------
  // The register-name cell

  /** One item of `rn_counts.items()`. */
  datatype NameCount = NameCount(name: string, count: nat)

  /** Python's `<` on the sort key `(-count, name)`. */
  predicate NameLt(a: NameCount, b: NameCount)
  {
    a.count > b.count || (a.count == b.count && StrLt(a.name, b.name))
  }

  predicate NameLe(a: NameCount, b: NameCount)
  {
    !NameLt(b, a)
  }

  lemma NameLtStrictTotal()
    ensures StrictTotal(NameLt)
  {
    StrLtStrictTotal();
    forall a: NameCount, b: NameCount ensures a == b || NameLt(a, b) || NameLt(b, a) {
      if a.count == b.count && a.name == b.name {
        assert a == b;
      }
    }
  }

  lemma NameLePreorder()
    ensures TotalPreorder(NameLe)
  {
    NameLtStrictTotal();
    NotGreaterIsPreorder(NameLt, NameLe);
  }

  /** The items of a name counter. */
  function NameItems(m: map<string, nat>): set<NameCount>
  {
    set rn | rn in m :: NameCount(rn, m[rn])
  }

  /** `names` lists every item of `m` once, most frequent first and
      alphabetically among equals. */
  ghost predicate ListsCounter(m: map<string, nat>, names: seq<NameCount>)
  {
    && Distinct(names)
    && (forall x :: x in names <==> x.name in m && x.count == m[x.name])
    && SortedBy(names, NameLe)
  }

  /** The cell does not depend on how the sort breaks ties: a counter has only
      one listing. */
  lemma ListingUnique(m: map<string, nat>, a: seq<NameCount>, b: seq<NameCount>)
    requires ListsCounter(m, a) && ListsCounter(m, b)
    ensures a == b
  {
    NameLtStrictTotal();
    assert forall x :: x in a <==> x in b;
    SortedListingUnique(a, b, NameLt, NameLe);
  }

  /** `f"{rn}:{cnt}"` for every item. */
  function NamePairs(names: seq<NameCount>): (cells: seq<string>)
    ensures |cells| == |names|
    ensures forall k :: 0 <= k < |names| ==> cells[k] == names[k].name + ":" + NatToString(names[k].count)
  {
    if names == [] then []
    else NamePairs(names[..|names| - 1]) + [names[|names| - 1].name + ":" + NatToString(names[|names| - 1].count)]
  }

  /** `",".join(...)`; empty for an empty counter. */
  function RegCell(names: seq<NameCount>): string
  {
    Join(NamePairs(names), ",")
  }

  // ---------------------------------------------------------------------
  // One row

  /** What `write_csv` writes for one row, before the numbers become text. */
  datatype Row = Row(key: RowKey, names: seq<NameCount>, perSource: seq<Tally>, totals: Tally)

  /** `inst_counts[row][src]` for every listed source, zero where absent. */
  function PerSource(c: Counts, key: RowKey, srcs: seq<string>): (ts: seq<Tally>)
    ensures |ts| == |srcs|
  {
    if srcs == [] then []
    else PerSource(c, key, srcs[..|srcs| - 1]) + [TallyAt(c, key, srcs[|srcs| - 1])]
  }

  lemma {:induction false} PerSourceAt(c: Counts, key: RowKey, srcs: seq<string>, i: nat)
    requires i < |srcs|
    ensures PerSource(c, key, srcs)[i] == TallyAt(c, key, srcs[i])
    decreases |srcs|
  {
    if i < |srcs| - 1 {
      PerSourceAt(c, key, srcs[..|srcs| - 1], i);
    }
  }

  lemma PerSourceStep(c: Counts, key: RowKey, srcs: seq<string>, i: nat)
    requires i < |srcs|
    ensures PerSource(c, key, srcs[..i + 1]) == PerSource(c, key, srcs[..i]) + [TallyAt(c, key, srcs[i])]
  {
    assert srcs[..i + 1][..i] == srcs[..i];
  }

  lemma TotalStep(ts: seq<Tally>, t: Tally)
    ensures Total(ts + [t]) == Plus(Total(ts), t)
  {
    assert (ts + [t])[..|ts|] == ts;
  }

  function Plus(a: Tally, b: Tally): Tally
  {
    Tally(a.masked + b.masked, a.sdc + b.sdc, a.due + b.due, a.others + b.others)
  }

  /** The totals of `ts`, outcome by outcome. */
  function Total(ts: seq<Tally>): Tally
  {
    if ts == [] then Zero else Plus(Total(ts[..|ts| - 1]), ts[|ts| - 1])
  }

  /** The row a counter gives for `key`: the listed names (none for the
      sentinel's rows), the per-source counts and their totals. */
  ghost predicate RowFits(c: Counts, srcs: seq<string>, row: Row)
  {
    && (if row.key.kernel == "invalid_summary" then row.names == [] else ListsCounter(NamesAt(c, row.key), row.names))
    && row.perSource == PerSource(c, row.key, srcs)
    && row.totals == Total(row.perSource)
  }

  /** The text cells of a row: the line is empty when negative, the names cell
      comes from the listed names, then four numbers per source, the totals
      and `tot_inj`. */
  function Cells(row: Row): seq<string>
  {
    [row.key.kernel, LineCell(row.key.line), row.key.text, RegCell(row.names)]
    + TallyCells(row.perSource)
    + TotalCells(row.totals)
  }

  /** The four totals and `tot_inj`. */
  function TotalCells(t: Tally): (cells: seq<string>)
    ensures |cells| == 5
    ensures forall k :: 0 <= k < 4 ==> cells[k] == NatToString(Of(t, Columns[k]))
    ensures cells[4] == NatToString(Sum(t))
  {
    [NatToString(t.masked), NatToString(t.sdc), NatToString(t.due), NatToString(t.others), NatToString(Sum(t))]
  }

  function LineCell(line: int): string
  {
    if line < 0 then "" else NatToString(line)
  }

  function TallyCells(ts: seq<Tally>): (cells: seq<string>)
    ensures |cells| == 4 * |ts|
  {
    if ts == [] then []
    else
      var t := ts[|ts| - 1];
      TallyCells(ts[..|ts| - 1]) + [NatToString(t.masked), NatToString(t.sdc), NatToString(t.due), NatToString(t.others)]
  }

  /** Cell `4 * i + k` holds source `i`'s count of outcome `k`. */
  lemma {:induction false} TallyCellsAt(ts: seq<Tally>, i: nat, k: nat)
    requires i < |ts| && k < 4
    ensures TallyCells(ts)[4 * i + k] == NatToString(Of(ts[i], Columns[k]))
    decreases |ts|
  {
    var init := ts[..|ts| - 1];
    if i < |init| {
      TallyCellsAt(init, i, k);
      assert TallyCells(ts)[4 * i + k] == TallyCells(init)[4 * i + k];
    }
  }

  /** Indexing into a three-part concatenation. */
  lemma ConcatAt<T>(a: seq<T>, b: seq<T>, c: seq<T>)
    ensures (a + b + c)[..|a|] == a
    ensures forall j :: 0 <= j < |b| ==> (a + b + c)[|a| + j] == b[j]
    ensures forall j :: 0 <= j < |c| ==> (a + b + c)[|a| + |b| + j] == c[j]
  {
  }

  /** The cells of a row in order: the key and names, four counts per
      source in the order of `Columns`, the four totals and `tot_inj`. */
  lemma CellsAt(row: Row)
    ensures |Cells(row)| == 9 + 4 * |row.perSource|
    ensures Cells(row)[..4] == [row.key.kernel, LineCell(row.key.line), row.key.text, RegCell(row.names)]
    ensures forall i, k :: 0 <= i < |row.perSource| && 0 <= k < 4 ==>
              Cells(row)[4 + 4 * i + k] == NatToString(Of(row.perSource[i], Columns[k]))
    ensures forall k :: 0 <= k < 4 ==> Cells(row)[4 + 4 * |row.perSource| + k] == NatToString(Of(row.totals, Columns[k]))
    ensures Cells(row)[8 + 4 * |row.perSource|] == NatToString(Sum(row.totals))
  {
    var lead := [row.key.kernel, LineCell(row.key.line), row.key.text, RegCell(row.names)];
    var mid := TallyCells(row.perSource);
    var tail := TotalCells(row.totals);
    ConcatAt(lead, mid, tail);
    forall i, k | 0 <= i < |row.perSource| && 0 <= k < 4
      ensures Cells(row)[4 + 4 * i + k] == NatToString(Of(row.perSource[i], Columns[k]))
    {
      var j := 4 * i + k;
      assert 0 <= j < |mid|;
      TallyCellsAt(row.perSource, i, k);
      assert Cells(row)[|lead| + j] == mid[j];
    }
    forall k | 0 <= k < 5
      ensures Cells(row)[4 + |mid| + k] == tail[k]
    {
      assert Cells(row)[|lead| + |mid| + k] == tail[k];
    }
  }

  /** A row has as many cells as the header has columns, and every cell stands
      under its column: the key and names first, then under `{src}_{outcome}`
      that source's count of that outcome, then the totals and `tot_inj`. */
  lemma CellsMatchHeader(row: Row, srcs: seq<string>)
    requires |row.perSource| == |srcs|
    ensures |Cells(row)| == |Header(srcs)|
    ensures Cells(row)[..4] == [row.key.kernel, LineCell(row.key.line), row.key.text, RegCell(row.names)]
    ensures forall i, k :: 0 <= i < |srcs| && 0 <= k < 4 ==>
              Header(srcs)[4 + 4 * i + k] == srcs[i] + Suffixes[k] &&
              Cells(row)[4 + 4 * i + k] == NatToString(Of(row.perSource[i], Columns[k]))
    ensures forall k :: 0 <= k < 4 ==>
              Header(srcs)[4 + 4 * |srcs| + k] == Trailing[k] &&
              Cells(row)[4 + 4 * |srcs| + k] == NatToString(Of(row.totals, Columns[k]))
    ensures Header(srcs)[8 + 4 * |srcs|] == "tot_inj" && Cells(row)[8 + 4 * |srcs|] == NatToString(Sum(row.totals))
  {
    CellsAt(row);
    HeaderShape(srcs);
    var n := 4 * |srcs|;
    forall k | 0 <= k < 5
      ensures Header(srcs)[4 + n + k] == Trailing[k]
    {
      assert Header(srcs)[4 + n + k] == Header(srcs)[4 + n..][k];
    }
    assert Header(srcs)[8 + n] == Trailing[4];
  }

  /** The line cell is empty exactly for a negative line and otherwise reads
      back as the line. */
  lemma LineCellReadsBack(line: int)
    ensures LineCell(line) == "" <==> line < 0
    ensures line >= 0 ==> ParseInt(LineCell(line)) == Some(line)
  {
    if line >= 0 {
      ParseIntNatToString(line);
    }
  }

  // ---------------------------------------------------------------------
  // What the totals count

  lemma {:induction false} TotalOf(ts: seq<Tally>, o: Outcome)
    ensures Of(Total(ts), o) == SumOf(ts, o)
  {
    if ts != [] {
      TotalOf(ts[..|ts| - 1], o);
    }
  }

  /** The sum over `ts` of one outcome's counter. */
  function SumOf(ts: seq<Tally>, o: Outcome): nat
  {
    if ts == [] then 0 else SumOf(ts[..|ts| - 1], o) + Of(ts[|ts| - 1], o)
  }

  lemma {:induction false} PerSourceSum(es: seq<Entry>, key: RowKey, srcs: seq<string>, o: Outcome)
    ensures SumOf(PerSource(Tallied(es), key, srcs), o) == SourceSum(es, key, srcs, o)
  {
    if srcs != [] {
      var init := srcs[..|srcs| - 1];
      PerSourceSum(es, key, init, o);
      var ts := PerSource(Tallied(es), key, srcs);
      assert ts[..|ts| - 1] == PerSource(Tallied(es), key, init);
      TalliedCounts(es, key, srcs[|srcs| - 1], o);
    }
  }

  /** The records that land on `key`. */
  function RowCount(es: seq<Entry>, key: RowKey): nat
  {
    if es == [] then 0
    else RowCount(es[..|es| - 1], key) + (if RowOf(es[|es| - 1].rec) == key then 1 else 0)
  }

  lemma {:induction false} OutcomesPartitionRow(es: seq<Entry>, key: RowKey)
    ensures RowMatching(es, key, Masked) + RowMatching(es, key, SDC) + RowMatching(es, key, DUE)
          + RowMatching(es, key, Others) == RowCount(es, key)
    ensures RowCount(es, key) > 0 <==> key in RowsOf(es)
  {
    if es != [] {
      OutcomesPartitionRow(es[..|es| - 1], key);
      EntriesOfStep(es);
    }
  }

  /** With every source listed once, the total columns of a row count the
      row's records by outcome, and `tot_inj` counts them all; every written
      row has at least one. */
  lemma RowTotalsCount(es: seq<Entry>, srcs: seq<string>, row: Row)
    requires Distinct(srcs) && forall x :: x in srcs <==> x in Tallied(es).srcs
    requires row.key in Tallied(es).inst
    requires RowFits(Tallied(es), srcs, row)
    ensures forall o :: Of(row.totals, o) == RowMatching(es, row.key, o)
    ensures Sum(row.totals) == RowCount(es, row.key) > 0
  {
    TalliedKeys(es);
    forall o ensures Of(row.totals, o) == RowMatching(es, row.key, o) {
      TotalOf(row.perSource, o);
      PerSourceSum(es, row.key, srcs, o);
      SourceSumTotal(es, row.key, srcs, o);
    }
    OutcomesPartitionRow(es, row.key);
  }

  /** The i-th group of four cells of a row counts the row's records from
      the i-th source, by outcome. */
  lemma RowSourcesCount(es: seq<Entry>, srcs: seq<string>, row: Row)
    requires RowFits(Tallied(es), srcs, row)
    ensures |row.perSource| == |srcs|
    ensures forall j, o :: 0 <= j < |srcs| ==> Of(row.perSource[j], o) == Matching(es, row.key, srcs[j], o)
  {
    forall j, o | 0 <= j < |srcs| ensures Of(row.perSource[j], o) == Matching(es, row.key, srcs[j], o) {
      PerSourceAt(Tallied(es), row.key, srcs, j);
      TalliedCounts(es, row.key, srcs[j], o);
    }
  }

  /** The names cell of a row lists each name with the number of times the
      row's non-sentinel records named it, once each, by count descending
      and then by name. */
  lemma RowNamesCount(es: seq<Entry>, srcs: seq<string>, row: Row)
    requires RowFits(Tallied(es), srcs, row)
    ensures forall x :: x in row.names <==> NameHits(es, row.key, x.name) > 0 && x.count == NameHits(es, row.key, x.name)
    ensures Distinct(row.names) && SortedBy(row.names, NameLe)
  {
    if row.key.kernel == "invalid_summary" {
      forall x: NameCount ensures NameHits(es, row.key, x.name) == 0 {
        SentinelRowsHaveNoNames(es, row.key);
        TalliedNames(es, row.key, x.name);
      }
    } else {
      forall x: NameCount ensures x in row.names <==> NameHits(es, row.key, x.name) > 0 && x.count == NameHits(es, row.key, x.name) {
        TalliedNames(es, row.key, x.name);
      }
    }
  }

  // ---------------------------------------------------------------------
  // The loops of the writer

  /** The loop over the sorted sources of one row. */
  method SourceTotals(c: Counts, key: RowKey, srcs: seq<string>) returns (per: seq<Tally>, tot: Tally)
    ensures per == PerSource(c, key, srcs) && tot == Total(per)
  {
    per := [];
    tot := Zero;
    for i := 0 to |srcs|
      invariant per == PerSource(c, key, srcs[..i])
      invariant tot == Total(per)
    {
      var t := if key in c.inst && srcs[i] in c.inst[key] then c.inst[key][srcs[i]] else Zero;
      PerSourceStep(c, key, srcs, i);
      TotalStep(per, t);
      per := per + [t];
      tot := Plus(tot, t);
    }
    assert srcs[..|srcs|] == srcs;
  }

  /** The `reg_names` cell's items of one row. */
  method RowNames(c: Counts, key: RowKey) returns (names: seq<NameCount>)
    ensures key.kernel == "invalid_summary" ==> names == []
    ensures key.kernel != "invalid_summary" ==> ListsCounter(NamesAt(c, key), names)
  {
    if key.kernel == "invalid_summary" {
      return [];
    }
    var m := if key in c.regs then c.regs[key] else map[];
    NameLePreorder();
    names := SortSet(NameItems(m), NameLe);
  }

  /** The keys of the rows, in order. */
  function KeysOf(rows: seq<Row>): (keys: seq<RowKey>)
    ensures |keys| == |rows|
  {
    if rows == [] then [] else KeysOf(rows[..|rows| - 1]) + [rows[|rows| - 1].key]
  }

  /** Strictly increasing in Python's tuple order. */
  predicate Increasing(keys: seq<RowKey>)
  {
    forall i, j :: 0 <= i < j < |keys| ==> RowLt(keys[i], keys[j])
  }

  /** `sorted(inst_counts.keys())`: every key once, in increasing order. */
  method SortedRows(c: Counts) returns (keys: seq<RowKey>)
    ensures Increasing(keys) && forall k :: k in keys <==> k in c.inst
  {
    RowLePreorder();
    keys := SortSet(c.inst.Keys, RowLe);
    RowLtStrictTotal();
    DistinctSortedIncreasing(keys, RowLt, RowLe);
  }

  /** `write_csv` after counting: the sorted sources give the header, and the
      rows come in the order of their keys. */
  method WriteRows(c: Counts) returns (srcs: seq<string>, header: seq<string>, rows: seq<Row>)
    ensures Distinct(srcs) && SortedBy(srcs, StrLe) && forall x :: x in srcs <==> x in c.srcs
    ensures header == Header(srcs)
    ensures Increasing(KeysOf(rows)) && forall k :: k in KeysOf(rows) <==> k in c.inst
    ensures forall i :: 0 <= i < |rows| ==> RowFits(c, srcs, rows[i])
  {
    StrLePreorder();
    srcs := SortSet(c.srcs, StrLe);
    header := Header(srcs);
    var keys := SortedRows(c);
    rows := [];
    for i := 0 to |keys|
      invariant KeysOf(rows) == keys[..i]
      invariant forall j :: 0 <= j < i ==> RowFits(c, srcs, rows[j])
    {
      var row := BuildRow(c, srcs, keys[i]);
      assert (rows + [row])[..i] == rows;
      rows := rows + [row];
    }
    assert keys[..|keys|] == keys;
  }

  /** One row of the writer's loop. */
  method BuildRow(c: Counts, srcs: seq<string>, key: RowKey) returns (row: Row)
    ensures row.key == key && RowFits(c, srcs, row)
  {
    var names := RowNames(c, key);
    var per, tot := SourceTotals(c, key, srcs);
    row := Row(key, names, per, tot);
  }

  /** `write_csv` on what `parse_log` returned: count, then write. Every row's
      per-source cells count the row's records from that source by outcome,
      its totals count all its records by outcome, and its names cell lists
      the names of the row's non-sentinel records with their counts, by count
      descending and then by name. */
  method WriteCsv(p: Parsed) returns (srcs: seq<string>, header: seq<string>, rows: seq<Row>)
    ensures var es := Entries(Items(p), p.resultsOcc, p.params);
      && Distinct(srcs) && SortedBy(srcs, StrLe) && (forall x :: x in srcs <==> x in SourcesOf(es))
      && header == Header(srcs)
      && Increasing(KeysOf(rows)) && (forall k :: k in KeysOf(rows) <==> k in RowsOf(es))
      && (forall i, o :: 0 <= i < |rows| ==> Of(rows[i].totals, o) == RowMatching(es, rows[i].key, o))
      && (forall i :: 0 <= i < |rows| ==> Sum(rows[i].totals) == RowCount(es, rows[i].key) > 0)
      && (forall i, x :: 0 <= i < |rows| ==>
            (x in rows[i].names <==> NameHits(es, rows[i].key, x.name) > 0 && x.count == NameHits(es, rows[i].key, x.name)))
      && (forall i :: 0 <= i < |rows| ==> Distinct(rows[i].names) && SortedBy(rows[i].names, NameLe))
      && (forall i :: 0 <= i < |rows| ==> |rows[i].perSource| == |srcs|)
      && (forall i, j, o :: 0 <= i < |rows| && 0 <= j < |srcs| ==>
            Of(rows[i].perSource[j], o) == Matching(es, rows[i].key, srcs[j], o))
  {
    ghost var es := Entries(Items(p), p.resultsOcc, p.params);
    var c := CountAll(Items(p), p.resultsOcc, p.params);
    srcs, header, rows := WriteRows(c);
    TalliedKeys(es);
    forall i | 0 <= i < |rows|
      ensures forall o :: Of(rows[i].totals, o) == RowMatching(es, rows[i].key, o)
      ensures Sum(rows[i].totals) == RowCount(es, rows[i].key) > 0
      ensures forall x :: x in rows[i].names <==> NameHits(es, rows[i].key, x.name) > 0 && x.count == NameHits(es, rows[i].key, x.name)
      ensures Distinct(rows[i].names) && SortedBy(rows[i].names, NameLe)
      ensures |rows[i].perSource| == |srcs|
      ensures forall j, o :: 0 <= j < |srcs| ==> Of(rows[i].perSource[j], o) == Matching(es, rows[i].key, srcs[j], o)
    {
      KeyOfRow(rows, i);
      RowTotalsCount(es, srcs, rows[i]);
      RowNamesCount(es, srcs, rows[i]);
      RowSourcesCount(es, srcs, rows[i]);
    }
  }

  lemma {:induction false} KeyOfRow(rows: seq<Row>, i: nat)
    requires i < |rows|
    ensures KeysOf(rows)[i] == rows[i].key
  {
    if i < |rows| - 1 {
      KeyOfRow(rows[..|rows| - 1], i);
    }
  }
}
