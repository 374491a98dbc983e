/** The multi-file planner keeps every record of every source whole. */
module LogicalRecords {
  import opened Search
  import opened Partition
  import opened PartitionTheorems
  import opened Records
  import opened Logical
  import opened LogicalTheorems
  import opened SingleSource

  /** A record and the source it belongs to. */
  datatype Tagged = Tagged(sourceIndex: nat, record: Range)

  ghost function Tag(k: nat, rs: seq<Range>): seq<Tagged> {
    if rs == [] then [] else [Tagged(k, rs[0])] + Tag(k, rs[1..])
  }

  lemma {:induction false} TagConcat(k: nat, a: seq<Range>, b: seq<Range>)
    ensures Tag(k, a + b) == Tag(k, a) + Tag(k, b)
    decreases |a|
  {
    if a == [] {
      assert a + b == b;
    } else {
      assert (a + b)[1..] == a[1..] + b;
      TagConcat(k, a[1..], b);
    }
  }

  /** All records of sources k, k+1, ... in order. */
  ghost function FileRecords(files: seq<seq<byte>>, d: seq<byte>, k: nat): seq<Tagged>
    requires |d| > 0 && k <= |files|
    decreases |files| - k
  {
    if k == |files| then []
    else Tag(k, RecordsIn(files[k], d, 0, |files[k]|)) + FileRecords(files, d, k + 1)
  }

  ghost predicate RowInFile(files: seq<seq<byte>>, row: SourceRange) {
    row.sourceIndex < |files| && row.start <= row.end <= |files[row.sourceIndex]|
  }

  /** The records found by splitting each row on its own, in output order. */
  ghost function RowRecords(files: seq<seq<byte>>, d: seq<byte>, rows: seq<SourceRange>): seq<Tagged>
    requires |d| > 0 && forall k: nat :: k < |rows| ==> RowInFile(files, rows[k])
  {
    if rows == [] then []
    else
      var row := rows[0];
      assert RowInFile(files, rows[0]);
      Tag(row.sourceIndex, RecordsIn(files[row.sourceIndex], d, row.start, row.end)) + RowRecords(files, d, rows[1..])
  }

  /** The records from local offset `a` of source k to the end of the last source. */
  ghost function RecordsFrom(files: seq<seq<byte>>, d: seq<byte>, k: nat, a: nat): seq<Tagged>
    requires |d| > 0 && k < |files| && a <= |files[k]|
  {
    Tag(k, RecordsIn(files[k], d, a, |files[k]|)) + FileRecords(files, d, k + 1)
  }

  lemma SplitBehindRow(file: seq<byte>, d: seq<byte>, a: nat, b: nat)
    requires |d| > 0 && !SelfOverlapping(d) && a < b <= |file|
    requires (a == 0 || EndsAt(file, d, a)) && (b == |file| || EndsAt(file, d, b))
    ensures RecordsIn(file, d, a, |file|) == RecordsIn(file, d, a, b) + RecordsIn(file, d, b, |file|)
  {
    if b < |file| {
      if a > 0 {
        EndsApart(file, d, a, b);
      }
      SplitAtRecordEnd(file, d, a, b, |file|);
    } else {
      assert RecordsIn(file, d, b, |file|) == [];
    }
  }

  /** One row, then the rest of its source. */
  lemma RowThenRest(files: seq<seq<byte>>, d: seq<byte>, k: nat, a: nat, b: nat)
    requires |d| > 0 && k < |files| && a <= b <= |files[k]|
    requires RecordsIn(files[k], d, a, |files[k]|) ==
             RecordsIn(files[k], d, a, b) + RecordsIn(files[k], d, b, |files[k]|)
    ensures RecordsFrom(files, d, k, a) == Tag(k, RecordsIn(files[k], d, a, b)) + RecordsFrom(files, d, k, b)
  {
    var head, tail := RecordsIn(files[k], d, a, b), RecordsIn(files[k], d, b, |files[k]|);
    TagConcat(k, head, tail);
    TagAssoc(Tag(k, head), Tag(k, tail), FileRecords(files, d, k + 1));
  }

  lemma TagAssoc(a: seq<Tagged>, b: seq<Tagged>, c: seq<Tagged>)
    ensures (a + b) + c == a + (b + c)
  {
  }

  /** Sources up to the one that holds the position add no records. */
  lemma {:induction false} SkipEmpty(files: seq<seq<byte>>, lens: seq<nat>, d: seq<byte>, k: nat, j: nat)
    requires |d| > 0 && SameLens(files, lens) && k <= j <= |files| && Prefix(lens, k) == Prefix(lens, j)
    ensures FileRecords(files, d, k) == FileRecords(files, d, j)
    decreases j - k
  {
    if k < j {
      PrefixMono(lens, k + 1, j);
      assert |files[k]| == lens[k] == 0;
      assert RecordsIn(files[k], d, 0, |files[k]|) == [];
      SkipEmpty(files, lens, d, k + 1, j);
    }
  }

  /** The rest of one source and all later ones, seen from the row that comes next. */
  lemma NextRowRecords(files: seq<seq<byte>>, lens: seq<nat>, d: seq<byte>, row: SourceRange, next: SourceRange)
    requires |d| > 0 && SameLens(files, lens) && RowOk(files, d, row) && RowOk(files, d, next)
    requires Spot(lens, next).start == Spot(lens, row).end
    ensures RecordsFrom(files, d, row.sourceIndex, row.end) == RecordsFrom(files, d, next.sourceIndex, next.start)
  {
    var i, j := row.sourceIndex, next.sourceIndex;
    var pos := Spot(lens, row).end;
    assert Prefix(lens, i + 1) == Prefix(lens, i) + lens[i] && Prefix(lens, j + 1) == Prefix(lens, j) + lens[j];
    assert Holds(lens, j, pos);
    if row.end < |files[i]| {
      HolderUnique(lens, i, j, pos);
    } else {
      if j <= i {
        PrefixMono(lens, j + 1, i + 1);
        assert false;
      }
      PrefixMono(lens, i + 1, j);
      assert next.start == 0;
      SkipEmpty(files, lens, d, i + 1, j);
      assert RecordsIn(files[i], d, row.end, |files[i]|) == [];
    }
  }

  lemma NothingAfterLast(files: seq<seq<byte>>, lens: seq<nat>, d: seq<byte>, row: SourceRange)
    requires |d| > 0 && SameLens(files, lens) && RowOk(files, d, row) && Spot(lens, row).end == Total(lens)
    ensures RecordsFrom(files, d, row.sourceIndex, row.end) == []
  {
    var i := row.sourceIndex;
    assert Prefix(lens, i + 1) == Prefix(lens, i) + lens[i];
    PrefixMono(lens, i + 1, |lens|);
    SkipEmpty(files, lens, d, i + 1, |lens|);
    assert RecordsIn(files[i], d, row.end, |files[i]|) == [];
  }

  lemma {:induction false} CoverKeepsRecords(files: seq<seq<byte>>, lens: seq<nat>, d: seq<byte>,
                                             rows: seq<SourceRange>, lo: nat)
    requires |d| > 0 && !SelfOverlapping(d) && SameLens(files, lens) && rows != []
    requires Cover(lens, rows, lo, Total(lens))
    requires forall k: nat :: k < |rows| ==> RowOk(files, d, rows[k])
    ensures forall k: nat :: k < |rows| ==> RowInFile(files, rows[k])
    ensures RowRecords(files, d, rows) == RecordsFrom(files, d, rows[0].sourceIndex, rows[0].start)
    decreases |rows|
  {
    SplitBehindRow(files[rows[0].sourceIndex], d, rows[0].start, rows[0].end);
    RowThenRest(files, d, rows[0].sourceIndex, rows[0].start, rows[0].end);
    CoverHead(lens, rows, lo, Total(lens));
    var mid := Spot(lens, rows[0]).end;
    if |rows| == 1 {
      assert rows[1..] == [];
      NothingAfterLast(files, lens, d, rows[0]);
    } else {
      CoverHead(lens, rows[1..], mid, Total(lens));
      NextRowRecords(files, lens, d, rows[0], rows[1]);
      CoverKeepsRecords(files, lens, d, rows[1..], mid);
    }
  }

  /** Splitting every row of a plan on its own gives exactly the records of all sources in order. */
  ghost predicate KeepsAllRecords(files: seq<seq<byte>>, d: seq<byte>, parts: nat)
    requires |d| > 0
  {
    var r := LogicalPlan(files, d, parts);
    r.Ok? ==>
      && (forall k: nat :: k < |AllRows(r.value)| ==> RowInFile(files, AllRows(r.value)[k]))
      && RowRecords(files, d, AllRows(r.value)) == FileRecords(files, d, 0)
  }

  /** For a delimiter without border plans keep all records, also with empty and repeated sources. */
  lemma PlanKeepsRecords(files: seq<seq<byte>>, d: seq<byte>, parts: nat)
    requires |d| > 0 && parts > 0 && !SelfOverlapping(d)
    ensures KeepsAllRecords(files, d, parts)
  {
    var r := LogicalPlan(files, d, parts);
    if r.Ok? {
      PlanIsSound(files, d, parts);
      RowsKeepRecords(files, Lens(files), d, AllRows(r.value));
    }
  }

  lemma RowsKeepRecords(files: seq<seq<byte>>, lens: seq<nat>, d: seq<byte>, rows: seq<SourceRange>)
    requires |d| > 0 && !SelfOverlapping(d) && SameLens(files, lens) && Cover(lens, rows, 0, Total(lens))
    requires forall row :: row in rows ==> RowOk(files, d, row)
    ensures forall k: nat :: k < |rows| ==> RowInFile(files, rows[k])
    ensures RowRecords(files, d, rows) == FileRecords(files, d, 0)
  {
    assert forall k: nat :: k < |rows| ==> rows[k] in rows;
    if rows == [] {
      SkipEmpty(files, lens, d, 0, |lens|);
    } else {
      CoverHead(lens, rows, 0, Total(lens));
      var j := rows[0].sourceIndex;
      SkipEmpty(files, lens, d, 0, j);
      CoverKeepsRecords(files, lens, d, rows, 0);
    }
  }

  // ----- and only then

  lemma {:induction false} TagAt(k: nat, rs: seq<Range>, i: nat)
    requires i < |rs|
    ensures |Tag(k, rs)| == |rs| && Tag(k, rs)[i] == Tagged(k, rs[i])
  {
    if |rs| > 1 {
      TagAt(k, rs[1..], if i > 0 then i - 1 else 0);
    }
  }

  lemma TagInjective(k: nat, a: seq<Range>, b: seq<Range>)
    requires Tag(k, a) == Tag(k, b)
    ensures a == b
  {
    if a != [] && b != [] {
      TagAt(k, a, 0);
      TagAt(k, b, 0);
      forall i: nat | i < |a| ensures a[i] == b[i] {
        TagAt(k, a, i);
        TagAt(k, b, i);
      }
    }
  }

  /** For one source the rows' records are the ranges' records. */
  lemma {:induction false} OneSourceRecords(data: seq<byte>, d: seq<byte>, rs: seq<Range>, index: nat)
    requires |d| > 0 && forall k: nat :: k < |rs| ==> rs[k].start < rs[k].end
    requires forall r :: r in rs ==> r.start <= r.end <= |data|
    ensures var rows := AllRows(WorkersOf(rs, index));
            && (forall k: nat :: k < |rows| ==> RowInFile([data], rows[k]))
            && RowRecords([data], d, rows) == Tag(0, RangeRecords(data, d, rs))
    decreases |rs|
  {
    if rs != [] {
      var rest := AllRows(WorkersOf(rs[1..], index + 1));
      var row := SourceRange(0, rs[0].start, rs[0].end, rs[0].end - rs[0].start);
      OneSourceRecords(data, d, rs[1..], index + 1);
      assert AllRows(WorkersOf(rs, index)) == [row] + rest by {
        assert WorkersOf(rs, index)[1..] == WorkersOf(rs[1..], index + 1);
      }
      FirstRowRecords(data, d, row, rest);
      TagConcat(0, RecordsIn(data, d, rs[0].start, rs[0].end), RangeRecords(data, d, rs[1..]));
    }
  }

  lemma FirstRowRecords(data: seq<byte>, d: seq<byte>, row: SourceRange, rest: seq<SourceRange>)
    requires |d| > 0 && row.sourceIndex == 0 && RowInFile([data], row)
    requires forall k: nat :: k < |rest| ==> RowInFile([data], rest[k])
    ensures var rows := [row] + rest;
            && (forall k: nat :: k < |rows| ==> RowInFile([data], rows[k]))
            && RowRecords([data], d, rows) ==
               Tag(0, RecordsIn(data, d, row.start, row.end)) + RowRecords([data], d, rest)
  {
    assert ([row] + rest)[1..] == rest;
  }

  lemma RecordsOfOneFile(data: seq<byte>, d: seq<byte>)
    requires |d| > 0
    ensures FileRecords([data], d, 0) == Tag(0, RecordsIn(data, d, 0, |data|))
  {
    assert FileRecords([data], d, 1) == [];
  }

  /** One source alone is kept exactly when the slice planner keeps it. */
  lemma OneSourceKeepsRecords(data: seq<byte>, d: seq<byte>, parts: usize)
    requires |d| > 0 && parts > 0 && |data| <= USIZE_MAX
    ensures KeepsAllRecords([data], d, parts) ==> KeepsRecords(data, d, parts)
  {
    var rs := PlanRanges(data, d, parts);
    SingleSourceAgrees(data, d, parts);
    PlanShape(data, d, parts);
    TilesInBounds(rs, 0, |data|);
    OneSourceRecords(data, d, rs, 0);
    RecordsOfOneFile(data, d);
    if KeepsAllRecords([data], d, parts) {
      TagInjective(0, RangeRecords(data, d, rs), RecordsIn(data, d, 0, |data|));
    }
  }

  /** Main theorem: multi-file plans keep every record whole, for all lists of files and counts,
      exactly when the delimiter has no border. */
  lemma AllRecordsKeptIffNoBorder(d: seq<byte>)
    requires 0 < |d| <= ISIZE_MAX
    ensures (forall files: seq<seq<byte>>, parts: nat :: parts > 0 ==> KeepsAllRecords(files, d, parts)) <==>
            !SelfOverlapping(d)
  {
    if SelfOverlapping(d) {
      var k: nat :| 0 < k < |d| && d[..k] == d[|d| - k..];
      OverlapSplitsRecord(d, |d| - k);
      var data := OverlapInput(d, |d| - k);
      OneSourceKeepsRecords(data, d, |data|);
      assert !KeepsAllRecords([data], d, |data|);
    } else {
      forall files: seq<seq<byte>>, parts: nat | parts > 0 ensures KeepsAllRecords(files, d, parts) {
        PlanKeepsRecords(files, d, parts);
      }
    }
  }
}
