/** What every multi-file plan guarantees. */
module LogicalTheorems {
  import opened Search
  import opened Partition
  import opened PartitionTheorems
  import opened Reads
  import opened Logical

  /** `c` falls strictly inside source k. */
  ghost predicate Inside(lens: seq<nat>, k: nat, c: nat) {
    k < |lens| && Prefix(lens, k) < c < Prefix(lens, k) + lens[k]
  }

  /** A cut inside a source lies at a record end of that source. */
  ghost predicate CutOk(files: seq<seq<byte>>, lens: seq<nat>, d: seq<byte>, c: nat)
    requires |lens| == |files|
  {
    forall k: nat :: Inside(lens, k, c) ==> EndsAt(files[k], d, c - Prefix(lens, k))
  }

  ghost predicate GoodEnds(files: seq<seq<byte>>, lens: seq<nat>, d: seq<byte>, last: nat, ends: seq<nat>)
    requires |lens| == |files|
    decreases |ends|
  {
    ends != [] ==>
      && last < ends[0] <= Total(lens)
      && CutOk(files, lens, d, ends[0])
      && GoodEnds(files, lens, d, ends[0], ends[1..])
  }

  lemma EdgeNotInside(lens: seq<nat>, j: nat, k: nat)
    requires j <= |lens|
    ensures !Inside(lens, k, Prefix(lens, j))
  {
    if k < |lens| {
      if j <= k {
        PrefixMono(lens, j, k);
      } else {
        PrefixMono(lens, k + 1, j);
      }
    }
  }

  lemma EdgeIsOk(files: seq<seq<byte>>, lens: seq<nat>, d: seq<byte>, j: nat)
    requires |lens| == |files| && j <= |lens|
    ensures CutOk(files, lens, d, Prefix(lens, j))
  {
    forall k: nat ensures !Inside(lens, k, Prefix(lens, j)) {
      EdgeNotInside(lens, j, k);
    }
  }

  lemma LocalIsOk(files: seq<seq<byte>>, lens: seq<nat>, d: seq<byte>, j: nat, b: nat)
    requires |lens| == |files| && j < |files| && b <= lens[j] && (b == lens[j] || EndsAt(files[j], d, b))
    ensures CutOk(files, lens, d, Prefix(lens, j) + b)
  {
    if b == lens[j] {
      EdgeIsOk(files, lens, d, j + 1);
    } else {
      var c := Prefix(lens, j) + b;
      forall k: nat | Inside(lens, k, c) ensures k == j {
        assert Prefix(lens, k + 1) == Prefix(lens, k) + lens[k] && Prefix(lens, j + 1) == Prefix(lens, j) + lens[j];
        HolderUnique(lens, j, k, c);
      }
    }
  }

  lemma ProjectionIsOk(files: seq<seq<byte>>, lens: seq<nat>, d: seq<byte>, t: nat)
    requires |d| > 0 && SameLens(files, lens) && t < Total(lens)
    ensures CutOk(files, lens, d, Project(files, lens, d, t))
  {
    if IsEdge(lens, t) {
      var j: nat :| j <= |lens| && Prefix(lens, j) == t;
      EdgeIsOk(files, lens, d, j);
    } else {
      var j := Locate(lens, t);
      LocalIsOk(files, lens, d, j, NextBoundary(files[j], d, t - Prefix(lens, j)));
    }
  }

  lemma GoodLast(files: seq<seq<byte>>, lens: seq<nat>, d: seq<byte>, last: nat)
    requires |lens| == |files| && last < Total(lens)
    ensures GoodEnds(files, lens, d, last, [] + [Total(lens)])
  {
    EdgeIsOk(files, lens, d, |lens|);
    assert [Total(lens)][1..] == [];
  }

  /** A successful tail of the cut loop: few enough cuts, and good ones. */
  ghost predicate GoodTail(files: seq<seq<byte>>, lens: seq<nat>, d: seq<byte>, last: nat, r: Result<seq<nat>>,
                           room: int)
    requires |lens| == |files|
  {
    r.Ok? ==> |r.value| <= room && GoodEnds(files, lens, d, last, r.value + [Total(lens)])
  }

  lemma GoodPrepend(files: seq<seq<byte>>, lens: seq<nat>, d: seq<byte>, last: nat, p: nat, rest: Result<seq<nat>>,
                    room: int)
    requires |lens| == |files| && last < p <= Total(lens) && CutOk(files, lens, d, p)
    requires GoodTail(files, lens, d, p, rest, room)
    ensures GoodTail(files, lens, d, last, Prepend([p], rest), room + 1)
  {
    if rest.Ok? {
      var total := Total(lens);
      assert (([p] + rest.value) + [total])[1..] == rest.value + [total];
    }
  }

  lemma {:induction false} CutsAreGoodEnds(files: seq<seq<byte>>, lens: seq<nat>, d: seq<byte>,
                                           ts: seq<Option<nat>>, last: nat)
    requires |d| > 0 && SameLens(files, lens) && last < Total(lens) && BelowTotal(ts, Total(lens))
    ensures GoodTail(files, lens, d, last, LogicalCuts(files, lens, d, ts, last), |ts|)
    decreases |ts|
  {
    GoodLast(files, lens, d, last);
    if ts != [] && ts[0].Some? {
      var t := ts[0].value;
      if t <= last {
        CutsAreGoodEnds(files, lens, d, ts[1..], last);
      } else {
        var p := Project(files, lens, d, t);
        ProjectionIsOk(files, lens, d, t);
        if p < Total(lens) {
          CutsAreGoodEnds(files, lens, d, ts[1..], p);
          GoodPrepend(files, lens, d, last, p, LogicalCuts(files, lens, d, ts[1..], p), |ts| - 1);
        }
      }
    }
  }

  // ----- rows

  /** A row stays inside its source and both its ends are source edges or record ends. */
  ghost predicate RowOk(files: seq<seq<byte>>, d: seq<byte>, row: SourceRange) {
    && row.sourceIndex < |files|
    && var file := files[row.sourceIndex];
    && row.start < row.end <= |file| && row.length == row.end - row.start
    && (row.start == 0 || EndsAt(file, d, row.start))
    && (row.end == |file| || EndsAt(file, d, row.end))
  }

  lemma RowIsOk(files: seq<seq<byte>>, lens: seq<nat>, d: seq<byte>, start: nat, end: nat, k: nat)
    requires |lens| == |files| && k < |files| && lens[k] == |files[k]|
    requires CutOk(files, lens, d, start) && CutOk(files, lens, d, end)
    ensures RowIn(lens, start, end, k) != [] ==> RowOk(files, d, RowIn(lens, start, end, k)[0])
  {
  }

  lemma {:induction false} RowsAreOk(files: seq<seq<byte>>, lens: seq<nat>, d: seq<byte>, start: nat, end: nat, k: nat)
    requires SameLens(files, lens) && k <= |files|
    requires CutOk(files, lens, d, start) && CutOk(files, lens, d, end)
    ensures forall row :: row in RowsUpTo(lens, start, end, k) ==> RowOk(files, d, row)
  {
    if k > 0 {
      RowsAreOk(files, lens, d, start, end, k - 1);
      RowIsOk(files, lens, d, start, end, k - 1);
    }
  }

  /** The logical byte range of a row. */
  ghost function Spot(lens: seq<nat>, row: SourceRange): Range
    requires row.sourceIndex < |lens|
  {
    Range(Prefix(lens, row.sourceIndex) + row.start, Prefix(lens, row.sourceIndex) + row.end)
  }

  ghost function Spots(lens: seq<nat>, rows: seq<SourceRange>): (s: seq<Range>)
    requires forall row :: row in rows ==> row.sourceIndex < |lens|
    ensures |s| == |rows|
  {
    if rows == [] then [] else [Spot(lens, rows[0])] + Spots(lens, rows[1..])
  }

  lemma {:induction false} SpotsConcat(lens: seq<nat>, a: seq<SourceRange>, b: seq<SourceRange>)
    requires forall row :: row in a + b ==> row.sourceIndex < |lens|
    ensures (forall row :: row in a ==> row in a + b) && (forall row :: row in b ==> row in a + b)
    ensures Spots(lens, a + b) == Spots(lens, a) + Spots(lens, b)
    decreases |a|
  {
    if a == [] {
      assert a + b == b;
    } else {
      assert (a + b)[1..] == a[1..] + b;
      SpotsConcat(lens, a[1..], b);
    }
  }

  lemma {:induction false} TilesConcat(a: seq<Range>, b: seq<Range>, lo: nat, mid: nat, hi: nat)
    requires Tiles(a, lo, mid) && Tiles(b, mid, hi) && mid <= hi
    ensures Tiles(a + b, lo, hi)
    decreases |a|
  {
    if a == [] {
      assert a + b == b;
    } else {
      assert (a + b)[1..] == a[1..] + b;
      TilesConcat(a[1..], b, a[0].end, mid, hi);
    }
  }

  lemma RowTiles(lens: seq<nat>, start: nat, end: nat, k: nat, before: seq<SourceRange>, base: nat, top: nat)
    requires k < |lens| && start <= end && base == Prefix(lens, k) && top == base + lens[k]
    requires forall row :: row in before ==> row.sourceIndex < |lens|
    requires Tiles(Spots(lens, before), Min(start, base), Min(end, base))
    ensures forall row :: row in before + RowIn(lens, start, end, k) ==> row.sourceIndex < |lens|
    ensures Tiles(Spots(lens, before + RowIn(lens, start, end, k)), Min(start, top), Min(end, top))
  {
    var rows := RowIn(lens, start, end, k);
    if rows == [] {
      assert before + rows == before;
    } else {
      OneSpot(lens, rows[0]);
      assert rows == [rows[0]];
      if start > base {
        TilesNothing(Spots(lens, before), base);
        assert before + rows == rows;
      } else {
        SpotsConcat(lens, before, rows);
        TilesConcat(Spots(lens, before), Spots(lens, rows), start, base, Min(end, top));
      }
    }
  }

  lemma {:induction false} RowsTile(lens: seq<nat>, start: nat, end: nat, k: nat)
    requires k <= |lens| && start <= end
    ensures forall row :: row in RowsUpTo(lens, start, end, k) ==> row.sourceIndex < |lens|
    ensures Tiles(Spots(lens, RowsUpTo(lens, start, end, k)),
                  Min(start, Prefix(lens, k)), Min(end, Prefix(lens, k)))
  {
    if k > 0 {
      RowsTile(lens, start, end, k - 1);
      RowTiles(lens, start, end, k - 1, RowsUpTo(lens, start, end, k - 1), Prefix(lens, k - 1), Prefix(lens, k));
    }
  }

  lemma OneSpot(lens: seq<nat>, row: SourceRange)
    requires row.sourceIndex < |lens| && row.start < row.end
    ensures Spots(lens, [row]) == [Spot(lens, row)]
    ensures Tiles([Spot(lens, row)], Spot(lens, row).start, Spot(lens, row).end)
  {
    assert [row][1..] == [];
    assert [Spot(lens, row)][1..] == [];
  }

  // ----- workers

  ghost function AllRows(workers: seq<WorkerAssignment>): seq<SourceRange> {
    if workers == [] then [] else workers[0].ranges + AllRows(workers[1..])
  }

  ghost function LastEnd(start: nat, ends: seq<nat>): nat {
    if ends == [] then start else ends[|ends| - 1]
  }

  /** Workers are numbered consecutively from `index`, each with at least one good row. */
  ghost predicate WorkersOk(files: seq<seq<byte>>, d: seq<byte>, workers: seq<WorkerAssignment>, index: nat) {
    forall j: nat :: j < |workers| ==>
      && workers[j].workerIndex == index + j
      && workers[j].ranges != []
      && forall row :: row in workers[j].ranges ==> RowOk(files, d, row)
  }

  lemma WorkersCons(files: seq<seq<byte>>, d: seq<byte>, w: WorkerAssignment, rest: seq<WorkerAssignment>)
    requires w.ranges != [] && forall row :: row in w.ranges ==> RowOk(files, d, row)
    requires WorkersOk(files, d, rest, w.workerIndex + 1)
    ensures WorkersOk(files, d, [w] + rest, w.workerIndex)
  {
  }

  /** All rows of all workers, in output order, tile the logical range. */
  ghost predicate Cover(lens: seq<nat>, rows: seq<SourceRange>, lo: nat, hi: nat) {
    && (forall row :: row in rows ==> row.sourceIndex < |lens|)
    && Tiles(Spots(lens, rows), lo, hi)
  }

  lemma CoverConcat(lens: seq<nat>, a: seq<SourceRange>, b: seq<SourceRange>, lo: nat, mid: nat, hi: nat)
    requires Cover(lens, a, lo, mid) && Cover(lens, b, mid, hi) && mid <= hi
    ensures Cover(lens, a + b, lo, hi)
  {
    SpotsConcat(lens, a, b);
    TilesConcat(Spots(lens, a), Spots(lens, b), lo, mid, hi);
  }

  lemma {:induction false} EndsRise(files: seq<seq<byte>>, lens: seq<nat>, d: seq<byte>, start: nat, ends: seq<nat>)
    requires |lens| == |files| && GoodEnds(files, lens, d, start, ends)
    ensures start <= LastEnd(start, ends)
    decreases |ends|
  {
    if ends != [] {
      EndsRise(files, lens, d, ends[0], ends[1..]);
    }
  }

  lemma OneWorker(files: seq<seq<byte>>, lens: seq<nat>, d: seq<byte>, start: nat, end: nat)
    requires SameLens(files, lens) && start < end <= Total(lens)
    requires CutOk(files, lens, d, start) && CutOk(files, lens, d, end)
    ensures var rows := RowsUpTo(lens, start, end, |lens|);
            && rows != []
            && Cover(lens, rows, start, end)
            && forall row :: row in rows ==> RowOk(files, d, row)
  {
    RowsTile(lens, start, end, |lens|);
    RowsAreOk(files, lens, d, start, end, |lens|);
  }

  /** What is claimed of the workers of `[lo, hi)`, numbered from `index`. */
  ghost predicate Sound(files: seq<seq<byte>>, lens: seq<nat>, d: seq<byte>, workers: seq<WorkerAssignment>,
                        index: nat, lo: nat, hi: nat) {
    WorkersOk(files, d, workers, index) && Cover(lens, AllRows(workers), lo, hi)
  }

  lemma SoundCons(files: seq<seq<byte>>, lens: seq<nat>, d: seq<byte>, w: WorkerAssignment,
                  rest: seq<WorkerAssignment>, lo: nat, mid: nat, hi: nat)
    requires w.ranges != [] && (forall row :: row in w.ranges ==> RowOk(files, d, row))
    requires Cover(lens, w.ranges, lo, mid) && mid <= hi && Sound(files, lens, d, rest, w.workerIndex + 1, mid, hi)
    ensures Sound(files, lens, d, [w] + rest, w.workerIndex, lo, hi)
  {
    WorkersCons(files, d, w, rest);
    assert ([w] + rest)[1..] == rest;
    CoverConcat(lens, w.ranges, AllRows(rest), lo, mid, hi);
  }

  lemma AssignStep(files: seq<seq<byte>>, lens: seq<nat>, d: seq<byte>, start: nat, ends: seq<nat>, index: nat)
    requires SameLens(files, lens) && start <= Total(lens) && ends != []
    requires CutOk(files, lens, d, start) && GoodEnds(files, lens, d, start, ends)
    requires var rest := Assign(lens, ends[0], ends[1..], index + 1);
             |rest| == |ends| - 1 && Sound(files, lens, d, rest, index + 1, ends[0], LastEnd(ends[0], ends[1..]))
    ensures |Assign(lens, start, ends, index)| == |ends|
    ensures Sound(files, lens, d, Assign(lens, start, ends, index), index, start, LastEnd(start, ends))
  {
    var rows := RowsUpTo(lens, start, ends[0], |lens|);
    OneWorker(files, lens, d, start, ends[0]);
    EndsRise(files, lens, d, ends[0], ends[1..]);
    SoundCons(files, lens, d, WorkerAssignment(index, rows), Assign(lens, ends[0], ends[1..], index + 1),
              start, ends[0], LastEnd(start, ends));
  }

  lemma {:induction false} AssignIsSound(files: seq<seq<byte>>, lens: seq<nat>, d: seq<byte>, start: nat,
                                         ends: seq<nat>, index: nat)
    requires SameLens(files, lens) && start <= Total(lens)
    requires CutOk(files, lens, d, start) && GoodEnds(files, lens, d, start, ends)
    ensures |Assign(lens, start, ends, index)| == |ends|
    ensures Sound(files, lens, d, Assign(lens, start, ends, index), index, start, LastEnd(start, ends))
    decreases |ends|
  {
    if ends != [] {
      AssignIsSound(files, lens, d, ends[0], ends[1..], index + 1);
      AssignStep(files, lens, d, start, ends, index);
    }
  }

  // ----- bytes

  ghost function Flatten(files: seq<seq<byte>>, k: nat): seq<byte>
    requires k <= |files|
  {
    if k == 0 then [] else Flatten(files, k - 1) + files[k - 1]
  }

  lemma {:induction false} FlattenLength(files: seq<seq<byte>>, lens: seq<nat>, k: nat)
    requires SameLens(files, lens) && k <= |files|
    ensures |Flatten(files, k)| == Prefix(lens, k)
  {
    if k > 0 {
      FlattenLength(files, lens, k - 1);
    }
  }

  lemma {:induction false} FlattenAt(files: seq<seq<byte>>, lens: seq<nat>, k: nat, j: nat, a: nat, b: nat)
    requires SameLens(files, lens) && j < k <= |files| && a <= b <= |files[j]|
    ensures Prefix(lens, j) + b <= |Flatten(files, k)|
    ensures Flatten(files, k)[Prefix(lens, j) + a..Prefix(lens, j) + b] == files[j][a..b]
    decreases k
  {
    FlattenLength(files, lens, k - 1);
    var front, base := Flatten(files, k - 1), Prefix(lens, j);
    if j < k - 1 {
      FlattenAt(files, lens, k - 1, j, a, b);
      assert (front + files[k - 1])[base + a..base + b] == front[base + a..base + b];
    } else {
      assert (front + files[j])[base + a..base + b] == files[j][a..b];
    }
  }

  ghost function RowBytes(files: seq<seq<byte>>, rows: seq<SourceRange>): seq<byte>
    requires forall row :: row in rows ==>
               row.sourceIndex < |files| && row.start <= row.end <= |files[row.sourceIndex]|
  {
    if rows == [] then []
    else files[rows[0].sourceIndex][rows[0].start..rows[0].end] + RowBytes(files, rows[1..])
  }

  lemma SplitAt(all: seq<byte>, lo: nat, e: nat)
    requires lo <= e <= |all|
    ensures all[lo..] == all[lo..e] + all[e..]
  {
  }

  lemma CoverHead(lens: seq<nat>, rows: seq<SourceRange>, lo: nat, hi: nat)
    requires rows != [] && Cover(lens, rows, lo, hi)
    ensures rows[0].sourceIndex < |lens|
    ensures Spot(lens, rows[0]).start == lo < Spot(lens, rows[0]).end <= hi
    ensures Cover(lens, rows[1..], Spot(lens, rows[0]).end, hi)
  {
    assert Spots(lens, rows)[1..] == Spots(lens, rows[1..]);
  }

  lemma RebuildStep(files: seq<seq<byte>>, lens: seq<nat>, rows: seq<SourceRange>, lo: nat, all: seq<byte>)
    requires SameLens(files, lens) && all == Flatten(files, |files|) && rows != []
    requires forall row :: row in rows ==>
               row.sourceIndex < |files| && row.start <= row.end <= |files[row.sourceIndex]|
    requires Spot(lens, rows[0]).start == lo <= Spot(lens, rows[0]).end <= |all|
    requires RowBytes(files, rows[1..]) == all[Spot(lens, rows[0]).end..]
    ensures RowBytes(files, rows) == all[lo..]
  {
    FlattenAt(files, lens, |files|, rows[0].sourceIndex, rows[0].start, rows[0].end);
    SplitAt(all, lo, Spot(lens, rows[0]).end);
  }

  lemma {:induction false} CoverRebuilds(files: seq<seq<byte>>, lens: seq<nat>, rows: seq<SourceRange>, lo: nat,
                                         all: seq<byte>)
    requires SameLens(files, lens) && all == Flatten(files, |files|) && lo <= |all| && Cover(lens, rows, lo, |all|)
    requires forall row :: row in rows ==>
               row.sourceIndex < |files| && row.start <= row.end <= |files[row.sourceIndex]|
    ensures RowBytes(files, rows) == all[lo..]
    decreases |rows|
  {
    if rows != [] {
      CoverHead(lens, rows, lo, |all|);
      CoverRebuilds(files, lens, rows[1..], Spot(lens, rows[0]).end, all);
      RebuildStep(files, lens, rows, lo, all);
    }
  }

  lemma {:induction false} RowsBelong(files: seq<seq<byte>>, d: seq<byte>, workers: seq<WorkerAssignment>, index: nat)
    requires WorkersOk(files, d, workers, index)
    ensures forall row :: row in AllRows(workers) ==> RowOk(files, d, row)
    decreases |workers|
  {
    if workers != [] {
      assert forall row :: row in workers[0].ranges ==> RowOk(files, d, row);
      assert WorkersOk(files, d, workers[1..], index + 1);
      RowsBelong(files, d, workers[1..], index + 1);
    }
  }

  /** Main theorem: in a successful plan the workers are numbered 0 .. k-1 with k at most the
      request, every row stays inside its source and runs between source edges or record ends,
      and the rows in output order cover every byte of every source exactly once. */
  lemma PlanIsSound(files: seq<seq<byte>>, d: seq<byte>, parts: nat)
    requires |d| > 0 && parts > 0
    ensures var r := LogicalPlan(files, d, parts);
            r.Ok? ==>
              && |r.value| <= parts
              && WorkersOk(files, d, r.value, 0)
              && Cover(Lens(files), AllRows(r.value), 0, Total(Lens(files)))
              && (forall row :: row in AllRows(r.value) ==> RowOk(files, d, row))
              && RowBytes(files, AllRows(r.value)) == Flatten(files, |files|)
  {
    var r := LogicalPlan(files, d, parts);
    var lens := Lens(files);
    var total := Total(lens);
    if r.Ok? {
      FlattenLength(files, lens, |files|);
      if total > 0 {
        var ts := CheckedTargets(total, Min(parts, total));
        CheckedTargetsBelow(total, Min(parts, total));
        var cuts := LogicalCuts(files, lens, d, ts, 0);
        CutsAreGoodEnds(files, lens, d, ts, 0);
        EdgeIsOk(files, lens, d, 0);
        AssignIsSound(files, lens, d, 0, cuts.value + [total], 0);
      }
      RowsBelong(files, d, r.value, 0);
      CoverRebuilds(files, lens, AllRows(r.value), 0, Flatten(files, |files|));
    }
  }
}
