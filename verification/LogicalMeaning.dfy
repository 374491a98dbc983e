/** What a multi-file plan is, without the planner: where a logical target moves to, which intervals
    the workers get, and which rows an interval has. */
module LogicalMeaning {
  import opened Search
  import opened Partition
  import opened PartitionTheorems
  import opened PlanMeaning
  import opened Reads
  import opened Logical
  import opened LogicalTheorems

  // ----- a target

  /** A place where the logical target `t` may be moved to: a source edge, or a place in the source that
      holds `t` where that source's own target may be moved to. */
  ghost predicate LogicalPlace(files: seq<seq<byte>>, lens: seq<nat>, d: seq<byte>, t: nat, p: nat)
    requires |lens| == |files|
  {
    t <= p && (IsEdge(lens, p) || exists k: nat :: Holds(lens, k, t) && PlaceIn(files, lens, d, k, t, p))
  }

  ghost predicate PlaceIn(files: seq<seq<byte>>, lens: seq<nat>, d: seq<byte>, k: nat, t: nat, p: nat)
    requires |lens| == |files| && k < |files|
  {
    Prefix(lens, k) <= t <= p && MayMoveTo(files[k], d, t - Prefix(lens, k), p - Prefix(lens, k))
  }

  ghost predicate LeastLogicalPlace(files: seq<seq<byte>>, lens: seq<nat>, d: seq<byte>, t: nat, p: nat)
    requires |lens| == |files|
  {
    LogicalPlace(files, lens, d, t, p) && forall u: nat :: u < p ==> !LogicalPlace(files, lens, d, t, u)
  }

  lemma NoEdgeInside(lens: seq<nat>, k: nat, t: nat, u: nat)
    requires k < |lens| && Holds(lens, k, t) && !IsEdge(lens, t) && t <= u && IsEdge(lens, u)
    ensures Prefix(lens, k + 1) <= u
  {
    var j: nat :| j <= |lens| && Prefix(lens, j) == u;
    if j <= k {
      PrefixMono(lens, j, k);
    } else {
      PrefixMono(lens, k + 1, j);
    }
  }

  lemma ProjectionIsPlace(files: seq<seq<byte>>, lens: seq<nat>, d: seq<byte>, t: nat)
    requires |d| > 0 && SameLens(files, lens) && t < Total(lens)
    ensures LogicalPlace(files, lens, d, t, Project(files, lens, d, t))
  {
    if !IsEdge(lens, t) {
      var k := Locate(lens, t);
      var local := t - Prefix(lens, k);
      BoundaryIsLeastPlace(files[k], d, local, NextBoundary(files[k], d, local));
      assert PlaceIn(files, lens, d, k, t, Project(files, lens, d, t));
    }
  }

  lemma ProjectionIsLeast(files: seq<seq<byte>>, lens: seq<nat>, d: seq<byte>, t: nat, u: nat)
    requires |d| > 0 && SameLens(files, lens) && t < Total(lens) && LogicalPlace(files, lens, d, t, u)
    ensures Project(files, lens, d, t) <= u
  {
    if !IsEdge(lens, t) {
      var k := Locate(lens, t);
      var base := Prefix(lens, k);
      assert Prefix(lens, k + 1) == base + lens[k];
      if IsEdge(lens, u) {
        NoEdgeInside(lens, k, t, u);
      } else {
        var j: nat :| Holds(lens, j, t) && PlaceIn(files, lens, d, j, t, u);
        HolderUnique(lens, k, j, t);
        BoundaryIsLeastPlace(files[k], d, t - base, NextBoundary(files[k], d, t - base));
      }
    }
  }

  /** Main theorem, for delimiters of any length: a logical target moves to the least such place, and
      nowhere else. */
  lemma ProjectionIsLeastPlace(files: seq<seq<byte>>, lens: seq<nat>, d: seq<byte>, t: nat, p: nat)
    requires |d| > 0 && SameLens(files, lens) && t < Total(lens)
    ensures p == Project(files, lens, d, t) <==> LeastLogicalPlace(files, lens, d, t, p)
  {
    var q := Project(files, lens, d, t);
    ProjectionIsPlace(files, lens, d, t);
    forall u: nat | LogicalPlace(files, lens, d, t, u) ensures q <= u {
      ProjectionIsLeast(files, lens, d, t, u);
    }
  }

  // ----- the intervals

  /** The interval ends where the first ideal target past its start moves to, or with the data if none is
      left; and no product on the way leaves 128 bits. */
  ghost predicate IntervalEndsRight(files: seq<seq<byte>>, lens: seq<nat>, d: seq<byte>, n: nat, r: Range)
    requires |lens| == |files|
  {
    && (forall i: nat, t: nat :: FirstPast(Total(lens), n, r.start, i, t) ==>
          Total(lens) * i <= U128_MAX && LeastLogicalPlace(files, lens, d, t, r.end))
    && (NonePast(Total(lens), n, r.start) ==> Total(lens) * (n - 1) <= U128_MAX && r.end == Total(lens))
  }

  /** Where an interval that starts at `s` ends, if the targets up to there have values. */
  ghost function IntervalEnd(files: seq<seq<byte>>, lens: seq<nat>, d: seq<byte>, ts: seq<Option<nat>>, s: nat)
    : Option<nat>
    requires |d| > 0 && SameLens(files, lens) && BelowTotal(ts, Total(lens))
    decreases |ts|
  {
    if ts == [] then Some(Total(lens))
    else if ts[0] == None then None
    else if ts[0].value <= s then IntervalEnd(files, lens, d, ts[1..], s)
    else Some(Project(files, lens, d, ts[0].value))
  }

  ghost predicate AllEnd(files: seq<seq<byte>>, lens: seq<nat>, d: seq<byte>, ts: seq<Option<nat>>, rs: seq<Range>)
    requires |d| > 0 && SameLens(files, lens) && BelowTotal(ts, Total(lens))
  {
    forall r :: r in rs ==> IntervalEnd(files, lens, d, ts, r.start) == Some(r.end)
  }

  lemma AllEndTail(files: seq<seq<byte>>, lens: seq<nat>, d: seq<byte>, ts: seq<Option<nat>>, rs: seq<Range>, s: nat)
    requires |d| > 0 && SameLens(files, lens) && BelowTotal(ts, Total(lens))
    requires ts != [] && ts[0].Some? && ts[0].value <= s && forall r :: r in rs ==> s <= r.start
    ensures AllEnd(files, lens, d, ts, rs) <==> AllEnd(files, lens, d, ts[1..], rs)
  {
  }

  /** A successful cut loop leaves exactly such intervals. */
  lemma {:induction false} CutsGiveIntervals(files: seq<seq<byte>>, lens: seq<nat>, d: seq<byte>,
                                             ts: seq<Option<nat>>, last: nat)
    requires |d| > 0 && SameLens(files, lens) && BelowTotal(ts, Total(lens)) && last < Total(lens)
    ensures var r := LogicalCuts(files, lens, d, ts, last);
            r.Ok? ==>
              && Tiles(RangesOf(Total(lens), last, r.value), last, Total(lens))
              && AllEnd(files, lens, d, ts, RangesOf(Total(lens), last, r.value))
    decreases |ts|
  {
    var total := Total(lens);
    var r := LogicalCuts(files, lens, d, ts, last);
    LastInterval(last, total);
    if ts != [] && r.Ok? {
      var t := ts[0].value;
      if t <= last {
        CutsGiveIntervals(files, lens, d, ts[1..], last);
        var rs := RangesOf(total, last, r.value);
        TilesInBounds(rs, last, total);
        AllEndTail(files, lens, d, ts, rs, last);
      } else {
        var p := Project(files, lens, d, t);
        if p < total {
          CutsGiveIntervals(files, lens, d, ts[1..], p);
          var rest := LogicalCuts(files, lens, d, ts[1..], p).value;
          var rs := RangesOf(total, p, rest);
          TilesInBounds(rs, p, total);
          AllEndTail(files, lens, d, ts, rs, p);
          ConsInterval(total, last, p, rest);
        }
      }
    }
  }

  lemma LastInterval(last: nat, total: nat)
    requires last < total
    ensures RangesOf(total, last, []) == [Range(last, total)] && Tiles([Range(last, total)], last, total)
  {
    assert [Range(last, total)][1..] == [];
  }

  lemma ConsInterval(total: nat, last: nat, p: nat, rest: seq<nat>)
    requires last < p <= total
    ensures RangesOf(total, last, [p] + rest) == [Range(last, p)] + RangesOf(total, p, rest)
    ensures Tiles(RangesOf(total, p, rest), p, total) ==> Tiles(RangesOf(total, last, [p] + rest), last, total)
  {
    assert ([p] + rest)[1..] == rest;
    var rs := RangesOf(total, p, rest);
    assert ([Range(last, p)] + rs)[1..] == rs;
  }

  /** Where such intervals exist, the cut loop succeeds. */
  lemma {:induction false} IntervalsGiveCuts(files: seq<seq<byte>>, lens: seq<nat>, d: seq<byte>,
                                             ts: seq<Option<nat>>, last: nat, rs: seq<Range>)
    requires |d| > 0 && SameLens(files, lens) && BelowTotal(ts, Total(lens)) && last < Total(lens)
    requires Tiles(rs, last, Total(lens)) && AllEnd(files, lens, d, ts, rs)
    ensures LogicalCuts(files, lens, d, ts, last).Ok?
    decreases |ts|
  {
    if ts != [] {
      assert rs[0] in rs && rs[0].start == last;
      TilesInBounds(rs, last, Total(lens));
      var t := ts[0].value;
      if t <= last {
        AllEndTail(files, lens, d, ts, rs, last);
        IntervalsGiveCuts(files, lens, d, ts[1..], last, rs);
      } else {
        var p := Project(files, lens, d, t);
        if p < Total(lens) {
          TilesInBounds(rs[1..], p, Total(lens));
          assert forall r :: r in rs[1..] ==> r in rs;
          AllEndTail(files, lens, d, ts, rs[1..], p);
          IntervalsGiveCuts(files, lens, d, ts[1..], p, rs[1..]);
        }
      }
    }
  }

  /** The checked targets are the ideal ones up to the first product that leaves 128 bits. */
  ghost predicate CheckedUpTo(cts: seq<Option<nat>>, ts: seq<nat>) {
    && |cts| == |ts|
    && (forall k: nat :: k < |ts| ==> cts[k] == None || cts[k] == Some(ts[k]))
    && (forall j: nat, k: nat :: j <= k < |cts| && cts[j] == None ==> cts[k] == None)
  }

  lemma TargetsAreChecked(total: nat, n: nat)
    requires 0 < n
    ensures CheckedUpTo(CheckedTargets(total, n), Targets(total, n))
  {
    var cts := CheckedTargets(total, n);
    forall j: nat, k: nat | j <= k < |cts| && cts[j] == None ensures cts[k] == None {
      MulMono(j + 1, k + 1, total);
    }
  }

  lemma {:induction false} IntervalEndAt(files: seq<seq<byte>>, lens: seq<nat>, d: seq<byte>, cts: seq<Option<nat>>,
                                         ts: seq<nat>, s: nat)
    requires |d| > 0 && SameLens(files, lens) && BelowTotal(cts, Total(lens)) && Below(ts, Total(lens))
    requires CheckedUpTo(cts, ts)
    ensures var k := FirstAbove(ts, s);
            IntervalEnd(files, lens, d, cts, s) ==
            if k < |ts| then (if cts[k] == None then None else Some(Project(files, lens, d, ts[k])))
            else if ts != [] && cts[|ts| - 1] == None then None
            else Some(Total(lens))
    decreases |ts|
  {
    if ts != [] && cts[0].Some? && ts[0] <= s {
      assert CheckedUpTo(cts[1..], ts[1..]);
      IntervalEndAt(files, lens, d, cts[1..], ts[1..], s);
      FirstAboveTail(ts, s);
    }
  }

  /** With a target left past the start. */
  lemma NextTargetMeans(files: seq<seq<byte>>, lens: seq<nat>, d: seq<byte>, n: nat, r: Range, k: nat, t: nat)
    requires |d| > 0 && SameLens(files, lens) && 0 < n && t < Total(lens)
    requires FirstPast(Total(lens), n, r.start, k, t)
    ensures IntervalEndsRight(files, lens, d, n, r) <==>
            Total(lens) * k <= U128_MAX && r.end == Project(files, lens, d, t)
  {
    ProjectionIsLeastPlace(files, lens, d, t, r.end);
    forall i: nat, u: nat | FirstPast(Total(lens), n, r.start, i, u) ensures i == k && u == t {
      FirstPastOnce(Total(lens), n, r.start, i, u, k, t);
    }
    assert !NonePast(Total(lens), n, r.start);
  }

  lemma NoTargetMeans(files: seq<seq<byte>>, lens: seq<nat>, d: seq<byte>, n: nat, r: Range)
    requires |d| > 0 && SameLens(files, lens) && 0 < n && NonePast(Total(lens), n, r.start)
    ensures IntervalEndsRight(files, lens, d, n, r) <==>
            Total(lens) * (n - 1) <= U128_MAX && r.end == Total(lens)
  {
    assert forall i: nat, t: nat :: !FirstPast(Total(lens), n, r.start, i, t);
  }

  lemma LastChecked(total: nat, n: nat)
    requires 0 < n
    ensures total * (n - 1) <= U128_MAX <==> n == 1 || CheckedTargets(total, n)[n - 2].Some?
  {
    if n == 1 {
      assert total * 0 == 0;
    }
  }

  lemma IntervalEndIs(files: seq<seq<byte>>, lens: seq<nat>, d: seq<byte>, n: nat, r: Range)
    requires |d| > 0 && SameLens(files, lens) && 0 < n && 0 < Total(lens)
    ensures BelowTotal(CheckedTargets(Total(lens), n), Total(lens))
    ensures IntervalEndsRight(files, lens, d, n, r) <==>
            IntervalEnd(files, lens, d, CheckedTargets(Total(lens), n), r.start) == Some(r.end)
  {
    var total := Total(lens);
    var ts, cts := Targets(total, n), CheckedTargets(total, n);
    var k := FirstAbove(ts, r.start);
    CheckedTargetsBelow(total, n);
    TargetsBelow(total, n);
    TargetsAreChecked(total, n);
    IntervalEndAt(files, lens, d, cts, ts, r.start);
    FirstAboveMeans(total, n, r.start);
    if k < |ts| {
      NextTargetMeans(files, lens, d, n, r, k + 1, ts[k]);
      assert cts[k] == CheckedTarget(total, k + 1, n);
    } else {
      NoTargetMeans(files, lens, d, n, r);
      LastChecked(total, n);
    }
  }

  // ----- the rows of an interval

  ghost predicate RowFits(lens: seq<nat>, row: SourceRange) {
    && row.sourceIndex < |lens| && row.start < row.end <= lens[row.sourceIndex]
    && row.length == row.end - row.start
  }

  ghost predicate OneRowPerSource(rows: seq<SourceRange>) {
    forall i: nat, j: nat :: i < j < |rows| ==> rows[i].sourceIndex < rows[j].sourceIndex
  }

  /** The rows cover the interval in order, each inside its source, and no source has two. */
  ghost predicate RowsOf(lens: seq<nat>, lo: nat, hi: nat, rows: seq<SourceRange>) {
    && Cover(lens, rows, lo, hi)
    && (forall k: nat :: k < |rows| ==> RowFits(lens, rows[k]))
    && OneRowPerSource(rows)
  }

  lemma {:induction false} RowsFit(lens: seq<nat>, start: nat, end: nat, k: nat)
    requires k <= |lens|
    ensures var rows := RowsUpTo(lens, start, end, k);
            && (forall j: nat :: j < |rows| ==> RowFits(lens, rows[j]) && rows[j].sourceIndex < k)
            && OneRowPerSource(rows)
  {
    if k > 0 {
      RowsFit(lens, start, end, k - 1);
    }
  }

  lemma HeadHolds(lens: seq<nat>, rows: seq<SourceRange>, lo: nat, hi: nat)
    requires rows != [] && RowsOf(lens, lo, hi, rows)
    ensures Holds(lens, rows[0].sourceIndex, lo) && Prefix(lens, rows[0].sourceIndex) + rows[0].start == lo
    ensures RowsOf(lens, Spot(lens, rows[0]).end, hi, rows[1..])
  {
    CoverHead(lens, rows, lo, hi);
    assert RowFits(lens, rows[0]);
    var k := rows[0].sourceIndex;
    assert Prefix(lens, k + 1) == Prefix(lens, k) + lens[k];
  }

  /** The first row runs to the end of its source or of the interval. */
  lemma HeadIsLong(lens: seq<nat>, rows: seq<SourceRange>, lo: nat, hi: nat)
    requires rows != [] && RowsOf(lens, lo, hi, rows)
    ensures var k := rows[0].sourceIndex;
            k < |lens| && Spot(lens, rows[0]).end == Min(Prefix(lens, k) + lens[k], hi)
  {
    var k := rows[0].sourceIndex;
    var e := Spot(lens, rows[0]).end;
    CoverHead(lens, rows, lo, hi);
    HeadHolds(lens, rows, lo, hi);
    assert RowFits(lens, rows[0]) && Prefix(lens, k + 1) == Prefix(lens, k) + lens[k];
    if e < hi {
      assert rows[1..] != [];
      HeadHolds(lens, rows[1..], e, hi);
      if e < Prefix(lens, k) + lens[k] {
        HolderUnique(lens, k, rows[1].sourceIndex, e);
      }
    }
  }

  lemma {:induction false} RowsUnique(lens: seq<nat>, a: seq<SourceRange>, b: seq<SourceRange>, lo: nat, hi: nat)
    requires RowsOf(lens, lo, hi, a) && RowsOf(lens, lo, hi, b)
    ensures a == b
    decreases |a|
  {
    if a != [] && b != [] {
      HeadHolds(lens, a, lo, hi);
      HeadHolds(lens, b, lo, hi);
      HolderUnique(lens, a[0].sourceIndex, b[0].sourceIndex, lo);
      HeadIsLong(lens, a, lo, hi);
      HeadIsLong(lens, b, lo, hi);
      assert RowFits(lens, a[0]) && RowFits(lens, b[0]);
      RowsUnique(lens, a[1..], b[1..], Spot(lens, a[0]).end, hi);
    }
  }

  /** Main theorem: the rows of an interval are its only ones. */
  lemma RowsAreDetermined(lens: seq<nat>, lo: nat, hi: nat, rows: seq<SourceRange>)
    requires lo <= hi <= Total(lens)
    ensures rows == RowsUpTo(lens, lo, hi, |lens|) <==> RowsOf(lens, lo, hi, rows)
  {
    var spec := RowsUpTo(lens, lo, hi, |lens|);
    RowsTile(lens, lo, hi, |lens|);
    RowsFit(lens, lo, hi, |lens|);
    assert RowsOf(lens, lo, hi, spec);
    if RowsOf(lens, lo, hi, rows) {
      RowsUnique(lens, rows, spec, lo, hi);
    }
  }

  // ----- the workers

  /** One worker for each interval, numbered from `index`, with the interval's rows. */
  ghost predicate WorkersFor(lens: seq<nat>, rs: seq<Range>, ws: seq<WorkerAssignment>, index: nat) {
    && |ws| == |rs|
    && forall k: nat :: k < |rs| ==>
         ws[k].workerIndex == index + k && RowsOf(lens, rs[k].start, rs[k].end, ws[k].ranges)
  }

  lemma WorkersUnique(lens: seq<nat>, rs: seq<Range>, a: seq<WorkerAssignment>, b: seq<WorkerAssignment>, index: nat)
    requires WorkersFor(lens, rs, a, index) && WorkersFor(lens, rs, b, index)
    ensures a == b
  {
    forall k: nat | k < |rs| ensures a[k] == b[k] {
      RowsUnique(lens, a[k].ranges, b[k].ranges, rs[k].start, rs[k].end);
    }
  }

  lemma WorkersForCons(lens: seq<nat>, r: Range, rs: seq<Range>, w: WorkerAssignment, ws: seq<WorkerAssignment>)
    requires RowsOf(lens, r.start, r.end, w.ranges) && WorkersFor(lens, rs, ws, w.workerIndex + 1)
    ensures WorkersFor(lens, [r] + rs, [w] + ws, w.workerIndex)
  {
  }

  lemma {:induction false} AssignGives(files: seq<seq<byte>>, lens: seq<nat>, d: seq<byte>, start: nat,
                                       cuts: seq<nat>, index: nat)
    requires |lens| == |files| && start < Total(lens) && GoodEnds(files, lens, d, start, cuts + [Total(lens)])
    ensures WorkersFor(lens, RangesOf(Total(lens), start, cuts),
                       Assign(lens, start, cuts + [Total(lens)], index), index)
    decreases |cuts|
  {
    var total := Total(lens);
    var ends := cuts + [total];
    var rows := RowsUpTo(lens, start, ends[0], |lens|);
    RowsAreDetermined(lens, start, ends[0], rows);
    assert rows != [];
    var w := WorkerAssignment(index, rows);
    if cuts == [] {
      assert ends[1..] == [];
      assert RangesOf(total, start, []) == [Range(start, total)] + [];
      assert Assign(lens, start, ends, index) == [w] + [];
      WorkersForCons(lens, Range(start, total), [], w, []);
    } else {
      assert ends[1..] == cuts[1..] + [total];
      assert GoodEnds(files, lens, d, cuts[0], cuts[1..] + [total]);
      if cuts[0] < total {
        AssignGives(files, lens, d, cuts[0], cuts[1..], index + 1);
        WorkersForCons(lens, Range(start, cuts[0]), RangesOf(total, cuts[0], cuts[1..]), w,
                       Assign(lens, cuts[0], ends[1..], index + 1));
      }
    }
  }

  /** The intervals of a plan of `n` workers. */
  ghost predicate AreIntervals(files: seq<seq<byte>>, lens: seq<nat>, d: seq<byte>, n: nat, rs: seq<Range>)
    requires |lens| == |files|
  {
    Tiles(rs, 0, Total(lens)) && forall r :: r in rs ==> IntervalEndsRight(files, lens, d, n, r)
  }

  lemma AreIntervalsIs(files: seq<seq<byte>>, lens: seq<nat>, d: seq<byte>, n: nat, rs: seq<Range>)
    requires |d| > 0 && SameLens(files, lens) && 0 < n && 0 < Total(lens)
    ensures BelowTotal(CheckedTargets(Total(lens), n), Total(lens))
    ensures AreIntervals(files, lens, d, n, rs) <==>
            Tiles(rs, 0, Total(lens)) && AllEnd(files, lens, d, CheckedTargets(Total(lens), n), rs)
  {
    CheckedTargetsBelow(Total(lens), n);
    forall r ensures IntervalEndsRight(files, lens, d, n, r) <==>
                     IntervalEnd(files, lens, d, CheckedTargets(Total(lens), n), r.start) == Some(r.end)
    {
      IntervalEndIs(files, lens, d, n, r);
    }
  }

  /** The cut loop succeeds exactly when intervals exist, and they are the only ones. */
  lemma CutsAreDetermined(files: seq<seq<byte>>, lens: seq<nat>, d: seq<byte>, n: nat, rs: seq<Range>)
    requires |d| > 0 && SameLens(files, lens) && 0 < n && 0 < Total(lens)
    ensures BelowTotal(CheckedTargets(Total(lens), n), Total(lens))
    ensures var r := LogicalCuts(files, lens, d, CheckedTargets(Total(lens), n), 0);
            AreIntervals(files, lens, d, n, rs) <==> r.Ok? && rs == RangesOf(Total(lens), 0, r.value)
  {
    var total := Total(lens);
    var cts := CheckedTargets(total, n);
    AreIntervalsIs(files, lens, d, n, rs);
    CutsGiveIntervals(files, lens, d, cts, 0);
    if AreIntervals(files, lens, d, n, rs) {
      IntervalsGiveCuts(files, lens, d, cts, 0, rs);
      TilesUnique(rs, RangesOf(total, 0, LogicalCuts(files, lens, d, cts, 0).value), 0, total);
    }
  }

  /** Main theorem: a multi-file plan gives one worker to each interval of the logical range, with that
      interval's rows, and nothing else is a plan; it fails with an overflow exactly when there are no
      such intervals, and with an oversized data set exactly when the total leaves 128 bits. */
  lemma LogicalPlanIsDetermined(files: seq<seq<byte>>, d: seq<byte>, parts: nat, ws: seq<WorkerAssignment>)
    requires |d| > 0
    ensures var lens := Lens(files);
            var n := Min(parts, Total(lens));
            var r := LogicalPlan(files, d, parts);
            if parts == 0 || Total(lens) == 0 then r == Ok([])
            else if Total(lens) > U128_MAX then r == Err(DatasetTooLarge)
            else
              && (r == Ok(ws) <==>
                  exists rs :: AreIntervals(files, lens, d, n, rs) && WorkersFor(lens, rs, ws, 0))
              && (r == Err(TargetOverflow) <==> forall rs :: !AreIntervals(files, lens, d, n, rs))
  {
    var lens := Lens(files);
    var total := Total(lens);
    var n := Min(parts, total);
    if parts > 0 && 0 < total <= U128_MAX {
      var cts := CheckedTargets(total, n);
      CheckedTargetsBelow(total, n);
      var cuts := LogicalCuts(files, lens, d, cts, 0);
      forall rs ensures AreIntervals(files, lens, d, n, rs) <==> cuts.Ok? && rs == RangesOf(total, 0, cuts.value) {
        CutsAreDetermined(files, lens, d, n, rs);
      }
      CutErrors(files, lens, d, cts, 0);
      if cuts.Ok? {
        var rs := RangesOf(total, 0, cuts.value);
        CutsAreGoodEnds(files, lens, d, cts, 0);
        AssignGives(files, lens, d, 0, cuts.value, 0);
        var plan := Assign(lens, 0, cuts.value + [total], 0);
        assert AreIntervals(files, lens, d, n, rs) && WorkersFor(lens, rs, plan, 0);
        if WorkersFor(lens, rs, ws, 0) {
          WorkersUnique(lens, rs, ws, plan, 0);
        }
      }
    }
  }

  lemma {:induction false} CutErrors(files: seq<seq<byte>>, lens: seq<nat>, d: seq<byte>, ts: seq<Option<nat>>,
                                     last: nat)
    requires |d| > 0 && SameLens(files, lens) && BelowTotal(ts, Total(lens))
    ensures var r := LogicalCuts(files, lens, d, ts, last); r.Err? ==> r.error == TargetOverflow
    decreases |ts|
  {
    if ts != [] && ts[0].Some? {
      CutErrors(files, lens, d, ts[1..], last);
      CutErrors(files, lens, d, ts[1..], Project(files, lens, d, ts[0].value));
    }
  }
}
