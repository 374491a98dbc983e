/** For one-byte delimiters the multi-file cuts are exactly the projections of the ideal targets. */
module LogicalImage {
  import opened Search
  import opened Partition
  import opened PartitionTheorems
  import opened OneByte
  import opened Logical

  lemma EdgeInHolder(lens: seq<nat>, k: nat, u: nat)
    requires k < |lens| && Prefix(lens, k) < u < Prefix(lens, k) + lens[k]
    ensures u < Total(lens) && !IsEdge(lens, u) && Locate(lens, u) == k
  {
    assert Prefix(lens, k + 1) == Prefix(lens, k) + lens[k];
    PrefixMono(lens, k + 1, |lens|);
    HolderUnique(lens, k, Locate(lens, u), u);
    forall j: nat | j <= |lens| ensures Prefix(lens, j) != u {
      if j <= k {
        PrefixMono(lens, j, k);
      } else {
        PrefixMono(lens, k + 1, j);
      }
    }
  }

  /** Between a target and its projection every target has the same projection. */
  lemma ProjectionIsClosed(files: seq<seq<byte>>, lens: seq<nat>, b: byte, t: nat, u: nat)
    requires SameLens(files, lens) && t <= u < Total(lens) && u <= Project(files, lens, [b], t)
    ensures Project(files, lens, [b], u) == Project(files, lens, [b], t)
  {
    if !IsEdge(lens, t) && t < u {
      var k := Locate(lens, t);
      var base := Prefix(lens, k);
      assert Prefix(lens, k + 1) == base + lens[k];
      var local := NextBoundary(files[k], [b], t - base);
      if u < base + lens[k] {
        EdgeInHolder(lens, k, u);
        BoundaryIsClosed(files[k], b, t - base, u - base);
      } else {
        assert Prefix(lens, k + 1) == u;
      }
    }
  }

  /** Where a checked target has a value, it is the ideal one. */
  ghost predicate Checked(cts: seq<Option<nat>>, ts: seq<nat>) {
    |cts| == |ts| && forall k: nat :: k < |ts| ==> cts[k] == None || cts[k] == Some(ts[k])
  }

  ghost predicate IsProjection(files: seq<seq<byte>>, lens: seq<nat>, b: byte, ts: seq<nat>, c: nat)
    requires SameLens(files, lens) && Below(ts, Total(lens))
  {
    exists k: nat :: k < |ts| && c == Project(files, lens, [b], ts[k])
  }

  /** Every target's projection is a cut, the last cut before, or the end of the data. */
  ghost predicate Reached(files: seq<seq<byte>>, lens: seq<nat>, b: byte, ts: seq<nat>, last: nat, cuts: seq<nat>)
    requires SameLens(files, lens) && Below(ts, Total(lens))
  {
    forall k: nat :: k < |ts| ==>
      var p := Project(files, lens, [b], ts[k]);
      p == last || p == Total(lens) || p in cuts
  }

  /** After the end is reached all later targets project to it. */
  lemma {:induction false} AllReachEnd(files: seq<seq<byte>>, lens: seq<nat>, b: byte, ts: seq<nat>, t: nat, last: nat)
    requires SameLens(files, lens) && Below(ts, Total(lens)) && Ascending(ts, t)
    requires t < Total(lens) && Project(files, lens, [b], t) == Total(lens)
    ensures Reached(files, lens, b, ts, last, [])
    decreases |ts|
  {
    if ts != [] {
      ProjectionIsClosed(files, lens, b, t, ts[0]);
      AllReachEnd(files, lens, b, ts[1..], ts[0], last);
      forall k: nat | k < |ts| ensures Project(files, lens, [b], ts[k]) in [last, Total(lens)] {
        if k > 0 {
          assert ts[k] == ts[1..][k - 1];
        }
      }
    }
  }

  lemma ReachedCons(files: seq<seq<byte>>, lens: seq<nat>, b: byte, ts: seq<nat>, last: nat, mid: nat,
                    rest: seq<nat>, cuts: seq<nat>)
    requires SameLens(files, lens) && Below(ts, Total(lens)) && ts != []
    requires Reached(files, lens, b, ts[1..], mid, rest)
    requires (mid == last || mid in cuts) && (forall c :: c in rest ==> c in cuts)
    requires Project(files, lens, [b], ts[0]) == last || Project(files, lens, [b], ts[0]) in cuts
    ensures Reached(files, lens, b, ts, last, cuts)
  {
    forall k: nat | k < |ts|
      ensures var p := Project(files, lens, [b], ts[k]); p == last || p == Total(lens) || p in cuts
    {
      if k > 0 {
        assert ts[k] == ts[1..][k - 1];
      }
    }
  }

  lemma ProjectionCons(files: seq<seq<byte>>, lens: seq<nat>, b: byte, ts: seq<nat>, rest: seq<nat>)
    requires SameLens(files, lens) && Below(ts, Total(lens)) && ts != []
    requires forall c :: c in rest ==> IsProjection(files, lens, b, ts[1..], c)
    ensures forall c :: c in rest ==> IsProjection(files, lens, b, ts, c)
  {
    forall c | c in rest ensures IsProjection(files, lens, b, ts, c) {
      var k: nat :| k < |ts[1..]| && c == Project(files, lens, [b], ts[1..][k]);
      assert c == Project(files, lens, [b], ts[k + 1]);
    }
  }

  /** `last` is 0, or the projection of an earlier target `a`. */
  lemma {:induction false} CutsAreProjections(files: seq<seq<byte>>, lens: seq<nat>, b: byte, ts: seq<nat>,
                                              cts: seq<Option<nat>>, a: nat, last: nat)
    requires SameLens(files, lens) && Below(ts, Total(lens)) && Ascending(ts, a) && Checked(cts, ts)
    requires BelowTotal(cts, Total(lens)) && (last == 0 || (a < Total(lens) && last == Project(files, lens, [b], a)))
    requires forall k: nat :: k < |ts| ==> 0 < ts[k]
    ensures var r := LogicalCuts(files, lens, [b], cts, last);
            r.Ok? ==>
              && (forall c :: c in r.value ==> IsProjection(files, lens, b, ts, c))
              && Reached(files, lens, b, ts, last, r.value)
    decreases |ts|
  {
    var r := LogicalCuts(files, lens, [b], cts, last);
    if ts != [] && r.Ok? {
      var t := ts[0];
      assert cts[0] == Some(t);
      if t <= last {
        ProjectionIsClosed(files, lens, b, a, t);
        CutsAreProjections(files, lens, b, ts[1..], cts[1..], t, last);
        ProjectionCons(files, lens, b, ts, r.value);
        ReachedCons(files, lens, b, ts, last, last, r.value, r.value);
      } else {
        var p := Project(files, lens, [b], t);
        if p == Total(lens) {
          AllReachEnd(files, lens, b, ts, t, last);
        } else {
          CutsAreProjections(files, lens, b, ts[1..], cts[1..], t, p);
          var rest := LogicalCuts(files, lens, [b], cts[1..], p).value;
          ProjectionCons(files, lens, b, ts, rest);
          ReachedCons(files, lens, b, ts, last, p, rest, r.value);
        }
      }
    }
  }

  /** Main theorem: the cuts between workers are exactly the projections of the ideal targets that
      fall before the end; skipping collapsed targets and stopping early lose none. */
  lemma WorkersCutAtProjections(files: seq<seq<byte>>, lens: seq<nat>, b: byte, n: nat)
    requires SameLens(files, lens) && 0 < n <= Total(lens)
    ensures Below(Targets(Total(lens), n), Total(lens)) && BelowTotal(CheckedTargets(Total(lens), n), Total(lens))
    ensures var ts := Targets(Total(lens), n);
            var r := LogicalCuts(files, lens, [b], CheckedTargets(Total(lens), n), 0);
            r.Ok? ==>
              && (forall c :: c in r.value ==> IsProjection(files, lens, b, ts, c))
              && Reached(files, lens, b, ts, Total(lens), r.value)
  {
    var total := Total(lens);
    var ts, cts := Targets(total, n), CheckedTargets(total, n);
    TargetsBelow(total, n);
    CheckedTargetsBelow(total, n);
    FirstTarget(total, n);
    TargetsAscend(total, n, 0);
    assert ts[0..] == ts;
    forall k: nat | k < |ts| ensures 0 < ts[k] {
      TargetPositive(total, k + 1, n);
    }
    CutsAreProjections(files, lens, b, ts, cts, 0, 0);
    var r := LogicalCuts(files, lens, [b], cts, 0);
    if r.Ok? {
      forall k: nat | k < |ts|
        ensures var p := Project(files, lens, [b], ts[k]); p == total || p in r.value
      {
        assert Project(files, lens, [b], ts[k]) >= ts[k] > 0;
      }
    }
  }

  /** Main theorem, for the plan itself: its workers end exactly at the projections of the ideal targets
      of `Min(parts, total)` partitions that fall before the end, and at the end. */
  lemma PlanCutsAtProjections(files: seq<seq<byte>>, b: byte, parts: nat)
    requires parts > 0 && Total(Lens(files)) > 0
    ensures var lens := Lens(files);
            var total := Total(lens);
            var ts := Targets(total, Min(parts, total));
            var r := LogicalPlan(files, [b], parts);
            && Below(ts, total)
            && (r.Ok? ==>
                exists cuts :: && r.value == Assign(lens, 0, cuts + [total], 0)
                               && (forall c :: c in cuts ==> IsProjection(files, lens, b, ts, c))
                               && Reached(files, lens, b, ts, total, cuts))
  {
    var lens := Lens(files);
    var total := Total(lens);
    var n := Min(parts, total);
    WorkersCutAtProjections(files, lens, b, n);
    var r := LogicalPlan(files, [b], parts);
    if r.Ok? {
      var cuts := LogicalCuts(files, lens, [b], CheckedTargets(total, n), 0).value;
      assert r.value == Assign(lens, 0, cuts + [total], 0);
    }
  }
}
