/** The fully mapped multi-file planner of src/bin/mmap-chunker.rs. */
module LogicalMapped {
  import opened Search
  import opened Partition
  import opened Reads
  import opened Logical
  import opened LogicalSteps

  /** `next_record_boundary`: one-byte delimiter. */
  method NextRecordBoundary(data: seq<byte>, target: nat, delimiter: byte, state: BoundarySearchState)
    returns (b: nat)
    requires target <= |data| && state.Valid(|data|)
    modifies state
    ensures state.Valid(|data|) && state.cachedBoundary == Some(b)
    ensures var cached := old(state.cachedBoundary);
            if cached.Some? && target < cached.value then b == cached.value
            else b == NextBoundary(data, [delimiter], target)
  {
    if state.cachedBoundary.Some? && target < state.cachedBoundary.value {
      return state.cachedBoundary.value;
    }
    if target >= 1 {
      OccursByte(data, delimiter, target - 1);
    }
    if target >= 1 && target <= |data| && data[target - 1] == delimiter {
      state.scanFrom := Max(target, state.scanFrom);
      state.cachedBoundary := Some(target);
      return target;
    }
    var scanFrom := Max(target, state.scanFrom);
    assert scanFrom == target;
    var relative := Position(data[scanFrom..], delimiter);
    BoundaryBySuffix(data, [delimiter], target, relative);
    b := if relative.Some? then Min(scanFrom + relative.value + 1, |data|) else |data|;
    state.scanFrom := b;
    state.cachedBoundary := Some(b);
  }

  /** `next_record_boundary_pattern`: multi-byte delimiter. */
  method NextRecordBoundaryPattern(data: seq<byte>, target: nat, d: seq<byte>, state: BoundarySearchState)
    returns (b: nat)
    requires |d| > 0 && target <= |data| && state.Valid(|data|)
    modifies state
    ensures state.Valid(|data|) && state.cachedBoundary == Some(b)
    ensures var cached := old(state.cachedBoundary);
            if cached.Some? && target < cached.value then b == cached.value
            else b == NextBoundary(data, d, target)
  {
    if state.cachedBoundary.Some? && target < state.cachedBoundary.value {
      return state.cachedBoundary.value;
    }
    if target >= |d| && target <= |data| && data[target - |d|..target] == d {
      state.scanFrom := Max(target, state.scanFrom);
      state.cachedBoundary := Some(target);
      return target;
    }
    var scanFrom := Max(target, state.scanFrom);
    if scanFrom >= |data| {
      b := |data|;
    } else {
      var relative := FindFirstPatternFrom(data[scanFrom..], d);
      BoundaryBySuffix(data, d, target, relative);
      b := if relative.Some? then Min(scanFrom + relative.value + |d|, |data|) else |data|;
    }
    state.scanFrom := b;
    state.cachedBoundary := Some(b);
  }

  /** Every source's remembered boundary lies at or before the last cut. */
  ghost predicate Behind(states: seq<BoundarySearchState>, lens: seq<nat>, last: nat)
    requires |states| == |lens|
    reads states
  {
    && (forall i, j :: 0 <= i < j < |states| ==> states[i] != states[j])
    && (forall k: nat :: k < |states| ==> StateBehind(states[k], lens, k, last))
  }

  ghost predicate StateBehind(state: BoundarySearchState, lens: seq<nat>, k: nat, last: nat)
    requires k < |lens|
    reads state
  {
    state.Valid(lens[k]) && (state.cachedBoundary.Some? ==> Prefix(lens, k) + state.cachedBoundary.value <= last)
  }

  /** `project_logical_target`. The remembered state never changes the answer: behind the last cut
      it is the projection of a fresh search. */
  method ProjectLogicalTarget(target: nat, ghost last: nat, prefixes: seq<nat>, sources: seq<seq<byte>>, d: seq<byte>,
                              states: seq<BoundarySearchState>, ghost lens: seq<nat>)
    returns (p: nat)
    requires |d| > 0 && SameLens(sources, lens) && ArePrefixes(prefixes, lens) && last < target < Total(lens)
    requires |states| == |lens| && Behind(states, lens, last)
    modifies states
    ensures p == Project(sources, lens, d, target)
    ensures Behind(states, lens, p)
  {
    EdgeIffPrefix(prefixes, lens, target);
    if target in prefixes {
      return target;
    }
    var k := FindSource(prefixes, target, lens);
    var sourceStart := prefixes[k];
    var localTarget := target - sourceStart;
    assert Prefix(lens, k + 1) == Prefix(lens, k) + lens[k];
    assert StateBehind(states[k], lens, k, last);
    var localBoundary;
    if |d| == 1 {
      assert d == [d[0]];
      localBoundary := NextRecordBoundary(sources[k], localTarget, d[0], states[k]);
    } else {
      localBoundary := NextRecordBoundaryPattern(sources[k], localTarget, d, states[k]);
    }
    return sourceStart + localBoundary;
  }

  /** The target loop of `plan_logical_partitions`. */
  method MappedCuts(sources: seq<seq<byte>>, d: seq<byte>, parts: nat, total: nat, prefixes: seq<nat>,
                    ghost lens: seq<nat>)
    returns (r: Result<seq<nat>>)
    requires |d| > 0 && SameLens(sources, lens) && ArePrefixes(prefixes, lens) && 0 < total == Total(lens) && 0 < parts
    ensures BelowTotal(CheckedTargets(total, parts), total)
    ensures r == LogicalCuts(sources, lens, d, CheckedTargets(total, parts), 0)
  {
    var states: seq<BoundarySearchState> := [];
    for i := 0 to |sources|
      invariant |states| == i && fresh(states)
      invariant forall j, k :: 0 <= j < k < i ==> states[j] != states[k]
      invariant forall j :: 0 <= j < i ==> states[j].scanFrom == 0 && states[j].cachedBoundary == None
    {
      var state := new BoundarySearchState();
      states := states + [state];
    }
    ghost var ts := CheckedTargets(total, parts);
    CheckedTargetsBelow(total, parts);
    CuttingStart(sources, lens, d, ts);
    var cutPoints: seq<nat> := [];
    var last: nat := 0;
    for i := 1 to parts
      invariant last < total && fresh(states) && Behind(states, lens, last)
      invariant Cutting(sources, lens, d, ts, i - 1, last, cutPoints)
    {
      var target := ComputeCheckedTarget(total, i, parts);
      if target == None {
        CuttingOverflow(sources, lens, d, ts, i - 1, last, cutPoints);
        return Err(TargetOverflow);
      }
      if target.value <= last {
        CuttingSkip(sources, lens, d, ts, i - 1, last, cutPoints);
        continue;
      }
      var projected := ProjectLogicalTarget(target.value, last, prefixes, sources, d, states, lens);
      CuttingPush(sources, lens, d, ts, i - 1, last, cutPoints, projected);
      if projected <= last {
        continue;
      }
      if projected == total {
        return Ok(cutPoints);
      }
      cutPoints := cutPoints + [projected];
      last := projected;
    }
    CuttingDone(sources, lens, d, ts, last, cutPoints);
    return Ok(cutPoints);
  }

  /** `plan_logical_partitions`. */
  method PlanLogicalPartitions(sources: seq<seq<byte>>, requested: usize, d: seq<byte>)
    returns (r: Result<seq<WorkerAssignment>>)
    requires |d| > 0
    ensures r == LogicalPlan(sources, d, requested)
  {
    if requested == 0 {
      return Ok([]);
    }
    var lens := seq(|sources|, k requires 0 <= k < |sources| => |sources[k]|);
    assert lens == Lens(sources);
    var sums := PrefixSums(lens);
    if sums.Err? {
      return Err(DatasetTooLarge);
    }
    var prefixes := sums.value;
    var total := prefixes[|sources|];
    if total == 0 {
      return Ok([]);
    }
    var effective := Min(requested, if total <= USIZE_MAX then total else USIZE_MAX);
    var cuts := MappedCuts(sources, d, effective, total, prefixes, lens);
    if cuts.Err? {
      return Err(cuts.error);
    }
    var workers := BuildAssignments(cuts.value + [total], prefixes, lens);
    return Ok(workers);
  }
}
