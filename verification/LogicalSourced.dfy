/** The on-demand multi-file planner of src/bin/mmap-chunker.rs: one source open at a time, read
    through a buffer with short reads, and proved to plan exactly what the mapped planner plans. */
module LogicalSourced {
  import opened Search
  import opened Partition
  import opened Reads
  import opened Source
  import opened Logical
  import opened LogicalSteps

  /** The files named on the command line: the lengths the first phase sees, the contents a later
      open sees, and a record of which sources are and were open. */
  class Disk {
    const files: seq<seq<byte>>
    const statLens: seq<nat>
    const mode: SourceMode
    const reliable: bool
    ghost var live: nat
    ghost var openLog: seq<nat>

    constructor (files: seq<seq<byte>>, statLens: seq<nat>, mode: SourceMode, reliable: bool)
      requires |statLens| == |files|
      ensures this.files == files && this.statLens == statLens && this.mode == mode && this.reliable == reliable
      ensures live == 0 && openLog == []
    {
      this.files, this.statLens, this.mode, this.reliable := files, statLens, mode, reliable;
      live, openLog := 0, [];
    }

    /** `std::fs::metadata(path)?.len()`. */
    method Stat(k: nat) returns (r: Result<nat>)
      requires k < |statLens|
      ensures r.Ok? ==> r.value == statLens[k]
      ensures r.Err? ==> r == Err(OpenFailed) && !reliable
    {
      if !reliable {
        if * {
          return Err(OpenFailed);
        }
      }
      return Ok(statLens[k]);
    }

    /** `open_sourced`: only when no other source is open. */
    method Open(k: nat) returns (r: Result<ByteSource>)
      requires k < |files| && live == 0
      modifies this
      ensures r.Ok? ==>
                && fresh(r.value) && fresh(r.value.Backing()) && r.value.Valid()
                && r.value.contents == files[k] && r.value.reliable == reliable
                && live == 1 && openLog == old(openLog) + [k]
      ensures r.Err? ==> OpenError(r.error) && live == 0 && openLog == old(openLog)
      ensures mode.MmapMode? || (mode.WindowedMode? && mode.windowBytes < 65536) ==> r.Err?
    {
      if !reliable {
        if * {
          return Err(OpenFailed);
        }
      }
      if mode.MmapMode? {
        return Err(OpenFailed);
      }
      r := OpenSource(files[k], mode, reliable);
      if r.Ok? {
        live, openLog := 1, openLog + [k];
      }
    }

    /** Why opening a source may fail; the mapped mode has its own planner and is refused here. */
    ghost predicate OpenError(e: Error) {
      (e == OpenFailed && (!reliable || mode.MmapMode?)) || (e == WindowTooSmall && RefusesWindow(mode))
    }

    /** Dropping the open source. */
    method Close()
      requires live == 1
      modifies this`live
      ensures live == 0
    {
      live := 0;
    }
  }

  /** `OpenSourced`. */
  class OpenSourced {
    const index: nat
    const source: ByteSource
    const state: BoundarySearchState
    const buffer: array<byte>

    constructor (index: nat, source: ByteSource, state: BoundarySearchState, buffer: array<byte>)
      ensures this.index == index && this.source == source && this.state == state && this.buffer == buffer
    {
      this.index, this.source, this.state, this.buffer := index, source, state, buffer;
    }

    /** The objects a search through this source changes. */
    ghost function Parts(): set<object> {
      {state, buffer, source} + source.Backing()
    }
  }

  /** A full window without occurrence: the search goes on behind it, |d|-1 bytes back. */
  method ScanSource(source: ByteSource, from: nat, d: seq<byte>, buffer: array<byte>) returns (r: Result<nat>)
    requires source.Valid() && 0 < |d| <= buffer.Length
    modifies buffer, source`bytesRead, source.Backing()
    ensures source.Valid()
    ensures r.Ok? ==> r.value == ScanEnd(source.contents, d, from)
    ensures r.Err? ==> r == Err(ReadFailed) && !source.reliable
  {
    var len := |source.contents|;
    var offset := from;
    while true
      invariant source.Valid() && from <= offset
      invariant forall q: nat :: from <= q < offset ==> !OccursAt(source.contents, d, q)
      decreases len - offset
    {
      if offset >= len {
        NothingLeft(source.contents, d, from, offset);
        return Ok(len);
      }
      var want := Min(buffer.Length, len - offset);
      var fill := Fill(source, offset, buffer, want);
      if fill.Err? {
        return Err(fill.error);
      }
      var filled := fill.value;
      var window := buffer[..filled];
      if filled >= |d| {
        var relative := if |d| == 1 then Position(window, d[0]) else FindFirstPatternFrom(window, d);
        assert |d| == 1 ==> d == [d[0]];
        if relative.Some? {
          WindowHit(source.contents, d, from, offset, window, relative.value);
          return Ok(Min(offset + relative.value + |d|, len));
        }
        WindowMiss(source.contents, d, offset, window);
      }
      if offset + filled >= len {
        NothingLeft(source.contents, d, from, Max(offset, len - |d| + 1));
        return Ok(len);
      }
      offset := offset + Max(filled - (|d| - 1), 1);
    }
  }

  /** `next_record_boundary_sourced`. */
  method NextRecordBoundarySourced(source: ByteSource, target: nat, d: seq<byte>, state: BoundarySearchState,
                                   buffer: array<byte>)
    returns (r: Result<nat>)
    requires source.Valid() && 0 < |d| <= buffer.Length
    requires target <= |source.contents| && state.Valid(|source.contents|)
    modifies state, buffer, source`bytesRead, source.Backing()
    ensures source.Valid() && state.Valid(|source.contents|)
    ensures r.Ok? ==> state.cachedBoundary == Some(r.value)
    ensures var cached := old(state.cachedBoundary);
            r.Ok? ==>
              r.value == if cached.Some? && target < cached.value then cached.value
                         else NextBoundary(source.contents, d, target)
    ensures r.Err? ==> r == Err(ReadFailed) && !source.reliable && state.cachedBoundary == old(state.cachedBoundary)
  {
    if state.cachedBoundary.Some? && target < state.cachedBoundary.value {
      return Ok(state.cachedBoundary.value);
    }
    var exact := FollowsDelimiter(source, target, d, buffer);
    if exact.Err? {
      return Err(exact.error);
    }
    if exact.value {
      state.scanFrom := Max(target, state.scanFrom);
      state.cachedBoundary := Some(target);
      return Ok(target);
    }
    var scan := ScanSource(source, Max(target, state.scanFrom), d, buffer);
    if scan.Err? {
      return Err(scan.error);
    }
    state.scanFrom := scan.value;
    state.cachedBoundary := Some(scan.value);
    return Ok(scan.value);
  }

  ghost predicate Increasing(s: seq<nat>) {
    forall i, j :: 0 <= i < j < |s| ==> s[i] < s[j]
  }

  /** What holds between two targets: at most one source is open, it is the one opened last, sources
      were opened in increasing order, and nothing remembered lies beyond the last cut. */
  ghost predicate Holding(disk: Disk, current: OpenSourced?, lens: seq<nat>, d: seq<byte>, last: nat)
    requires |lens| == |disk.files|
    reads disk, current, if current == null then {} else {current.state} + current.source.Backing()
  {
    && Increasing(disk.openLog)
    && (current == null ==> disk.live == 0 && disk.openLog == [])
    && (current != null ==>
        && disk.live == 1
        && current.index < |lens|
        && lens[current.index] == |disk.files[current.index]|
        && disk.openLog != [] && disk.openLog[|disk.openLog| - 1] == current.index
        && current.source.Valid() && current.source.contents == disk.files[current.index]
        && current.source.reliable == disk.reliable
        && |d| <= current.buffer.Length
        && current.state.Valid(lens[current.index])
        && Prefix(lens, current.index) + current.state.scanFrom <= last)
    && (forall k :: 0 <= k < |disk.openLog| ==>
        disk.openLog[k] < |lens| && lens[disk.openLog[k]] == |disk.files[disk.openLog[k]]|)
  }

  lemma IncreasingSnoc(s: seq<nat>, k: nat)
    requires Increasing(s) && (s != [] ==> s[|s| - 1] < k)
    ensures Increasing(s + [k])
  {
  }

  /** `files` agree with the disk wherever the disk kept the length it reported. */
  ghost predicate AsReported(files: seq<seq<byte>>, disk: Disk) {
    && |disk.statLens| == |disk.files|
    && SameLens(files, disk.statLens)
    && forall k: nat :: k < |files| && |disk.files[k]| == disk.statLens[k] ==> files[k] == disk.files[k]
  }

  /** The part of `project_sourced_target` that switches sources: the previous one is dropped
      before the next is opened. */
  method SwitchSource(k: nat, target: nat, disk: Disk, current: OpenSourced?, bufferLen: nat, ghost d: seq<byte>,
                      ghost last: nat)
    returns (r: Result<OpenSourced>)
    requires |disk.statLens| == |disk.files| && k < |disk.files| && last < target && |d| <= bufferLen
    requires Holds(disk.statLens, k, target) && Holding(disk, current, disk.statLens, d, last)
    requires current == null || current.index != k
    modifies disk
    ensures Increasing(disk.openLog)
    ensures r.Ok? ==>
              && fresh(r.value) && fresh(r.value.Parts())
              && r.value.index == k && Holding(disk, r.value, disk.statLens, d, target)
              && disk.openLog == old(disk.openLog) + [k]
    ensures r.Err? ==>
              && disk.live == 0
              && (disk.OpenError(r.error) ||
                  (r.error == LengthChanged && |disk.files[k]| != disk.statLens[k]))
  {
    ghost var lens := disk.statLens;
    if current != null {
      if k < current.index {
        PrefixMono(lens, k + 1, current.index);
      }
      disk.Close();
    }
    IncreasingSnoc(disk.openLog, k);
    var source := disk.Open(k);
    if source.Err? {
      return Err(source.error);
    }
    if |source.value.contents| != disk.statLens[k] {
      disk.Close();
      return Err(LengthChanged);
    }
    var state := new BoundarySearchState();
    var buffer := new byte[bufferLen];
    var open := new OpenSourced(k, source.value, state, buffer);
    return Ok(open);
  }

  /** The part of `project_sourced_target` after the source is open. */
  method ProjectInOpen(target: nat, prefixes: seq<nat>, disk: Disk, d: seq<byte>, open: OpenSourced,
                       ghost files: seq<seq<byte>>)
    returns (r: Result<nat>)
    requires 0 < |d| && AsReported(files, disk) && ArePrefixes(prefixes, disk.statLens) && target < Total(disk.statLens)
    requires Holding(disk, open, disk.statLens, d, target)
    requires !IsEdge(disk.statLens, target) && open.index == Locate(disk.statLens, target)
    modifies open.Parts()
    ensures r.Ok? ==>
              && r.value == Project(files, disk.statLens, d, target)
              && Holding(disk, open, disk.statLens, d, r.value)
    ensures r.Err? ==> r.error == ReadFailed && !disk.reliable
  {
    var k := open.index;
    assert Prefix(disk.statLens, k + 1) == Prefix(disk.statLens, k) + disk.statLens[k];
    var boundary := NextRecordBoundarySourced(open.source, target - prefixes[k], d, open.state, open.buffer);
    if boundary.Err? {
      return Err(boundary.error);
    }
    return Ok(prefixes[k] + boundary.value);
  }

  /** `project_sourced_target`. */
  method ProjectSourcedTarget(target: nat, prefixes: seq<nat>, disk: Disk, d: seq<byte>, current: OpenSourced?,
                              bufferLen: nat,
                              ghost last: nat, ghost files: seq<seq<byte>>)
    returns (r: Result<nat>, open: OpenSourced?)
    requires 0 < |d| <= bufferLen && AsReported(files, disk) && ArePrefixes(prefixes, disk.statLens)
    requires last < target < Total(disk.statLens) && Holding(disk, current, disk.statLens, d, last)
    modifies disk, if current == null then {} else current.Parts()
    ensures open == current || open == null || (fresh(open) && fresh(open.Parts()))
    ensures Increasing(disk.openLog) && disk.live == if open == null then 0 else 1
    ensures r.Ok? ==>
              && r.value == Project(files, disk.statLens, d, target)
              && Holding(disk, open, disk.statLens, d, r.value)
    ensures r.Ok? ==>
              var k := Locate(disk.statLens, target);
              disk.openLog == if IsEdge(disk.statLens, target) || (current != null && current.index == k)
                              then old(disk.openLog) else old(disk.openLog) + [k]
    ensures r.Err? ==> EnvironmentError(r.error, disk)
  {
    ghost var lens := disk.statLens;
    EdgeIffPrefix(prefixes, lens, target);
    if target in prefixes {
      return Ok(target), current;
    }
    var k := FindSource(prefixes, target, lens);
    open := current;
    if current == null || current.index != k {
      var switched := SwitchSource(k, target, disk, current, bufferLen, d, last);
      if switched.Err? {
        return Err(switched.error), null;
      }
      open := switched.value;
    }
    r := ProjectInOpen(target, prefixes, disk, d, open, files);
  }

  /** Failures of the environment, never of the plan. */
  ghost predicate EnvironmentError(e: Error, disk: Disk)
    requires |disk.statLens| == |disk.files|
  {
    || disk.OpenError(e)
    || (e == ReadFailed && !disk.reliable)
    || (e == LengthChanged && !SameLens(disk.files, disk.statLens))
  }

  /** All sources opened during planning had the length reported before. */
  ghost predicate OpenedAsReported(disk: Disk)
    requires |disk.statLens| == |disk.files|
    reads disk
  {
    forall k :: 0 <= k < |disk.openLog| ==>
      disk.openLog[k] < |disk.files| && disk.statLens[disk.openLog[k]] == |disk.files[disk.openLog[k]]|
  }

  /** One target of the loop of `plan_logical_partitions_sourced`: its projection, or none if it is not past
      the last cut. */
  method SourcedTarget(i: nat, disk: Disk, d: seq<byte>, parts: nat, prefixes: seq<nat>, bufferLen: nat, last: nat,
                       current: OpenSourced?, ghost files: seq<seq<byte>>)
    returns (r: Result<Option<nat>>, open: OpenSourced?)
    requires 0 < |d| <= bufferLen && AsReported(files, disk) && ArePrefixes(prefixes, disk.statLens)
    requires last < Total(disk.statLens) && 0 < i < parts && Holding(disk, current, disk.statLens, d, last)
    modifies disk, if current == null then {} else current.Parts()
    ensures open == current || open == null || (fresh(open) && fresh(open.Parts()))
    ensures Increasing(disk.openLog) && disk.live == if open == null then 0 else 1
    ensures var t := CheckedTargets(Total(disk.statLens), parts)[i - 1];
            match r
            case Err(e) => (t == None && e == TargetOverflow) || EnvironmentError(e, disk)
            case Ok(None) => t.Some? && t.value <= last && Holding(disk, open, disk.statLens, d, last)
            case Ok(Some(p)) =>
              && t.Some? && last < t.value < Total(disk.statLens)
              && p == Project(files, disk.statLens, d, t.value) && Holding(disk, open, disk.statLens, d, p)
  {
    var target := ComputeCheckedTarget(prefixes[|prefixes| - 1], i, parts);
    if target == None {
      return Err(TargetOverflow), current;
    }
    if target.value <= last {
      return Ok(None), current;
    }
    var projected;
    projected, open := ProjectSourcedTarget(target.value, prefixes, disk, d, current, bufferLen, last, files);
    return if projected.Err? then Err(projected.error) else Ok(Some(projected.value)), open;
  }

  /** The target loop of `plan_logical_partitions_sourced`. */
  method SourcedCuts(disk: Disk, d: seq<byte>, parts: nat, total: nat, prefixes: seq<nat>, bufferLen: nat,
                     ghost files: seq<seq<byte>>)
    returns (r: Result<seq<nat>>, current: OpenSourced?)
    requires 0 < |d| <= bufferLen && AsReported(files, disk) && ArePrefixes(prefixes, disk.statLens)
    requires 0 < total == Total(disk.statLens) && 0 < parts && disk.live == 0 && disk.openLog == []
    modifies disk
    ensures BelowTotal(CheckedTargets(total, parts), total)
    ensures Increasing(disk.openLog) && disk.live == if current == null then 0 else 1
    ensures r.Ok? ==> OpenedAsReported(disk)
    ensures r.Ok? ==> r == LogicalCuts(files, disk.statLens, d, CheckedTargets(total, parts), 0)
    ensures r.Err? ==>
              || r == LogicalCuts(files, disk.statLens, d, CheckedTargets(total, parts), 0)
              || EnvironmentError(r.error, disk)
  {
    ghost var ts := CheckedTargets(total, parts);
    CheckedTargetsBelow(total, parts);
    CuttingStart(files, disk.statLens, d, ts);
    var cutPoints: seq<nat> := [];
    var last: nat := 0;
    current := null;
    for i := 1 to parts
      invariant last < total && Holding(disk, current, disk.statLens, d, last)
      invariant current == null || fresh(current.Parts())
      invariant Cutting(files, disk.statLens, d, ts, i - 1, last, cutPoints)
    {
      var projected;
      projected, current := SourcedTarget(i, disk, d, parts, prefixes, bufferLen, last, current, files);
      if projected.Err? {
        if ts[i - 1] == None {
          CuttingOverflow(files, disk.statLens, d, ts, i - 1, last, cutPoints);
        }
        return Err(projected.error), current;
      }
      if projected.value == None {
        CuttingSkip(files, disk.statLens, d, ts, i - 1, last, cutPoints);
        continue;
      }
      CuttingPush(files, disk.statLens, d, ts, i - 1, last, cutPoints, projected.value.value);
      if projected.value.value <= last {
        continue;
      }
      if projected.value.value == total {
        return Ok(cutPoints), current;
      }
      cutPoints := cutPoints + [projected.value.value];
      last := projected.value.value;
    }
    CuttingDone(files, disk.statLens, d, ts, last, cutPoints);
    return Ok(cutPoints), current;
  }

  /** The stat phase. */
  method StatAll(disk: Disk) returns (r: Result<seq<nat>>)
    ensures r.Ok? ==> r.value == disk.statLens
    ensures r.Err? ==> r.error == OpenFailed && !disk.reliable
  {
    var lens: seq<nat> := [];
    for k := 0 to |disk.statLens|
      invariant lens == disk.statLens[..k]
    {
      var len := disk.Stat(k);
      if len.Err? {
        return Err(len.error);
      }
      lens := lens + [len.value];
    }
    return Ok(lens);
  }

  /** `plan_logical_partitions_sourced`. For unchanging files take `files == disk.files`: the plan is
      the mapped planner's, through the window as well as through positional reads of any schedule. A
      file whose length changed is either never opened or an error. */
  method PlanLogicalPartitionsSourced(disk: Disk, requested: usize, d: seq<byte>, scanBufferBytes: nat,
                                      ghost files: seq<seq<byte>>)
    returns (r: Result<seq<WorkerAssignment>>)
    requires |d| > 0 && AsReported(files, disk) && disk.live == 0 && disk.openLog == []
    modifies disk
    ensures disk.live == 0 && forall i, j :: 0 <= i < j < |disk.openLog| ==> disk.openLog[i] < disk.openLog[j]
    ensures r.Ok? ==> r == LogicalPlan(files, d, requested)
    ensures r.Ok? ==>
              forall k: nat :: k < |disk.openLog| ==>
                disk.openLog[k] < |disk.files| && disk.statLens[disk.openLog[k]] == |disk.files[disk.openLog[k]]|
    ensures r.Err? ==> r == LogicalPlan(files, d, requested) || EnvironmentError(r.error, disk)
    ensures disk.reliable && (forall k: nat :: k < |disk.files| ==> disk.statLens[k] == |disk.files[k]|) &&
            (disk.mode.PreadMode? || (disk.mode.WindowedMode? && disk.mode.windowBytes >= 65536)) ==>
              r == LogicalPlan(disk.files, d, requested)
  {
    if forall k: nat :: k < |disk.files| ==> disk.statLens[k] == |disk.files[k]| {
      assert files == disk.files;
    }
    if requested == 0 {
      return Ok([]);
    }
    var stats := StatAll(disk);
    if stats.Err? {
      return Err(stats.error);
    }
    ghost var lens := disk.statLens;
    assert Lens(files) == lens;
    var sums := PrefixSums(stats.value);
    if sums.Err? {
      return Err(DatasetTooLarge);
    }
    var prefixes := sums.value;
    var total := prefixes[|stats.value|];
    if total == 0 {
      return Ok([]);
    }
    var effective := Min(requested, if total <= USIZE_MAX then total else USIZE_MAX);
    var bufferLen := Max(Max(scanBufferBytes, |d|), 1);
    var cuts, current := SourcedCuts(disk, d, effective, total, prefixes, bufferLen, files);
    if current != null {
      disk.Close();
    }
    if cuts.Err? {
      return Err(cuts.error);
    }
    var workers := BuildAssignments(cuts.value + [total], prefixes, lens);
    return Ok(workers);
  }
}
