/** The chunk plan of src/plan.rs and the two state machines that hold it: the Rust `MmapChunker`
    (src/lib.rs) and the C engine (src/ffi.rs). */
module Engine {
  import opened Search
  import opened Partition
  import opened PartitionTheorems
  import opened PlanMeaning
  import opened Chunking
  import opened Swar

  datatype ChunkPlan = Empty | Ranges(ranges: seq<Range>) | Fixed(chunkSize: nat, chunkCount: nat)

  function FromRanges(ranges: seq<Range>): ChunkPlan {
    if ranges == [] then Empty else Ranges(ranges)
  }

  function FixedPlan(len: nat, chunkSize: nat): ChunkPlan {
    if len == 0 then Empty
    else Fixed(Max(chunkSize, 1), FixedChunkCount(len, Max(chunkSize, 1)))
  }

  function PlanLen(plan: ChunkPlan): nat {
    match plan
    case Empty => 0
    case Ranges(ranges) => |ranges|
    case Fixed(_, count) => count
  }

  function RangeAt(plan: ChunkPlan, index: nat, sourceLen: nat): Option<Range> {
    match plan
    case Empty => None
    case Ranges(ranges) => if index < |ranges| then Some(ranges[index]) else None
    case Fixed(size, count) => if index >= count then None else FixedChunkBounds(sourceLen, size, index)
  }

  /** One scan or partition request. */
  datatype Scan =
    | Delimited(chunkSize: nat, d: seq<byte>)
    | FixedSize(chunkSize: nat)
    | Partitioned(parts: nat, d: seq<byte>)

  /** No search is needed, because there is nothing to split or nothing is asked for. */
  predicate Trivial(data: seq<byte>, s: Scan) {
    data == [] || (s.Partitioned? && s.parts == 0)
  }

  /** The request can be carried out: it searches for nothing, or for a delimiter that is not empty. */
  predicate Plannable(data: seq<byte>, s: Scan) {
    Trivial(data, s) || s.FixedSize? || |s.d| > 0
  }

  /** The plan a completed request leaves. */
  ghost function PlanOf(data: seq<byte>, s: Scan): ChunkPlan
    requires Plannable(data, s)
  {
    if Trivial(data, s) then Empty
    else match s
      case Delimited(chunkSize, d) => FromRanges(Chunks(data, d, Max(chunkSize, 1), 0))
      case FixedSize(chunkSize) => FixedPlan(|data|, chunkSize)
      case Partitioned(parts, d) => FromRanges(PlanRanges(data, d, parts))
  }

  method ComputePlan(data: seq<byte>, s: Scan, address: nat) returns (plan: ChunkPlan)
    requires Plannable(data, s) && |data| <= USIZE_MAX
    ensures plan == PlanOf(data, s)
  {
    if Trivial(data, s) {
      return Empty;
    }
    match s
    case Delimited(chunkSize, d) =>
      var chunks := FindChunkBoundaries(data, chunkSize, d, address);
      plan := FromRanges(chunks);
    case FixedSize(chunkSize) =>
      plan := FixedPlan(|data|, chunkSize);
    case Partitioned(parts, d) =>
      var meter := new Meter();
      var partitions := FindPartitionBoundariesPattern(data, parts, d, address, meter);
      plan := FromRanges(partitions);
  }

  /** Every chunk of a plan, read one by one through `RangeAt`. */
  ghost function AllRanges(plan: ChunkPlan, len: nat): seq<Range>
    requires len <= USIZE_MAX
  {
    match plan
    case Empty => []
    case Ranges(ranges) => ranges
    case Fixed(size, _) => FixedChunks(len, size, 0)
  }

  /** The plan is empty, or its chunks tile the file and it can name each of them. */
  ghost predicate GoodPlan(plan: ChunkPlan, len: nat)
    requires len <= USIZE_MAX
  {
    && (plan != Empty ==> PlanLen(plan) > 0 && Tiles(AllRanges(plan, len), 0, len))
    && (plan.Fixed? ==> plan.chunkSize > 0 && plan.chunkCount == FixedChunkCount(len, plan.chunkSize))
  }

  lemma PlanOfIsGood(data: seq<byte>, s: Scan)
    requires Plannable(data, s) && |data| <= USIZE_MAX
    ensures GoodPlan(PlanOf(data, s), |data|)
  {
    if !Trivial(data, s) {
      match s
      case Delimited(chunkSize, d) =>
        ChunksTile(data, d, Max(chunkSize, 1), 0);
      case FixedSize(chunkSize) =>
        FixedChunksTile(|data|, Max(chunkSize, 1), 0);
      case Partitioned(parts, d) =>
        PlanShape(data, d, parts);
    }
  }

  lemma {:induction false} FixedChunkAt(len: nat, size: nat, from: nat, index: nat)
    requires from <= index < FixedChunkCount(len, size)
    ensures index - from < |FixedChunks(len, size, from)|
    ensures FixedChunkBounds(len, size, index) == Some(FixedChunks(len, size, from)[index - from])
    decreases index - from
  {
    if from < index {
      FixedChunkAt(len, size, from + 1, index);
    }
  }

  /** Main theorem on reads: below the count every index names its own non-empty chunk inside the
      file, so the "fixed chunk bounds overflow" error is unreachable; from the count on none does. */
  lemma GoodPlanReads(plan: ChunkPlan, len: nat, index: nat)
    requires len <= USIZE_MAX && GoodPlan(plan, len)
    ensures |AllRanges(plan, len)| == PlanLen(plan)
    ensures index < PlanLen(plan) ==>
              && RangeAt(plan, index, len) == Some(AllRanges(plan, len)[index])
              && AllRanges(plan, len)[index].start < AllRanges(plan, len)[index].end <= len
    ensures index >= PlanLen(plan) ==> RangeAt(plan, index, len) == None
  {
    if plan != Empty {
      TilesInBounds(AllRanges(plan, len), 0, len);
      if plan.Fixed? {
        FixedChunksTile(len, plan.chunkSize, 0);
        if index < plan.chunkCount {
          FixedChunkAt(len, plan.chunkSize, 0, index);
        }
      }
    }
  }

  // ----- what a request leaves

  /** The chunks a completed request leaves, said without the scanners: for a delimiter, the chunks of the
      file; for a fixed size, the i-th chunk from `i * size` on, cut off at the end; for partitions, the
      plan of that many, and none of an empty file or for no partitions. */
  ghost predicate Describes(data: seq<byte>, scan: Scan, chunks: seq<Range>) {
    match scan
    case Delimited(chunkSize, d) => IsChunking(data, d, Max(chunkSize, 1), chunks)
    case FixedSize(chunkSize) =>
      && Tiles(chunks, 0, |data|)
      && forall i: nat :: i < |chunks| ==>
           chunks[i] == Range(i * Max(chunkSize, 1), Min((i + 1) * Max(chunkSize, 1), |data|))
    case Partitioned(parts, d) =>
      if data == [] || parts == 0 then chunks == [] else IsPlan(data, d, Min(parts, |data|), chunks)
  }

  lemma FixedChunkIs(len: nat, size: nat, i: nat)
    requires 0 < size && len <= USIZE_MAX && i < FixedChunkCount(len, size)
    ensures i < |FixedChunks(len, size, 0)|
    ensures FixedChunks(len, size, 0)[i] == Range(i * size, Min((i + 1) * size, len))
  {
    FixedChunkAt(len, size, 0, i);
    FixedBoundsExact(len, size, i);
  }

  lemma FixedDescribes(data: seq<byte>, chunkSize: nat)
    requires 0 < |data| <= USIZE_MAX
    ensures Describes(data, FixedSize(chunkSize), FixedChunks(|data|, Max(chunkSize, 1), 0))
  {
    var size := Max(chunkSize, 1);
    var chunks := FixedChunks(|data|, size, 0);
    FixedChunksTile(|data|, size, 0);
    forall i: nat | i < |chunks| ensures chunks[i] == Range(i * size, Min((i + 1) * size, |data|)) {
      FixedChunkIs(|data|, size, i);
    }
  }

  /** Main theorem: the plan of a request is the one described, for every kind of request. */
  lemma PlanOfDescribes(data: seq<byte>, s: Scan)
    requires Plannable(data, s) && |data| <= USIZE_MAX
    ensures Describes(data, s, AllRanges(PlanOf(data, s), |data|))
  {
    if !Trivial(data, s) {
      match s
      case Delimited(chunkSize, d) =>
        ChunksAreDetermined(data, d, Max(chunkSize, 1), Chunks(data, d, Max(chunkSize, 1), 0));
      case FixedSize(chunkSize) =>
        FixedDescribes(data, chunkSize);
      case Partitioned(parts, d) =>
        PlanIsDetermined(data, d, parts, PlanRanges(data, d, parts));
    }
  }

  // ----- runs

  /** One call, with what the environment answers when a pin is revalidated. */
  datatype Call = Request(scan: Scan, pinHolds: bool) | TakePinError

  datatype RustState = RustState(plan: ChunkPlan, pinError: bool)

  /** The Rust type panics exactly when it gets as far as searching for an empty delimiter. */
  predicate Panics(data: seq<byte>, pinned: bool, c: Call) {
    c.Request? && (pinned ==> c.pinHolds) && !Plannable(data, c.scan)
  }

  /** `MmapChunker`: a failed pin empties the plan and is remembered. */
  ghost function RustStep(data: seq<byte>, pinned: bool, s: RustState, c: Call): RustState
    requires !Panics(data, pinned, c)
  {
    match c
    case TakePinError => s.(pinError := false)
    case Request(scan, holds) =>
      if pinned && !holds then RustState(Empty, true)
      else RustState(PlanOf(data, scan), if pinned then false else s.pinError)
  }

  /** The C engine reports an error: an empty or oversized delimiter, a changed file, or no partitions
      asked of a file that is not empty. */
  predicate EngineRejects(data: seq<byte>, pinned: bool, scan: Scan, holds: bool) {
    || (!scan.FixedSize? && !(0 < |scan.d| <= ISIZE_MAX))
    || (pinned && !holds)
    || (scan.Partitioned? && data != [] && scan.parts == 0)
  }

  /** The C engine: every error keeps the previous plan. */
  ghost function EngineStep(data: seq<byte>, pinned: bool, plan: ChunkPlan, c: Call): ChunkPlan {
    match c
    case TakePinError => plan
    case Request(scan, holds) =>
      if EngineRejects(data, pinned, scan, holds) then plan else PlanOf(data, scan)
  }

  ghost predicate RustInvariant(data: seq<byte>, pinned: bool, s: RustState)
    requires |data| <= USIZE_MAX
  {
    GoodPlan(s.plan, |data|) && (s.pinError ==> pinned && s.plan == Empty)
  }

  ghost function RustRun(data: seq<byte>, pinned: bool, s: RustState, run: seq<Call>): RustState
    requires forall k: nat :: k < |run| ==> !Panics(data, pinned, run[k])
    decreases |run|
  {
    if run == [] then s else RustRun(data, pinned, RustStep(data, pinned, s, run[0]), run[1..])
  }

  ghost function EngineRun(data: seq<byte>, pinned: bool, plan: ChunkPlan, run: seq<Call>): ChunkPlan
    decreases |run|
  {
    if run == [] then plan else EngineRun(data, pinned, EngineStep(data, pinned, plan, run[0]), run[1..])
  }

  /** Main theorem: in every state the Rust type can reach, the plan is empty or tiles the file, and
      a remembered pin error implies an empty plan. */
  lemma {:induction false} RustRunIsGood(data: seq<byte>, pinned: bool, s: RustState, run: seq<Call>)
    requires |data| <= USIZE_MAX && RustInvariant(data, pinned, s)
    requires forall k: nat :: k < |run| ==> !Panics(data, pinned, run[k])
    ensures RustInvariant(data, pinned, RustRun(data, pinned, s, run))
    decreases |run|
  {
    if run != [] {
      if run[0].Request? && Plannable(data, run[0].scan) {
        PlanOfIsGood(data, run[0].scan);
      }
      RustRunIsGood(data, pinned, RustStep(data, pinned, s, run[0]), run[1..]);
    }
  }

  /** Main theorem: in every state the C engine can reach, with any mix of failing calls, the plan
      is empty or tiles the file. */
  lemma {:induction false} EngineRunIsGood(data: seq<byte>, pinned: bool, plan: ChunkPlan, run: seq<Call>)
    requires |data| <= USIZE_MAX && GoodPlan(plan, |data|)
    ensures GoodPlan(EngineRun(data, pinned, plan, run), |data|)
    decreases |run|
  {
    if run != [] {
      if run[0].Request? && Plannable(data, run[0].scan) {
        PlanOfIsGood(data, run[0].scan);
      }
      EngineRunIsGood(data, pinned, EngineStep(data, pinned, plan, run[0]), run[1..]);
    }
  }

  /** A call that leaves the C engine's plan alone. */
  ghost predicate KeepsPlan(data: seq<byte>, pinned: bool, c: Call) {
    c.Request? ==> EngineRejects(data, pinned, c.scan, c.pinHolds)
  }

  lemma {:induction false} RejectedKeepPlan(data: seq<byte>, pinned: bool, plan: ChunkPlan, run: seq<Call>)
    requires forall k: nat :: k < |run| ==> KeepsPlan(data, pinned, run[k])
    ensures EngineRun(data, pinned, plan, run) == plan
    decreases |run|
  {
    if run != [] {
      assert KeepsPlan(data, pinned, run[0]);
      RejectedKeepPlan(data, pinned, plan, run[1..]);
    }
  }

  lemma {:induction false} EngineRunConcat(data: seq<byte>, pinned: bool, plan: ChunkPlan, a: seq<Call>, b: seq<Call>)
    ensures EngineRun(data, pinned, plan, a + b) == EngineRun(data, pinned, EngineRun(data, pinned, plan, a), b)
    decreases |a|
  {
    if a == [] {
      assert a + b == b;
    } else {
      assert (a + b)[1..] == a[1..] + b;
      EngineRunConcat(data, pinned, EngineStep(data, pinned, plan, a[0]), a[1..], b);
    }
  }

  /** Main theorem: after any run the C engine's plan is the one its last accepted request describes. */
  lemma EngineRunIsLastAccepted(data: seq<byte>, pinned: bool, plan: ChunkPlan, before: seq<Call>, c: Call,
                                after: seq<Call>)
    requires |data| <= USIZE_MAX && c.Request? && !EngineRejects(data, pinned, c.scan, c.pinHolds)
    requires forall k: nat :: k < |after| ==> KeepsPlan(data, pinned, after[k])
    ensures Describes(data, c.scan, AllRanges(EngineRun(data, pinned, plan, before + ([c] + after)), |data|))
  {
    var mid := EngineRun(data, pinned, plan, before);
    EngineRunConcat(data, pinned, plan, before, [c] + after);
    assert ([c] + after)[1..] == after;
    RejectedKeepPlan(data, pinned, PlanOf(data, c.scan), after);
    assert EngineRun(data, pinned, mid, [c] + after) == PlanOf(data, c.scan);
    PlanOfDescribes(data, c.scan);
  }

  // ----- the objects

  /** `MmapChunker`. */
  class MmapChunker {
    const data: seq<byte>
    const pinned: bool
    var plan: ChunkPlan
    var pinError: bool

    ghost predicate Valid()
      reads this
    {
      |data| <= USIZE_MAX && RustInvariant(data, pinned, State())
    }

    ghost function State(): RustState
      reads this
    {
      RustState(plan, pinError)
    }

    constructor (data: seq<byte>, pinned: bool)
      requires |data| <= USIZE_MAX
      ensures Valid() && this.data == data && this.pinned == pinned && plan == Empty && !pinError
    {
      this.data, this.pinned, plan, pinError := data, pinned, Empty, false;
    }

    /** `check_pinned`; `holds` is what revalidation finds. */
    method CheckPinned(holds: bool) returns (ok: bool)
      modifies this
      ensures ok == (pinned ==> holds)
      ensures State() == if !ok then RustState(Empty, true)
                         else RustState(old(plan), if pinned then false else old(pinError))
    {
      if !pinned {
        return true;
      }
      if holds {
        pinError := false;
        return true;
      }
      plan := Empty;
      pinError := true;
      return false;
    }

    /** `scan_delimited*`, `scan_fixed` and `partition_records*`. */
    method Rescan(scan: Scan, holds: bool, address: nat) returns (count: nat)
      requires Valid() && !Panics(data, pinned, Request(scan, holds))
      modifies this
      ensures Valid() && State() == RustStep(data, pinned, old(State()), Request(scan, holds))
      ensures count == |AllRanges(plan, |data|)|
      ensures if pinned && !holds then plan == Empty && pinError
              else Describes(data, scan, AllRanges(plan, |data|)) && pinError == (!pinned && old(pinError))
    {
      var ok := CheckPinned(holds);
      if !ok {
        return 0;
      }
      plan := ComputePlan(data, scan, address);
      PlanOfIsGood(data, scan);
      PlanOfDescribes(data, scan);
      GoodPlanReads(plan, |data|, 0);
      return PlanLen(plan);
    }

    method TakePinError() returns (error: bool)
      requires Valid()
      modifies this
      ensures Valid() && error == old(pinError) && !pinError && plan == old(plan)
      ensures State() == RustStep(data, pinned, old(State()), Call.TakePinError)
    {
      error := pinError;
      pinError := false;
    }

    /** `get_chunk`. */
    method GetChunk(index: nat) returns (chunk: Option<seq<byte>>)
      requires Valid()
      ensures chunk.Some? <==> index < PlanLen(plan)
      ensures chunk.Some? ==>
                && index < |AllRanges(plan, |data|)|
                && var r := AllRanges(plan, |data|)[index];
                && r.start < r.end <= |data| && chunk.value == data[r.start..r.end]
    {
      GoodPlanReads(plan, |data|, index);
      var range := RangeAt(plan, index, |data|);
      if range == None {
        return None;
      }
      return Some(data[range.value.start..range.value.end]);
    }
  }

  datatype ReadError = IndexOutOfBounds | BoundsOverflow

  datatype ChunkView = View(start: nat, len: nat) | Failed(error: ReadError)

  /** The engine behind a C handle; a null handle or out-pointer is not modelled. */
  class CEngine {
    const data: seq<byte>
    const pinned: bool
    var plan: ChunkPlan

    ghost predicate Valid()
      reads this
    {
      |data| <= USIZE_MAX && GoodPlan(plan, |data|)
    }

    constructor (data: seq<byte>, pinned: bool)
      requires |data| <= USIZE_MAX
      ensures Valid() && this.data == data && this.pinned == pinned && plan == Empty
    {
      this.data, this.pinned, plan := data, pinned, Empty;
    }

    /** `mmap_engine_scan_*` and `mmap_engine_partition_records*`. */
    method Rescan(scan: Scan, holds: bool, address: nat) returns (count: nat, failed: bool)
      requires Valid()
      modifies this
      ensures Valid() && plan == EngineStep(data, pinned, old(plan), Request(scan, holds))
      ensures failed <==>
                || (!scan.FixedSize? && (scan.d == [] || |scan.d| > ISIZE_MAX))
                || (pinned && !holds)
                || (scan.Partitioned? && data != [] && scan.parts == 0)
      ensures failed ==> plan == old(plan) && count == 0
      ensures !failed ==>
                count == |AllRanges(plan, |data|)| && Describes(data, scan, AllRanges(plan, |data|))
    {
      if !scan.FixedSize? && (scan.d == [] || |scan.d| > ISIZE_MAX) {
        return 0, true;
      }
      if pinned && !holds {
        return 0, true;
      }
      if scan.Partitioned? && data != [] && scan.parts == 0 {
        return 0, true;
      }
      plan := ComputePlan(data, scan, address);
      PlanOfIsGood(data, scan);
      PlanOfDescribes(data, scan);
      GoodPlanReads(plan, |data|, 0);
      return PlanLen(plan), false;
    }

    /** `mmap_engine_get_chunk`: of its two errors only the index error can occur. */
    method GetChunk(index: nat) returns (view: ChunkView)
      requires Valid()
      ensures view.Failed? ==> view.error == IndexOutOfBounds && index >= PlanLen(plan)
      ensures view.View? ==>
                && index < |AllRanges(plan, |data|)|
                && view.start == AllRanges(plan, |data|)[index].start
                && view.start + view.len == AllRanges(plan, |data|)[index].end <= |data|
    {
      GoodPlanReads(plan, |data|, index);
      if index >= PlanLen(plan) {
        return Failed(IndexOutOfBounds);
      }
      var bounds := RangeAt(plan, index, |data|);
      if bounds == None {
        return Failed(BoundsOverflow);
      }
      return View(bounds.value.start, bounds.value.end - bounds.value.start);
    }
  }
}
