/** Specification of the multi-file planner of src/bin/mmap-chunker.rs: one logical byte range
    over all sources, cut at record ends of single sources. */
module Logical {
  import opened Search
  import opened Partition
  import opened Reads

  const U128_MAX: nat := 0xFFFF_FFFF_FFFF_FFFF_FFFF_FFFF_FFFF_FFFF

  datatype SourceRange = SourceRange(sourceIndex: nat, start: nat, end: nat, length: nat)

  datatype WorkerAssignment = WorkerAssignment(workerIndex: nat, ranges: seq<SourceRange>)

  /** Logical offset at which source k starts. */
  ghost function Prefix(lens: seq<nat>, k: nat): nat
    requires k <= |lens|
  {
    if k == 0 then 0 else Prefix(lens, k - 1) + lens[k - 1]
  }

  ghost function Total(lens: seq<nat>): nat {
    Prefix(lens, |lens|)
  }

  ghost predicate SameLens(files: seq<seq<byte>>, lens: seq<nat>) {
    |lens| == |files| && forall k: nat :: k < |files| ==> lens[k] == |files[k]|
  }

  ghost function Lens(files: seq<seq<byte>>): (lens: seq<nat>)
    ensures SameLens(files, lens)
  {
    seq(|files|, k requires 0 <= k < |files| => |files[k]|)
  }

  lemma {:induction false} PrefixMono(lens: seq<nat>, i: nat, j: nat)
    requires i <= j <= |lens|
    ensures Prefix(lens, i) <= Prefix(lens, j)
    decreases j - i
  {
    if i < j {
      PrefixMono(lens, i, j - 1);
    }
  }

  /** `t` is the start or end of some source. */
  ghost predicate IsEdge(lens: seq<nat>, t: nat) {
    exists k: nat :: k <= |lens| && Prefix(lens, k) == t
  }

  /** Source k holds logical offset `t`. */
  ghost predicate Holds(lens: seq<nat>, k: nat, t: nat) {
    k < |lens| && Prefix(lens, k) <= t < Prefix(lens, k + 1)
  }

  lemma {:induction false} HolderExists(lens: seq<nat>, t: nat, k: nat)
    requires k <= |lens| && t < Prefix(lens, k)
    ensures exists j: nat :: Holds(lens, j, t)
    decreases k
  {
    if Prefix(lens, k - 1) <= t {
      assert Holds(lens, k - 1, t);
    } else {
      HolderExists(lens, t, k - 1);
    }
  }

  lemma HolderUnique(lens: seq<nat>, i: nat, j: nat, t: nat)
    requires Holds(lens, i, t) && Holds(lens, j, t)
    ensures i == j
  {
    if i < j {
      PrefixMono(lens, i + 1, j);
    } else if j < i {
      PrefixMono(lens, j + 1, i);
    }
  }

  ghost function Locate(lens: seq<nat>, t: nat): (k: nat)
    requires t < Total(lens)
    ensures Holds(lens, k, t)
  {
    HolderExists(lens, t, |lens|);
    var k: nat :| Holds(lens, k, t);
    k
  }

  /** Where a logical target is moved to: a source edge stays, any other target moves to the
      record boundary of its own source. */
  ghost function Project(files: seq<seq<byte>>, lens: seq<nat>, d: seq<byte>, t: nat): (p: nat)
    requires |d| > 0 && SameLens(files, lens) && t < Total(lens)
    ensures t <= p <= Total(lens)
  {
    if IsEdge(lens, t) then t
    else
      var k := Locate(lens, t);
      PrefixMono(lens, k + 1, |lens|);
      Prefix(lens, k) + NextBoundary(files[k], d, t - Prefix(lens, k))
  }

  /** Ideal cuts 1 .. parts-1; a product that leaves 128 bits has no value. */
  ghost function CheckedTargets(total: nat, parts: nat): seq<Option<nat>>
    requires 0 < parts
  {
    seq(parts - 1, k requires 0 <= k < parts - 1 => CheckedTarget(total, k + 1, parts))
  }

  function CheckedTarget(total: nat, i: nat, parts: nat): Option<nat>
    requires 0 < parts
  {
    if total * i > U128_MAX then None else Some(Target(total, i, parts))
  }

  ghost predicate BelowTotal(ts: seq<Option<nat>>, total: nat) {
    forall k: nat :: k < |ts| ==> ts[k].Some? ==> ts[k].value < total
  }

  lemma CheckedTargetsBelow(total: nat, parts: nat)
    requires 0 < parts && 0 < total
    ensures BelowTotal(CheckedTargets(total, parts), total)
  {
    forall k: nat | k < parts - 1
      ensures CheckedTargets(total, parts)[k].Some? ==> CheckedTargets(total, parts)[k].value < total
    {
      TargetBounds(total, k + 1, parts);
    }
  }

  /** Target i has no value exactly when its product leaves 128 bits, and else is the whole part of
      `total * i / parts`. */
  lemma CheckedTargetIs(total: nat, i: nat, parts: nat)
    requires 0 < i < parts
    ensures match CheckedTargets(total, parts)[i - 1]
            case None => total * i > U128_MAX
            case Some(t) => total * i <= U128_MAX && t * parts <= total * i < (t + 1) * parts
  {
    DivBracket(total * i, parts);
  }

  /** `checked_mul` and the division of the target loop. */
  method ComputeCheckedTarget(total: nat, i: nat, parts: nat) returns (t: Option<nat>)
    requires 0 < total && 0 < i < parts
    ensures t == CheckedTargets(total, parts)[i - 1] && (t.Some? ==> t.value < total)
  {
    TargetBounds(total, i, parts);
    t := CheckedTarget(total, i, parts);
  }

  /** The cuts chosen for the targets `ts` after a cut at `last`: a missing target is an error,
      a projection to the very end stops the loop without a cut. */
  ghost function LogicalCuts(files: seq<seq<byte>>, lens: seq<nat>, d: seq<byte>, ts: seq<Option<nat>>, last: nat)
    : Result<seq<nat>>
    requires |d| > 0 && SameLens(files, lens) && BelowTotal(ts, Total(lens))
    decreases |ts|
  {
    if ts == [] then Ok([])
    else if ts[0] == None then Err(TargetOverflow)
    else if ts[0].value <= last then LogicalCuts(files, lens, d, ts[1..], last)
    else
      var p := Project(files, lens, d, ts[0].value);
      if p == Total(lens) then Ok([])
      else Prepend([p], LogicalCuts(files, lens, d, ts[1..], p))
  }

  ghost function Prepend(done: seq<nat>, rest: Result<seq<nat>>): Result<seq<nat>> {
    match rest
    case Ok(cuts) => Ok(done + cuts)
    case Err(e) => Err(e)
  }

  /** The row of the logical interval `[start, end)` in source k, if it has one. */
  ghost function RowIn(lens: seq<nat>, start: nat, end: nat, k: nat): seq<SourceRange>
    requires k < |lens|
  {
    var base := Prefix(lens, k);
    var lo, hi := Max(start, base), Min(end, base + lens[k]);
    if lo < hi then [SourceRange(k, lo - base, hi - base, hi - lo)] else []
  }

  /** The rows of `[start, end)` in the first k sources. */
  ghost function RowsUpTo(lens: seq<nat>, start: nat, end: nat, k: nat): seq<SourceRange>
    requires k <= |lens|
  {
    if k == 0 then [] else RowsUpTo(lens, start, end, k - 1) + RowIn(lens, start, end, k - 1)
  }

  /** One worker per non-empty interval between consecutive ends. */
  ghost function Assign(lens: seq<nat>, start: nat, ends: seq<nat>, index: nat): seq<WorkerAssignment>
    decreases |ends|
  {
    if ends == [] then []
    else
      var rows := RowsUpTo(lens, start, ends[0], |lens|);
      if rows == [] then Assign(lens, ends[0], ends[1..], index)
      else [WorkerAssignment(index, rows)] + Assign(lens, ends[0], ends[1..], index + 1)
  }

  ghost function LogicalPlan(files: seq<seq<byte>>, d: seq<byte>, parts: nat): Result<seq<WorkerAssignment>>
    requires |d| > 0
  {
    var lens := Lens(files);
    var total := Total(lens);
    if parts == 0 then Ok([])
    else if total > U128_MAX then Err(DatasetTooLarge)
    else if total == 0 then Ok([])
    else
      CheckedTargetsBelow(total, Min(parts, total));
      match LogicalCuts(files, lens, d, CheckedTargets(total, Min(parts, total)), 0)
      case Ok(cuts) => Ok(Assign(lens, 0, cuts + [total], 0))
      case Err(e) => Err(e)
  }
}
