/** Steps shared by the mapped and the on-demand multi-file planner: prefix sums, the cut loop's
    bookkeeping, the remembered boundary of a source, and the assembly of rows. */
module LogicalSteps {
  import opened Search
  import opened Partition
  import opened Reads
  import opened Logical

  /** `BoundarySearchState`. */
  class BoundarySearchState {
    var scanFrom: nat
    var cachedBoundary: Option<nat>

    constructor ()
      ensures scanFrom == 0 && cachedBoundary == None
    {
      scanFrom, cachedBoundary := 0, None;
    }

    /** The scan position is the remembered boundary, or 0 before the first search. */
    ghost predicate Valid(len: nat)
      reads this
    {
      scanFrom <= len && match cachedBoundary case None => scanFrom == 0 case Some(c) => scanFrom == c
    }
  }

  /** End of the first delimiter found from `from` on, else the end of the data. */
  ghost function ScanEnd(data: seq<byte>, d: seq<byte>, from: nat): nat
    requires |d| > 0
  {
    match FirstFrom(data, d, from)
    case Some(p) => p + |d|
    case None => |data|
  }

  /** `find_first_pattern_from`: one-byte steps. */
  function FindFirstPatternFrom(haystack: seq<byte>, pattern: seq<byte>): (r: Option<nat>)
    ensures r == if pattern == [] then None else FirstFrom(haystack, pattern, 0)
  {
    if pattern == [] || |haystack| < |pattern| then None else FindStep(haystack, pattern, 0)
  }

  function FindStep(haystack: seq<byte>, pattern: seq<byte>, offset: nat): (r: Option<nat>)
    requires pattern != []
    ensures r == FirstFrom(haystack, pattern, offset)
    decreases |haystack| - offset
  {
    if offset + |pattern| > |haystack| then None
    else if haystack[offset..offset + |pattern|] == pattern then
      assert OccursAt(haystack, pattern, offset);
      Some(offset)
    else
      assert !OccursAt(haystack, pattern, offset);
      FindStep(haystack, pattern, offset + 1)
  }

  /** `iter().position(|b| *b == byte)`. */
  function Position(haystack: seq<byte>, b: byte): (r: Option<nat>)
    ensures r == FirstFrom(haystack, [b], 0)
  {
    FindStep(haystack, [b], 0)
  }

  // ----- the cut loop

  /** With the targets from k on still to come, the planner holds the cuts `done`. */
  ghost predicate Cutting(files: seq<seq<byte>>, lens: seq<nat>, d: seq<byte>, ts: seq<Option<nat>>, k: nat,
                          last: nat, done: seq<nat>)
    requires |d| > 0 && k <= |ts| && SameLens(files, lens) && BelowTotal(ts, Total(lens))
  {
    Prepend(done, LogicalCuts(files, lens, d, ts[k..], last)) == LogicalCuts(files, lens, d, ts, 0)
  }

  lemma CuttingStart(files: seq<seq<byte>>, lens: seq<nat>, d: seq<byte>, ts: seq<Option<nat>>)
    requires |d| > 0 && SameLens(files, lens) && BelowTotal(ts, Total(lens))
    ensures Cutting(files, lens, d, ts, 0, 0, [])
  {
    assert ts[0..] == ts;
    var r := LogicalCuts(files, lens, d, ts, 0);
    if r.Ok? {
      assert [] + r.value == r.value;
    }
  }

  lemma CuttingOverflow(files: seq<seq<byte>>, lens: seq<nat>, d: seq<byte>, ts: seq<Option<nat>>, k: nat,
                        last: nat, done: seq<nat>)
    requires |d| > 0 && k < |ts| && SameLens(files, lens) && BelowTotal(ts, Total(lens))
    requires Cutting(files, lens, d, ts, k, last, done) && ts[k] == None
    ensures LogicalCuts(files, lens, d, ts, 0) == Err(TargetOverflow)
  {
  }

  lemma CuttingSkip(files: seq<seq<byte>>, lens: seq<nat>, d: seq<byte>, ts: seq<Option<nat>>, k: nat, last: nat,
                    done: seq<nat>)
    requires |d| > 0 && k < |ts| && SameLens(files, lens) && BelowTotal(ts, Total(lens))
    requires Cutting(files, lens, d, ts, k, last, done) && ts[k].Some? && ts[k].value <= last
    ensures Cutting(files, lens, d, ts, k + 1, last, done)
  {
    assert ts[k..][1..] == ts[k + 1..];
  }

  lemma CuttingPush(files: seq<seq<byte>>, lens: seq<nat>, d: seq<byte>, ts: seq<Option<nat>>, k: nat, last: nat,
                    done: seq<nat>, p: nat)
    requires |d| > 0 && k < |ts| && SameLens(files, lens) && BelowTotal(ts, Total(lens))
    requires Cutting(files, lens, d, ts, k, last, done) && ts[k].Some? && last < ts[k].value
    requires p == Project(files, lens, d, ts[k].value)
    ensures p == Total(lens) ==> LogicalCuts(files, lens, d, ts, 0) == Ok(done)
    ensures p < Total(lens) ==> Cutting(files, lens, d, ts, k + 1, p, done + [p])
  {
    assert ts[k..][1..] == ts[k + 1..];
    if p == Total(lens) {
      assert done + [] == done;
    } else {
      var r := LogicalCuts(files, lens, d, ts[k + 1..], p);
      if r.Ok? {
        assert (done + [p]) + r.value == done + ([p] + r.value);
      }
    }
  }

  lemma CuttingDone(files: seq<seq<byte>>, lens: seq<nat>, d: seq<byte>, ts: seq<Option<nat>>, last: nat,
                    done: seq<nat>)
    requires |d| > 0 && SameLens(files, lens) && BelowTotal(ts, Total(lens))
    requires Cutting(files, lens, d, ts, |ts|, last, done)
    ensures LogicalCuts(files, lens, d, ts, 0) == Ok(done)
  {
    assert done + [] == done;
  }

  // ----- prefix sums

  ghost predicate ArePrefixes(prefixes: seq<nat>, lens: seq<nat>) {
    |prefixes| == |lens| + 1 && forall k: nat :: k <= |lens| ==> prefixes[k] == Prefix(lens, k)
  }

  /** The prefix-sum loop, with its checked addition. */
  method PrefixSums(lens: seq<nat>) returns (r: Result<seq<nat>>)
    ensures Total(lens) <= U128_MAX <==> r.Ok?
    ensures r.Ok? ==> ArePrefixes(r.value, lens)
    ensures r.Err? ==> r.error == DatasetTooLarge
  {
    var prefixes: seq<nat> := [0];
    for i := 0 to |lens|
      invariant |prefixes| == i + 1
      invariant forall k: nat :: k <= i ==> prefixes[k] == Prefix(lens, k)
      invariant prefixes[i] <= U128_MAX
    {
      var next := prefixes[i] + lens[i];
      if next > U128_MAX {
        PrefixMono(lens, i + 1, |lens|);
        return Err(DatasetTooLarge);
      }
      prefixes := prefixes + [next];
    }
    return Ok(prefixes);
  }

  /** `partition_point(|prefix| *prefix <= target)`. */
  function PartitionPoint(prefixes: seq<nat>, target: nat): (n: nat)
    ensures n <= |prefixes|
    ensures forall k: nat :: k < n ==> prefixes[k] <= target
    ensures n < |prefixes| ==> target < prefixes[n]
  {
    if prefixes == [] || prefixes[0] > target then 0 else 1 + PartitionPoint(prefixes[1..], target)
  }

  /** The source that holds a target which is not an edge. */
  method FindSource(prefixes: seq<nat>, target: nat, ghost lens: seq<nat>) returns (k: nat)
    requires ArePrefixes(prefixes, lens) && target < Total(lens)
    ensures k == Locate(lens, target) && Holds(lens, k, target)
  {
    var upper := PartitionPoint(prefixes, target);
    assert prefixes[0] == 0 && prefixes[|lens|] == Total(lens);
    k := upper - 1;
    assert prefixes[k] == Prefix(lens, k) && prefixes[k + 1] == Prefix(lens, k + 1);
    HolderUnique(lens, k, Locate(lens, target), target);
  }

  lemma EdgeIffPrefix(prefixes: seq<nat>, lens: seq<nat>, target: nat)
    requires ArePrefixes(prefixes, lens)
    ensures target in prefixes <==> IsEdge(lens, target)
  {
    if IsEdge(lens, target) {
      var k: nat :| k <= |lens| && Prefix(lens, k) == target;
      assert prefixes[k] == target;
    }
    if target in prefixes {
      var k: nat :| k < |prefixes| && prefixes[k] == target;
      assert Prefix(lens, k) == target;
    }
  }

  // ----- assembly

  /** `ranges_for_interval`. */
  method RangesForInterval(start: nat, end: nat, prefixes: seq<nat>,
                           ghost lens: seq<nat>) returns (rows: seq<SourceRange>)
    requires ArePrefixes(prefixes, lens)
    ensures rows == RowsUpTo(lens, start, end, |lens|)
  {
    rows := [];
    if start >= end {
      NoRows(lens, start, end, |lens|);
      return;
    }
    for k := 0 to |prefixes| - 1
      invariant rows == RowsUpTo(lens, start, end, k)
    {
      var sourceStart, sourceEnd := prefixes[k], prefixes[k + 1];
      assert Prefix(lens, k + 1) == Prefix(lens, k) + lens[k];
      var rangeStart, rangeEnd := Max(start, sourceStart), Min(end, sourceEnd);
      if rangeStart >= rangeEnd {
        assert RowIn(lens, start, end, k) == [];
        continue;
      }
      var localStart, localEnd := rangeStart - sourceStart, rangeEnd - sourceStart;
      rows := rows + [SourceRange(k, localStart, localEnd, localEnd - localStart)];
    }
  }

  lemma {:induction false} NoRows(lens: seq<nat>, start: nat, end: nat, k: nat)
    requires k <= |lens| && end <= start
    ensures RowsUpTo(lens, start, end, k) == []
  {
    if k > 0 {
      NoRows(lens, start, end, k - 1);
    }
  }

  ghost predicate Assigning(lens: seq<nat>, ends: seq<nat>, k: nat, start: nat, workers: seq<WorkerAssignment>)
    requires k <= |ends|
  {
    workers + Assign(lens, start, ends[k..], |workers|) == Assign(lens, 0, ends, 0)
  }

  lemma AssigningStep(lens: seq<nat>, ends: seq<nat>, k: nat, start: nat, workers: seq<WorkerAssignment>)
    requires k < |ends| && Assigning(lens, ends, k, start, workers)
    ensures var rows := RowsUpTo(lens, start, ends[k], |lens|);
            Assigning(lens, ends, k + 1, ends[k],
                      if rows == [] then workers else workers + [WorkerAssignment(|workers|, rows)])
  {
    var rows := RowsUpTo(lens, start, ends[k], |lens|);
    assert ends[k..][1..] == ends[k + 1..];
    if rows != [] {
      var w, rest := WorkerAssignment(|workers|, rows), Assign(lens, ends[k], ends[k + 1..], |workers| + 1);
      assert workers + ([w] + rest) == (workers + [w]) + rest;
    }
  }

  /** The assignment loop over the cuts and the total. */
  method BuildAssignments(ends: seq<nat>, prefixes: seq<nat>,
                          ghost lens: seq<nat>) returns (workers: seq<WorkerAssignment>)
    requires ArePrefixes(prefixes, lens)
    ensures workers == Assign(lens, 0, ends, 0)
  {
    workers := [];
    var start: nat := 0;
    for k := 0 to |ends|
      invariant Assigning(lens, ends, k, start, workers)
    {
      var rows := RangesForInterval(start, ends[k], prefixes, lens);
      AssigningStep(lens, ends, k, start, workers);
      if rows != [] {
        workers := workers + [WorkerAssignment(|workers|, rows)];
      }
      start := ends[k];
    }
  }
}
