/** The record-aligned partition planner of src/scanner.rs: its specification, and the
    one-byte and multi-byte planners proved to compute it. */
module Partition {
  import opened Search
  import opened Swar

  /** Half-open byte range `[start, end)`. */
  datatype Range = Range(start: nat, end: nat)

  lemma MulMono(a: nat, b: nat, n: nat)
    requires a <= b
    ensures a * n <= b * n
  {
    assert b * n - a * n == (b - a) * n;
  }

  /** Division by a positive n, as a bracket around the dividend. */
  lemma DivBracket(x: nat, n: nat)
    requires 0 < n
    ensures (x / n) * n <= x < (x / n + 1) * n
  {
    assert x == (x / n) * n + x % n;
  }

  lemma DivAtMost(x: nat, n: nat, c: nat)
    requires 0 < n && x < (c + 1) * n
    ensures x / n <= c
  {
    DivBracket(x, n);
    if x / n > c {
      MulMono(c + 1, x / n, n);
    }
  }

  lemma DivAtLeast(x: nat, n: nat, c: nat)
    requires 0 < n && c * n <= x
    ensures c <= x / n
  {
    DivBracket(x, n);
    if x / n < c {
      MulMono(x / n + 1, c, n);
    }
  }

  lemma DivMono(x: nat, y: nat, n: nat)
    requires 0 < n && x <= y
    ensures x / n <= y / n
  {
    var q := x / n;
    assert q * n <= y by {
      DivBracket(x, n);
    }
    DivAtLeast(y, n, q);
  }

  /** `usize::div_ceil`. */
  function DivCeil(x: nat, n: nat): nat
    requires 0 < n
  {
    x / n + if x % n > 0 then 1 else 0
  }

  lemma DivCeilBracket(x: nat, n: nat, i: nat)
    requires 0 < n
    ensures i < DivCeil(x, n) <==> i * n < x
  {
    DivBracket(x, n);
    var q := x / n;
    assert x == q * n + x % n;
    if i < q {
      MulMono(i + 1, q, n);
      assert (i + 1) * n == i * n + n;
    } else if i > q {
      MulMono(q + 1, i, n);
    }
  }

  /** Ideal cut i of n: `floor(len * i / n)`. */
  function Target(len: nat, i: nat, n: nat): nat
    requires 0 < n
  {
    len * i / n
  }

  /** The i-th of n ideal cuts: `t` is the whole part of `len * i / n`. */
  ghost predicate IdealCut(len: nat, i: nat, n: nat, t: nat) {
    t * n <= len * i < (t + 1) * n
  }

  lemma TargetIsFloor(len: nat, i: nat, n: nat, t: nat)
    requires 0 < n
    ensures t == Target(len, i, n) <==> IdealCut(len, i, n, t)
  {
    DivBracket(len * i, n);
    if IdealCut(len, i, n, t) {
      DivAtMost(len * i, n, t);
      DivAtLeast(len * i, n, t);
    }
  }

  lemma TargetBounds(len: nat, i: nat, n: nat)
    requires 0 < n && i < n && 0 < len
    ensures Target(len, i, n) < len
  {
    MulMono(i + 1, n, len);
    DivAtMost(len * i, n, len - 1);
  }

  /** The ideal cuts 1 .. n-1, in order. */
  ghost function Targets(len: nat, n: nat): seq<nat>
    requires 0 < n
  {
    seq(n - 1, k requires 0 <= k < n - 1 => Target(len, k + 1, n))
  }

  ghost predicate Below(ts: seq<nat>, len: nat) {
    forall k: nat :: k < |ts| ==> ts[k] < len
  }

  lemma TargetsBelow(len: nat, n: nat)
    requires 0 < n && 0 < len
    ensures Below(Targets(len, n), len)
  {
    forall k | 0 <= k < n - 1 ensures Targets(len, n)[k] < len {
      TargetBounds(len, k + 1, n);
    }
  }

  method ComputeTarget(len: nat, i: nat, n: nat) returns (t: nat)
    requires 0 < len && 0 < i < n
    ensures t == Targets(len, n)[i - 1] && t < len
    ensures t * n <= len * i < (t + 1) * n
  {
    TargetBounds(len, i, n);
    DivBracket(len * i, n);
    t := Target(len, i, n);
  }

  /** Where a target is moved to: itself if a delimiter ends there, else the end of the first
      delimiter that starts at or after it, else the end of the data. */
  ghost function NextBoundary(data: seq<byte>, d: seq<byte>, t: nat): (b: nat)
    requires |d| > 0
    ensures b <= |data| && (t <= |data| ==> t <= b)
    ensures b == |data| || EndsAt(data, d, b)
  {
    if EndsAt(data, d, t) then t
    else match FirstFrom(data, d, t)
      case Some(p) => p + |d|
      case None => |data|
  }

  /** The cuts chosen for the targets `ts` after a previous cut at `last`. */
  ghost function Cuts(data: seq<byte>, d: seq<byte>, ts: seq<nat>, last: nat): seq<nat>
    requires |d| > 0
    decreases |ts|
  {
    if ts == [] then []
    else if ts[0] <= last then Cuts(data, d, ts[1..], last)
    else
      var b := NextBoundary(data, d, ts[0]);
      [b] + Cuts(data, d, ts[1..], b)
  }

  /** Cut points to ranges; empty and repeated cuts give no range. */
  ghost function RangesOf(len: nat, prev: nat, cuts: seq<nat>): seq<Range>
    decreases |cuts|
  {
    if cuts == [] then
      if prev < len then [Range(prev, len)] else []
    else
      (if prev < cuts[0] then [Range(prev, cuts[0])] else []) + RangesOf(len, cuts[0], cuts[1..])
  }

  /** The ranges planned for `parts` partitions of `data`. */
  ghost function PlanRanges(data: seq<byte>, d: seq<byte>, parts: nat): seq<Range>
    requires |d| > 0
  {
    if data == [] || parts == 0 then []
    else RangesOf(|data|, 0, Cuts(data, d, Targets(|data|, Min(parts, |data|)), 0))
  }

  /** The stretches `[target, boundary)` that the planner searches forward. */
  ghost function SearchSpans(data: seq<byte>, d: seq<byte>, ts: seq<nat>, last: nat): seq<Range>
    requires |d| > 0
    decreases |ts|
  {
    if ts == [] then []
    else if ts[0] <= last then SearchSpans(data, d, ts[1..], last)
    else
      var b := NextBoundary(data, d, ts[0]);
      (if EndsAt(data, d, ts[0]) then [] else [Range(ts[0], b)]) + SearchSpans(data, d, ts[1..], b)
  }

  ghost function PlanSpans(data: seq<byte>, d: seq<byte>, parts: nat): seq<Range>
    requires |d| > 0
  {
    if data == [] || parts == 0 then [] else SearchSpans(data, d, Targets(|data|, Min(parts, |data|)), 0)
  }

  // ----- what the forward searches look at

  /** Bytes that the one-byte search for the boundary `span.end` looks at from `span.start` on. */
  ghost function SpanCost(len: nat, address: nat, span: Range): nat {
    if span.start < span.end <= len
    then InspectedEnd(len - span.start, address + span.start, Some(span.end - 1 - span.start))
    else 0
  }

  ghost function SearchCost(spans: seq<Range>, len: nat, address: nat): nat {
    if spans == [] then 0 else SpanCost(len, address, spans[0]) + SearchCost(spans[1..], len, address)
  }

  lemma {:induction false} SearchCostSnoc(spans: seq<Range>, s: Range, len: nat, address: nat)
    ensures SearchCost(spans + [s], len, address) == SearchCost(spans, len, address) + SpanCost(len, address, s)
  {
    if spans == [] {
      assert [s][1..] == [];
    } else {
      SearchCostSnoc(spans[1..], s, len, address);
      assert (spans + [s])[1..] == spans[1..] + [s];
    }
  }

  function Length(r: Range): nat {
    if r.start <= r.end then r.end - r.start else 0
  }

  ghost function TotalLength(rs: seq<Range>): nat {
    if rs == [] then 0 else Length(rs[0]) + TotalLength(rs[1..])
  }

  lemma {:induction false} TotalLengthSnoc(rs: seq<Range>, s: Range)
    ensures TotalLength(rs + [s]) == TotalLength(rs) + Length(s)
  {
    if rs == [] {
      assert [s][1..] == [];
    } else {
      TotalLengthSnoc(rs[1..], s);
      assert (rs + [s])[1..] == rs[1..] + [s];
    }
  }

  /** A search without an answer looks at as much as one whose answer is the last byte. */
  lemma LastInspected(len: nat, address: nat)
    requires 0 < len
    ensures InspectedEnd(len, address, Some(len - 1)) == len
  {
  }

  /** The bytes looked at for one target: none if it is accepted exactly. */
  ghost function TargetCost(data: seq<byte>, d: seq<byte>, t: nat, b: nat, address: nat): nat {
    if EndsAt(data, d, t) then 0 else SpanCost(|data|, address, Range(t, b))
  }

  lemma WithSpanCost(data: seq<byte>, d: seq<byte>, t: nat, b: nat, spans: seq<Range>, address: nat)
    ensures SearchCost(WithSpan(data, d, t, b, spans), |data|, address) ==
            SearchCost(spans, |data|, address) + TargetCost(data, d, t, b, address)
  {
    SearchCostSnoc(spans, Range(t, b), |data|, address);
  }

  /** The searches of `spans` account for all bytes since `start`. */
  ghost predicate Spent(data: seq<byte>, address: nat, spans: seq<Range>, start: nat, bytes: nat) {
    bytes == start + SearchCost(spans, |data|, address)
  }

  lemma SpentPush(data: seq<byte>, d: seq<byte>, t: nat, b: nat, spans: seq<Range>, address: nat, start: nat,
                  before: nat, bytes: nat)
    requires Spent(data, address, spans, start, before) && bytes == before + TargetCost(data, d, t, b, address)
    ensures Spent(data, address, WithSpan(data, d, t, b, spans), start, bytes)
  {
    WithSpanCost(data, d, t, b, spans, address);
  }

  /** Positions a pattern search considers for one target. */
  ghost function TargetLength(data: seq<byte>, d: seq<byte>, t: nat, b: nat): nat {
    if EndsAt(data, d, t) then 0 else Length(Range(t, b))
  }

  lemma WithSpanLength(data: seq<byte>, d: seq<byte>, t: nat, b: nat, spans: seq<Range>)
    ensures TotalLength(WithSpan(data, d, t, b, spans)) == TotalLength(spans) + TargetLength(data, d, t, b)
  {
    TotalLengthSnoc(spans, Range(t, b));
  }

  lemma BudgetPush(data: seq<byte>, d: seq<byte>, t: nat, b: nat, spans: seq<Range>, start: nat, before: nat,
                   bytes: nat)
    requires Budget(|d| + 8, start, TotalLength(spans), before)
    requires Budget(|d| + 8, before, TargetLength(data, d, t, b), bytes)
    ensures Budget(|d| + 8, start, TotalLength(WithSpan(data, d, t, b, spans)), bytes)
  {
    WithSpanLength(data, d, t, b, spans);
    BudgetAdd(|d| + 8, start, TotalLength(spans), before, TargetLength(data, d, t, b), bytes);
  }

  /** Once a cut stands at the end of the data nothing is added. */
  lemma {:induction false} CutsAfterEnd(data: seq<byte>, d: seq<byte>, ts: seq<nat>, last: nat)
    requires |d| > 0 && Below(ts, |data|) && |data| <= last
    ensures Cuts(data, d, ts, last) == [] && SearchSpans(data, d, ts, last) == []
    decreases |ts|
  {
    if ts != [] {
      CutsAfterEnd(data, d, ts[1..], last);
    }
  }

  /** With the targets from k on still to come, the planner holds `done` and has searched
      `spans`; its last cut is `last`. */
  ghost predicate Planning(data: seq<byte>, d: seq<byte>, ts: seq<nat>, k: nat, last: nat, done: seq<nat>,
                           spans: seq<Range>)
    requires |d| > 0 && k <= |ts|
  {
    && done + Cuts(data, d, ts[k..], last) == Cuts(data, d, ts, 0)
    && spans + SearchSpans(data, d, ts[k..], last) == SearchSpans(data, d, ts, 0)
  }

  lemma PlanningStart(data: seq<byte>, d: seq<byte>, ts: seq<nat>)
    requires |d| > 0
    ensures Planning(data, d, ts, 0, 0, [], [])
  {
    assert ts[0..] == ts;
  }

  lemma PlanningSkip(data: seq<byte>, d: seq<byte>, ts: seq<nat>, k: nat, last: nat, done: seq<nat>, spans: seq<Range>)
    requires |d| > 0 && k < |ts| && Planning(data, d, ts, k, last, done, spans) && ts[k] <= last
    ensures Planning(data, d, ts, k + 1, last, done, spans)
  {
    assert ts[k..][1..] == ts[k + 1..];
  }

  ghost function WithSpan(data: seq<byte>, d: seq<byte>, t: nat, b: nat, spans: seq<Range>): seq<Range> {
    if EndsAt(data, d, t) then spans else spans + [Range(t, b)]
  }

  lemma PlanningPush(data: seq<byte>, d: seq<byte>, ts: seq<nat>, k: nat, last: nat, done: seq<nat>,
                     spans: seq<Range>, b: nat)
    requires |d| > 0 && k < |ts| && Planning(data, d, ts, k, last, done, spans)
    requires last < ts[k] && b == NextBoundary(data, d, ts[k])
    ensures Planning(data, d, ts, k + 1, b, done + [b], WithSpan(data, d, ts[k], b, spans))
  {
    assert ts[k..][1..] == ts[k + 1..];
    var cuts, more := Cuts(data, d, ts[k + 1..], b), SearchSpans(data, d, ts[k + 1..], b);
    assert (done + [b]) + cuts == done + ([b] + cuts);
    assert (spans + [Range(ts[k], b)]) + more == spans + ([Range(ts[k], b)] + more);
    assert [] + more == more;
  }

  lemma PlanningStop(data: seq<byte>, d: seq<byte>, ts: seq<nat>, k: nat, last: nat, done: seq<nat>, spans: seq<Range>)
    requires |d| > 0 && k <= |ts| && Planning(data, d, ts, k, last, done, spans)
    requires k == |ts| || (Below(ts, |data|) && |data| <= last)
    ensures done == Cuts(data, d, ts, 0) && spans == SearchSpans(data, d, ts, 0)
  {
    if k < |ts| {
      CutsAfterEnd(data, d, ts[k..], last);
    }
  }

  /** A search of the suffix at `t` computes `NextBoundary`, unless `t` is accepted exactly. */
  lemma BoundaryBySuffix(data: seq<byte>, d: seq<byte>, t: nat, rel: Option<nat>)
    requires |d| > 0 && t <= |data| && !EndsAt(data, d, t)
    requires rel == FirstFrom(data[t..], d, 0)
    ensures rel.Some? ==> t + rel.value + |d| <= |data|
    ensures NextBoundary(data, d, t) == match rel case Some(p) => t + p + |d| case None => |data|
  {
    FirstInSuffix(data, d, t);
  }

  lemma PlanOfOne(data: seq<byte>, d: seq<byte>)
    requires |d| > 0 && data != []
    ensures PlanRanges(data, d, 1) == [Range(0, |data|)] && PlanSpans(data, d, 1) == []
  {
    assert Targets(|data|, 1) == [];
  }

  /** `ranges_from_boundaries`. */
  method RangesFromBoundaries(len: nat, boundaries: seq<nat>) returns (partitions: seq<Range>)
    ensures partitions == RangesOf(len, 0, boundaries)
  {
    partitions := [];
    var prev: nat := 0;
    for k := 0 to |boundaries|
      invariant partitions + RangesOf(len, prev, boundaries[k..]) == RangesOf(len, 0, boundaries)
    {
      var boundary := boundaries[k];
      assert boundaries[k..][1..] == boundaries[k + 1..];
      if boundary > prev {
        partitions := partitions + [Range(prev, boundary)];
      }
      prev := boundary;
    }
    if prev < len {
      partitions := partitions + [Range(prev, len)];
    }
  }

  /** One target of the one-byte planner: accept it exactly, or search forward from it. */
  method ByteBoundary(data: seq<byte>, target: nat, delimiter: byte, address: nat, meter: Meter)
    returns (boundary: nat, found: bool)
    requires 0 < target < |data|
    modifies meter
    ensures boundary == NextBoundary(data, [delimiter], target)
    ensures !found ==> boundary == |data|
    ensures meter.bytes == old(meter.bytes) + TargetCost(data, [delimiter], target, boundary, address)
    ensures meter.high <= Max(old(meter.high), address + Min(boundary + 7, |data|))
  {
    OccursByte(data, delimiter, target - 1);
    if data[target - 1] == delimiter {
      return target, true;
    }
    var rel := FindByteSwar(data[target..], delimiter, address + target, meter);
    BoundaryBySuffix(data, [delimiter], target, rel);
    boundary, found := |data|, false;
    if rel.Some? {
      boundary, found := Min(target + rel.value + 1, |data|), true;
    }
    SearchCostOf(|data|, target, address, rel, boundary);
  }

  lemma SearchCostOf(len: nat, t: nat, address: nat, rel: Option<nat>, b: nat)
    requires t < len && match rel case Some(p) => t + p < len && b == t + p + 1 case None => b == len
    ensures InspectedEnd(len - t, address + t, rel) == SpanCost(len, address, Range(t, b))
    ensures t + InspectedEnd(len - t, address + t, rel) <= Min(b + 7, len)
  {
    LastInspected(len - t, address + t);
    if rel.Some? {
      InspectedBounds(len - t, address + t, rel.value);
    }
  }

  /** `find_partition_boundaries`: the one-byte planner. Its searches look at exactly the bytes that
      the specified stretches cost. */
  method FindPartitionBoundaries(data: seq<byte>, parts: nat, delimiter: byte, address: nat, meter: Meter)
    returns (r: seq<Range>)
    modifies meter
    ensures r == PlanRanges(data, [delimiter], parts)
    ensures meter.bytes == old(meter.bytes) + SearchCost(PlanSpans(data, [delimiter], parts), |data|, address)
    ensures meter.high <= Max(old(meter.high), address + |data|)
  {
    var len := |data|;
    if len == 0 || parts == 0 {
      return [];
    }
    if parts == 1 {
      PlanOfOne(data, [delimiter]);
      return [Range(0, len)];
    }
    var n := Min(parts, len);
    ghost var d: seq<byte> := [delimiter];
    ghost var ts := Targets(len, n);
    TargetsBelow(len, n);
    PlanningStart(data, d, ts);
    var boundaries: seq<nat> := [];
    ghost var spans: seq<Range> := [];
    var last: nat := 0;
    for i := 1 to n
      invariant Planning(data, d, ts, i - 1, last, boundaries, spans)
      invariant Spent(data, address, spans, old(meter.bytes), meter.bytes)
      invariant meter.high <= Max(old(meter.high), address + len)
    {
      var target := ComputeTarget(len, i, n);
      if target <= last {
        PlanningSkip(data, d, ts, i - 1, last, boundaries, spans);
        continue;
      }
      ghost var before := meter.bytes;
      var boundary, found := ByteBoundary(data, target, delimiter, address, meter);
      PlanningPush(data, d, ts, i - 1, last, boundaries, spans, boundary);
      SpentPush(data, d, target, boundary, spans, address, old(meter.bytes), before, meter.bytes);
      boundaries, spans := boundaries + [boundary], WithSpan(data, d, target, boundary, spans);
      last := boundary;
      if !found {
        PlanningStop(data, d, ts, i, last, boundaries, spans);
        break;
      }
    }
    assert boundaries == Cuts(data, d, ts, 0) && spans == SearchSpans(data, d, ts, 0);
    r := RangesFromBoundaries(len, boundaries);
  }

  /** One target of the multi-byte planner. */
  method PatternBoundary(data: seq<byte>, target: nat, delimiter: seq<byte>, address: nat, meter: Meter)
    returns (boundary: nat, found: bool)
    requires |delimiter| > 0 && 0 < target < |data|
    modifies meter
    ensures boundary == NextBoundary(data, delimiter, target)
    ensures !found ==> boundary == |data|
    ensures InBudget(meter, old(meter.bytes), |delimiter| + 8, TargetLength(data, delimiter, target, boundary))
    ensures meter.high <= Max(old(meter.high), address + Min(boundary + 7, |data|))
  {
    if target >= |delimiter| && data[target - |delimiter|..target] == delimiter {
      BudgetStart(|delimiter| + 8, meter.bytes);
      return target, true;
    }
    var rel := FindPatternInSlice(data[target..], delimiter, address + target, meter);
    BoundaryBySuffix(data, delimiter, target, rel);
    if rel.Some? {
      BudgetStep(|delimiter| + 8, old(meter.bytes), rel.value + 1, |delimiter| - 1, meter.bytes, meter.bytes);
      return Min(target + rel.value + |delimiter|, |data|), true;
    }
    return |data|, false;
  }

  /** `find_partition_boundaries_pattern`: the multi-byte planner; the source rejects an empty
      delimiter by panicking. Its searches look at no more than `|delimiter| + 8` bytes for each byte
      of the specified stretches. */
  method FindPartitionBoundariesPattern(data: seq<byte>, parts: nat, delimiter: seq<byte>, address: nat, meter: Meter)
    returns (r: seq<Range>)
    requires |delimiter| > 0
    modifies meter
    ensures r == PlanRanges(data, delimiter, parts)
    ensures |delimiter| == 1 ==>
              meter.bytes == old(meter.bytes) + SearchCost(PlanSpans(data, delimiter, parts), |data|, address)
    ensures |delimiter| > 1 ==>
              InBudget(meter, old(meter.bytes), |delimiter| + 8, TotalLength(PlanSpans(data, delimiter, parts)))
    ensures meter.high <= Max(old(meter.high), address + |data|)
  {
    if |delimiter| == 1 {
      assert delimiter == [delimiter[0]];
      r := FindPartitionBoundaries(data, parts, delimiter[0], address, meter);
      return;
    }
    r := PlanByPattern(data, parts, delimiter, address, meter);
  }

  method PlanByPattern(data: seq<byte>, parts: nat, delimiter: seq<byte>, address: nat, meter: Meter)
    returns (r: seq<Range>)
    requires |delimiter| > 1
    modifies meter
    ensures r == PlanRanges(data, delimiter, parts)
    ensures InBudget(meter, old(meter.bytes), |delimiter| + 8, TotalLength(PlanSpans(data, delimiter, parts)))
    ensures meter.high <= Max(old(meter.high), address + |data|)
  {
    BudgetStart(|delimiter| + 8, meter.bytes);
    var len := |data|;
    if len == 0 || parts == 0 {
      return [];
    }
    if parts == 1 {
      PlanOfOne(data, delimiter);
      return [Range(0, len)];
    }
    var n := Min(parts, len);
    ghost var ts := Targets(len, n);
    TargetsBelow(len, n);
    PlanningStart(data, delimiter, ts);
    var boundaries: seq<nat> := [];
    ghost var spans: seq<Range> := [];
    var last: nat := 0;
    for i := 1 to n
      invariant Planning(data, delimiter, ts, i - 1, last, boundaries, spans)
      invariant InBudget(meter, old(meter.bytes), |delimiter| + 8, TotalLength(spans))
      invariant meter.high <= Max(old(meter.high), address + len)
    {
      var target := ComputeTarget(len, i, n);
      if target <= last {
        PlanningSkip(data, delimiter, ts, i - 1, last, boundaries, spans);
        continue;
      }
      ghost var before := meter.bytes;
      var boundary, found := PatternBoundary(data, target, delimiter, address, meter);
      PlanningPush(data, delimiter, ts, i - 1, last, boundaries, spans, boundary);
      BudgetPush(data, delimiter, target, boundary, spans, old(meter.bytes), before, meter.bytes);
      boundaries, spans := boundaries + [boundary], WithSpan(data, delimiter, target, boundary, spans);
      last := boundary;
      if !found {
        PlanningStop(data, delimiter, ts, i, last, boundaries, spans);
        break;
      }
    }
    assert boundaries == Cuts(data, delimiter, ts, 0) && spans == SearchSpans(data, delimiter, ts, 0);
    r := RangesFromBoundaries(len, boundaries);
  }
}
