/** What a partition plan is, without the planner: a tiling in which every range ends at the place
    where the first ideal target past its start moves to. */
module PlanMeaning {
  import opened Search
  import opened Partition
  import opened PartitionTheorems

  /** Target i of n, at `t`, is the first one past `s`. */
  ghost predicate FirstPast(len: nat, n: nat, s: nat, i: nat, t: nat) {
    && 0 < i < n && IdealCut(len, i, n, t) && s < t
    && forall j: nat, u: nat :: 0 < j < i && IdealCut(len, j, n, u) ==> u <= s
  }

  ghost predicate NonePast(len: nat, n: nat, s: nat) {
    forall j: nat, u: nat :: 0 < j < n && IdealCut(len, j, n, u) ==> u <= s
  }

  /** `e` is the least place that target `t` may be moved to. */
  ghost predicate LeastPlace(data: seq<byte>, d: seq<byte>, t: nat, e: nat) {
    MayMoveTo(data, d, t, e) && forall u: nat :: u < e ==> !MayMoveTo(data, d, t, u)
  }

  /** The range ends where the first target past its start moves to, or with the data if none is left. */
  ghost predicate EndsRight(data: seq<byte>, d: seq<byte>, n: nat, r: Range) {
    && (forall i: nat, t: nat :: FirstPast(|data|, n, r.start, i, t) ==> LeastPlace(data, d, t, r.end))
    && (NonePast(|data|, n, r.start) ==> r.end == |data|)
  }

  /** The plan of `n` partitions, said without targets, cuts or searches. */
  ghost predicate IsPlan(data: seq<byte>, d: seq<byte>, n: nat, rs: seq<Range>) {
    Tiles(rs, 0, |data|) && forall r :: r in rs ==> EndsRight(data, d, n, r)
  }

  /** Index of the first target above `s`. */
  ghost function FirstAbove(ts: seq<nat>, s: nat): (k: nat)
    ensures k <= |ts| && (k < |ts| ==> s < ts[k])
    ensures forall j: nat :: j < k ==> ts[j] <= s
  {
    if ts == [] || s < ts[0] then 0 else 1 + FirstAbove(ts[1..], s)
  }

  lemma FirstAboveTail(ts: seq<nat>, s: nat)
    requires ts != [] && ts[0] <= s
    ensures FirstAbove(ts, s) == 1 + FirstAbove(ts[1..], s)
  {
  }

  /** Where a range that starts at `s` ends. */
  ghost function EndFrom(data: seq<byte>, d: seq<byte>, ts: seq<nat>, s: nat): nat
    requires |d| > 0
  {
    var k := FirstAbove(ts, s);
    if k < |ts| then NextBoundary(data, d, ts[k]) else |data|
  }

  lemma {:induction false} RangesEndAtTargets(data: seq<byte>, d: seq<byte>, ts: seq<nat>, last: nat)
    requires |d| > 0 && Below(ts, |data|) && last <= |data|
    ensures forall r :: r in RangesOf(|data|, last, Cuts(data, d, ts, last)) ==>
              last <= r.start && r.end == EndFrom(data, d, ts, r.start)
    decreases |ts|
  {
    if ts != [] {
      if ts[0] <= last {
        RangesEndAtTargets(data, d, ts[1..], last);
      } else {
        var b := NextBoundary(data, d, ts[0]);
        var rest := Cuts(data, d, ts[1..], b);
        RangesEndAtTargets(data, d, ts[1..], b);
        assert ([b] + rest)[1..] == rest;
        assert RangesOf(|data|, last, [b] + rest) == [Range(last, b)] + RangesOf(|data|, b, rest);
      }
    }
  }

  /** In the list of targets, `FirstAbove` finds the first ideal cut past `s`. */
  lemma FirstAboveMeans(len: nat, n: nat, s: nat)
    requires 0 < n
    ensures var ts := Targets(len, n);
            var k := FirstAbove(ts, s);
            if k < |ts| then FirstPast(len, n, s, k + 1, ts[k]) else NonePast(len, n, s)
  {
    var ts := Targets(len, n);
    var k := FirstAbove(ts, s);
    forall j: nat, u: nat | 0 < j < n && IdealCut(len, j, n, u) ensures u == ts[j - 1] {
      TargetIsFloor(len, j, n, u);
    }
    if k < |ts| {
      TargetIsFloor(len, k + 1, n, ts[k]);
    }
  }

  lemma FirstPastOnce(len: nat, n: nat, s: nat, i: nat, t: nat, j: nat, u: nat)
    requires 0 < n && FirstPast(len, n, s, i, t) && FirstPast(len, n, s, j, u)
    ensures i == j && t == u
  {
    TargetIsFloor(len, i, n, t);
    TargetIsFloor(len, j, n, u);
  }

  /** The end a range must have follows from its start. */
  lemma EndsRightIs(data: seq<byte>, d: seq<byte>, n: nat, r: Range)
    requires |d| > 0 && 0 < n && data != []
    ensures EndsRight(data, d, n, r) <==> r.end == EndFrom(data, d, Targets(|data|, n), r.start)
  {
    var ts := Targets(|data|, n);
    var k := FirstAbove(ts, r.start);
    FirstAboveMeans(|data|, n, r.start);
    if k < |ts| {
      TargetsBelow(|data|, n);
      BoundaryIsLeastPlace(data, d, ts[k], r.end);
      assert LeastPlace(data, d, ts[k], r.end) <==> r.end == NextBoundary(data, d, ts[k]);
      forall i: nat, t: nat | FirstPast(|data|, n, r.start, i, t) ensures t == ts[k] {
        FirstPastOnce(|data|, n, r.start, i, t, k + 1, ts[k]);
      }
      assert !NonePast(|data|, n, r.start);
    } else {
      assert forall i: nat, t: nat :: !FirstPast(|data|, n, r.start, i, t);
    }
  }

  /** Main theorem: the planned ranges are a plan in this sense, and there is no other. */
  lemma PlanIsDetermined(data: seq<byte>, d: seq<byte>, parts: nat, rs: seq<Range>)
    requires |d| > 0 && data != [] && parts > 0
    ensures rs == PlanRanges(data, d, parts) <==> IsPlan(data, d, Min(parts, |data|), rs)
  {
    var n := Min(parts, |data|);
    var plan := PlanRanges(data, d, parts);
    PlanShape(data, d, parts);
    TargetsBelow(|data|, n);
    RangesEndAtTargets(data, d, Targets(|data|, n), 0);
    forall r ensures EndsRight(data, d, n, r) <==> r.end == EndFrom(data, d, Targets(|data|, n), r.start) {
      EndsRightIs(data, d, n, r);
    }
    if IsPlan(data, d, n, rs) {
      TilesUnique(rs, plan, 0, |data|);
    }
  }

  // ----- what is searched

  /** The stretch searched for range `r`: from its target to its end, unless the target is accepted. */
  ghost predicate SearchedFor(data: seq<byte>, d: seq<byte>, ts: seq<nat>, r: Range, s: Range) {
    var k := FirstAbove(ts, r.start);
    k < |ts| && s == Range(ts[k], r.end) && !EndsAt(data, d, ts[k])
  }

  ghost predicate SearchedIn(data: seq<byte>, d: seq<byte>, ts: seq<nat>, rs: seq<Range>, s: Range) {
    exists r :: r in rs && SearchedFor(data, d, ts, r, s)
  }

  lemma SearchedTail(data: seq<byte>, d: seq<byte>, ts: seq<nat>, rs: seq<Range>, s: Range)
    requires ts != [] && forall r :: r in rs ==> ts[0] <= r.start
    ensures SearchedIn(data, d, ts, rs, s) <==> SearchedIn(data, d, ts[1..], rs, s)
  {
    forall r | r in rs ensures SearchedFor(data, d, ts, r, s) <==> SearchedFor(data, d, ts[1..], r, s) {
      FirstAboveTail(ts, r.start);
    }
  }

  lemma SearchedCons(data: seq<byte>, d: seq<byte>, ts: seq<nat>, r: Range, rs: seq<Range>, s: Range)
    ensures SearchedIn(data, d, ts, [r] + rs, s) <==> SearchedFor(data, d, ts, r, s) || SearchedIn(data, d, ts, rs, s)
  {
    if SearchedFor(data, d, ts, r, s) {
      assert r in [r] + rs;
    }
    if SearchedIn(data, d, ts, rs, s) {
      var x :| x in rs && SearchedFor(data, d, ts, x, s);
      assert x in [r] + rs;
    }
  }

  lemma {:induction false} SpansOfRanges(data: seq<byte>, d: seq<byte>, ts: seq<nat>, last: nat, s: Range)
    requires |d| > 0 && Below(ts, |data|) && last <= |data|
    ensures s in SearchSpans(data, d, ts, last) <==>
            SearchedIn(data, d, ts, RangesOf(|data|, last, Cuts(data, d, ts, last)), s)
    decreases |ts|
  {
    if ts != [] {
      RangesEndAtTargets(data, d, ts, last);
      if ts[0] <= last {
        SpansOfRanges(data, d, ts[1..], last, s);
        SearchedTail(data, d, ts, RangesOf(|data|, last, Cuts(data, d, ts, last)), s);
      } else {
        var b := NextBoundary(data, d, ts[0]);
        var rest := Cuts(data, d, ts[1..], b);
        var rs := RangesOf(|data|, b, rest);
        SpansOfRanges(data, d, ts[1..], b, s);
        RangesEndAtTargets(data, d, ts[1..], b);
        SearchedTail(data, d, ts, rs, s);
        assert ([b] + rest)[1..] == rest;
        assert RangesOf(|data|, last, [b] + rest) == [Range(last, b)] + rs;
        SearchedCons(data, d, ts, Range(last, b), rs, s);
      }
    }
  }

  /** Main theorem: one search for each planned range that has a target which no delimiter precedes,
      from that target to the end of the range, and no other. */
  lemma SearchesAreDetermined(data: seq<byte>, d: seq<byte>, parts: nat, s: Range)
    requires |d| > 0 && data != [] && parts > 0
    ensures s in PlanSpans(data, d, parts) <==>
            exists r, i: nat :: && r in PlanRanges(data, d, parts) && s.end == r.end
                                && FirstPast(|data|, Min(parts, |data|), r.start, i, s.start)
                                && !EndsAt(data, d, s.start)
  {
    var n := Min(parts, |data|);
    var ts := Targets(|data|, n);
    TargetsBelow(|data|, n);
    SpansOfRanges(data, d, ts, 0, s);
    forall r | r in PlanRanges(data, d, parts)
      ensures SearchedFor(data, d, ts, r, s) <==>
              exists i: nat :: s.end == r.end && FirstPast(|data|, n, r.start, i, s.start) && !EndsAt(data, d, s.start)
    {
      FirstAboveMeans(|data|, n, r.start);
      var k := FirstAbove(ts, r.start);
      forall i: nat, t: nat | FirstPast(|data|, n, r.start, i, t) ensures k < |ts| && t == ts[k] {
        if k < |ts| {
          FirstPastOnce(|data|, n, r.start, i, t, k + 1, ts[k]);
        }
      }
      if SearchedFor(data, d, ts, r, s) {
        assert FirstPast(|data|, n, r.start, k + 1, s.start);
      }
    }
  }
}
