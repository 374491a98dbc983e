/** What every partition plan guarantees, for delimiters of any length. */
module PartitionTheorems {
  import opened Search
  import opened Partition

  /** The ranges cover `[lo, hi)` in order, without gaps, overlaps or empty ranges. */
  ghost predicate Tiles(rs: seq<Range>, lo: nat, hi: nat)
    decreases |rs|
  {
    if rs == [] then lo == hi
    else rs[0].start == lo < rs[0].end <= hi && Tiles(rs[1..], rs[0].end, hi)
  }

  /** Every range but the last ends immediately after a complete delimiter. */
  ghost predicate RecordAligned(data: seq<byte>, d: seq<byte>, rs: seq<Range>) {
    forall k: nat :: k + 1 < |rs| ==> EndsAt(data, d, rs[k].end)
  }

  /** Cuts that lie strictly above `last`, increase, and are record ends or the end of the data. */
  ghost predicate GoodCuts(data: seq<byte>, d: seq<byte>, last: nat, cuts: seq<nat>)
    decreases |cuts|
  {
    cuts != [] ==>
      && last < cuts[0] <= |data|
      && (cuts[0] == |data| || EndsAt(data, d, cuts[0]))
      && GoodCuts(data, d, cuts[0], cuts[1..])
  }

  lemma {:induction false} CutsAreGood(data: seq<byte>, d: seq<byte>, ts: seq<nat>, last: nat)
    requires |d| > 0 && Below(ts, |data|)
    ensures GoodCuts(data, d, last, Cuts(data, d, ts, last))
    ensures |Cuts(data, d, ts, last)| <= |ts|
    decreases |ts|
  {
    if ts != [] {
      if ts[0] <= last {
        CutsAreGood(data, d, ts[1..], last);
      } else {
        var b := NextBoundary(data, d, ts[0]);
        CutsAreGood(data, d, ts[1..], b);
        assert Cuts(data, d, ts, last)[1..] == Cuts(data, d, ts[1..], b);
      }
    }
  }

  lemma {:induction false} RangesOfGoodCuts(data: seq<byte>, d: seq<byte>, last: nat, cuts: seq<nat>)
    requires last <= |data| && GoodCuts(data, d, last, cuts)
    ensures var rs := RangesOf(|data|, last, cuts);
            && Tiles(rs, last, |data|)
            && RecordAligned(data, d, rs)
            && |rs| <= |cuts| + 1
    decreases |cuts|
  {
    if cuts != [] {
      var rest := RangesOf(|data|, cuts[0], cuts[1..]);
      var rs := RangesOf(|data|, last, cuts);
      RangesOfGoodCuts(data, d, cuts[0], cuts[1..]);
      assert rs == [Range(last, cuts[0])] + rest;
      assert rs[1..] == rest;
      if cuts[0] == |data| {
        TilesNothing(rest, |data|);
      }
      forall k: nat | k + 1 < |rs| ensures EndsAt(data, d, rs[k].end) {
        if k > 0 {
          assert rs[k] == rest[k - 1];
        }
      }
    }
  }

  lemma {:induction false} TilesInBounds(rs: seq<Range>, lo: nat, hi: nat)
    requires Tiles(rs, lo, hi)
    ensures lo <= hi
    ensures forall r :: r in rs ==> lo <= r.start < r.end <= hi
    ensures forall k: nat :: k < |rs| ==> lo <= rs[k].start < rs[k].end <= hi
    decreases |rs|
  {
    if rs != [] {
      TilesInBounds(rs[1..], rs[0].end, hi);
      assert forall r :: r in rs ==> r == rs[0] || r in rs[1..];
      assert forall k: nat :: k < |rs| ==> rs[k] in rs;
    }
  }

  lemma TilesNothing(rs: seq<Range>, lo: nat)
    requires Tiles(rs, lo, lo)
    ensures rs == []
  {
  }

  /** A tiling whose ranges' ends follow from their starts is the only one. */
  lemma {:induction false} TilesUnique(a: seq<Range>, b: seq<Range>, lo: nat, hi: nat)
    requires Tiles(a, lo, hi) && Tiles(b, lo, hi)
    requires forall r, s :: r in a && s in b && r.start == s.start ==> r.end == s.end
    ensures a == b
    decreases |a|
  {
    if a != [] && b != [] {
      assert a[0] in a && b[0] in b;
      TilesUnique(a[1..], b[1..], a[0].end, hi);
    }
  }

  /** Main shape theorem: a plan tiles the data, never splits at a non-delimiter, and has at
      most the requested number of ranges; only an empty request or empty data gives none. */
  lemma PlanShape(data: seq<byte>, d: seq<byte>, parts: nat)
    requires |d| > 0
    ensures var rs := PlanRanges(data, d, parts);
            && (parts > 0 ==> Tiles(rs, 0, |data|))
            && RecordAligned(data, d, rs)
            && |rs| <= parts
            && (rs == [] <==> data == [] || parts == 0)
  {
    if data != [] && parts > 0 {
      var ts := Targets(|data|, Min(parts, |data|));
      TargetsBelow(|data|, Min(parts, |data|));
      CutsAreGood(data, d, ts, 0);
      RangesOfGoodCuts(data, d, 0, Cuts(data, d, ts, 0));
    }
  }

  // ----- the meaning of a boundary

  /** A place where target `t` may be moved to: a delimiter ends exactly at `t`, or a delimiter that
      starts at or after `t` ends here, or the data ends here. */
  predicate MayMoveTo(data: seq<byte>, d: seq<byte>, t: nat, e: nat) {
    t <= e <= |data| && (e == |data| || (EndsAt(data, d, e) && (e == t || t + |d| <= e)))
  }

  /** A target's boundary is the least such place, and nothing else is, for delimiters of any length. */
  lemma BoundaryIsLeastPlace(data: seq<byte>, d: seq<byte>, t: nat, e: nat)
    requires |d| > 0 && t <= |data|
    ensures e == NextBoundary(data, d, t) <==>
            MayMoveTo(data, d, t, e) && forall u: nat :: u < e ==> !MayMoveTo(data, d, t, u)
  {
    var b := NextBoundary(data, d, t);
    assert MayMoveTo(data, d, t, b);
    forall u: nat | MayMoveTo(data, d, t, u) ensures b <= u {
      if u < |data| && u != t {
        assert OccursAt(data, d, u - |d|);
      }
    }
  }

  // ----- the cap on the requested count

  /** One target per byte, from `t` on. */
  ghost function DenseCuts(data: seq<byte>, d: seq<byte>, t: nat, last: nat): seq<nat>
    requires |d| > 0 && t <= |data|
    decreases |data| - t
  {
    if t == |data| then []
    else if t <= last then DenseCuts(data, d, t + 1, last)
    else
      var b := NextBoundary(data, d, t);
      [b] + DenseCuts(data, d, t + 1, b)
  }

  /** The targets never pass over `next`, the first offset not yet a target, and reach the end. */
  ghost predicate StepsByOne(ts: seq<nat>, next: nat, len: nat)
    decreases |ts|
  {
    if ts == [] then next == len
    else ts[0] <= next <= ts[0] + 1 && ts[0] < len && StepsByOne(ts[1..], ts[0] + 1, len)
  }

  lemma DenseSkip(data: seq<byte>, d: seq<byte>, ts: seq<nat>, next: nat, last: nat)
    requires |d| > 0 && ts != [] && ts[0] <= next <= ts[0] + 1 && ts[0] < |data| && ts[0] <= last
    requires Cuts(data, d, ts[1..], last) == DenseCuts(data, d, ts[0] + 1, last)
    ensures Cuts(data, d, ts, last) == DenseCuts(data, d, next, last)
  {
  }

  lemma DenseTake(data: seq<byte>, d: seq<byte>, ts: seq<nat>, last: nat, b: nat)
    requires |d| > 0 && ts != [] && last < ts[0] < |data| && b == NextBoundary(data, d, ts[0])
    requires Cuts(data, d, ts[1..], b) == DenseCuts(data, d, ts[0] + 1, b)
    ensures Cuts(data, d, ts, last) == DenseCuts(data, d, ts[0], last)
  {
  }

  lemma {:induction false} CutsAreDense(data: seq<byte>, d: seq<byte>, ts: seq<nat>, next: nat, last: nat)
    requires |d| > 0 && next <= |data| && next <= last + 1 && StepsByOne(ts, next, |data|)
    ensures Cuts(data, d, ts, last) == DenseCuts(data, d, next, last)
    decreases |ts|
  {
    if ts != [] {
      var t := ts[0];
      if t <= last {
        CutsAreDense(data, d, ts[1..], t + 1, last);
        DenseSkip(data, d, ts, next, last);
      } else {
        var b := NextBoundary(data, d, t);
        CutsAreDense(data, d, ts[1..], t + 1, b);
        DenseTake(data, d, ts, last, b);
      }
    }
  }

  lemma TargetStep(len: nat, i: nat, n: nat)
    requires 0 < len <= n && i + 1 < n
    ensures Target(len, i, n) <= Target(len, i + 1, n) <= Target(len, i, n) + 1
  {
    var t := Target(len, i, n);
    DivBracket(len * i, n);
    assert len * (i + 1) == len * i + len;
    assert (t + 2) * n == (t + 1) * n + n;
    DivAtMost(len * (i + 1), n, t + 1);
    DivAtLeast(len * (i + 1), n, t);
  }

  lemma LastTarget(len: nat, n: nat)
    requires 0 < len <= n
    ensures Target(len, n - 1, n) == len - 1
  {
    assert len * (n - 1) == len * n - len;
    assert (len - 1) * n == len * n - n;
    DivAtLeast(len * (n - 1), n, len - 1);
    DivAtMost(len * (n - 1), n, len - 1);
  }

  lemma FirstTarget(len: nat, n: nat)
    requires 0 < n
    ensures Target(len, 0, n) == 0
  {
    assert len * 0 == 0;
    DivAtMost(0, n, 0);
  }

  /** With at least as many parts as bytes, consecutive targets step by at most one. */
  lemma {:induction false} TargetsStepByOne(len: nat, n: nat, i: nat)
    requires 0 < len <= n && i < n
    ensures StepsByOne(Targets(len, n)[i..], Target(len, i, n) + 1, len)
    decreases n - i
  {
    var ts := Targets(len, n);
    if i == n - 1 {
      LastTarget(len, n);
    } else {
      TargetStep(len, i, n);
      TargetBounds(len, i + 1, n);
      TargetsStepByOne(len, n, i + 1);
      assert ts[i..][1..] == ts[i + 1..] && ts[i..][0] == Target(len, i + 1, n);
    }
  }

  lemma DenseTargets(data: seq<byte>, d: seq<byte>, n: nat)
    requires |d| > 0 && 0 < |data| <= n
    ensures Cuts(data, d, Targets(|data|, n), 0) == DenseCuts(data, d, 1, 0)
  {
    FirstTarget(|data|, n);
    TargetsStepByOne(|data|, n, 0);
    assert Targets(|data|, n)[0..] == Targets(|data|, n);
    CutsAreDense(data, d, Targets(|data|, n), 1, 0);
  }

  /** Capping the request at the file length loses nothing: the uncapped target loop gives the
      same cuts for every larger count. */
  lemma CapChangesNothing(data: seq<byte>, d: seq<byte>, parts: nat)
    requires |d| > 0 && data != [] && |data| <= parts
    ensures Cuts(data, d, Targets(|data|, parts), 0) == Cuts(data, d, Targets(|data|, |data|), 0)
    ensures PlanRanges(data, d, parts) == RangesOf(|data|, 0, Cuts(data, d, Targets(|data|, parts), 0))
  {
    DenseTargets(data, d, parts);
    DenseTargets(data, d, |data|);
  }

  // ----- forward searches

  /** Ordered and pairwise disjoint, all above `last` and within the data. */
  ghost predicate Disjoint(rs: seq<Range>, last: nat, len: nat)
    decreases |rs|
  {
    rs != [] ==> last < rs[0].start <= rs[0].end <= len && Disjoint(rs[1..], rs[0].end, len)
  }

  lemma {:induction false} DisjointWeaken(rs: seq<Range>, last: nat, lower: nat, len: nat)
    requires Disjoint(rs, last, len) && lower <= last
    ensures Disjoint(rs, lower, len)
  {
  }

  lemma {:induction false} DisjointTotal(rs: seq<Range>, last: nat, len: nat)
    requires Disjoint(rs, last, len) && last <= len
    ensures 0 <= TotalLength(rs) <= len - last
    decreases |rs|
  {
    if rs != [] {
      DisjointTotal(rs[1..], rs[0].end, len);
    }
  }

  lemma {:induction false} SpansAreDisjoint(data: seq<byte>, d: seq<byte>, ts: seq<nat>, last: nat)
    requires |d| > 0 && Below(ts, |data|)
    ensures Disjoint(SearchSpans(data, d, ts, last), last, |data|)
    decreases |ts|
  {
    if ts != [] {
      if ts[0] <= last {
        SpansAreDisjoint(data, d, ts[1..], last);
      } else {
        var b := NextBoundary(data, d, ts[0]);
        var rest := SearchSpans(data, d, ts[1..], b);
        SpansAreDisjoint(data, d, ts[1..], b);
        if EndsAt(data, d, ts[0]) {
          assert [] + rest == rest;
          DisjointWeaken(rest, b, last, |data|);
        } else {
          assert ([Range(ts[0], b)] + rest)[1..] == rest;
        }
      }
    }
  }

  /** No stretch is searched twice: all forward searches of one plan together span at most the
      file, whatever the request. */
  lemma SearchIsBounded(data: seq<byte>, d: seq<byte>, parts: nat)
    requires |d| > 0
    ensures Disjoint(PlanSpans(data, d, parts), 0, |data|)
    ensures TotalLength(PlanSpans(data, d, parts)) <= |data|
  {
    if data != [] && parts > 0 {
      TargetsBelow(|data|, Min(parts, |data|));
      SpansAreDisjoint(data, d, Targets(|data|, Min(parts, |data|)), 0);
      DisjointTotal(PlanSpans(data, d, parts), 0, |data|);
    }
  }
}
