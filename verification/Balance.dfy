/** How far a cut may lie from its ideal target, and how long a partition may be. */
module Balance {
  import opened Search
  import opened Partition
  import opened PartitionTheorems
  import opened Records

  ghost predicate RecordsAtMost(data: seq<byte>, d: seq<byte>, lo: nat, longest: nat)
    requires |d| > 0 && lo <= |data|
  {
    forall r :: r in RecordsIn(data, d, lo, |data|) ==> r.end - r.start <= longest
  }

  /** A target inside a delimiter of several bytes skips the whole next record. */
  ghost function Overshoot(d: seq<byte>): nat {
    if |d| == 1 then 0 else |d|
  }

  lemma FirstFromStays(data: seq<byte>, d: seq<byte>, lo: nat, t: nat)
    requires |d| > 0 && lo <= t
    ensures var f := FirstFrom(data, d, lo);
            f == None || t <= f.value ==> FirstFrom(data, d, t) == f
  {
  }

  /** A target's boundary is no later than that of the first delimiter from any later offset on. */
  lemma BoundaryByLater(data: seq<byte>, d: seq<byte>, t: nat, lo: nat)
    requires |d| > 0 && t <= lo <= |data|
    ensures NextBoundary(data, d, t) <=
            match FirstFrom(data, d, lo) case Some(f) => f + |d| case None => |data|
  {
  }

  /** The first record from `lo` on, and the bound for those after it. */
  lemma FirstRecord(data: seq<byte>, d: seq<byte>, lo: nat, longest: nat) returns (e: nat)
    requires |d| > 0 && lo < |data| && RecordsAtMost(data, d, lo, longest)
    ensures e == match FirstFrom(data, d, lo) case Some(f) => f + |d| case None => |data|
    ensures lo < e <= |data| && e - lo <= longest && RecordsAtMost(data, d, e, longest)
  {
    var all := RecordsIn(data, d, lo, |data|);
    e := match FirstFrom(data, d, lo) case Some(f) => f + |d| case None => |data|;
    assert all[0] == Range(lo, e) && all[0] in all;
    assert all == [Range(lo, e)] + RecordsIn(data, d, e, |data|);
  }

  lemma {:induction false} DeviationFrom(data: seq<byte>, d: seq<byte>, lo: nat, t: nat, longest: nat)
    requires |d| > 0 && lo < t <= |data| && RecordsAtMost(data, d, lo, longest)
    ensures NextBoundary(data, d, t) - t <= longest - 1 + Overshoot(d)
    decreases |data| - lo
  {
    var e := FirstRecord(data, d, lo, longest);
    var f := FirstFrom(data, d, lo);
    if e < t {
      DeviationFrom(data, d, e, t, longest);
    } else if f == None || t <= f.value {
      FirstFromStays(data, d, lo, t);
    } else if t < e < |data| {
      var after := FirstRecord(data, d, e, longest);
      BoundaryByLater(data, d, t, e);
    }
  }

  /** Main theorem, for delimiters of any length: a cut overshoots its ideal target by less than the
      longest record and, if the delimiter has several bytes, one delimiter more. */
  lemma DeviationBounded(data: seq<byte>, d: seq<byte>, longest: nat, t: nat)
    requires |d| > 0 && 0 < t <= |data| && RecordsAtMost(data, d, 0, longest)
    ensures NextBoundary(data, d, t) - t <= longest - 1 + Overshoot(d)
  {
    DeviationFrom(data, d, 0, t, longest);
  }

  // ----- the documented deviation

  /** The documented bound: no cut of the data lies further from its target than the longest record. */
  ghost predicate DeviatesWithinRecord(data: seq<byte>, d: seq<byte>)
    requires |d| > 0
  {
    forall longest: nat, t: nat :: 0 < t <= |data| && RecordsAtMost(data, d, 0, longest) ==>
      NextBoundary(data, d, t) - t <= longest
  }

  /** Two delimiters around `filler`, with no other occurrence in between. */
  ghost predicate Separated(d: seq<byte>, filler: seq<byte>) {
    forall p: nat :: 0 < p < |d| + |filler| ==> !OccursAt(d + filler + d, d, p)
  }

  /** A byte that neither starts nor ends the delimiter. */
  function OtherByte(d: seq<byte>): (c: byte)
    requires |d| > 0
    ensures c != d[0] && c != d[|d| - 1]
  {
    if 0 != d[0] && 0 != d[|d| - 1] then 0 else if 1 != d[0] && 1 != d[|d| - 1] then 1 else 2
  }

  /** One byte less than a delimiter of that byte: what starts in it starts wrongly, and what starts
      before it ends in it and ends wrongly. */
  ghost function Filler(d: seq<byte>): seq<byte>
    requires |d| > 0
  {
    seq(|d| - 1, _ => OtherByte(d))
  }

  lemma FillerSeparates(d: seq<byte>)
    requires |d| > 0
    ensures Separated(d, Filler(d))
  {
    var data := d + Filler(d) + d;
    forall p: nat | 0 < p < |d| + |Filler(d)| ensures !OccursAt(data, d, p) {
      if |d| <= p {
        assert data[p] == OtherByte(d);
      } else {
        assert data[p + |d| - 1] == OtherByte(d);
      }
      EdgesOfOccurrence(data, d, p);
    }
  }

  lemma EdgesOfOccurrence(data: seq<byte>, d: seq<byte>, p: nat)
    requires |d| > 0 && p + |d| <= |data|
    ensures OccursAt(data, d, p) ==> data[p] == d[0] && data[p + |d| - 1] == d[|d| - 1]
  {
    var s := data[p..p + |d|];
    assert s[0] == data[p] && s[|d| - 1] == data[p + |d| - 1];
  }

  /** The target behind the first byte of the leading delimiter moves to the end of the other one, and
      the bound of `DeviationBounded` is met exactly. */
  lemma DeviationIsMet(d: seq<byte>, filler: seq<byte>)
    requires |d| > 1 && Separated(d, filler)
    ensures var data, longest := d + filler + d, |d| + |filler|;
            && RecordsAtMost(data, d, 0, longest)
            && NextBoundary(data, d, 1) - 1 == longest - 1 + Overshoot(d)
  {
    var data := d + filler + d;
    var mid := |d| + |filler|;
    assert data[..|d|] == d && data[mid..mid + |d|] == d;
    assert OccursAt(data, d, 0) && OccursAt(data, d, mid);
    assert FirstFrom(data, d, 1) == Some(mid);
    assert FirstFrom(data, d, |d|) == Some(mid);
    RecordsStep(data, d, 0, |data|, |d|);
    RecordsStep(data, d, |d|, |data|, |data|);
    assert RecordsIn(data, d, |data|, |data|) == [];
  }

  /** Main theorem: the documented bound holds for all data exactly when the delimiter is one byte long. */
  lemma DeviationIffOneByte(d: seq<byte>)
    requires |d| > 0
    ensures (forall data: seq<byte> :: DeviatesWithinRecord(data, d)) <==> |d| == 1
  {
    if |d| == 1 {
      forall data: seq<byte> ensures DeviatesWithinRecord(data, d) {
        forall longest: nat, t: nat | 0 < t <= |data| && RecordsAtMost(data, d, 0, longest)
          ensures NextBoundary(data, d, t) - t <= longest
        {
          DeviationBounded(data, d, longest, t);
        }
      }
    } else {
      FillerSeparates(d);
      DeviationIsMet(d, Filler(d));
      assert !DeviatesWithinRecord(d + Filler(d) + d, d);
    }
  }

  // ----- the length of a partition

  lemma TargetGap(len: nat, i: nat, n: nat)
    requires 0 < n
    ensures Target(len, i + 1, n) <= Target(len, i, n) + DivCeil(len, n)
  {
    var t, c := Target(len, i, n), DivCeil(len, n);
    DivBracket(len * i, n);
    DivCeilBracket(len, n, c);
    assert len * (i + 1) == len * i + len;
    assert (t + c + 1) * n == (t + 1) * n + c * n;
    DivAtMost(len * (i + 1), n, t + c);
  }

  /** Consecutive targets, and the end of the data, are at most `gap` apart. */
  ghost predicate Gaps(ts: seq<nat>, a: nat, gap: nat, len: nat)
    decreases |ts|
  {
    if ts == [] then len <= a + gap else ts[0] <= a + gap && Gaps(ts[1..], ts[0], gap, len)
  }

  lemma {:induction false} TargetsGap(len: nat, n: nat, i: nat)
    requires 0 < n && i < n
    ensures Gaps(Targets(len, n)[i..], Target(len, i, n), DivCeil(len, n), len)
    decreases n - i
  {
    TargetGap(len, i, n);
    if i == n - 1 {
      DivAtLeast(len * n, n, len);
    } else {
      var ts := Targets(len, n);
      TargetsGap(len, n, i + 1);
      assert ts[i..][1..] == ts[i + 1..] && ts[i..][0] == Target(len, i + 1, n);
    }
  }

  /** No target moves further than `deviation`. */
  ghost predicate Deviates(data: seq<byte>, d: seq<byte>, deviation: nat)
    requires |d| > 0
  {
    forall t: nat :: 0 < t <= |data| ==> NextBoundary(data, d, t) - t <= deviation
  }

  lemma {:induction false} BalancedFrom(data: seq<byte>, d: seq<byte>, ts: seq<nat>, a: nat, last: nat, gap: nat,
                                        deviation: nat)
    requires |d| > 0 && Below(ts, |data|) && Gaps(ts, a, gap, |data|) && a <= last <= |data|
    requires Deviates(data, d, deviation)
    ensures forall r :: r in RangesOf(|data|, last, Cuts(data, d, ts, last)) ==> r.end - r.start <= gap + deviation
    decreases |ts|
  {
    if ts != [] {
      var t := ts[0];
      if t <= last {
        BalancedFrom(data, d, ts[1..], t, last, gap, deviation);
      } else {
        var c := NextBoundary(data, d, t);
        BalancedFrom(data, d, ts[1..], t, c, gap, deviation);
        var rest := Cuts(data, d, ts[1..], c);
        assert ([c] + rest)[1..] == rest;
        assert RangesOf(|data|, last, [c] + rest) == [Range(last, c)] + RangesOf(|data|, c, rest);
      }
    }
  }

  /** Main theorem, for delimiters of any length: no partition is longer than ceil(L / n) plus the
      largest deviation, where n is the request capped at the file length. */
  lemma PartitionsAreBalanced(data: seq<byte>, d: seq<byte>, parts: nat, longest: nat)
    requires |d| > 0 && data != [] && parts > 0 && RecordsAtMost(data, d, 0, longest)
    ensures forall r :: r in PlanRanges(data, d, parts) ==>
              r.end - r.start <= DivCeil(|data|, Min(parts, |data|)) + longest - 1 + Overshoot(d)
  {
    var n := Min(parts, |data|);
    var e := FirstRecord(data, d, 0, longest);
    forall t: nat | 0 < t <= |data| ensures NextBoundary(data, d, t) - t <= longest - 1 + Overshoot(d) {
      DeviationBounded(data, d, longest, t);
    }
    var ts := Targets(|data|, n);
    TargetsBelow(|data|, n);
    FirstTarget(|data|, n);
    TargetsGap(|data|, n, 0);
    assert ts[0..] == ts;
    BalancedFrom(data, d, ts, 0, 0, DivCeil(|data|, n), longest - 1 + Overshoot(d));
  }
}
