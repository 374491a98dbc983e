/** What holds only for one-byte delimiters: the plan is the image of the ideal targets, and a
    remembered boundary is a fresh one. */
module OneByte {
  import opened Search
  import opened Partition
  import opened PartitionTheorems
  import opened Records

  /** Independent meaning of the boundary of a target: the least record end at or after it. */
  lemma BoundaryIsLeastRecordEnd(data: seq<byte>, b: byte, t: nat, e: nat)
    requires 0 < t <= |data|
    ensures e == NextBoundary(data, [b], t) <==>
            t <= e && RecordEnd(data, b, e) && forall u: nat :: t <= u < e ==> !RecordEnd(data, b, u)
  {
    var n := NextBoundary(data, [b], t);
    assert RecordEnd(data, b, n) by {
      if n < |data| {
        OccursByte(data, b, n - 1);
      }
    }
    forall u: nat | t <= u < n ensures !RecordEnd(data, b, u) {
      OccursByte(data, b, u - 1);
      OccursByte(data, b, t - 1);
    }
  }

  /** Between a target and its boundary every target has the same boundary. */
  lemma BoundaryIsClosed(data: seq<byte>, b: byte, t: nat, u: nat)
    requires 0 < t <= u <= |data| && u <= NextBoundary(data, [b], t)
    ensures NextBoundary(data, [b], u) == NextBoundary(data, [b], t)
  {
    BoundaryIsLeastRecordEnd(data, b, t, NextBoundary(data, [b], t));
    BoundaryIsLeastRecordEnd(data, b, u, NextBoundary(data, [b], t));
  }

  /** Targets in ascending order from `a`. */
  ghost predicate Ascending(ts: seq<nat>, a: nat)
    decreases |ts|
  {
    ts != [] ==> a <= ts[0] && Ascending(ts[1..], ts[0])
  }

  lemma {:induction false} TargetsAscend(len: nat, n: nat, i: nat)
    requires 0 < n && i < n
    ensures Ascending(Targets(len, n)[i..], Target(len, i, n))
    decreases n - i
  {
    if i < n - 1 {
      var ts := Targets(len, n);
      MulMono(i, i + 1, len);
      DivMono(len * i, len * (i + 1), n);
      TargetsAscend(len, n, i + 1);
      assert ts[i..][1..] == ts[i + 1..] && ts[i..][0] == Target(len, i + 1, n);
    }
  }

  lemma TargetPositive(len: nat, i: nat, n: nat)
    requires 0 < n <= len && 0 < i
    ensures 0 < Target(len, i, n)
  {
    MulMono(1, i, len);
    DivAtLeast(len * i, n, 1);
  }

  /** The cuts are exactly the boundaries of the targets. */
  ghost predicate CutsAreImage(data: seq<byte>, d: seq<byte>, n: nat)
    requires |d| > 0 && 0 < n
  {
    var ts := Targets(|data|, n);
    && (forall c :: c in Cuts(data, d, ts, 0) ==> exists t :: t in ts && c == NextBoundary(data, d, t))
    && (forall t :: t in ts ==> NextBoundary(data, d, t) in Cuts(data, d, ts, 0))
  }

  /** `last` is 0, or the boundary of an earlier target `a`. */
  lemma {:induction false} ImageOf(data: seq<byte>, b: byte, ts: seq<nat>, a: nat, last: nat)
    requires Below(ts, |data|) && Ascending(ts, a) && (forall k: nat :: k < |ts| ==> 0 < ts[k])
    requires last == 0 || (0 < a <= |data| && last == NextBoundary(data, [b], a))
    ensures forall c :: c in Cuts(data, [b], ts, last) ==> exists t :: t in ts && c == NextBoundary(data, [b], t)
    ensures forall t :: t in ts ==>
              NextBoundary(data, [b], t) == last || NextBoundary(data, [b], t) in Cuts(data, [b], ts, last)
    decreases |ts|
  {
    if ts != [] {
      var t := ts[0];
      var c := NextBoundary(data, [b], t);
      if t <= last {
        BoundaryIsClosed(data, b, a, t);
        ImageOf(data, b, ts[1..], t, last);
      } else {
        ImageOf(data, b, ts[1..], t, c);
      }
      HeadOrTail(ts);
    }
  }

  lemma HeadOrTail(ts: seq<nat>)
    requires ts != []
    ensures forall t :: t in ts <==> t == ts[0] || t in ts[1..]
  {
  }

  lemma OneByteImage(data: seq<byte>, b: byte, n: nat)
    requires 0 < n <= |data|
    ensures CutsAreImage(data, [b], n)
  {
    var ts := Targets(|data|, n);
    TargetsBelow(|data|, n);
    FirstTarget(|data|, n);
    TargetsAscend(|data|, n, 0);
    assert ts[0..] == ts;
    forall k: nat | k < |ts| ensures 0 < ts[k] {
      TargetPositive(|data|, k + 1, n);
    }
    ImageOf(data, b, ts, 0, 0);
    forall t | t in ts ensures NextBoundary(data, [b], t) in Cuts(data, [b], ts, 0) {
      assert NextBoundary(data, [b], t) != 0;
    }
  }

  lemma TargetOfDense(n: nat, i: nat)
    requires 0 < n
    ensures Target(n, i, n) == i
  {
    DivAtLeast(n * i, n, i);
    assert (i + 1) * n == n * i + n;
    DivAtMost(n * i, n, i);
  }

  /** A delimiter of two or more bytes: the target inside the leading delimiter jumps past the
      boundary right behind it. */
  lemma MultiByteLosesCut(d: seq<byte>)
    requires |d| > 1
    ensures var data := d + [0]; !CutsAreImage(data, d, |data|)
  {
    var data := d + [0];
    var n := |data|;
    var ts := Targets(n, n);
    TargetOfDense(n, |d|);
    assert ts[|d| - 1] == |d|;
    assert OccursAt(data, d, 0);
    assert NextBoundary(data, d, |d|) == |d|;
    assert NextBoundary(data, d, 1) == n;
    DenseTargets(data, d, n);
    DenseAfterEnd(data, d, 2, n);
    assert Cuts(data, d, ts, 0) == [n];
  }

  lemma {:induction false} DenseAfterEnd(data: seq<byte>, d: seq<byte>, t: nat, last: nat)
    requires |d| > 0 && t <= |data| <= last
    ensures DenseCuts(data, d, t, last) == []
    decreases |data| - t
  {
    if t < |data| {
      DenseAfterEnd(data, d, t + 1, last);
    }
  }

  /** Main theorem: skipping collapsed targets and stopping early lose no cut, for all files
      and counts, exactly when the delimiter is one byte long. */
  lemma ImageIffOneByte(d: seq<byte>)
    requires |d| > 0
    ensures (forall data: seq<byte>, n: nat :: 0 < n <= |data| ==> CutsAreImage(data, d, n)) <==> |d| == 1
  {
    if |d| == 1 {
      assert d == [d[0]];
      forall data: seq<byte>, n: nat | 0 < n <= |data| ensures CutsAreImage(data, d, n) {
        OneByteImage(data, d[0], n);
      }
    } else {
      MultiByteLosesCut(d);
      var data := d + [0];
      assert !CutsAreImage(data, d, |data|);
    }
  }

  /** A boundary remembered for target `t` answers every later target below it. */
  ghost predicate RememberedIsFresh(data: seq<byte>, d: seq<byte>, t: nat, u: nat)
    requires |d| > 0
  {
    0 < t <= u < NextBoundary(data, d, t) ==> NextBoundary(data, d, u) == NextBoundary(data, d, t)
  }

  /** Main theorem: reusing a remembered boundary instead of searching again is right for all files
      and ascending targets exactly when the delimiter is one byte long. */
  lemma RememberedIsFreshIffOneByte(d: seq<byte>)
    requires |d| > 0
    ensures (forall data: seq<byte>, t: nat, u: nat :: RememberedIsFresh(data, d, t, u)) <==> |d| == 1
  {
    if |d| == 1 {
      assert d == [d[0]];
      forall data: seq<byte>, t: nat, u: nat ensures RememberedIsFresh(data, d, t, u) {
        if 0 < t <= u < NextBoundary(data, d, t) {
          BoundaryIsClosed(data, d[0], t, u);
        }
      }
    } else {
      var data := d + [0];
      assert OccursAt(data, d, 0);
      assert NextBoundary(data, d, 1) == |data| && NextBoundary(data, d, |d|) == |d|;
      assert !RememberedIsFresh(data, d, 1, |d|);
    }
  }
}
