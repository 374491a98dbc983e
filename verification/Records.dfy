/** Records of a file, and when a partition plan keeps every record whole. */
module Records {
  import opened Search
  import opened Partition
  import opened PartitionTheorems

  /** Left-to-right split of the bytes `[lo, hi)` on their own: each record runs through its
      first delimiter that fits; the last may lack one. */
  ghost function RecordsIn(data: seq<byte>, d: seq<byte>, lo: nat, hi: nat): seq<Range>
    requires |d| > 0 && lo <= hi <= |data|
    decreases hi - lo
  {
    if lo == hi then []
    else
      var r := FirstFrom(data, d, lo);
      if r.Some? && r.value + |d| <= hi
      then [Range(lo, r.value + |d|)] + RecordsIn(data, d, r.value + |d|, hi)
      else [Range(lo, hi)]
  }

  /** A record may end here: after a delimiter byte, or at the end of the data. */
  predicate RecordEnd(data: seq<byte>, b: byte, e: nat) {
    e == |data| || (0 < e < |data| && data[e - 1] == b)
  }

  lemma RecordsStep(data: seq<byte>, d: seq<byte>, lo: nat, hi: nat, e: nat)
    requires |d| > 0 && lo < hi <= |data| && lo + |d| <= e <= hi
    requires FirstFrom(data, d, lo) == Some(e - |d|)
    ensures RecordsIn(data, d, lo, hi) == [Range(lo, e)] + RecordsIn(data, d, e, hi)
  {
  }

  ghost function Shifted(rs: seq<Range>, offset: nat): (s: seq<Range>)
    ensures |s| == |rs|
  {
    if rs == [] then [] else [Range(rs[0].start + offset, rs[0].end + offset)] + Shifted(rs[1..], offset)
  }

  lemma LastRecord(data: seq<byte>, d: seq<byte>, lo: nat, hi: nat)
    requires |d| > 0 && lo < hi <= |data|
    requires FirstFrom(data, d, lo).Some? ==> hi < FirstFrom(data, d, lo).value + |d|
    ensures RecordsIn(data, d, lo, hi) == [Range(lo, hi)]
  {
  }

  lemma ShiftedStep(k: nat, e: nat, lo: nat, sliceTail: seq<Range>, tail: seq<Range>, slice: seq<Range>,
                    all: seq<Range>)
    requires slice == [Range(k, e)] + sliceTail && all == [Range(lo + k, lo + e)] + tail
    requires Shifted(sliceTail, lo) == tail
    ensures Shifted(slice, lo) == all
  {
    ShiftedCons(Range(k, e), sliceTail, lo);
  }

  /** The split of a stretch depends on its bytes only: it is the split of the slice `s`. */
  lemma {:induction false} RecordsAreLocal(data: seq<byte>, d: seq<byte>, lo: nat, hi: nat, k: nat, s: seq<byte>)
    requires |d| > 0 && lo + k <= hi <= |data| && s == data[lo..hi]
    ensures Shifted(RecordsIn(s, d, k, |s|), lo) == RecordsIn(data, d, lo + k, hi)
    decreases |s| - k
  {
    if k < |s| {
      FirstInWindow(data, d, lo, hi, k);
      var r := FirstFrom(s, d, k);
      if r.Some? {
        var e := r.value + |d|;
        RecordsAreLocal(data, d, lo, hi, e, s);
        RecordsStep(s, d, k, |s|, e);
        RecordsStep(data, d, lo + k, hi, lo + e);
        ShiftedStep(k, e, lo, RecordsIn(s, d, e, |s|), RecordsIn(data, d, lo + e, hi),
                    RecordsIn(s, d, k, |s|), RecordsIn(data, d, lo + k, hi));
      } else {
        LastRecord(s, d, k, |s|);
        LastRecord(data, d, lo + k, hi);
        ShiftedCons(Range(k, |s|), [], lo);
      }
    }
  }

  lemma ShiftedCons(r: Range, rs: seq<Range>, offset: nat)
    ensures Shifted([r] + rs, offset) == [Range(r.start + offset, r.end + offset)] + Shifted(rs, offset)
  {
    assert ([r] + rs)[1..] == rs;
  }

  lemma FirstInWindow(data: seq<byte>, d: seq<byte>, lo: nat, hi: nat, k: nat)
    requires |d| > 0 && lo + k <= hi <= |data|
    ensures var r, s := FirstFrom(data[lo..hi], d, k), FirstFrom(data, d, lo + k);
            && (r.Some? <==> s.Some? && s.value + |d| <= hi)
            && (r.Some? ==> lo + r.value == s.value)
  {
    var r, s := FirstFrom(data[lo..hi], d, k), FirstFrom(data, d, lo + k);
    if r.Some? {
      OccursInSlice(data, d, lo, hi, r.value);
    }
    if s.Some? {
      OccursInSlice(data, d, lo, hi, s.value - lo);
    }
  }

  /** Records tile their stretch. */
  lemma {:induction false} RecordsTile(data: seq<byte>, d: seq<byte>, lo: nat, hi: nat)
    requires |d| > 0 && lo <= hi <= |data|
    ensures Tiles(RecordsIn(data, d, lo, hi), lo, hi)
    ensures RecordAligned(data, d, RecordsIn(data, d, lo, hi))
    decreases hi - lo
  {
    if lo < hi {
      var r := FirstFrom(data, d, lo);
      if r.Some? && r.value + |d| <= hi {
        var rest := RecordsIn(data, d, r.value + |d|, hi);
        var all := RecordsIn(data, d, lo, hi);
        RecordsTile(data, d, r.value + |d|, hi);
        assert all[1..] == rest;
        forall k: nat | k + 1 < |all| ensures EndsAt(data, d, all[k].end) {
          if k > 0 {
            assert all[k] == rest[k - 1];
          }
        }
      } else {
        assert RecordsIn(data, d, lo, hi)[1..] == [];
      }
    }
  }

  lemma {:induction false} RecordsStop(data: seq<byte>, d: seq<byte>, lo: nat, hi: nat)
    requires |d| > 0 && lo <= hi <= |data|
    ensures forall r :: r in RecordsIn(data, d, lo, hi) ==> StopsAt(data, d, r.start, hi, r.end)
    decreases hi - lo
  {
    if lo < hi {
      var f := FirstFrom(data, d, lo);
      if f.Some? && f.value + |d| <= hi {
        RecordsStop(data, d, f.value + |d|, hi);
        assert StopsAt(data, d, lo, hi, f.value + |d|);
      } else {
        assert StopsAt(data, d, lo, hi, hi);
      }
    }
  }

  /** Main theorem: the records of a stretch are the only tiling of it in which every record, the last
      one too, ends behind the first delimiter from its start on that fits, or with the stretch. */
  lemma RecordsAreDetermined(data: seq<byte>, d: seq<byte>, lo: nat, hi: nat, rs: seq<Range>)
    requires |d| > 0 && lo <= hi <= |data|
    ensures rs == RecordsIn(data, d, lo, hi) <==>
            Tiles(rs, lo, hi) && forall r :: r in rs ==> StopsAt(data, d, r.start, hi, r.end)
  {
    var records := RecordsIn(data, d, lo, hi);
    RecordsTile(data, d, lo, hi);
    RecordsStop(data, d, lo, hi);
    if Tiles(rs, lo, hi) && forall r :: r in rs ==> StopsAt(data, d, r.start, hi, r.end) {
      forall a, b | a in rs && b in records && a.start == b.start ensures a.end == b.end {
        StopsOnce(data, d, a.start, hi, a.end, b.end);
      }
      TilesUnique(rs, records, lo, hi);
    }
  }

  /** Some proper prefix of the delimiter is also its suffix. */
  predicate SelfOverlapping(d: seq<byte>) {
    exists k: nat :: 0 < k < |d| && d[..k] == d[|d| - k..]
  }

  /** The records found by splitting each range on its own, in order. */
  ghost function RangeRecords(data: seq<byte>, d: seq<byte>, rs: seq<Range>): seq<Range>
    requires |d| > 0 && forall r :: r in rs ==> r.start <= r.end <= |data|
  {
    if rs == [] then []
    else RecordsIn(data, d, rs[0].start, rs[0].end) + RangeRecords(data, d, rs[1..])
  }

  lemma OverlapIsBorder(data: seq<byte>, d: seq<byte>, p: nat, q: nat)
    requires OccursAt(data, d, p) && OccursAt(data, d, q) && p < q < p + |d|
    ensures SelfOverlapping(d)
  {
    var k := p + |d| - q;
    assert d[..k] == data[q..q + |d|][..k] == data[q..q + k];
    assert d[|d| - k..] == data[p..p + |d|][|d| - k..] == data[q..q + k];
  }

  /** Record ends of a delimiter without border are at least a delimiter apart. */
  lemma EndsApart(data: seq<byte>, d: seq<byte>, a: nat, b: nat)
    requires |d| > 0 && !SelfOverlapping(d)
    requires EndsAt(data, d, a) && EndsAt(data, d, b) && a < b
    ensures a + |d| <= b
  {
    if b < a + |d| {
      OverlapIsBorder(data, d, a - |d|, b - |d|);
    }
  }

  lemma FirstEnd(data: seq<byte>, d: seq<byte>, lo: nat, b: nat) returns (e: nat)
    requires |d| > 0 && lo + |d| <= b <= |data| && EndsAt(data, d, b)
    ensures lo + |d| <= e <= b && EndsAt(data, d, e) && FirstFrom(data, d, lo) == Some(e - |d|)
  {
    assert OccursAt(data, d, b - |d|);
    e := FirstFrom(data, d, lo).value + |d|;
  }

  /** Splitting a stretch at a record end splits its record list there. */
  lemma {:induction false} SplitAtRecordEnd(data: seq<byte>, d: seq<byte>, lo: nat, b: nat, hi: nat)
    requires |d| > 0 && !SelfOverlapping(d) && lo + |d| <= b <= hi <= |data| && EndsAt(data, d, b)
    ensures RecordsIn(data, d, lo, hi) == RecordsIn(data, d, lo, b) + RecordsIn(data, d, b, hi)
    decreases b - lo
  {
    var e := FirstEnd(data, d, lo, b);
    RecordsStep(data, d, lo, hi, e);
    RecordsStep(data, d, lo, b, e);
    if e < b {
      EndsApart(data, d, e, b);
      SplitAtRecordEnd(data, d, e, b, hi);
    }
  }

  lemma AlignedTail(data: seq<byte>, d: seq<byte>, rs: seq<Range>)
    requires rs != [] && RecordAligned(data, d, rs)
    ensures RecordAligned(data, d, rs[1..])
  {
    forall k: nat | k + 1 < |rs[1..]| ensures EndsAt(data, d, rs[1..][k].end) {
      assert EndsAt(data, d, rs[k + 1].end);
    }
  }

  lemma {:induction false} AlignedTilesKeepRecords(data: seq<byte>, d: seq<byte>, rs: seq<Range>, lo: nat)
    requires |d| > 0 && !SelfOverlapping(d) && lo <= |data| && (lo == 0 || EndsAt(data, d, lo))
    requires Tiles(rs, lo, |data|) && RecordAligned(data, d, rs)
    requires forall r :: r in rs ==> r.start <= r.end <= |data|
    ensures RangeRecords(data, d, rs) == RecordsIn(data, d, lo, |data|)
    decreases |rs|
  {
    if |rs| == 1 {
      assert rs[1..] == [];
    } else if rs != [] {
      var e := rs[0].end;
      assert EndsAt(data, d, rs[0].end);
      if lo > 0 {
        EndsApart(data, d, lo, e);
      }
      SplitAtRecordEnd(data, d, lo, e, |data|);
      AlignedTail(data, d, rs);
      AlignedTilesKeepRecords(data, d, rs[1..], e);
    }
  }

  /** Splitting every planned range on its own gives exactly the records of the whole file. */
  ghost predicate KeepsRecords(data: seq<byte>, d: seq<byte>, parts: nat)
    requires |d| > 0 && parts > 0
  {
    PlanShape(data, d, parts);
    TilesInBounds(PlanRanges(data, d, parts), 0, |data|);
    RangeRecords(data, d, PlanRanges(data, d, parts)) == RecordsIn(data, d, 0, |data|)
  }

  lemma RecordsKept(data: seq<byte>, d: seq<byte>, parts: nat)
    requires |d| > 0 && parts > 0 && !SelfOverlapping(d)
    ensures KeepsRecords(data, d, parts)
  {
    PlanShape(data, d, parts);
    TilesInBounds(PlanRanges(data, d, parts), 0, |data|);
    AlignedTilesKeepRecords(data, d, PlanRanges(data, d, parts), 0);
  }

  // ----- and only then

  /** A delimiter with a border, overlapped by a second copy of itself and one more byte: the
      planner's first cut falls after the overlapping copy, inside the second record. */
  ghost function OverlapInput(d: seq<byte>, shift: nat): seq<byte>
    requires shift < |d|
  {
    d[..shift] + d + [0]
  }

  lemma OverlapOccurs(d: seq<byte>, shift: nat)
    requires 0 < shift < |d| && d[..|d| - shift] == d[shift..]
    ensures var data := OverlapInput(d, shift); OccursAt(data, d, 0) && OccursAt(data, d, shift)
  {
    var data := OverlapInput(d, shift);
    assert data[shift..shift + |d|] == d;
    assert data[..|d|] == d[..shift] + d[..|d| - shift] == d[..shift] + d[shift..] == d;
  }

  /** Fewer bytes than a delimiter, or exactly as many, are one record. */
  lemma ShortStretch(data: seq<byte>, d: seq<byte>, lo: nat)
    requires |d| > 0 && lo < |data| <= lo + |d|
    ensures |RecordsIn(data, d, lo, |data|)| == 1
  {
  }

  lemma FirstCutOfDense(data: seq<byte>, d: seq<byte>, s: nat)
    requires |d| > 1 && |data| > 1 && FirstFrom(data, d, 1) == Some(s) && s + |d| < |data|
    ensures var rs := PlanRanges(data, d, |data|);
            |rs| >= 2 && rs[0] == Range(0, s + |d|)
  {
    var b := s + |d|;
    DenseTargets(data, d, |data|);
    assert NextBoundary(data, d, 1) == b;
    var ts := Targets(|data|, |data|);
    var rest := DenseCuts(data, d, 2, b);
    assert Cuts(data, d, ts, 0) == [b] + rest;
    assert ([b] + rest)[1..] == rest;
    TargetsBelow(|data|, |data|);
    CutsAreGood(data, d, ts, 0);
    RangesOfGoodCuts(data, d, b, rest);
    assert PlanRanges(data, d, |data|) == [Range(0, b)] + RangesOf(|data|, b, rest);
  }

  lemma ThreePieces(data: seq<byte>, d: seq<byte>, rs: seq<Range>, b: nat)
    requires |d| > 0 && OccursAt(data, d, 0) && |d| < b <= |data|
    requires |rs| >= 2 && rs[0] == Range(0, b)
    requires forall r :: r in rs ==> r.start < r.end <= |data|
    ensures |RangeRecords(data, d, rs)| >= 3
  {
    assert RecordsIn(data, d, |d|, b) != [];
    assert |RecordsIn(data, d, 0, b)| >= 2;
    assert rs[1..][0] in rs;
    assert |RangeRecords(data, d, rs[1..])| >= 1;
  }

  lemma OverlapSplitsRecord(d: seq<byte>, shift: nat)
    requires 0 < shift < |d| && d[..|d| - shift] == d[shift..]
    ensures var data := OverlapInput(d, shift); !KeepsRecords(data, d, |data|)
  {
    var data := OverlapInput(d, shift);
    OverlapOccurs(d, shift);
    ShortStretch(data, d, |d|);
    assert |RecordsIn(data, d, 0, |data|)| == 2;
    var s := FirstFrom(data, d, 1).value;
    FirstCutOfDense(data, d, s);
    PlanShape(data, d, |data|);
    TilesInBounds(PlanRanges(data, d, |data|), 0, |data|);
    ThreePieces(data, d, PlanRanges(data, d, |data|), s + |d|);
  }

  /** Main theorem: plans keep every record whole, for all files and counts, exactly when the
      delimiter has no border. One-byte delimiters and CRLF have none; the doubled CRLF of the
      HTTP-style framing, which the documentation also promises, has one. */
  lemma RecordsKeptIffNoBorder(d: seq<byte>)
    requires |d| > 0
    ensures (forall data: seq<byte>, parts: nat :: parts > 0 ==> KeepsRecords(data, d, parts)) <==>
            !SelfOverlapping(d)
  {
    if SelfOverlapping(d) {
      var k: nat :| 0 < k < |d| && d[..k] == d[|d| - k..];
      OverlapSplitsRecord(d, |d| - k);
      var data := OverlapInput(d, |d| - k);
      assert !KeepsRecords(data, d, |data|);
    } else {
      forall data: seq<byte>, parts: nat | parts > 0 ensures KeepsRecords(data, d, parts) {
        RecordsKept(data, d, parts);
      }
    }
  }

  lemma DelimiterBorders()
    ensures SelfOverlapping([13, 10, 13, 10])
    ensures !SelfOverlapping([13, 10])
    ensures forall b: byte :: !SelfOverlapping([b])
  {
    var d: seq<byte> := [13, 10, 13, 10];
    assert d[..2] == d[4 - 2..];
    var crlf: seq<byte> := [13, 10];
    assert crlf[..1][0] == 13 && crlf[1..][0] == 10;
  }
}
