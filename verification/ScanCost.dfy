/** How many bytes the forward searches of one plan look at. The documentation promises at most the
    length of the file; the word-at-a-time search looks past its answer, so that holds for every file
    only up to two partitions. */
module ScanCost {
  import opened Search
  import opened Swar
  import opened Partition
  import opened PartitionTheorems

  /** A search looks at its whole stretch, and at most seven bytes further. */
  lemma SpanCostBounds(len: nat, address: nat, s: Range)
    requires s.start < s.end <= len
    ensures Length(s) <= SpanCost(len, address, s) <= Min(s.end + 7, len) - s.start
  {
    InspectedBounds(len - s.start, address + s.start, s.end - 1 - s.start);
  }

  lemma SpanCostOfEmpty(len: nat, address: nat, s: Range)
    requires s.end <= s.start
    ensures SpanCost(len, address, s) == 0 && Length(s) == 0
  {
  }

  /** Each search but the last may look six bytes further than the next target allows. */
  lemma {:induction false} CostOfDisjoint(spans: seq<Range>, last: nat, len: nat, address: nat)
    requires Disjoint(spans, last, len)
    ensures TotalLength(spans) <= SearchCost(spans, len, address)
    ensures spans != [] ==> SearchCost(spans, len, address) <= len - spans[0].start + 6 * (|spans| - 1)
    decreases |spans|
  {
    if spans != [] {
      var s := spans[0];
      CostOfDisjoint(spans[1..], s.end, len, address);
      if s.start < s.end {
        SpanCostBounds(len, address, s);
      } else {
        SpanCostOfEmpty(len, address, s);
      }
    }
  }

  lemma {:induction false} SpansOfTargets(data: seq<byte>, d: seq<byte>, ts: seq<nat>, last: nat, a: nat)
    requires |d| > 0 && forall k: nat :: k < |ts| ==> a <= ts[k]
    ensures var spans := SearchSpans(data, d, ts, last);
            |spans| <= |ts| && (spans != [] ==> a <= spans[0].start)
    decreases |ts|
  {
    if ts != [] {
      SpansOfTargets(data, d, ts[1..], last, a);
      SpansOfTargets(data, d, ts[1..], NextBoundary(data, d, ts[0]), a);
    }
  }

  lemma FirstTargetIsLeast(len: nat, n: nat)
    requires 0 < n
    ensures forall k: nat :: k < |Targets(len, n)| ==> len / n <= Targets(len, n)[k]
  {
    forall k: nat | k < |Targets(len, n)| ensures len / n <= Targets(len, n)[k] {
      MulMono(1, k + 1, len);
      DivMono(len, len * (k + 1), n);
    }
  }

  /** Main theorem: the searches of one plan look at every stretch completely, and in all at no more
      than the file from its first target on, plus six bytes for every search after the first. */
  lemma ScanIsBounded(data: seq<byte>, d: seq<byte>, parts: nat, address: nat)
    requires |d| > 0 && data != [] && parts > 0
    ensures var n, spans := Min(parts, |data|), PlanSpans(data, d, parts);
            && TotalLength(spans) <= SearchCost(spans, |data|, address)
            && |spans| <= n - 1
            && (spans != [] ==> SearchCost(spans, |data|, address) <= |data| - |data| / n + 6 * (n - 2))
  {
    var n := Min(parts, |data|);
    TargetsBelow(|data|, n);
    SpansAreDisjoint(data, d, Targets(|data|, n), 0);
    CostOfDisjoint(PlanSpans(data, d, parts), 0, |data|, address);
    FirstTargetIsLeast(|data|, n);
    SpansOfTargets(data, d, Targets(|data|, n), 0, |data| / n);
  }

  /** The documented bound: all forward searches together look at no more bytes than the file has. */
  ghost predicate ScansWithinFile(data: seq<byte>, b: byte, parts: nat, address: nat) {
    SearchCost(PlanSpans(data, [b], parts), |data|, address) <= |data|
  }

  /** The documented bound holds for every file whose partitions are long enough for their number. */
  lemma LongPartitionsScanWithinFile(data: seq<byte>, b: byte, parts: nat, address: nat)
    requires parts <= 2 || (parts <= |data| && |data| / parts >= 6 * (parts - 2))
    ensures ScansWithinFile(data, b, parts, address)
  {
    if data != [] && parts > 0 {
      ScanIsBounded(data, [b], parts, address);
    }
  }

  // ----- and fails from three partitions on

  /** `4 * n + 1` bytes whose only delimiter stands at offset 5, between the first two of `n - 1` targets. */
  ghost function OneDelimiter(n: nat): (data: seq<byte>)
    requires n >= 3
    ensures |data| == 4 * n + 1 && forall q: nat :: q < |data| ==> (data[q] == 1 <==> q == 5)
  {
    seq(4 * n + 1, k => if k == 5 then 1 else 0)
  }

  lemma FirstTwoTargets(n: nat)
    requires n >= 3
    ensures Target(4 * n + 1, 1, n) == 4 && Target(4 * n + 1, 2, n) == 8
  {
    DivAtLeast((4 * n + 1) * 1, n, 4);
    DivAtMost((4 * n + 1) * 1, n, 4);
    DivAtLeast((4 * n + 1) * 2, n, 8);
    DivAtMost((4 * n + 1) * 2, n, 8);
  }

  lemma BoundariesOfOneDelimiter(n: nat)
    requires n >= 3
    ensures var data := OneDelimiter(n);
            && !EndsAt(data, [1], 4) && NextBoundary(data, [1], 4) == 6
            && !EndsAt(data, [1], 8) && NextBoundary(data, [1], 8) == |data|
  {
    var data := OneDelimiter(n);
    forall p: nat ensures OccursAt(data, [1], p) <==> p == 5 {
      OccursByte(data, 1, p);
    }
    assert OccursAt(data, [1], 5);
  }

  lemma SpansOfOneDelimiter(data: seq<byte>, ts: seq<nat>)
    requires |ts| >= 2 && ts[0] == 4 && ts[1] == 8 && Below(ts, |data|)
    requires !EndsAt(data, [1], 4) && NextBoundary(data, [1], 4) == 6
    requires !EndsAt(data, [1], 8) && NextBoundary(data, [1], 8) == |data|
    ensures SearchSpans(data, [1], ts, 0) == [Range(4, 6), Range(8, |data|)]
  {
    var d: seq<byte> := [1];
    CutsAfterEnd(data, d, ts[1..][1..], |data|);
    assert SearchSpans(data, d, ts[1..], 6) == [Range(8, |data|)];
  }

  lemma CostOfTwo(a: Range, b: Range, len: nat, address: nat)
    ensures SearchCost([a, b], len, address) == SpanCost(len, address, a) + SpanCost(len, address, b)
  {
    SearchCostSnoc([a], b, len, address);
    SearchCostSnoc([], a, len, address);
    assert [] + [a] == [a] && [a] + [b] == [a, b];
  }

  /** From an address that is 3 modulo 8, the search from offset 4 looks at nine bytes to find offset
      5, and the search from offset 8 looks at the rest: one byte more than the file has. */
  lemma WordsExceedFile(n: nat)
    requires n >= 3
    ensures var data := OneDelimiter(n);
            SearchCost(PlanSpans(data, [1], n), |data|, 3) == |data| + 1
  {
    var data := OneDelimiter(n);
    FirstTwoTargets(n);
    TargetsBelow(|data|, n);
    BoundariesOfOneDelimiter(n);
    SpansOfOneDelimiter(data, Targets(|data|, n));
    CostOfTwo(Range(4, 6), Range(8, |data|), |data|, 3);
    LastInspected(|data| - 8, 3 + 8);
  }

  /** Main theorem: the documented bound holds for all files, delimiters and addresses exactly up to
      two requested partitions. */
  lemma ScansWithinFileIffTwoParts(parts: nat)
    ensures (forall data: seq<byte>, b: byte, address: nat :: ScansWithinFile(data, b, parts, address)) <==> parts <= 2
  {
    if parts <= 2 {
      forall data: seq<byte>, b: byte, address: nat ensures ScansWithinFile(data, b, parts, address) {
        LongPartitionsScanWithinFile(data, b, parts, address);
      }
    } else {
      WordsExceedFile(parts);
      assert !ScansWithinFile(OneDelimiter(parts), 1, parts, 3);
    }
  }

  /** The multi-byte searches of one plan look at no more than `|d| + 8` bytes for each byte of the file. */
  lemma PatternScanIsBounded(data: seq<byte>, d: seq<byte>, parts: nat, start: nat, bytes: nat)
    requires |d| > 0 && Budget(|d| + 8, start, TotalLength(PlanSpans(data, d, parts)), bytes)
    ensures bytes <= start + (|d| + 8) * |data|
  {
    var total := TotalLength(PlanSpans(data, d, parts));
    SearchIsBounded(data, d, parts);
    TimesSum(|d| + 8, total, |data| - total);
    TimesIsProduct(|d| + 8, |data|);
  }
}
