/** How many partitions a plan has, compared with the records of the file: the documentation
    promises no more partitions than records. */
module RecordCount {
  import opened Search
  import opened Swar
  import opened Partition
  import opened PartitionTheorems
  import opened Records

  /** The documented edge case: no more partitions than records. */
  ghost predicate WithinRecords(data: seq<byte>, d: seq<byte>, parts: nat)
    requires |d| > 0
  {
    |PlanRanges(data, d, parts)| <= |RecordsIn(data, d, 0, |data|)|
  }

  lemma {:induction false} RangesHoldRecords(data: seq<byte>, d: seq<byte>, rs: seq<Range>)
    requires |d| > 0 && forall r :: r in rs ==> r.start < r.end <= |data|
    ensures |rs| <= |RangeRecords(data, d, rs)|
    decreases |rs|
  {
    if rs != [] {
      RangesHoldRecords(data, d, rs[1..]);
      assert rs[0] in rs;
      assert |RecordsIn(data, d, rs[0].start, rs[0].end)| >= 1;
    }
  }

  lemma NoBorderWithinRecords(data: seq<byte>, d: seq<byte>, parts: nat)
    requires |d| > 0 && !SelfOverlapping(d)
    ensures WithinRecords(data, d, parts)
  {
    if parts > 0 {
      RecordsKept(data, d, parts);
      PlanShape(data, d, parts);
      TilesInBounds(PlanRanges(data, d, parts), 0, |data|);
      RangesHoldRecords(data, d, PlanRanges(data, d, parts));
    }
  }

  // ----- and only then

  /** The delimiter repeats itself at distance `s`, shorter than itself. */
  ghost predicate Period(d: seq<byte>, s: nat) {
    0 < s < |d| && forall j: nat :: s <= j < |d| ==> d[j] == d[j - s]
  }

  lemma BorderIsPeriod(d: seq<byte>, k: nat)
    requires 0 < k < |d| && d[..k] == d[|d| - k..]
    ensures Period(d, |d| - k)
  {
    var s := |d| - k;
    forall j: nat | s <= j < |d| ensures d[j] == d[j - s] {
      assert d[s..][j - s] == d[..k][j - s];
    }
  }

  /** The remainder of `i` by `s`, by repeated subtraction. */
  ghost function Phase(i: nat, s: nat): (p: nat)
    requires 0 < s
    ensures p < s
  {
    if i < s then i else Phase(i - s, s)
  }

  lemma {:induction false} PhaseOfDelimiter(d: seq<byte>, s: nat, j: nat)
    requires Period(d, s) && j < |d|
    ensures d[j] == d[Phase(j, s)]
  {
    if s <= j {
      PhaseOfDelimiter(d, s, j - s);
    }
  }

  lemma {:induction false} PhaseShift(s: nat, m: nat, j: nat)
    requires 0 < s
    ensures Phase(s * m + j, s) == Phase(j, s)
  {
    if m > 0 {
      PhaseShift(s, m - 1, j);
      assert s * m == s * (m - 1) + s;
    } else {
      assert s * m == 0;
    }
  }

  /** `n` periods, placed so that a delimiter ends at every multiple of the period. */
  ghost function Periods(d: seq<byte>, s: nat, n: nat): (data: seq<byte>)
    requires 0 < s < |d|
    ensures |data| == s * n
  {
    seq(s * n, i requires 0 <= i < s * n => d[Phase(i + |d|, s)])
  }

  lemma PeriodsEnd(d: seq<byte>, s: nat, n: nat, m: nat)
    requires Period(d, s) && |d| <= s * m <= s * n
    ensures EndsAt(Periods(d, s, n), d, s * m)
  {
    var data := Periods(d, s, n);
    var p := s * m - |d|;
    forall j: nat | j < |d| ensures data[p + j] == d[j] {
      PhaseShift(s, m, j);
      PhaseOfDelimiter(d, s, j);
    }
    assert data[p..p + |d|] == d;
  }

  lemma PeriodTargets(s: nat, n: nat, i: nat)
    requires 0 < n
    ensures Target(s * n, i, n) == s * i
  {
    assert s * n * i == (s * i) * n;
    DivAtLeast((s * i) * n, n, s * i);
    assert (s * i + 1) * n == (s * i) * n + n;
    DivAtMost((s * i) * n, n, s * i);
  }

  /** Targets in strictly ascending order. */
  ghost predicate Climbing(ts: seq<nat>) {
    forall i: nat, j: nat :: i < j < |ts| ==> ts[i] < ts[j]
  }

  /** Targets where a delimiter ends are all cut, once the cuts before them are passed. */
  lemma {:induction false} ExactTargetsAreCut(data: seq<byte>, d: seq<byte>, ts: seq<nat>, last: nat, skip: nat)
    requires |d| > 0 && Climbing(ts)
    requires forall k: nat :: k < |ts| && last < ts[k] ==> EndsAt(data, d, ts[k])
    requires forall k: nat :: skip <= k < |ts| ==> last < ts[k]
    ensures |ts| - skip <= |Cuts(data, d, ts, last)|
    decreases |ts|
  {
    if ts != [] {
      if ts[0] <= last {
        ExactTargetsAreCut(data, d, ts[1..], last, skip - 1);
      } else {
        ExactTargetsAreCut(data, d, ts[1..], ts[0], 0);
      }
    }
  }

  lemma {:induction false} RangePerCut(data: seq<byte>, d: seq<byte>, last: nat, cuts: seq<nat>)
    requires GoodCuts(data, d, last, cuts)
    ensures |cuts| <= |RangesOf(|data|, last, cuts)|
    decreases |cuts|
  {
    if cuts != [] {
      RangePerCut(data, d, cuts[0], cuts[1..]);
    }
  }

  /** Every record but the last is at least a delimiter long. */
  lemma {:induction false} RecordsAreLong(data: seq<byte>, d: seq<byte>, lo: nat, hi: nat)
    requires |d| > 0 && lo < hi <= |data|
    ensures |RecordsIn(data, d, lo, hi)| >= 1
    ensures Times(|d|, |RecordsIn(data, d, lo, hi)| - 1) <= hi - lo
    decreases hi - lo
  {
    var f := FirstFrom(data, d, lo);
    if f.Some? && f.value + |d| <= hi {
      var e := f.value + |d|;
      RecordsStep(data, d, lo, hi, e);
      if e < hi {
        RecordsAreLong(data, d, e, hi);
      }
    }
  }

  /** The first target of a periodic file moves by a few periods at most. */
  lemma FirstPeriodCut(d: seq<byte>, s: nat, n: nat)
    requires Period(d, s) && |d| + 1 < n
    ensures var b := NextBoundary(Periods(d, s, n), d, s); s < b <= s * (|d| + 1) && |d| < b
  {
    var data := Periods(d, s, n);
    MulMono(|d| + 1, n, s);
    assert s * (|d| + 1) == s * |d| + s;
    MulMono(1, s, |d|);
    PeriodsEnd(d, s, n, |d| + 1);
    assert OccursAt(data, d, s * (|d| + 1) - |d|);
  }

  /** So many periods that all but a few of their ends outnumber the delimiters that fit. */
  ghost function PeriodCount(d: seq<byte>): nat {
    (|d| + 1) * (|d| + 1)
  }

  lemma PeriodTargetsExact(d: seq<byte>, s: nat, n: nat, b: nat, k: nat)
    requires Period(d, s) && k < n && |d| < b < s * k
    ensures EndsAt(Periods(d, s, n), d, s * k)
  {
    MulMono(k, n, s);
    PeriodsEnd(d, s, n, k);
  }

  /** The targets after the first: each is `s` times its number. */
  ghost predicate Multiples(ts: seq<nat>, s: nat, from: nat) {
    forall k: nat :: k < |ts| ==> ts[k] == s * (from + k)
  }

  lemma MultiplesClimb(ts: seq<nat>, s: nat, from: nat)
    requires 0 < s && Multiples(ts, s, from)
    ensures Climbing(ts)
  {
    forall i: nat, j: nat | i < j < |ts| ensures ts[i] < ts[j] {
      MulMono(from + i + 1, from + j, s);
      assert s * (from + i + 1) == s * (from + i) + s;
    }
  }

  lemma PeriodTargetList(s: nat, n: nat)
    requires 0 < n
    ensures Multiples(Targets(s * n, n), s, 1)
  {
    forall k: nat | k < n - 1 ensures Targets(s * n, n)[k] == s * (1 + k) {
      PeriodTargets(s, n, k + 1);
    }
  }

  lemma CutsOfRest(d: seq<byte>, s: nat, n: nat, ts: seq<nat>, b: nat)
    requires Period(d, s) && Multiples(ts, s, 2) && |ts| + 2 == n && |d| < b <= s * (|d| + 1)
    ensures |ts| - |d| <= |Cuts(Periods(d, s, n), d, ts, b)|
  {
    var data := Periods(d, s, n);
    MultiplesClimb(ts, s, 2);
    forall k: nat | k < |ts| && b < ts[k] ensures EndsAt(data, d, ts[k]) {
      PeriodTargetsExact(d, s, n, b, 2 + k);
    }
    forall k: nat | |d| <= k < |ts| ensures b < ts[k] {
      MulMono(|d| + 2, 2 + k, s);
      assert s * (|d| + 2) == s * (|d| + 1) + s;
    }
    ExactTargetsAreCut(data, d, ts, b, |d|);
  }

  /** Almost every period is a range of its own. */
  lemma PeriodRanges(d: seq<byte>, s: nat, n: nat)
    requires Period(d, s) && |d| + 1 < n
    ensures n - 1 - |d| <= |PlanRanges(Periods(d, s, n), d, n)|
  {
    var data := Periods(d, s, n);
    MulMono(1, s, n);
    PeriodTargetList(s, n);
    var ts := Targets(|data|, n);
    FirstPeriodCut(d, s, n);
    var b := NextBoundary(data, d, s);
    PeriodFirstTarget(ts, s);
    CutsOfRest(d, s, n, ts[1..], b);
    assert Cuts(data, d, ts, 0) == [b] + Cuts(data, d, ts[1..], b);
    TargetsBelow(|data|, n);
    CutsAreGood(data, d, ts, 0);
    RangePerCut(data, d, 0, Cuts(data, d, ts, 0));
  }

  lemma PeriodFirstTarget(ts: seq<nat>, s: nat)
    requires ts != [] && Multiples(ts, s, 1)
    ensures ts[0] == s && Multiples(ts[1..], s, 2)
  {
    assert ts[0] == s * (1 + 0);
    forall k: nat | k < |ts[1..]| ensures ts[1..][k] == s * (2 + k) {
      assert ts[k + 1] == s * (1 + (k + 1));
    }
  }

  /** Fewer than `n` periods of delimiters fit `n` shorter periods. */
  lemma TooManyRecords(len: nat, s: nat, n: nat, records: nat)
    requires 0 < s < len && n == (len + 1) * (len + 1) && n - 1 - len <= records
    ensures len * (records - 1) > s * n
  {
    MulMono(n - 2 - len, records - 1, len);
    assert len * (n - 2 - len) == len * n - 2 * len - len * len;
    assert n == len * len + 2 * len + 1;
    MulMono(s, len - 1, n);
    assert n * (len - 1) == len * n - n;
  }

  lemma BorderBeyondRecords(d: seq<byte>, s: nat)
    requires Period(d, s)
    ensures var n := PeriodCount(d); !WithinRecords(Periods(d, s, n), d, n)
  {
    var n := PeriodCount(d);
    var data := Periods(d, s, n);
    assert n == |d| * |d| + 2 * |d| + 1;
    PeriodRanges(d, s, n);
    MulMono(1, s, n);
    RecordsAreLong(data, d, 0, |data|);
    var records := |RecordsIn(data, d, 0, |data|)|;
    TimesIsProduct(|d|, records - 1);
    if n - 1 - |d| <= records {
      TooManyRecords(|d|, s, n, records);
    }
  }

  /** Main theorem: plans have no more partitions than the file has records, for all files and counts,
      exactly when the delimiter has no border. */
  lemma WithinRecordsIffNoBorder(d: seq<byte>)
    requires |d| > 0
    ensures (forall data: seq<byte>, parts: nat :: WithinRecords(data, d, parts)) <==> !SelfOverlapping(d)
  {
    if SelfOverlapping(d) {
      var k: nat :| 0 < k < |d| && d[..k] == d[|d| - k..];
      BorderIsPeriod(d, k);
      BorderBeyondRecords(d, |d| - k);
      assert !WithinRecords(Periods(d, |d| - k, PeriodCount(d)), d, PeriodCount(d));
    } else {
      forall data: seq<byte>, parts: nat ensures WithinRecords(data, d, parts) {
        NoBorderWithinRecords(data, d, parts);
      }
    }
  }
}
