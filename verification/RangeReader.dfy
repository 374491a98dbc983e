/** The parallel line reader of python/mmap_chunker/integrations/datatrove.py: every rank reads its
    planned byte range line by line and numbers the lines globally. */
module RangeReader {
  import opened Search
  import opened Partition
  import opened PartitionTheorems
  import opened Records

  const NEWLINE: byte := 0x0A
  const NL: seq<byte> := [NEWLINE]
  const OFFSET_SCAN_BLOCK_SIZE: nat := 1024 * 1024

  datatype ReadError = ShortRead | SplitsRecord | WrongWorldSize | RankOutOfRange

  datatype Outcome<+T> = Done(value: T) | Raised(error: ReadError)

  /** One line with its global number. */
  datatype Line = Line(number: nat, range: Range)

  ghost function Numbered(rs: seq<Range>, from: nat): seq<Line> {
    if rs == [] then [] else [Line(from, rs[0])] + Numbered(rs[1..], from + 1)
  }

  /** Where `readline` at `offset` stops: behind the next newline, or at the end of the file. */
  ghost function LineEnd(data: seq<byte>, offset: nat): (e: nat)
    requires offset < |data|
    ensures offset < e <= |data|
  {
    match FirstFrom(data, NL, offset)
    case Some(p) => p + 1
    case None => |data|
  }

  /** One sequential read of the whole file from `offset`, where line `number` starts. */
  ghost function Sequential(data: seq<byte>, offset: nat, number: nat): seq<Line>
    decreases |data| - offset
  {
    if offset >= |data| then []
    else
      var e := LineEnd(data, offset);
      [Line(number, Range(offset, e))] + Sequential(data, e, number + 1)
  }

  ghost function Newlines(data: seq<byte>, lo: nat, hi: nat): nat
    requires lo <= hi <= |data|
    decreases hi - lo
  {
    if lo == hi then 0 else Newlines(data, lo, hi - 1) + if data[hi - 1] == NEWLINE then 1 else 0
  }

  ghost predicate InFile(data: seq<byte>, rs: seq<Range>) {
    forall k: nat :: k < |rs| ==> rs[k].start <= rs[k].end <= |data|
  }

  /** Newlines in the first i ranges. */
  ghost function NewlinesBefore(data: seq<byte>, rs: seq<Range>, i: nat): nat
    requires InFile(data, rs) && i <= |rs|
  {
    if i == 0 then 0 else NewlinesBefore(data, rs, i - 1) + Newlines(data, rs[i - 1].start, rs[i - 1].end)
  }

  lemma {:induction false} NewlinesSplit(data: seq<byte>, lo: nat, mid: nat, hi: nat)
    requires lo <= mid <= hi <= |data|
    ensures Newlines(data, lo, hi) == Newlines(data, lo, mid) + Newlines(data, mid, hi)
    decreases hi - mid
  {
    if mid < hi {
      NewlinesSplit(data, lo, mid, hi - 1);
    }
  }

  /** `bytes.count(b"\\n")`. */
  method CountNewlines(data: seq<byte>, lo: nat, hi: nat) returns (n: nat)
    requires lo <= hi <= |data|
    ensures n == Newlines(data, lo, hi)
  {
    n := 0;
    for k := lo to hi
      invariant n == Newlines(data, lo, k)
    {
      if data[k] == NEWLINE {
        n := n + 1;
      }
    }
  }

  /** The block loop of `_record_offsets` for one range. */
  method CountInBlocks(data: seq<byte>, r: Range) returns (n: Outcome<nat>)
    requires r.start <= r.end
    ensures n.Done? <==> r.end <= |data| || r.start == r.end
    ensures n.Done? && r.end <= |data| ==> n.value == Newlines(data, r.start, r.end)
    ensures n.Raised? ==> n.error == ShortRead
  {
    var position := r.start;
    var newlines: nat := 0;
    while position < r.end
      invariant r.start <= position <= r.end && (position <= |data| || position == r.start)
      invariant position <= |data| ==> newlines == Newlines(data, r.start, position)
    {
      var want := Min(r.end - position, OFFSET_SCAN_BLOCK_SIZE);
      var got := if position >= |data| then 0 else Min(want, |data| - position);
      if got == 0 {
        return Raised(ShortRead);
      }
      var found := CountNewlines(data, position, position + got);
      NewlinesSplit(data, r.start, position, position + got);
      newlines := newlines + found;
      position := position + got;
    }
    return Done(newlines);
  }

  /** `_record_offsets`: the extra count for an unterminated final range comes after the last
      offset is recorded and changes none of them. */
  method RecordOffsets(data: seq<byte>, rs: seq<Range>) returns (r: Outcome<seq<nat>>)
    requires forall k: nat :: k < |rs| ==> rs[k].start <= rs[k].end
    ensures r.Done? <==> forall k: nat :: k < |rs| ==> rs[k].start == rs[k].end || rs[k].end <= |data|
    ensures r.Raised? ==> r.error == ShortRead
    ensures r.Done? ==> |r.value| == |rs|
    ensures r.Done? && InFile(data, rs) ==> forall k: nat :: k < |rs| ==> r.value[k] == NewlinesBefore(data, rs, k)
  {
    var offsets: seq<nat> := [];
    var running: nat := 0;
    for i := 0 to |rs|
      invariant |offsets| == i
      invariant forall k: nat :: k < i ==> rs[k].start == rs[k].end || rs[k].end <= |data|
      invariant InFile(data, rs) && i < |rs| ==> running == NewlinesBefore(data, rs, i)
      invariant InFile(data, rs) ==> forall k: nat :: k < i ==> offsets[k] == NewlinesBefore(data, rs, k)
    {
      offsets := offsets + [running];
      var newlines := CountInBlocks(data, rs[i]);
      if newlines.Raised? {
        return Raised(newlines.error);
      }
      var isFinal := i == |rs| - 1;
      if isFinal && rs[i].start < rs[i].end && data[rs[i].end - 1] != NEWLINE {
        running := running + newlines.value + 1;
      } else {
        running := running + newlines.value;
      }
    }
    return Done(offsets);
  }

  /** From any line start before an edge, `readline` never reads past the edge. */
  lemma LineStopsAtEdge(data: seq<byte>, offset: nat, e: nat)
    requires offset < e <= |data| && RecordEnd(data, NEWLINE, e)
    ensures LineEnd(data, offset) <= e
  {
    if e < |data| || data[e - 1] == NEWLINE {
      OccursByte(data, NEWLINE, e - 1);
    }
  }

  lemma LineEndIsEdge(data: seq<byte>, offset: nat)
    requires offset < |data|
    ensures RecordEnd(data, NEWLINE, LineEnd(data, offset))
  {
    var f := FirstFrom(data, NL, offset);
    if f.Some? {
      OccursByte(data, NEWLINE, f.value);
    }
  }

  /** `readline` on the open file. */
  method ReadLine(data: seq<byte>, offset: nat) returns (e: nat)
    requires offset < |data|
    ensures e == LineEnd(data, offset)
  {
    e := offset;
    while e < |data| && data[e] != NEWLINE
      invariant offset <= e <= |data|
      invariant forall q: nat :: offset <= q < e ==> data[q] != NEWLINE
    {
      e := e + 1;
    }
    FirstNewline(data, offset, e);
    e := if e < |data| then e + 1 else e;
  }

  lemma FirstNewline(data: seq<byte>, offset: nat, e: nat)
    requires offset <= e <= |data| && forall q: nat :: offset <= q < e ==> data[q] != NEWLINE
    requires e < |data| ==> data[e] == NEWLINE
    ensures FirstFrom(data, NL, offset) == if e < |data| then Some(e) else None
  {
    var f := FirstFrom(data, NL, offset);
    if f.Some? {
      OccursByte(data, NEWLINE, f.value);
    }
    OccursByte(data, NEWLINE, e);
  }

  /** The reader stands at `offset`, having yielded the `local` lines `out`. */
  ghost predicate Reading(data: seq<byte>, r: Range, first: nat, offset: nat, local: nat, out: seq<Line>)
    requires r.start <= offset <= r.end <= |data|
  {
    out + Numbered(RecordsIn(data, NL, offset, r.end), first + local) ==
    Numbered(RecordsIn(data, NL, r.start, r.end), first)
  }

  lemma ReadingStep(data: seq<byte>, r: Range, first: nat, offset: nat, local: nat, out: seq<Line>)
    requires r.start <= offset < r.end <= |data| && LineEnd(data, offset) <= r.end
    requires Reading(data, r, first, offset, local, out)
    ensures Reading(data, r, first, LineEnd(data, offset), local + 1,
                    out + [Line(first + local, Range(offset, LineEnd(data, offset)))])
  {
    NextLine(data, offset, r.end, first + local);
    var rest := Numbered(RecordsIn(data, NL, LineEnd(data, offset), r.end), first + local + 1);
    var line := Line(first + local, Range(offset, LineEnd(data, offset)));
    assert out + ([line] + rest) == (out + [line]) + rest;
  }

  /** `_read_range`: succeeds exactly when the range lies in the file and ends at a line edge, and
      then yields the lines of the range, numbered from `first`. */
  method ReadRange(data: seq<byte>, r: Range, first: nat) returns (lines: Outcome<seq<Line>>)
    requires r.start <= r.end
    ensures lines.Done? <==> r.start == r.end || (r.end <= |data| && RecordEnd(data, NEWLINE, r.end))
    ensures lines.Done? && r.end <= |data| ==> lines.value == Numbered(RecordsIn(data, NL, r.start, r.end), first)
    ensures lines.Done? && r.start == r.end ==> lines.value == []
    ensures lines.Raised? ==> lines.error == if r.end <= |data| then SplitsRecord else ShortRead
  {
    var offset := r.start;
    var local: nat := 0;
    var out: seq<Line> := [];
    while offset < r.end
      invariant r.start <= offset <= r.end && (offset == r.start || RecordEnd(data, NEWLINE, offset))
      invariant r.end <= |data| ==> Reading(data, r, first, offset, local, out)
      invariant r.start == r.end ==> out == []
    {
      if offset >= |data| {
        return Raised(ShortRead);
      }
      var e := ReadLine(data, offset);
      if r.end <= |data| && RecordEnd(data, NEWLINE, r.end) {
        LineStopsAtEdge(data, offset, r.end);
      }
      if e > r.end {
        return Raised(SplitsRecord);
      }
      if r.end <= |data| {
        ReadingStep(data, r, first, offset, local, out);
      }
      LineEndIsEdge(data, offset);
      out := out + [Line(first + local, Range(offset, e))];
      offset, local := e, local + 1;
    }
    return Done(out);
  }

  lemma NextLine(data: seq<byte>, offset: nat, hi: nat, number: nat)
    requires offset < hi <= |data| && LineEnd(data, offset) <= hi
    ensures var e := LineEnd(data, offset);
            && RecordsIn(data, NL, offset, hi) == [Range(offset, e)] + RecordsIn(data, NL, e, hi)
            && Numbered(RecordsIn(data, NL, offset, hi), number) ==
               [Line(number, Range(offset, e))] + Numbered(RecordsIn(data, NL, e, hi), number + 1)
  {
    var e := LineEnd(data, offset);
    var rest := RecordsIn(data, NL, e, hi);
    assert ([Range(offset, e)] + rest)[1..] == rest;
  }

  // ----- all ranks together

  /** `Plan.range_for_part` and the rank's share of the work; ranks beyond the plan have none. */
  ghost function RankLines(data: seq<byte>, rs: seq<Range>, rank: nat): seq<Line>
    requires InFile(data, rs)
  {
    if rank >= |rs| then []
    else Numbered(RecordsIn(data, NL, rs[rank].start, rs[rank].end), NewlinesBefore(data, rs, rank))
  }

  /** `RangeJsonlReader.run`, up to the parsing of each line. */
  method Run(data: seq<byte>, rs: seq<Range>, requestedParts: nat, offsets: seq<nat>, rank: int, worldSize: int)
    returns (lines: Outcome<seq<Line>>)
    requires InFile(data, rs) && |offsets| == |rs|
    requires forall k: nat :: k < |rs| ==> offsets[k] == NewlinesBefore(data, rs, k)
    ensures lines.Done? <==>
              && worldSize == requestedParts && 0 <= rank < worldSize
              && (rank < |rs| && rs[rank].start < rs[rank].end ==> RecordEnd(data, NEWLINE, rs[rank].end))
    ensures lines.Done? ==> lines.value == RankLines(data, rs, rank)
    ensures lines.Done? ==>
              lines.value == if rank >= |rs| then []
                             else Numbered(RecordsIn(data, NL, rs[rank].start, rs[rank].end), offsets[rank])
    ensures lines.Raised? ==>
              lines.error == if worldSize != requestedParts then WrongWorldSize
                             else if rank < 0 || rank >= worldSize then RankOutOfRange
                             else SplitsRecord
  {
    if worldSize != requestedParts {
      return Raised(WrongWorldSize);
    }
    if !(0 <= rank < worldSize) {
      return Raised(RankOutOfRange);
    }
    if rank >= |rs| || rs[rank].end - rs[rank].start <= 0 {
      return Done([]);
    }
    lines := ReadRange(data, rs[rank], offsets[rank]);
  }

  /** The output of ranks k, k+1, ..., world-1 in rank order. */
  ghost function FromRank(data: seq<byte>, rs: seq<Range>, k: nat, world: nat): seq<Line>
    requires InFile(data, rs)
    decreases world - k
  {
    if k >= world then [] else RankLines(data, rs, k) + FromRank(data, rs, k + 1, world)
  }

  lemma {:induction false} NoNewlines(data: seq<byte>, lo: nat, hi: nat)
    requires lo <= hi <= |data| && forall q: nat :: lo <= q < hi ==> data[q] != NEWLINE
    ensures Newlines(data, lo, hi) == 0
    decreases hi - lo
  {
    if lo < hi {
      NoNewlines(data, lo, hi - 1);
    }
  }

  lemma OneNewline(data: seq<byte>, lo: nat, p: nat)
    requires lo <= p < |data| && FirstFrom(data, NL, lo) == Some(p)
    ensures Newlines(data, lo, p + 1) == 1
  {
    forall q: nat | lo <= q < p ensures data[q] != NEWLINE {
      OccursByte(data, NEWLINE, q);
    }
    NoNewlines(data, lo, p);
    OccursByte(data, NEWLINE, p);
  }

  /** Up to a newline, lines and newlines are equally many. */
  lemma {:induction false} LinesAreNewlines(data: seq<byte>, lo: nat, e: nat)
    requires lo <= e <= |data| && (lo < e ==> data[e - 1] == NEWLINE)
    ensures |RecordsIn(data, NL, lo, e)| == Newlines(data, lo, e)
    decreases e - lo
  {
    if lo < e {
      LineStopsAtEdge(data, lo, e);
      OccursByte(data, NEWLINE, e - 1);
      var m := LineEnd(data, lo);
      NextLine(data, lo, e, 0);
      OneNewline(data, lo, m - 1);
      NewlinesSplit(data, lo, m, e);
      LinesAreNewlines(data, m, e);
    }
  }

  /** A sequential read passes every line edge, so it splits there. */
  lemma {:induction false} SequentialSplits(data: seq<byte>, lo: nat, e: nat, number: nat)
    requires lo <= e <= |data| && (lo < e ==> RecordEnd(data, NEWLINE, e))
    ensures Sequential(data, lo, number) ==
            Numbered(RecordsIn(data, NL, lo, e), number) +
            Sequential(data, e, number + |RecordsIn(data, NL, lo, e)|)
    decreases e - lo
  {
    if lo < e {
      LineStopsAtEdge(data, lo, e);
      var m := LineEnd(data, lo);
      NextLine(data, lo, e, number);
      SequentialSplits(data, m, e, number + 1);
    }
  }

  lemma {:induction false} TilesLink(rs: seq<Range>, lo: nat, hi: nat, k: nat)
    requires Tiles(rs, lo, hi) && k < |rs|
    ensures rs[k].start < rs[k].end <= hi
    ensures if k == 0 then rs[k].start == lo else rs[k].start == rs[k - 1].end
    ensures k + 1 == |rs| ==> rs[k].end == hi
    decreases k
  {
    TilesInBounds(rs, lo, hi);
    if k > 0 {
      TilesLink(rs[1..], rs[0].end, hi, k - 1);
    } else if |rs| == 1 {
      assert rs[1..] == [];
    }
  }

  /** What the planner gives the reader: consecutive ranges, all but the last ending in a newline. */
  ghost predicate NewlinePlan(data: seq<byte>, rs: seq<Range>) {
    InFile(data, rs) && Tiles(rs, 0, |data|) && RecordAligned(data, NL, rs)
  }

  lemma PlannerGivesNewlinePlan(data: seq<byte>, parts: nat)
    requires parts > 0
    ensures NewlinePlan(data, PlanRanges(data, NL, parts))
  {
    PlanShape(data, NL, parts);
    TilesInBounds(PlanRanges(data, NL, parts), 0, |data|);
  }

  lemma PlanEdge(data: seq<byte>, rs: seq<Range>, k: nat)
    requires NewlinePlan(data, rs) && k < |rs|
    ensures rs[k].start < rs[k].end <= |data| && RecordEnd(data, NEWLINE, rs[k].end)
    ensures k + 1 < |rs| ==> data[rs[k].end - 1] == NEWLINE
  {
    TilesLink(rs, 0, |data|, k);
    if k + 1 < |rs| {
      assert EndsAt(data, NL, rs[k].end);
      OccursByte(data, NEWLINE, rs[k].end - 1);
    }
  }

  ghost function NextStart(rs: seq<Range>, k: nat, len: nat): nat {
    if k < |rs| then rs[k].start else len
  }

  lemma RangeThenRest(data: seq<byte>, rs: seq<Range>, k: nat, n: nat)
    requires NewlinePlan(data, rs) && k < |rs| && rs[k].start <= rs[k].end <= |data|
    ensures Sequential(data, rs[k].start, n) ==
            Numbered(RecordsIn(data, NL, rs[k].start, rs[k].end), n) +
            Sequential(data, rs[k].end, n + Newlines(data, rs[k].start, rs[k].end))
  {
    PlanEdge(data, rs, k);
    SequentialSplits(data, rs[k].start, rs[k].end, n);
    if k + 1 < |rs| {
      LinesAreNewlines(data, rs[k].start, rs[k].end);
    } else {
      TilesLink(rs, 0, |data|, k);
    }
  }

  lemma RankStep(data: seq<byte>, rs: seq<Range>, k: nat, world: nat)
    requires NewlinePlan(data, rs) && k < |rs| <= world
    requires FromRank(data, rs, k + 1, world) ==
             Sequential(data, NextStart(rs, k + 1, |data|), NewlinesBefore(data, rs, k + 1))
    ensures FromRank(data, rs, k, world) ==
            Sequential(data, NextStart(rs, k, |data|), NewlinesBefore(data, rs, k))
  {
    RangeThenRest(data, rs, k, NewlinesBefore(data, rs, k));
    NextStartIsEnd(rs, |data|, k);
  }

  lemma {:induction false} RanksFrom(data: seq<byte>, rs: seq<Range>, k: nat, world: nat)
    requires NewlinePlan(data, rs) && k <= |rs| <= world
    ensures FromRank(data, rs, k, world) ==
            Sequential(data, NextStart(rs, k, |data|), NewlinesBefore(data, rs, k))
    decreases world - k
  {
    if k < |rs| {
      RanksFrom(data, rs, k + 1, world);
      RankStep(data, rs, k, world);
    } else {
      IdleRanks(data, rs, k, world);
    }
  }

  lemma NextStartIsEnd(rs: seq<Range>, len: nat, k: nat)
    requires Tiles(rs, 0, len) && k < |rs|
    ensures NextStart(rs, k + 1, len) == rs[k].end
  {
    TilesLink(rs, 0, len, k);
    if k + 1 < |rs| {
      TilesLink(rs, 0, len, k + 1);
    }
  }

  lemma {:induction false} NumberedAt(rs: seq<Range>, from: nat, k: nat)
    requires k < |rs|
    ensures |Numbered(rs, from)| == |rs| && Numbered(rs, from)[k] == Line(from + k, rs[k])
    decreases |rs|
  {
    if |rs| > 1 {
      NumberedAt(rs[1..], from + 1, if k > 0 then k - 1 else 0);
    } else {
      assert rs[1..] == [];
    }
  }

  /** What one sequential read yields: the k-th record of the file, with number k. */
  lemma SequentialMeans(data: seq<byte>, k: nat)
    requires k < |RecordsIn(data, NL, 0, |data|)|
    ensures |Sequential(data, 0, 0)| == |RecordsIn(data, NL, 0, |data|)|
    ensures Sequential(data, 0, 0)[k] == Line(k, RecordsIn(data, NL, 0, |data|)[k])
  {
    SequentialSplits(data, 0, |data|, 0);
    NumberedAt(RecordsIn(data, NL, 0, |data|), 0, k);
  }

  lemma {:induction false} IdleRanks(data: seq<byte>, rs: seq<Range>, k: nat, world: nat)
    requires InFile(data, rs) && |rs| <= k
    ensures FromRank(data, rs, k, world) == []
    decreases world - k
  {
    if k < world {
      IdleRanks(data, rs, k + 1, world);
    }
  }

  /** Main theorem: with a newline plan for `parts` ranks no rank fails, and the ranks' numbered
      lines in rank order are exactly the numbered lines of one sequential read of the file. */
  lemma ParallelReadIsSequential(data: seq<byte>, parts: nat)
    requires parts > 0
    ensures var rs := PlanRanges(data, NL, parts);
            && NewlinePlan(data, rs)
            && (forall k: nat :: k < |rs| ==> RecordEnd(data, NEWLINE, rs[k].end))
            && FromRank(data, rs, 0, parts) == Sequential(data, 0, 0)
  {
    var rs := PlanRanges(data, NL, parts);
    PlannerGivesNewlinePlan(data, parts);
    PlanShape(data, NL, parts);
    forall k: nat | k < |rs| ensures RecordEnd(data, NEWLINE, rs[k].end) {
      PlanEdge(data, rs, k);
    }
    RanksFrom(data, rs, 0, parts);
    if rs != [] {
      TilesLink(rs, 0, |data|, 0);
    }
  }
}
