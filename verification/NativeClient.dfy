/** The count/fill planning call of src/ffi.rs, the two-phase client of
    python/mmap_chunker/_native.py and the checks of python/mmap_chunker/planning.py. */
module NativeClient {
  import opened Search
  import opened Partition
  import opened PartitionTheorems
  import Source
  import opened RangeReader
  import opened Engine

  const CODE_OK: int := 0
  const CODE_ERROR: int := -1
  const CODE_TOO_SMALL: int := -2

  /** A native call: the file it found and its return code. */
  datatype NativeCall = NativeCall(saw: Option<seq<byte>>, code: int)

  /** The file a path names, as successive native calls find it: each call may see other contents
      or fail to read, unless the file is `steady`. `seen` records what was found, `calls` what
      the native calls found and answered. */
  class NamedFile {
    var contents: Option<seq<byte>>
    const steady: bool
    ghost var seen: seq<Option<seq<byte>>>
    ghost var calls: seq<NativeCall>

    constructor (contents: Option<seq<byte>>, steady: bool)
      ensures this.contents == contents && this.steady == steady && seen == [] && calls == []
    {
      this.contents, this.steady, seen, calls := contents, steady, [], [];
    }

    /** A native call on what it finds answers `code`. */
    ghost method Answer(code: int)
      modifies this`calls
      ensures calls == old(calls) + [NativeCall(contents, code)]
    {
      calls := calls + [NativeCall(contents, code)];
    }

    method Look() returns (c: Option<seq<byte>>)
      modifies this`contents, this`seen
      ensures seen == old(seen) + [c] && c == contents
      ensures steady ==> contents == old(contents)
    {
      if !steady {
        contents := *;
      }
      c := contents;
      seen := seen + [c];
    }
  }

  const DEFAULT_SCAN_BUFFER_BYTES: nat := 1024 * 1024

  /** `mmap_engine_plan_partition_ranges`: plans through the backend of the mode, reports the
      count, and fills the caller's buffer only if the whole plan fits. */
  method PlanPartitionRanges(file: NamedFile, parts: nat, d: seq<byte>, mode: Source.SourceMode, out: array<Range>)
    returns (code: int, count: nat)
    modifies file, out
    ensures file.steady ==> file.contents == old(file.contents)
    ensures if 0 < |d| <= ISIZE_MAX && parts > 0 then file.seen == old(file.seen) + [file.contents]
            else code == CODE_ERROR && file.seen == old(file.seen)
    ensures file.calls == old(file.calls) + [NativeCall(file.contents, code)]
    ensures code in {CODE_OK, CODE_ERROR, CODE_TOO_SMALL}
    ensures mode.WindowedMode? && mode.windowBytes < 65536 ==> code == CODE_ERROR
    ensures code == CODE_ERROR ==>
              || !ValidArguments(parts, d)
              || (mode.WindowedMode? && mode.windowBytes < 65536)
              || file.contents == None
              || !file.steady
    ensures code != CODE_ERROR ==>
              && file.contents.Some? && |d| > 0
              && var plan := PlanRanges(file.contents.value, d, parts);
              && count == |plan|
              && (code == CODE_OK <==> |plan| <= out.Length)
              && (code == CODE_OK ==> out[..count] == plan)
    ensures code != CODE_OK ==> out[..] == old(out[..])
  {
    if !ValidArguments(parts, d) {
      file.Answer(CODE_ERROR);
      return CODE_ERROR, 0;
    }
    var data := file.Look();
    if data == None {
      file.Answer(CODE_ERROR);
      return CODE_ERROR, 0;
    }
    var plan := Source.PlanThroughBackend(data.value, parts, d, mode, DEFAULT_SCAN_BUFFER_BYTES, file.steady);
    if plan.Err? {
      file.Answer(CODE_ERROR);
      return CODE_ERROR, 0;
    }
    var ranges := plan.value;
    count := |ranges|;
    if |ranges| > out.Length {
      file.Answer(CODE_TOO_SMALL);
      return CODE_TOO_SMALL, count;
    }
    FillRanges(ranges, out);
    file.Answer(CODE_OK);
    return CODE_OK, count;
  }

  predicate ValidArguments(parts: nat, d: seq<byte>) {
    0 < |d| <= ISIZE_MAX && parts > 0
  }

  method FillRanges(ranges: seq<Range>, out: array<Range>)
    requires |ranges| <= out.Length
    modifies out
    ensures out[..|ranges|] == ranges
  {
    for i := 0 to |ranges|
      invariant out[..i] == ranges[..i]
    {
      out[i] := ranges[i];
    }
  }

  datatype ClientError =
    | BadWindow | CountFailed | FillFailed | CountChanged | NoFile | BadCoverage | BadAlignment | PlanningFailed

  datatype ClientResult = Planned(ranges: seq<Range>) | Refused(error: ClientError)

  /** What the answer of a native call with room for `capacity` ranges says about the file it saw. */
  ghost predicate CallMeans(c: NativeCall, d: seq<byte>, parts: nat, capacity: nat)
    requires |d| > 0
  {
    && c.code in {CODE_OK, CODE_ERROR, CODE_TOO_SMALL}
    && (c.code != CODE_ERROR ==>
        c.saw.Some? && (c.code == CODE_OK <==> |PlanRanges(c.saw.value, d, parts)| <= capacity))
  }

  /** One round of the client: a counting call, and a filling call if there is something to fill. */
  datatype Round = Round(count: NativeCall, fill: Option<NativeCall>)

  ghost function CallsOf(round: Round): seq<NativeCall> {
    if round.fill == None then [round.count] else [round.count, round.fill.value]
  }

  /** The counting call has no room, the filling call just enough for what was counted. */
  ghost predicate RoundMeans(round: Round, d: seq<byte>, parts: nat)
    requires |d| > 0
  {
    && CallMeans(round.count, d, parts, 0)
    && (round.fill.Some? <==> round.count.code == CODE_TOO_SMALL)
    && (round.fill.Some? ==> CallMeans(round.fill.value, d, parts, |PlanRanges(round.count.saw.value, d, parts)|))
  }

  /** How a round ends: with a plan, with an error, or with a buffer that became too small. */
  ghost function RoundResult(round: Round, d: seq<byte>, parts: nat): Option<ClientResult>
    requires |d| > 0 && RoundMeans(round, d, parts)
  {
    var last := if round.fill == None then round.count else round.fill.value;
    if last.code == CODE_OK then Some(Planned(PlanRanges(last.saw.value, d, parts)))
    else if last.code == CODE_TOO_SMALL then None
    else Some(Refused(if round.fill == None then CountFailed else FillFailed))
  }

  /** Count, allocate and fill once. */
  method Attempt(file: NamedFile, parts: nat, d: seq<byte>, mode: Source.SourceMode)
    returns (r: Option<ClientResult>, ghost round: Round)
    requires ValidArguments(parts, d)
    modifies file
    ensures file.calls == old(file.calls) + CallsOf(round)
    ensures old(file.seen) <= file.seen
    ensures RoundMeans(round, d, parts) && r == RoundResult(round, d, parts)
    ensures file.steady && old(file.contents).Some? && !Source.RefusesWindow(mode) ==>
              r == Some(Planned(PlanRanges(old(file.contents).value, d, parts)))
    ensures file.steady ==> file.contents == old(file.contents)
  {
    var none := new Range[0];
    var code, capacity := PlanPartitionRanges(file, parts, d, mode, none);
    ghost var count := NativeCall(file.contents, code);
    round := Round(count, None);
    if code == CODE_OK {
      return Some(Planned([])), round;
    }
    if code != CODE_TOO_SMALL {
      return Some(Refused(CountFailed)), round;
    }
    var out := new Range[capacity](_ => Range(0, 0));
    var filled;
    code, filled := PlanPartitionRanges(file, parts, d, mode, out);
    round := Round(count, Some(NativeCall(file.contents, code)));
    if code == CODE_OK {
      return Some(Planned(out[..filled])), round;
    }
    return if code != CODE_TOO_SMALL then Some(Refused(FillFailed)) else None, round;
  }

  /** The client's result from its rounds: it tries again exactly after a first round whose buffer became too
      small, and gives up exactly after a second one. */
  ghost predicate TwoPhase(rounds: seq<Round>, d: seq<byte>, parts: nat, r: ClientResult) {
    && |d| > 0 && 1 <= |rounds| <= 2
    && (forall k: nat :: k < |rounds| ==> RoundMeans(rounds[k], d, parts))
    && (|rounds| == 2 ==> RoundResult(rounds[0], d, parts) == None)
    && match RoundResult(rounds[|rounds| - 1], d, parts)
       case Some(result) => r == result
       case None => |rounds| == 2 && r == Refused(CountChanged)
  }

  ghost function CallsOfAll(rounds: seq<Round>): seq<NativeCall> {
    if rounds == [] then [] else CallsOfAll(rounds[..|rounds| - 1]) + CallsOf(rounds[|rounds| - 1])
  }

  /** `plan_partition_ranges` of the Python wrapper: count, allocate, fill, and retry once. */
  method PlanInTwoPhases(file: NamedFile, parts: nat, d: seq<byte>, mode: Source.SourceMode)
    returns (r: ClientResult, ghost rounds: seq<Round>)
    requires ValidArguments(parts, d)
    modifies file
    ensures file.calls == old(file.calls) + CallsOfAll(rounds) && old(file.seen) <= file.seen
    ensures TwoPhase(rounds, d, parts, r)
    ensures file.steady && old(file.contents).Some? && !Source.RefusesWindow(mode) ==>
              r == Planned(PlanRanges(old(file.contents).value, d, parts)) && |rounds| == 1
    ensures file.steady ==> file.contents == old(file.contents)
  {
    rounds := [];
    for attempt := 0 to 2
      invariant file.steady ==> file.contents == old(file.contents)
      invariant file.calls == old(file.calls) + CallsOfAll(rounds) && old(file.seen) <= file.seen
      invariant |rounds| == attempt
      invariant forall k: nat :: k < attempt ==>
                  RoundMeans(rounds[k], d, parts) && RoundResult(rounds[k], d, parts) == None
      invariant file.steady && old(file.contents).Some? && !Source.RefusesWindow(mode) ==> attempt == 0
    {
      var result, round := Attempt(file, parts, d, mode);
      CallsSnoc(rounds, round, old(file.calls));
      rounds := rounds + [round];
      if result.Some? {
        return result.value, rounds;
      }
    }
    return Refused(CountChanged), rounds;
  }

  lemma CallsSnoc(rounds: seq<Round>, round: Round, before: seq<NativeCall>)
    ensures (before + CallsOfAll(rounds)) + CallsOf(round) == before + CallsOfAll(rounds + [round])
  {
    assert (rounds + [round])[..|rounds|] == rounds;
  }

  /** No call of the round failed, and the plan was longer when filling than when counting. */
  ghost predicate Grew(round: Round, d: seq<byte>, parts: nat)
    requires |d| > 0
  {
    && round.count.saw.Some? && round.fill.Some? && round.fill.value.saw.Some?
    && round.count.code != CODE_ERROR && round.fill.value.code != CODE_ERROR
    && |PlanRanges(round.fill.value.saw.value, d, parts)| > |PlanRanges(round.count.saw.value, d, parts)|
  }

  /** Main theorem on the retry: the client tries again exactly when the plan grew in the first round, and
      gives up on a changing count exactly when it grew in the second round, too. */
  lemma RetryMeans(rounds: seq<Round>, d: seq<byte>, parts: nat, r: ClientResult)
    requires TwoPhase(rounds, d, parts, r)
    ensures |rounds| == 2 <==> Grew(rounds[0], d, parts)
    ensures r == Refused(CountChanged) <==> |rounds| == 2 && Grew(rounds[1], d, parts)
  {
    RoundGrew(rounds[0], d, parts);
    if |rounds| == 2 {
      RoundGrew(rounds[1], d, parts);
    }
  }

  /** A round in which the plan did not grow and no call failed decides: the plan its filling call saw is
      the result. */
  lemma FillDecides(rounds: seq<Round>, d: seq<byte>, parts: nat, r: ClientResult, k: nat)
    requires TwoPhase(rounds, d, parts, r) && k < |rounds|
    ensures rounds[k].fill.Some? && rounds[k].fill.value.code != CODE_ERROR && !Grew(rounds[k], d, parts) ==>
              rounds[k].fill.value.saw.Some? && r == Planned(PlanRanges(rounds[k].fill.value.saw.value, d, parts))
  {
    RoundGrew(rounds[k], d, parts);
  }

  /** A failed call ends the client with the error of its kind, and only a failed call does. */
  lemma FailureMeans(rounds: seq<Round>, d: seq<byte>, parts: nat, r: ClientResult)
    requires TwoPhase(rounds, d, parts, r)
    ensures var last := rounds[|rounds| - 1];
            && (r == Refused(CountFailed) <==> last.count.code == CODE_ERROR)
            && (r == Refused(FillFailed) <==> last.fill.Some? && last.fill.value.code == CODE_ERROR)
  {
    RoundFailed(rounds[|rounds| - 1], d, parts);
  }

  lemma RoundFailed(round: Round, d: seq<byte>, parts: nat)
    requires |d| > 0 && RoundMeans(round, d, parts)
    ensures RoundResult(round, d, parts) == Some(Refused(CountFailed)) <==> round.count.code == CODE_ERROR
    ensures RoundResult(round, d, parts) == Some(Refused(FillFailed)) <==>
            round.fill.Some? && round.fill.value.code == CODE_ERROR
  {
  }

  lemma RoundGrew(round: Round, d: seq<byte>, parts: nat)
    requires |d| > 0 && RoundMeans(round, d, parts)
    ensures RoundResult(round, d, parts) == None <==> Grew(round, d, parts)
    ensures RoundResult(round, d, parts) != Some(Refused(CountChanged))
    ensures round.fill.Some? && round.fill.value.code != CODE_ERROR && !Grew(round, d, parts) ==>
              && round.fill.value.saw.Some?
              && RoundResult(round, d, parts) == Some(Planned(PlanRanges(round.fill.value.saw.value, d, parts)))
  {
  }

  // ----- the Python checks

  /** A byte read back from the file. */
  predicate ByteIs(data: seq<byte>, p: int, b: byte) {
    0 <= p < |data| && data[p] == b
  }

  /** Consecutive from `offset` to `size`. */
  ghost predicate Chained(rs: seq<Range>, offset: nat, size: nat)
    decreases |rs|
  {
    if rs == [] then offset == size else rs[0].start == offset && Chained(rs[1..], rs[0].end, size)
  }

  ghost predicate AlignedBytes(data: seq<byte>, rs: seq<Range>, b: byte) {
    forall k: nat :: k < |rs| ==>
      && (rs[k].start > 0 ==> ByteIs(data, rs[k].start - 1, b))
      && (k + 1 < |rs| ==> ByteIs(data, rs[k].end - 1, b))
  }

  lemma {:induction false} ChainedSuffix(rs: seq<Range>, i: nat, offset: nat, size: nat)
    requires i < |rs|
    ensures Chained(rs[i..], offset, size) <==> rs[i].start == offset && Chained(rs[i + 1..], rs[i].end, size)
  {
    assert rs[i..][1..] == rs[i + 1..];
  }

  /** The coverage loop of `plan_file_ranges`. */
  method CheckCoverage(rs: seq<Range>, fileSize: nat) returns (ok: bool)
    ensures ok <==> Chained(rs, 0, fileSize)
  {
    assert rs[0..] == rs;
    var offset: nat := 0;
    for i := 0 to |rs|
      invariant Chained(rs, 0, fileSize) <==> Chained(rs[i..], offset, fileSize)
    {
      ChainedSuffix(rs, i, offset, fileSize);
      if rs[i].start != offset {
        return false;
      }
      offset := rs[i].end;
    }
    return offset == fileSize;
  }

  /** `_verify_record_alignment`: one byte read per boundary. */
  method VerifyRecordAlignment(data: seq<byte>, rs: seq<Range>, b: byte) returns (ok: bool)
    ensures ok <==> AlignedBytes(data, rs, b)
  {
    for i := 0 to |rs|
      invariant forall k: nat :: k < i ==>
                  && (rs[k].start > 0 ==> ByteIs(data, rs[k].start - 1, b))
                  && (k + 1 < |rs| ==> ByteIs(data, rs[k].end - 1, b))
    {
      if rs[i].start > 0 && !ByteIs(data, rs[i].start - 1, b) {
        return false;
      }
      if i < |rs| - 1 && !ByteIs(data, rs[i].end - 1, b) {
        return false;
      }
    }
    return true;
  }

  lemma {:induction false} TilesChained(rs: seq<Range>, lo: nat, hi: nat)
    requires Tiles(rs, lo, hi)
    ensures Chained(rs, lo, hi)
    decreases |rs|
  {
    if rs != [] {
      TilesChained(rs[1..], rs[0].end, hi);
    }
  }

  /** Main theorem: a plan of the file itself passes the coverage and the alignment check. */
  lemma PlanPassesChecks(data: seq<byte>, b: byte, parts: nat)
    requires parts > 0
    ensures Chained(PlanRanges(data, [b], parts), 0, |data|)
    ensures AlignedBytes(data, PlanRanges(data, [b], parts), b)
  {
    var rs := PlanRanges(data, [b], parts);
    PlanShape(data, [b], parts);
    TilesChained(rs, 0, |data|);
    forall k: nat | k + 1 < |rs| ensures ByteIs(data, rs[k].end - 1, b) {
      assert EndsAt(data, [b], rs[k].end);
      OccursByte(data, b, rs[k].end - 1);
    }
    forall k: nat | k < |rs| && rs[k].start > 0 ensures ByteIs(data, rs[k].start - 1, b) {
      TilesLink(rs, 0, |data|, k);
      assert ByteIs(data, rs[k - 1].end - 1, b);
    }
  }

  /** On ranges that cover the file, the check of single bytes accepts exactly the record-aligned ones. */
  lemma AlignmentMeans(data: seq<byte>, rs: seq<Range>, b: byte)
    requires Tiles(rs, 0, |data|)
    ensures AlignedBytes(data, rs, b) <==> RecordAligned(data, [b], rs)
  {
    forall k: nat | k < |rs|
      ensures rs[k].end > 0 && (ByteIs(data, rs[k].end - 1, b) <==> EndsAt(data, [b], rs[k].end))
      ensures if k == 0 then rs[k].start == 0 else rs[k].start == rs[k - 1].end
    {
      TilesLink(rs, 0, |data|, k);
      OccursByte(data, b, rs[k].end - 1);
    }
    if AlignedBytes(data, rs, b) {
      forall k: nat | k + 1 < |rs| ensures EndsAt(data, [b], rs[k].end) {
        assert ByteIs(data, rs[k].end - 1, b);
      }
    }
    if RecordAligned(data, [b], rs) {
      forall k: nat | k < |rs| && rs[k].start > 0 ensures ByteIs(data, rs[k].start - 1, b) {
        assert EndsAt(data, [b], rs[k - 1].end);
      }
    }
  }

  /** The lengths `get_chunk` reports, and the offsets `plan_file` rebuilds from them. */
  ghost function Lengths(rs: seq<Range>): seq<int> {
    if rs == [] then [] else [rs[0].end - rs[0].start] + Lengths(rs[1..])
  }

  method RebuildRanges(lengths: seq<nat>) returns (rs: seq<Range>, offset: nat)
    ensures Lengths(rs) == lengths && Chained(rs, 0, offset)
  {
    rs, offset := [], 0;
    for i := 0 to |lengths|
      invariant Lengths(rs) == lengths[..i] && Chained(rs, 0, offset)
    {
      var r := Range(offset, offset + lengths[i]);
      LengthsSnoc(rs, r);
      ChainedSnoc(rs, r, 0, offset);
      rs := rs + [r];
      offset := offset + lengths[i];
    }
  }

  lemma {:induction false} LengthsSnoc(rs: seq<Range>, r: Range)
    ensures Lengths(rs + [r]) == Lengths(rs) + [r.end - r.start]
    decreases |rs|
  {
    if rs == [] {
      assert [r][1..] == [];
    } else {
      LengthsSnoc(rs[1..], r);
      assert (rs + [r])[1..] == rs[1..] + [r];
    }
  }

  lemma {:induction false} ChainedSnoc(rs: seq<Range>, r: Range, lo: nat, mid: nat)
    requires Chained(rs, lo, mid) && r.start == mid
    ensures Chained(rs + [r], lo, r.end)
    decreases |rs|
  {
    if rs == [] {
      assert (rs + [r])[1..] == [];
    } else {
      ChainedSnoc(rs[1..], r, rs[0].end, mid);
      assert (rs + [r])[1..] == rs[1..] + [r];
    }
  }

  /** Round trip: consecutive ranges are determined by their lengths, so the offsets `plan_file`
      rebuilds are the planned ones. */
  lemma {:induction false} LengthsDetermineRanges(a: seq<Range>, b: seq<Range>, lo: nat, hi: nat, top: nat)
    requires Chained(a, lo, hi) && Chained(b, lo, top) && Lengths(a) == Lengths(b)
    ensures a == b && hi == top
    decreases |a|
  {
    if a != [] && b != [] {
      assert Lengths(a)[0] == Lengths(b)[0];
      assert Lengths(a)[1..] == Lengths(a[1..]) && Lengths(b)[1..] == Lengths(b[1..]);
      LengthsDetermineRanges(a[1..], b[1..], a[0].end, hi, top);
    }
  }

  /** `plan_file_ranges`: stat, two-phase planning, coverage check, alignment check. For a steady file
      it returns the slice planner's ranges; for a file that changes meanwhile whatever it returns
      still covers the size it saw first and is aligned in the bytes it saw last. */
  method PlanFileRanges(file: NamedFile, parts: nat, b: byte, mode: Source.SourceMode)
    returns (r: ClientResult, ghost rounds: seq<Round>, ghost planned: ClientResult)
    requires parts > 0
    modifies file
    ensures r == Refused(BadWindow) <==> mode.WindowedMode? && mode.windowBytes < 65536
    ensures r != Refused(BadWindow) && file.steady && old(file.contents).Some? ==>
              r == Planned(PlanRanges(old(file.contents).value, [b], parts))
    ensures r != Refused(BadWindow) ==>
              && |old(file.seen)| < |file.seen|
              && var stat := file.seen[|old(file.seen)|];
              if stat == None then r == Refused(NoFile)
              else TwoPhase(rounds, [b], parts, planned) && r == Checked(planned, |stat.value|, file.contents, b)
  {
    rounds, planned := [], Refused(NoFile);
    if Source.RefusesWindow(mode) {
      return Refused(BadWindow), rounds, planned;
    }
    var stat := file.Look();
    if stat == None {
      return Refused(NoFile), rounds, planned;
    }
    r, rounds := PlanInTwoPhases(file, parts, [b], mode);
    planned := r;
    assert file.seen[|old(file.seen)|] == stat;
    if r.Refused? {
      return;
    }
    PlanPassesChecks(stat.value, b, parts);
    var covered := CheckCoverage(r.ranges, |stat.value|);
    if !covered {
      return Refused(BadCoverage), rounds, planned;
    }
    var data := file.Look();
    assert file.seen[|old(file.seen)|] == stat;
    if data == None {
      return Refused(NoFile), rounds, planned;
    }
    var aligned := VerifyRecordAlignment(data.value, r.ranges, b);
    if !aligned {
      return Refused(BadAlignment), rounds, planned;
    }
  }

  /** What the checks make of a two-phase result: a plan is passed on exactly when it covers the size seen
      first and is aligned in the bytes seen last. */
  ghost function Checked(planned: ClientResult, size: nat, last: Option<seq<byte>>, b: byte): ClientResult {
    if planned.Refused? then planned
    else if !Chained(planned.ranges, 0, size) then Refused(BadCoverage)
    else if last == None then Refused(NoFile)
    else if !AlignedBytes(last.value, planned.ranges, b) then Refused(BadAlignment)
    else planned
  }

  /** Whatever the file did meanwhile, a plan that passes the checks covers the size seen first, is aligned in
      the bytes seen last, and is the complete plan of one of the contents the client saw. */
  lemma CheckedMeans(rounds: seq<Round>, planned: ClientResult, b: byte, parts: nat, size: nat, last: Option<seq<byte>>)
    requires TwoPhase(rounds, [b], parts, planned)
    ensures var r := Checked(planned, size, last, b);
            && (r.Planned? <==>
                && planned.Planned? && Chained(planned.ranges, 0, size)
                && last.Some? && AlignedBytes(last.value, planned.ranges, b))
            && (r.Planned? ==>
                exists c :: && c in CallsOf(rounds[|rounds| - 1]) && c.saw.Some?
                            && r.ranges == PlanRanges(c.saw.value, [b], parts))
  {
    var round := rounds[|rounds| - 1];
    assert RoundMeans(round, [b], parts);
    var c := if round.fill == None then round.count else round.fill.value;
    assert c in CallsOf(round);
  }

  /** The length of every chunk of a freshly partitioned engine. */
  method ChunkLengths(engine: CEngine, count: nat) returns (lengths: seq<nat>)
    requires engine.Valid() && engine.plan.Ranges? && count == |engine.plan.ranges|
    ensures lengths == Lengths(engine.plan.ranges)
  {
    lengths := [];
    ghost var rs := engine.plan.ranges;
    assert rs[..0] == [];
    for i := 0 to count
      invariant lengths == Lengths(rs[..i])
    {
      var view := engine.GetChunk(i);
      assert view.View?;
      lengths := lengths + [view.len];
      assert rs[..i + 1] == rs[..i] + [rs[i]];
      LengthsSnoc(rs[..i], rs[i]);
    }
    assert rs[..count] == rs;
  }

  /** `plan_file`: plan in the engine, fetch every chunk's length, rebuild the offsets, and check
      them against the file size and bytes. */
  method PlanFile(data: seq<byte>, fileSize: nat, parts: nat, b: byte, address: nat) returns (r: ClientResult)
    requires parts > 0 && |data| <= USIZE_MAX
    ensures r == if fileSize == |data| then Planned(PlanRanges(data, [b], parts))
                 else Refused(if fileSize == 0 || data == [] then PlanningFailed else BadCoverage)
  {
    var engine := new CEngine(data, false);
    var count, failed := engine.Rescan(Partitioned(parts, [b]), true, address);
    PlanShape(data, [b], parts);
    if fileSize == 0 {
      return if count != 0 then Refused(PlanningFailed) else Planned([]);
    }
    if count == 0 {
      return Refused(PlanningFailed);
    }
    var lengths := ChunkLengths(engine, count);
    var ranges, offset := RebuildRanges(lengths);
    PlanPassesChecks(data, b, parts);
    LengthsDetermineRanges(ranges, PlanRanges(data, [b], parts), 0, offset, |data|);
    if offset != fileSize {
      return Refused(BadCoverage);
    }
    var aligned := VerifyRecordAlignment(data, ranges, b);
    if !aligned {
      return Refused(BadAlignment);
    }
    return Planned(ranges);
  }
}
