/** Byte sources that may read short, the overlapping doubling-probe search, and the buffered
    partition planner of src/source.rs, proved to plan exactly what the slice planner plans. */
module Source {
  import opened Search
  import opened Swar
  import opened Partition
  import opened Reads
  import Windowed

  const ADAPTIVE_INITIAL_PROBE_BYTES: nat := 4096

  /** Where a source gets its bytes: the whole file mapped, a moving window, the operating system's
      positional read repeated until the request is served, or anything else that reads legally. */
  datatype Backend = Mmap | WindowedMmap(file: Windowed.WindowedMmapFile) | Pread | Scheduled

  /** An unchanging byte source. One that is not `reliable` may fail any read. */
  class ByteSource {
    const contents: seq<byte>
    const backend: Backend
    const reliable: bool
    ghost var bytesRead: nat

    /** The object behind the source. */
    ghost function Backing(): set<object> {
      if backend.WindowedMmap? then {backend.file} else {}
    }

    ghost predicate Valid()
      reads Backing()
    {
      backend.WindowedMmap? ==>
        backend.file.Valid() && backend.file.file == contents && backend.file.reliable == reliable
    }

    constructor (contents: seq<byte>, backend: Backend, reliable: bool)
      requires backend.WindowedMmap? ==>
                 backend.file.Valid() && backend.file.file == contents && backend.file.reliable == reliable
      ensures Valid() && this.contents == contents && this.backend == backend
      ensures this.reliable == reliable && bytesRead == 0
    {
      this.contents, this.backend, this.reliable := contents, backend, reliable;
      bytesRead := 0;
    }

    /** Copies the `n` bytes at `offset`. */
    method Deliver(offset: nat, n: nat, out: array<byte>, lo: nat, hi: nat)
      requires offset + n <= |contents| && lo + n <= hi <= out.Length
      modifies out
      ensures out[..lo] == old(out[..lo]) && out[hi..] == old(out[hi..])
      ensures out[lo..lo + n] == contents[offset..offset + n]
    {
      forall j | lo <= j < lo + n {
        out[j] := contents[offset + j - lo];
      }
      assert out[lo..lo + n] == contents[offset..offset + n];
    }

    /** One positional read of the operating system: any positive number of the bytes that are there. */
    method ReadOnce(offset: nat, out: array<byte>, lo: nat, hi: nat) returns (r: Result<nat>)
      requires lo <= hi <= out.Length
      modifies out
      ensures out[..lo] == old(out[..lo]) && out[hi..] == old(out[hi..])
      ensures r.Ok? ==> r.value <= hi - lo && LegalRead(contents, offset, hi - lo, out[lo..lo + r.value])
      ensures r.Err? ==> r == Err(ReadFailed) && !reliable
    {
      var most := Available(|contents|, offset, hi - lo);
      if most == 0 {
        return Ok(0);
      }
      if !reliable {
        if * {
          return Err(ReadFailed);
        }
      }
      var n: nat :| 1 <= n <= most;
      Deliver(offset, n, out, lo, hi);
      return Ok(n);
    }

    /** `PreadSource::read_at`: reads on until all the bytes asked for that exist are there. */
    method ReadAll(offset: nat, out: array<byte>, lo: nat, hi: nat) returns (r: Result<nat>)
      requires lo <= hi <= out.Length
      modifies out
      ensures out[..lo] == old(out[..lo]) && out[hi..] == old(out[hi..])
      ensures r.Ok? ==>
                && r.value == Available(|contents|, offset, hi - lo)
                && LegalRead(contents, offset, hi - lo, out[lo..lo + r.value])
      ensures r.Err? ==> r == Err(ReadFailed) && !reliable
    {
      if lo == hi || offset >= |contents| {
        return Ok(0);
      }
      var n := Min(hi - lo, |contents| - offset);
      r := ReadLoop(offset, n, out, lo);
      assert out[hi..] == out[lo + n..][hi - lo - n..];
      assert old(out[hi..]) == old(out[lo + n..])[hi - lo - n..];
    }

    /** The loop of `PreadSource::read_at` for `n` bytes that exist. */
    method ReadLoop(offset: nat, n: nat, out: array<byte>, lo: nat) returns (r: Result<nat>)
      requires offset + n <= |contents| && lo + n <= out.Length
      modifies out
      ensures out[..lo] == old(out[..lo]) && out[lo + n..] == old(out[lo + n..])
      ensures r.Ok? ==> r.value == n && out[lo..lo + n] == contents[offset..offset + n]
      ensures r.Err? ==> r == Err(ReadFailed) && !reliable
    {
      var total: nat := 0;
      while total < n
        invariant total <= n
        invariant out[..lo] == old(out[..lo]) && out[lo + n..] == old(out[lo + n..])
        invariant out[lo..lo + total] == contents[offset..offset + total]
      {
        var step := ReadMore(offset, total, n, out, lo);
        if step.Err? {
          return step;
        }
        total := total + step.value;
      }
      return Ok(total);
    }

    /** One more read behind the `total` bytes that are already there. */
    method ReadMore(offset: nat, total: nat, n: nat, out: array<byte>, lo: nat) returns (r: Result<nat>)
      requires offset + n <= |contents| && lo + n <= out.Length && total < n
      requires out[lo..lo + total] == contents[offset..offset + total]
      modifies out
      ensures out[..lo] == old(out[..lo]) && out[lo + n..] == old(out[lo + n..])
      ensures r.Ok? ==>
                && 0 < r.value <= n - total
                && out[lo..lo + total + r.value] == contents[offset..offset + total + r.value]
      ensures r.Err? ==> r == Err(ReadFailed) && !reliable
    {
      r := ReadOnce(offset + total, out, lo + total, lo + n);
      assert out[..lo] == out[..lo + total][..lo];
      assert old(out[..lo]) == old(out[..lo + total])[..lo];
      if r.Ok? {
        assert out[lo..lo + total] == out[..lo + total][lo..];
        assert old(out[lo..lo + total]) == old(out[..lo + total])[lo..];
        AppendRead(contents, offset, total, r.value, out[lo..lo + total],
                   out[lo + total..lo + total + r.value], out[lo..lo + total + r.value]);
      }
    }

    /** `ByteSource::read_at` into `out[lo..hi]`, through the source's own backend. */
    method ReadAt(offset: nat, out: array<byte>, lo: nat, hi: nat) returns (r: Result<nat>)
      requires Valid() && lo <= hi <= out.Length
      modifies out, this`bytesRead, Backing()
      ensures Valid() && out[..lo] == old(out[..lo]) && out[hi..] == old(out[hi..])
      ensures r.Ok? ==> r.value <= hi - lo && LegalRead(contents, offset, hi - lo, out[lo..lo + r.value])
      ensures r.Ok? && !backend.Scheduled? ==> r.value == Available(|contents|, offset, hi - lo)
      ensures r.Ok? ==> bytesRead == old(bytesRead) + r.value
      ensures r.Err? ==> r == Err(ReadFailed) && !reliable
    {
      match backend {
        case Mmap =>
          var n := Available(|contents|, offset, hi - lo);
          if n > 0 {
            Deliver(offset, n, out, lo, hi);
          }
          r := Ok(n);
        case WindowedMmap(file) =>
          r := file.ReadAt(offset, out, lo, hi);
        case Pread =>
          r := ReadAll(offset, out, lo, hi);
        case Scheduled =>
          r := ReadOnce(offset, out, lo, hi);
      }
      if r.Ok? {
        bytesRead := bytesRead + r.value;
      }
    }
  }

  /** The accumulating read loop, common to the search, the exact-target check and `fill_from`:
      short reads are repeated until `want` bytes are there or the source is exhausted. */
  method Fill(source: ByteSource, offset: nat, buf: array<byte>, want: nat) returns (r: Result<nat>)
    requires source.Valid() && want <= buf.Length
    modifies buf, source`bytesRead, source.Backing()
    ensures source.Valid()
    ensures r.Ok? ==>
              && r.value == Available(|source.contents|, offset, want)
              && (r.value > 0 ==> buf[..r.value] == source.contents[offset..offset + r.value])
              && source.bytesRead == old(source.bytesRead) + r.value
    ensures r.Err? ==> r == Err(ReadFailed) && !source.reliable
  {
    var filled: nat := 0;
    while filled < want
      invariant source.Valid() && filled <= Available(|source.contents|, offset, want)
      invariant filled > 0 ==> buf[..filled] == source.contents[offset..offset + filled]
      invariant source.bytesRead == old(source.bytesRead) + filled
    {
      var step := source.ReadAt(offset + filled, buf, filled, want);
      if step.Err? {
        return step;
      }
      if step.value == 0 {
        break;
      }
      AppendRead(source.contents, offset, filled, step.value, buf[..filled],
                 buf[filled..filled + step.value], buf[..filled + step.value]);
      filled := filled + step.value;
    }
    return Ok(filled);
  }

  lemma AppendRead(contents: seq<byte>, offset: nat, filled: nat, n: nat, a: seq<byte>, b: seq<byte>, ab: seq<byte>)
    requires offset + filled + n <= |contents| && |a| == filled && |b| == n && ab == a + b
    requires filled > 0 ==> a == contents[offset..offset + filled]
    requires b == contents[offset + filled..offset + filled + n]
    ensures ab == contents[offset..offset + filled + n]
  {
  }

  /** How far a search from `from` had to look. */
  ghost function Distance(len: nat, from: nat, found: Option<nat>): nat {
    var end := if found.Some? then found.value + 1 else len;
    if end <= from then 0 else end - from
  }

  /** The first probe, or three times the searched distance for every byte of the delimiter. */
  ghost function ReadBound(d: seq<byte>, distance: nat): nat {
    Max(Max(|d|, ADAPTIVE_INITIAL_PROBE_BYTES), 3 * Times(|d|, distance))
  }

  /** Behind `done` positions: what was read, and how long the next probe may be. */
  ghost predicate Paced(m: nat, done: nat, spent: int, probeLen: nat) {
    && 0 <= spent <= Times(m, done)
    && probeLen <= if done == 0 then Max(m, ADAPTIVE_INITIAL_PROBE_BYTES) else 2 * Times(m, done)
  }

  /** A full probe that found nothing advances by all but the overlap, and pays for itself. */
  lemma PacedStep(m: nat, done: nat, spent: int, probeLen: nat, next: nat)
    requires 0 < m <= probeLen && Paced(m, done, spent, probeLen) && next <= 2 * probeLen
    ensures Paced(m, done + probeLen - (m - 1), spent + probeLen, next)
  {
    var advance := probeLen - (m - 1);
    TimesSum(m, done, advance);
    TimesSum(m, 1, advance - 1);
    TimesGrows(m, advance - 1);
  }

  /** The last probe stays within the bound. */
  lemma PacedStop(d: seq<byte>, done: nat, spent: int, probeLen: nat, read: nat, distance: nat)
    requires |d| > 0 && Paced(|d|, done, spent, probeLen) && read <= probeLen && done <= distance
    ensures spent + read <= ReadBound(d, distance)
  {
    TimesSum(|d|, done, distance - done);
  }

  /** No occurrence starts in a window's first bytes; the last |d|-1 are looked at again. */
  lemma WindowMiss(contents: seq<byte>, d: seq<byte>, offset: nat, window: seq<byte>)
    requires |d| > 0 && offset + |window| <= |contents|
    requires window == contents[offset..offset + |window|] && FirstFrom(window, d, 0) == None
    ensures forall q: nat :: offset <= q && q + |d| <= offset + |window| ==> !OccursAt(contents, d, q)
  {
    forall q: nat | offset <= q && q + |d| <= offset + |window| ensures !OccursAt(contents, d, q) {
      OccursInSlice(contents, d, offset, offset + |window|, q - offset);
    }
  }

  lemma WindowHit(contents: seq<byte>, d: seq<byte>, from: nat, offset: nat, window: seq<byte>, p: nat)
    requires |d| > 0 && from <= offset && offset + |window| <= |contents|
    requires window == contents[offset..offset + |window|] && FirstFrom(window, d, 0) == Some(p)
    requires forall q: nat :: from <= q < offset ==> !OccursAt(contents, d, q)
    ensures FirstFrom(contents, d, from) == Some(offset + p)
  {
    OccursInSlice(contents, d, offset, offset + |window|, p);
    forall q: nat | from <= q < offset + p ensures !OccursAt(contents, d, q) {
      if offset <= q {
        OccursInSlice(contents, d, offset, offset + |window|, q - offset);
      }
    }
  }

  lemma NothingLeft(contents: seq<byte>, d: seq<byte>, from: nat, offset: nat)
    requires |d| > 0 && |contents| < offset + |d|
    requires forall q: nat :: from <= q < offset ==> !OccursAt(contents, d, q)
    ensures FirstFrom(contents, d, from) == None
  {
  }

  /** One probe: fill the buffer with the next `want` bytes and search them. */
  method Probe(source: ByteSource, ghost from: nat, offset: nat, want: nat, d: seq<byte>, buffer: array<byte>)
    returns (r: Result<Option<nat>>)
    requires source.Valid() && |d| > 0 && from <= offset && offset + want <= |source.contents| && want <= buffer.Length
    requires forall q: nat :: from <= q < offset ==> !OccursAt(source.contents, d, q)
    modifies buffer, source`bytesRead, source.Backing()
    ensures source.Valid()
    ensures r.Ok? ==> source.bytesRead == old(source.bytesRead) + want
    ensures r.Ok? && r.value.Some? ==> r.value == FirstFrom(source.contents, d, from) && offset <= r.value.value
    ensures r == Ok(None) ==>
              forall q: nat :: from <= q && q + |d| <= offset + want ==> !OccursAt(source.contents, d, q)
    ensures r.Err? ==> r == Err(ReadFailed) && !source.reliable
  {
    var fill := Fill(source, offset, buffer, want);
    if fill.Err? {
      return Err(fill.error);
    }
    var window := buffer[..fill.value];
    var meter := new Meter();
    var position := FindPatternInSlice(window, d, 0, meter);
    if position.Some? {
      WindowHit(source.contents, d, from, offset, window, position.value);
      return Ok(Some(offset + position.value));
    }
    WindowMiss(source.contents, d, offset, window);
    return Ok(None);
  }

  /** `find_pattern_from`: probes that overlap by |d|-1 bytes and double on every miss. */
  method FindPatternFrom(source: ByteSource, from: nat, d: seq<byte>, buffer: array<byte>)
    returns (r: Result<Option<nat>>)
    requires source.Valid() && 0 < |d| <= buffer.Length
    modifies buffer, source`bytesRead, source.Backing()
    ensures source.Valid()
    ensures r.Ok? ==> r.value == FirstFrom(source.contents, d, from)
    ensures r.Ok? ==>
              var distance := if r.value.Some? then r.value.value + 1 - from else Max(|source.contents| - from, 0);
              source.bytesRead - old(source.bytesRead) <= Max(Max(|d|, 4096), 3 * Times(|d|, distance))
    ensures r.Err? ==> r == Err(ReadFailed) && !source.reliable
  {
    var len := |source.contents|;
    var maxProbe := buffer.Length;
    var probeLen := Min(Max(|d|, ADAPTIVE_INITIAL_PROBE_BYTES), maxProbe);
    var offset := from;
    while true
      invariant source.Valid() && from <= offset && |d| <= probeLen <= maxProbe
      invariant forall q: nat :: from <= q < offset ==> !OccursAt(source.contents, d, q)
      invariant from < offset ==> offset <= len
      invariant Paced(|d|, offset - from, source.bytesRead - old(source.bytesRead), probeLen)
      decreases len - offset
    {
      if offset >= len {
        NothingLeft(source.contents, d, from, offset);
        PacedStop(d, offset - from, source.bytesRead - old(source.bytesRead), probeLen, 0, offset - from);
        return Ok(None);
      }
      var read := Min(probeLen, len - offset);
      var probe := Probe(source, from, offset, read, d, buffer);
      if probe.Err? {
        return probe;
      }
      PacedStop(d, offset - from, source.bytesRead - read - old(source.bytesRead), probeLen, read,
                Distance(len, from, probe.value));
      if probe.value.Some? {
        return probe;
      }
      if offset + read >= len {
        NothingLeft(source.contents, d, from, Max(offset, len - |d| + 1));
        return Ok(None);
      }
      var advance := Max(read - (|d| - 1), 1);
      var next := if probeLen < maxProbe then Min(2 * probeLen, maxProbe) else probeLen;
      PacedStep(|d|, offset - from, source.bytesRead - read - old(source.bytesRead), probeLen, next);
      offset := offset + advance;
      probeLen := next;
    }
  }

  /** The exact-target check: the |d| bytes before `target`, read through the source. */
  method FollowsDelimiter(source: ByteSource, target: nat, d: seq<byte>, buffer: array<byte>)
    returns (r: Result<bool>)
    requires source.Valid() && 0 < |d| <= buffer.Length && target <= |source.contents|
    modifies buffer, source`bytesRead, source.Backing()
    ensures source.Valid()
    ensures r.Ok? ==> r.value == EndsAt(source.contents, d, target)
    ensures r.Err? ==> r == Err(ReadFailed) && !source.reliable
  {
    if target < |d| {
      return Ok(false);
    }
    var tail := Fill(source, target - |d|, buffer, |d|);
    if tail.Err? {
      return Err(tail.error);
    }
    return Ok(tail.value == |d| && buffer[..|d|] == d);
  }

  /** One target of the buffered planner: accept it exactly, or search forward from it. */
  method SourceBoundary(source: ByteSource, target: nat, d: seq<byte>, buffer: array<byte>)
    returns (r: Result<(nat, bool)>)
    requires source.Valid() && 0 < |d| <= buffer.Length && target < |source.contents|
    modifies buffer, source`bytesRead, source.Backing()
    ensures source.Valid()
    ensures r.Ok? ==> r.value.0 == NextBoundary(source.contents, d, target)
    ensures r.Ok? && !r.value.1 ==> r.value.0 == |source.contents|
    ensures r.Err? ==> r == Err(ReadFailed) && !source.reliable
  {
    var exact := FollowsDelimiter(source, target, d, buffer);
    if exact.Err? {
      return Err(exact.error);
    }
    if exact.value {
      return Ok((target, true));
    }
    var found := FindPatternFrom(source, target, d, buffer);
    if found.Err? {
      return Err(found.error);
    }
    if found.value.Some? {
      return Ok((Min(found.value.value + |d|, |source.contents|), true));
    }
    return Ok((|source.contents|, false));
  }

  /** `plan_partition_boundaries`. Allocation itself is not modelled, only its size guard. */
  method PlanPartitionBoundaries(source: ByteSource, parts: nat, d: seq<byte>, scanBufferBytes: nat)
    returns (r: Result<seq<Range>>)
    requires source.Valid() && |d| > 0
    modifies source`bytesRead, source.Backing()
    ensures source.Valid()
    ensures r.Ok? ==> r.value == PlanRanges(source.contents, d, parts)
    ensures r == Err(BufferTooLarge) <==>
              && !source.backend.Mmap? && source.contents != [] && parts > 1
              && Max(scanBufferBytes, |d|) > ISIZE_MAX
    ensures r.Err? && r.error != BufferTooLarge ==>
              r.error == ReadFailed && !source.reliable && !source.backend.Mmap? && source.contents != [] && parts > 1
  {
    if source.backend.Mmap? {
      var meter := new Meter();
      var ranges := FindPartitionBoundariesPattern(source.contents, parts, d, 0, meter);
      return Ok(ranges);
    }
    var len := |source.contents|;
    if len == 0 || parts == 0 {
      return Ok([]);
    }
    if parts == 1 {
      PlanOfOne(source.contents, d);
      return Ok([Range(0, len)]);
    }
    var n := Min(parts, len);
    var bufferLen := Max(Max(scanBufferBytes, |d|), 1);
    if bufferLen > ISIZE_MAX {
      return Err(BufferTooLarge);
    }
    var buffer := new byte[bufferLen];
    ghost var ts := Targets(len, n);
    TargetsBelow(len, n);
    PlanningStart(source.contents, d, ts);
    var boundaries: seq<nat> := [];
    var last: nat := 0;
    ghost var spans: seq<Range> := [];
    for i := 1 to n
      invariant source.Valid()
      invariant Planning(source.contents, d, ts, i - 1, last, boundaries, spans)
    {
      var target := ComputeTarget(len, i, n);
      if target <= last {
        PlanningSkip(source.contents, d, ts, i - 1, last, boundaries, spans);
        continue;
      }
      var cut := SourceBoundary(source, target, d, buffer);
      if cut.Err? {
        return Err(cut.error);
      }
      var (boundary, found) := cut.value;
      PlanningPush(source.contents, d, ts, i - 1, last, boundaries, spans, boundary);
      boundaries, spans := boundaries + [boundary], WithSpan(source.contents, d, target, boundary, spans);
      last := boundary;
      if !found {
        PlanningStop(source.contents, d, ts, i, last, boundaries, spans);
        break;
      }
    }
    assert boundaries == Cuts(source.contents, d, ts, 0);
    var ranges := RangesFromBoundaries(len, boundaries);
    return Ok(ranges);
  }

  // ----- the three backends

  /** `SourceMode`, with the window size its second mode takes. */
  datatype SourceMode = MmapMode | WindowedMode(windowBytes: nat) | PreadMode

  /** The window is smaller than the alignment of views. */
  predicate RefusesWindow(mode: SourceMode) {
    mode.WindowedMode? && mode.windowBytes < Windowed.VIEW_ALIGNMENT
  }

  /** `open_path` of the mode's source; only a window that is too small is refused. */
  method OpenSource(contents: seq<byte>, mode: SourceMode, reliable: bool) returns (r: Result<ByteSource>)
    ensures r.Err? <==> mode.WindowedMode? && mode.windowBytes < 65536
    ensures r.Err? ==> r == Err(WindowTooSmall)
    ensures r.Ok? ==>
              && fresh(r.value) && fresh(r.value.Backing()) && r.value.Valid()
              && r.value.contents == contents && r.value.reliable == reliable
              && (mode.MmapMode? ==> r.value.backend.Mmap?)
              && (mode.WindowedMode? ==>
                  r.value.backend.WindowedMmap? && r.value.backend.file.windowBytes == mode.windowBytes)
              && (mode.PreadMode? ==> r.value.backend.Pread?)
  {
    if RefusesWindow(mode) {
      return Err(WindowTooSmall);
    }
    var source;
    match mode {
      case MmapMode =>
        source := new ByteSource(contents, Mmap, reliable);
      case WindowedMode(windowBytes) =>
        var file := new Windowed.WindowedMmapFile(contents, windowBytes, reliable);
        source := new ByteSource(contents, WindowedMmap(file), reliable);
      case PreadMode =>
        source := new ByteSource(contents, Pread, reliable);
    }
    return Ok(source);
  }

  /** `plan_partition_ranges`: the same plan through every backend. For a file that can be read it fails
      only on a window or a buffer of an impossible size, so all modes that succeed agree. */
  method PlanThroughBackend(contents: seq<byte>, parts: nat, d: seq<byte>, mode: SourceMode, scanBufferBytes: nat,
                            reliable: bool)
    returns (r: Result<seq<Range>>)
    requires |d| > 0
    ensures r.Ok? ==> r.value == PlanRanges(contents, d, parts)
    ensures r == Err(WindowTooSmall) <==> parts > 0 && mode.WindowedMode? && mode.windowBytes < 65536
    ensures r == Err(BufferTooLarge) <==>
              && (mode.PreadMode? || (mode.WindowedMode? && mode.windowBytes >= 65536))
              && contents != [] && parts > 1 && Max(scanBufferBytes, |d|) > ISIZE_MAX
    ensures r.Err? && r.error !in {WindowTooSmall, BufferTooLarge} ==>
              r.error == ReadFailed && !reliable && !mode.MmapMode? && contents != [] && parts > 1
  {
    if parts == 0 {
      return Ok([]);
    }
    var source := OpenSource(contents, mode, reliable);
    if source.Err? {
      return Err(source.error);
    }
    r := PlanPartitionBoundaries(source.value, parts, d, Max(scanBufferBytes, 1));
  }
}
