/** The bounded-window mapping of src/mmap.rs: one cached, aligned view that must agree with the
    file over any run of reads. */
module Windowed {
  import opened Search
  import opened Reads

  const VIEW_ALIGNMENT: nat := 65536

  /** The file bytes `[start, start + len)` a view maps. */
  datatype Window = Window(start: nat, len: nat)

  /** A request of `n` bytes at `offset` can be served from the window. */
  predicate Serves(w: Window, offset: nat, n: nat) {
    w.start <= offset && offset + n <= w.start + w.len
  }

  /** The window mapped for a request the cached one cannot serve. */
  function FreshWindow(size: nat, windowBytes: nat, offset: nat, n: nat): Window
    requires offset < size
  {
    var alignedStart := (offset / VIEW_ALIGNMENT) * VIEW_ALIGNMENT;
    var slack := offset - alignedStart;
    var desired := Max(SaturatingAdd(windowBytes, slack), slack + n);
    Window(alignedStart, Min(desired, size - alignedStart))
  }

  /** The window retained after a request of `want` bytes at `offset`. */
  function Retained(size: nat, windowBytes: nat, cached: Option<Window>, offset: nat, want: nat): Option<Window> {
    var n := Available(size, offset, want);
    if n == 0 || (cached.Some? && Serves(cached.value, offset, n)) then cached
    else Some(FreshWindow(size, windowBytes, offset, n))
  }

  /** Aligned, non-empty, inside the file, and no larger than the window size or the largest
      request plus alignment slack. */
  predicate GoodWindow(size: nat, windowBytes: nat, largest: nat, w: Option<Window>) {
    w.Some? ==>
      && w.value.start % VIEW_ALIGNMENT == 0
      && 0 < w.value.len && w.value.start + w.value.len <= size
      && w.value.len <= Max(windowBytes, largest) + 65535
  }

  lemma FreshIsGood(size: nat, windowBytes: nat, offset: nat, n: nat)
    requires 0 < n && offset + n <= size
    ensures GoodWindow(size, windowBytes, n, Some(FreshWindow(size, windowBytes, offset, n)))
    ensures Serves(FreshWindow(size, windowBytes, offset, n), offset, n)
  {
  }

  /** Main theorem on fresh windows: one starts at the last view alignment at or before the request and
      runs for the window size, or for the request if that is longer, from the request on, cut off at the
      end of the file; the saturating sum changes nothing. */
  lemma FreshWindowIs(size: nat, windowBytes: nat, offset: nat, n: nat)
    requires 0 < n && offset + n <= size <= USIZE_MAX
    ensures var w := FreshWindow(size, windowBytes, offset, n);
            && w.start % 65536 == 0 && w.start <= offset < w.start + 65536
            && w.start + w.len == Min(offset + Max(windowBytes, n), size)
  {
  }

  lemma GoodGrows(size: nat, windowBytes: nat, largest: nat, more: nat, w: Option<Window>)
    requires GoodWindow(size, windowBytes, largest, w)
    ensures GoodWindow(size, windowBytes, Max(largest, more), w)
  {
  }

  lemma RetainedIsGood(size: nat, windowBytes: nat, largest: nat, cached: Option<Window>, offset: nat, want: nat)
    requires GoodWindow(size, windowBytes, largest, cached)
    ensures GoodWindow(size, windowBytes, Max(largest, want), Retained(size, windowBytes, cached, offset, want))
    ensures var n := Available(size, offset, want);
            n > 0 ==> var w := Retained(size, windowBytes, cached, offset, want); w.Some? && Serves(w.value, offset, n)
  {
    var n := Available(size, offset, want);
    if n > 0 {
      FreshIsGood(size, windowBytes, offset, n);
    }
  }

  /** Main theorem on one request: the cached window is kept exactly when nothing is asked for or it covers
      the request; otherwise the new one starts and ends as `FreshWindowIs` says. */
  lemma RetainedIs(size: nat, windowBytes: nat, cached: Option<Window>, offset: nat, want: nat)
    requires size <= USIZE_MAX
    ensures var w := Retained(size, windowBytes, cached, offset, want);
            var n := if size <= offset then 0 else Min(want, size - offset);
            if n == 0 || (cached.Some? && cached.value.start <= offset &&
                          offset + n <= cached.value.start + cached.value.len)
            then w == cached
            else
              && w.Some? && w.value.start % 65536 == 0 && w.value.start <= offset < w.value.start + 65536
              && w.value.start + w.value.len == Min(offset + Max(windowBytes, n), size)
  {
    var n := Available(size, offset, want);
    if n > 0 {
      FreshWindowIs(size, windowBytes, offset, n);
    }
  }

  datatype Request = Request(offset: nat, want: nat)

  /** The window retained after a whole run of requests. */
  ghost function AfterRun(size: nat, windowBytes: nat, cached: Option<Window>, run: seq<Request>): Option<Window>
    decreases |run|
  {
    if run == [] then cached
    else AfterRun(size, windowBytes, Retained(size, windowBytes, cached, run[0].offset, run[0].want), run[1..])
  }

  /** Main theorem: over every run of reads, in any order and of any sizes up to `largest`, the
      retained window is good, and the last request was served from it. */
  lemma {:induction false} RunKeepsWindow(size: nat, windowBytes: nat, largest: nat, cached: Option<Window>,
                                          run: seq<Request>)
    requires GoodWindow(size, windowBytes, largest, cached)
    requires forall k: nat :: k < |run| ==> run[k].want <= largest
    ensures GoodWindow(size, windowBytes, largest, AfterRun(size, windowBytes, cached, run))
    ensures run != [] ==>
              var q := run[|run| - 1];
              var n := Available(size, q.offset, q.want);
              var w := AfterRun(size, windowBytes, cached, run);
              n > 0 ==> w.Some? && Serves(w.value, q.offset, n)
    decreases |run|
  {
    if run != [] {
      var next := Retained(size, windowBytes, cached, run[0].offset, run[0].want);
      RetainedIsGood(size, windowBytes, largest, cached, run[0].offset, run[0].want);
      RunKeepsWindow(size, windowBytes, largest, next, run[1..]);
    }
  }

  /** A mapped view: which mapping it is, what it covers, and the bytes behind its pointer. */
  datatype WindowView = WindowView(id: nat, window: Window, bytes: seq<byte>)

  /** `WindowedMmapFile`. Mapping picks a stretch of the unchanging file; a file that is not
      `reliable` may refuse any mapping. Mappings are numbered in the order they are made and
      `released` records the unmapped ones. */
  class WindowedMmapFile {
    const file: seq<byte>
    const windowBytes: nat
    const reliable: bool
    var view: Option<WindowView>
    var mapped: nat
    var released: seq<nat>
    ghost var largest: nat

    ghost function Cached(): Option<Window>
      reads this
    {
      if view.Some? then Some(view.value.window) else None
    }

    /** Mappings 0, 1, ... are released once each, in order. */
    ghost predicate ReleasedInOrder()
      reads this
    {
      forall k: nat :: k < |released| ==> released[k] == k
    }

    /** The retained view is the last one mapped and shows the file; all earlier ones are released. */
    ghost predicate Valid()
      reads this
    {
      && GoodWindow(|file|, windowBytes, largest, Cached())
      && ReleasedInOrder()
      && match view
         case None => mapped == |released|
         case Some(v) =>
           && v.bytes == file[v.window.start..v.window.start + v.window.len]
           && v.id == |released| && mapped == v.id + 1
    }

    constructor (file: seq<byte>, windowBytes: nat, reliable: bool)
      ensures Valid() && this.file == file && this.windowBytes == windowBytes && this.reliable == reliable
      ensures view == None && mapped == 0 && largest == 0
    {
      this.file, this.windowBytes, this.reliable := file, windowBytes, reliable;
      view, mapped, released, largest := None, 0, [], 0;
    }

    /** `map_view`: the operating system's answer for an interval inside the file. */
    method MapView(start: nat, len: nat) returns (r: Result<WindowView>)
      requires 0 < len && start + len <= |file|
      modifies this`mapped
      ensures r.Ok? ==> r.value == WindowView(old(mapped), Window(start, len), file[start..start + len])
      ensures r.Ok? ==> mapped == old(mapped) + 1
      ensures r.Err? ==> r == Err(ReadFailed) && !reliable && mapped == old(mapped)
    {
      if !reliable {
        if * {
          return Err(ReadFailed);
        }
      }
      mapped := mapped + 1;
      return Ok(WindowView(mapped - 1, Window(start, len), file[start..start + len]));
    }

    /** `unmap_view`. */
    method UnmapView(v: WindowView)
      modifies this`released
      ensures released == old(released) + [v.id]
    {
      released := released + [v.id];
    }

    /** `read_at` into `out[lo..hi]`: always all the bytes asked for that exist. The new view is
        mapped before the old one is released, so two views live for a moment inside the call. */
    method ReadAt(offset: nat, out: array<byte>, lo: nat, hi: nat) returns (r: Result<nat>)
      requires Valid() && lo <= hi <= out.Length
      modifies this, out
      ensures Valid() && largest == Max(old(largest), hi - lo)
      ensures out[..lo] == old(out[..lo]) && out[hi..] == old(out[hi..])
      ensures r.Ok? ==> r.value == Available(|file|, offset, hi - lo)
      ensures r.Ok? ==> LegalRead(file, offset, hi - lo, out[lo..lo + r.value])
      ensures r.Ok? ==> Cached() == Retained(|file|, windowBytes, old(Cached()), offset, hi - lo)
      ensures var v, n := old(view), Available(|file|, offset, hi - lo);
              v.Some? && v.value.window.start <= offset && offset + n <= v.value.window.start + v.value.window.len ==>
                r.Ok? && view == v && mapped == old(mapped) && released == old(released)
      ensures r.Err? ==> r == Err(ReadFailed) && !reliable && view == old(view)
    {
      GoodGrows(|file|, windowBytes, largest, hi - lo, Cached());
      largest := Max(largest, hi - lo);
      var n := Available(|file|, offset, hi - lo);
      if n == 0 {
        return Ok(0);
      }
      var served := Serve(offset, n, out, lo, hi);
      return if served.Err? then Err(served.error) else Ok(n);
    }

    /** Serve a request for `n` existing bytes, from the cached view or a new one. */
    method Serve(offset: nat, n: nat, out: array<byte>, lo: nat, hi: nat) returns (r: Result<()>)
      requires Valid() && 0 < n <= largest && offset + n <= |file| && lo + n <= hi <= out.Length
      modifies this`view, this`mapped, this`released, out
      ensures Valid() && out[..lo] == old(out[..lo]) && out[hi..] == old(out[hi..])
      ensures r.Ok? ==> out[lo..lo + n] == file[offset..offset + n]
      ensures var hit := old(Cached()).Some? && Serves(old(Cached()).value, offset, n);
              && (hit ==> r.Ok? && view == old(view) && mapped == old(mapped) && released == old(released))
              && (!hit && r.Ok? ==> Cached() == Some(FreshWindow(|file|, windowBytes, offset, n)))
      ensures r.Err? ==> r == Err(ReadFailed) && !reliable && view == old(view)
    {
      var hit := ServeCached(offset, n, out, lo, hi);
      if hit {
        return Ok(());
      }
      r := Remap(offset, n, out, lo, hi);
    }

    /** Serve the request from the cached view if it covers it. */
    method ServeCached(offset: nat, n: nat, out: array<byte>, lo: nat, hi: nat) returns (hit: bool)
      requires Valid() && lo + n <= hi <= out.Length
      modifies out
      ensures hit <==> Cached().Some? && Serves(Cached().value, offset, n)
      ensures hit ==> offset + n <= |file| && out[lo..lo + n] == file[offset..offset + n]
      ensures out[..lo] == old(out[..lo]) && out[hi..] == old(out[hi..])
    {
      hit := view.Some? && Serves(view.value.window, offset, n);
      if hit {
        Copy(view.value, offset, n, out, lo, hi);
      }
    }

    /** Replace the cached view by one that serves the request. */
    method Remap(offset: nat, n: nat, out: array<byte>, lo: nat, hi: nat) returns (r: Result<()>)
      requires Valid() && 0 < n <= largest && offset + n <= |file| && lo + n <= hi <= out.Length
      modifies this`view, this`mapped, this`released, out
      ensures Valid() && out[..lo] == old(out[..lo]) && out[hi..] == old(out[hi..])
      ensures r.Ok? ==> Cached() == Some(FreshWindow(|file|, windowBytes, offset, n))
      ensures r.Ok? ==> out[lo..lo + n] == file[offset..offset + n]
      ensures r.Err? ==> r == Err(ReadFailed) && !reliable && view == old(view)
      ensures r.Err? ==> mapped == old(mapped) && released == old(released)
    {
      var w := FreshWindow(|file|, windowBytes, offset, n);
      FreshIsGood(|file|, windowBytes, offset, n);
      var newView := MapView(w.start, w.len);
      if newView.Err? {
        return Err(newView.error);
      }
      Copy(newView.value, offset, n, out, lo, hi);
      var previous := view;
      view := Some(newView.value);
      if previous.Some? {
        UnmapView(previous.value);
      }
      return Ok(());
    }

    /** Copy `n` bytes at `offset` from the view's memory. */
    method Copy(v: WindowView, offset: nat, n: nat, out: array<byte>, lo: nat, hi: nat)
      requires v.window.start + v.window.len <= |file| && Serves(v.window, offset, n)
      requires v.bytes == file[v.window.start..v.window.start + v.window.len]
      requires lo + n <= hi <= out.Length
      modifies out
      ensures out[lo..lo + n] == file[offset..offset + n]
      ensures out[..lo] == old(out[..lo]) && out[hi..] == old(out[hi..])
    {
      var relative := offset - v.window.start;
      var source := v.bytes[relative..relative + n];
      SliceSlice(file, v.window.start, v.window.start + v.window.len, relative, relative + n);
      forall j | lo <= j < lo + n {
        out[j] := source[j - lo];
      }
      assert out[lo..lo + n] == source;
    }

    /** `drop`: afterwards every view ever mapped has been released exactly once. */
    method Drop()
      requires Valid()
      modifies this
      ensures Valid() && view == None && mapped == old(mapped) == |released|
      ensures forall k: nat :: k < mapped ==> released[k] == k
    {
      if view.Some? {
        UnmapView(view.value);
        view := None;
      }
    }
  }
}
