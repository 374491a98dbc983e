/** The word-at-a-time search kernel of src/scanner.rs.

    Words are `bv64`; the address of the first byte is an arbitrary parameter, so
    every starting alignment is covered. */
module Swar {
  import opened Search

  const LO: bv64 := 0x0101_0101_0101_0101
  const HI: bv64 := 0x8080_8080_8080_8080

  function Pack(b0: byte, b1: byte, b2: byte, b3: byte, b4: byte, b5: byte, b6: byte, b7: byte): bv64 {
    (b0 as bv64) | ((b1 as bv64) << 8) | ((b2 as bv64) << 16) | ((b3 as bv64) << 24) |
    ((b4 as bv64) << 32) | ((b5 as bv64) << 40) | ((b6 as bv64) << 48) | ((b7 as bv64) << 56)
  }

  /** `u64::from_le_bytes`. */
  function WordOf(s: seq<byte>): bv64
    requires |s| == 8
  {
    Pack(s[0], s[1], s[2], s[3], s[4], s[5], s[6], s[7])
  }

  /** `(delimiter as u64).wrapping_mul(0x0101..01)`. */
  function Broadcast(b: byte): bv64 {
    (b as bv64) * LO
  }

  /** The marks `xored.wrapping_sub(lo) & !xored & hi`. A borrow may mark lanes above a
      zero lane although they are not zero. */
  function Marks(x: bv64): bv64 {
    (x - LO) & !x & HI
  }

  /** `u64::trailing_zeros`, bit by bit. */
  function TrailingZeros(w: bv64): nat
    requires w != 0
    decreases w
  {
    if w & 1 == 1 then 0 else ShiftRightShrinks(w); 1 + TrailingZeros(w >> 1)
  }

  lemma ShiftRightShrinks(w: bv64)
    requires w != 0 && w & 1 != 1
    ensures w >> 1 != 0 && w >> 1 < w
  {
  }

  lemma ShiftBy1(w: bv64, v: bv64)
    requires w != 0 && w & 1 == 0 && v == w >> 1
    ensures v != 0 && TrailingZeros(w) == 1 + TrailingZeros(v)
  {
    ShiftRightShrinks(w);
  }

  lemma Bits2(w: bv64)
    requires w != 0 && w & 3 == 0
    ensures w & 1 == 0 && (w >> 1) & 1 == 0 && (w >> 1) >> 1 == w >> 2
  {
  }

  lemma ShiftBy2(w: bv64, v: bv64)
    requires w != 0 && w & 3 == 0 && v == w >> 2
    ensures v != 0 && TrailingZeros(w) == 2 + TrailingZeros(v)
  {
    Bits2(w);
    var u := w >> 1;
    ShiftBy1(w, u);
    ShiftBy1(u, v);
  }

  lemma Bits4(w: bv64)
    requires w != 0 && w & 0xF == 0
    ensures w & 3 == 0 && (w >> 2) & 3 == 0 && (w >> 2) >> 2 == w >> 4
  {
  }

  lemma ShiftBy4(w: bv64, v: bv64)
    requires w != 0 && w & 0xF == 0 && v == w >> 4
    ensures v != 0 && TrailingZeros(w) == 4 + TrailingZeros(v)
  {
    Bits4(w);
    var u := w >> 2;
    ShiftBy2(w, u);
    ShiftBy2(u, v);
  }
  lemma Bits8(w: bv64)
    requires w != 0 && w & 0xFF == 0
    ensures w & 0xF == 0 && (w >> 4) & 0xF == 0 && (w >> 4) >> 4 == w >> 8
  {
  }

  lemma ShiftBy8(w: bv64, v: bv64)
    requires w != 0 && w & 0xFF == 0 && v == w >> 8
    ensures v != 0 && TrailingZeros(w) == 8 + TrailingZeros(v)
  {
    Bits8(w);
    var u := w >> 4;
    ShiftBy4(w, u);
    ShiftBy4(u, v);
  }

  lemma Mark80(w: bv64)
    requires w & 0xFF == 0x80
    ensures w != 0 && w & 0xF == 0 && (w >> 4) & 3 == 0 && ((w >> 4) >> 2) & 1 == 0
    ensures (((w >> 4) >> 2) >> 1) & 1 == 1
  {
  }

  lemma MarkInLane0(m: bv64)
    requires m & 0xFF == 0x80
    ensures m != 0 && TrailingZeros(m) == 7
  {
    Mark80(m);
    var a := m >> 4;
    var b := a >> 2;
    ShiftBy4(m, a);
    ShiftBy2(a, b);
    ShiftBy1(b, b >> 1);
  }

  // Trailing zeros locate the lowest marked lane, whatever is marked above it.

  lemma MarkInLane1(m: bv64)
    requires m & 0xFFFF == 0x8000
    ensures m != 0 && TrailingZeros(m) == 15
  {
    ShiftBy8(m, m >> 8);
    MarkInLane0(m >> 8);
  }

  lemma MarkInLane2(m: bv64)
    requires m & 0xFF_FFFF == 0x80_0000
    ensures m != 0 && TrailingZeros(m) == 23
  {
    ShiftBy8(m, m >> 8);
    MarkInLane1(m >> 8);
  }

  lemma MarkInLane3(m: bv64)
    requires m & 0xFFFF_FFFF == 0x8000_0000
    ensures m != 0 && TrailingZeros(m) == 31
  {
    ShiftBy8(m, m >> 8);
    MarkInLane2(m >> 8);
  }

  lemma MarkInLane4(m: bv64)
    requires m & 0xFF_FFFF_FFFF == 0x80_0000_0000
    ensures m != 0 && TrailingZeros(m) == 39
  {
    ShiftBy8(m, m >> 8);
    MarkInLane3(m >> 8);
  }

  lemma MarkInLane5(m: bv64)
    requires m & 0xFFFF_FFFF_FFFF == 0x8000_0000_0000
    ensures m != 0 && TrailingZeros(m) == 47
  {
    ShiftBy8(m, m >> 8);
    MarkInLane4(m >> 8);
  }

  lemma MarkInLane6(m: bv64)
    requires m & 0xFF_FFFF_FFFF_FFFF == 0x80_0000_0000_0000
    ensures m != 0 && TrailingZeros(m) == 55
  {
    ShiftBy8(m, m >> 8);
    MarkInLane5(m >> 8);
  }

  lemma MarkInLane7(m: bv64)
    requires m & 0xFFFF_FFFF_FFFF_FFFF == 0x8000_0000_0000_0000
    ensures m != 0 && TrailingZeros(m) == 63
  {
    ShiftBy8(m, m >> 8);
    MarkInLane6(m >> 8);
  }

  /** The heart of the kernel: no borrow reaches the first zero lane, so the lowest mark is
      exactly there; without a zero lane nothing is marked. */
  lemma LowestMarkIsFirstZero(x: bv64)
    ensures x & 0xFF == 0 ==> Marks(x) & 0xFF == 0x80
    ensures x & 0xFF != 0 && x & 0xFF00 == 0 ==> Marks(x) & 0xFFFF == 0x8000
    ensures x & 0xFF != 0 && x & 0xFF00 != 0 && x & 0xFF_0000 == 0 ==>
              Marks(x) & 0xFF_FFFF == 0x80_0000
    ensures x & 0xFF != 0 && x & 0xFF00 != 0 && x & 0xFF_0000 != 0 && x & 0xFF00_0000 == 0 ==>
              Marks(x) & 0xFFFF_FFFF == 0x8000_0000
    ensures x & 0xFF != 0 && x & 0xFF00 != 0 && x & 0xFF_0000 != 0 && x & 0xFF00_0000 != 0 &&
            x & 0xFF_0000_0000 == 0 ==>
              Marks(x) & 0xFF_FFFF_FFFF == 0x80_0000_0000
    ensures x & 0xFF != 0 && x & 0xFF00 != 0 && x & 0xFF_0000 != 0 && x & 0xFF00_0000 != 0 &&
            x & 0xFF_0000_0000 != 0 && x & 0xFF00_0000_0000 == 0 ==>
              Marks(x) & 0xFFFF_FFFF_FFFF == 0x8000_0000_0000
    ensures x & 0xFF != 0 && x & 0xFF00 != 0 && x & 0xFF_0000 != 0 && x & 0xFF00_0000 != 0 &&
            x & 0xFF_0000_0000 != 0 && x & 0xFF00_0000_0000 != 0 && x & 0xFF_0000_0000_0000 == 0 ==>
              Marks(x) & 0xFF_FFFF_FFFF_FFFF == 0x80_0000_0000_0000
    ensures x & 0xFF != 0 && x & 0xFF00 != 0 && x & 0xFF_0000 != 0 && x & 0xFF00_0000 != 0 &&
            x & 0xFF_0000_0000 != 0 && x & 0xFF00_0000_0000 != 0 && x & 0xFF_0000_0000_0000 != 0 ==>
              Marks(x) == if x & 0xFF00_0000_0000_0000 == 0 then 0x8000_0000_0000_0000 else 0
  {
  }

  // One lemma a lane: together they are too wide a bit-vector goal.

  lemma XoredLane0(x: bv64, s: seq<byte>, d: byte)
    requires |s| == 8 && x == WordOf(s) ^ Broadcast(d)
    ensures x & 0xFF == 0 <==> s[0] == d
  {
  }

  lemma XoredLane1(x: bv64, s: seq<byte>, d: byte)
    requires |s| == 8 && x == WordOf(s) ^ Broadcast(d)
    ensures x & 0xFF00 == 0 <==> s[1] == d
  {
  }

  lemma XoredLane2(x: bv64, s: seq<byte>, d: byte)
    requires |s| == 8 && x == WordOf(s) ^ Broadcast(d)
    ensures x & 0xFF_0000 == 0 <==> s[2] == d
  {
  }

  lemma XoredLane3(x: bv64, s: seq<byte>, d: byte)
    requires |s| == 8 && x == WordOf(s) ^ Broadcast(d)
    ensures x & 0xFF00_0000 == 0 <==> s[3] == d
  {
  }

  lemma XoredLane4(x: bv64, s: seq<byte>, d: byte)
    requires |s| == 8 && x == WordOf(s) ^ Broadcast(d)
    ensures x & 0xFF_0000_0000 == 0 <==> s[4] == d
  {
  }

  lemma XoredLane5(x: bv64, s: seq<byte>, d: byte)
    requires |s| == 8 && x == WordOf(s) ^ Broadcast(d)
    ensures x & 0xFF00_0000_0000 == 0 <==> s[5] == d
  {
  }

  lemma XoredLane6(x: bv64, s: seq<byte>, d: byte)
    requires |s| == 8 && x == WordOf(s) ^ Broadcast(d)
    ensures x & 0xFF_0000_0000_0000 == 0 <==> s[6] == d
  {
  }

  lemma XoredLane7(x: bv64, s: seq<byte>, d: byte)
    requires |s| == 8 && x == WordOf(s) ^ Broadcast(d)
    ensures x & 0xFF00_0000_0000_0000 == 0 <==> s[7] == d
  {
  }

  /** Lane k of `x` is zero exactly when byte k of `s` is the delimiter. */
  predicate LanesMatch(x: bv64, s: seq<byte>, d: byte)
    requires |s| == 8
  {
    && (x & 0xFF == 0 <==> s[0] == d)
    && (x & 0xFF00 == 0 <==> s[1] == d)
    && (x & 0xFF_0000 == 0 <==> s[2] == d)
    && (x & 0xFF00_0000 == 0 <==> s[3] == d)
    && (x & 0xFF_0000_0000 == 0 <==> s[4] == d)
    && (x & 0xFF00_0000_0000 == 0 <==> s[5] == d)
    && (x & 0xFF_0000_0000_0000 == 0 <==> s[6] == d)
    && (x & 0xFF00_0000_0000_0000 == 0 <==> s[7] == d)
  }

  lemma XoredLanes(x: bv64, s: seq<byte>, d: byte)
    requires |s| == 8 && x == WordOf(s) ^ Broadcast(d)
    ensures LanesMatch(x, s, d)
  {
    XoredLane0(x, s, d);
    XoredLane1(x, s, d);
    XoredLane2(x, s, d);
    XoredLane3(x, s, d);
    XoredLane4(x, s, d);
    XoredLane5(x, s, d);
    XoredLane6(x, s, d);
    XoredLane7(x, s, d);
  }

  // The rule of the marks, one lemma a lane: lane 0 is marked when it is zero; a higher lane is
  // marked when it is zero, or when it is 0x01 and the lane below is marked, which is the borrow.

  lemma MarkRule0(x: bv64)
    ensures Marks(x) & 0x80 != 0 <==> x & 0xFF == 0
  {
  }

  lemma MarkRule1(x: bv64)
    ensures Marks(x) & 0x8000 != 0 <==> x & 0xFF00 == 0 || (x & 0xFF00 == 0x100 && Marks(x) & 0x80 != 0)
  {
  }

  lemma MarkRule2(x: bv64)
    ensures Marks(x) & 0x80_0000 != 0 <==> x & 0xFF_0000 == 0 || (x & 0xFF_0000 == 0x1_0000 && Marks(x) & 0x8000 != 0)
  {
  }

  lemma MarkRule3(x: bv64)
    ensures Marks(x) & 0x8000_0000 != 0 <==>
              x & 0xFF00_0000 == 0 || (x & 0xFF00_0000 == 0x100_0000 && Marks(x) & 0x80_0000 != 0)
  {
  }

  lemma MarkRule4(x: bv64)
    ensures Marks(x) & 0x80_0000_0000 != 0 <==>
              x & 0xFF_0000_0000 == 0 || (x & 0xFF_0000_0000 == 0x1_0000_0000 && Marks(x) & 0x8000_0000 != 0)
  {
  }

  lemma MarkRule5(x: bv64)
    ensures Marks(x) & 0x8000_0000_0000 != 0 <==>
              x & 0xFF00_0000_0000 == 0 || (x & 0xFF00_0000_0000 == 0x100_0000_0000 && Marks(x) & 0x80_0000_0000 != 0)
  {
  }

  lemma MarkRule6(x: bv64)
    ensures Marks(x) & 0x80_0000_0000_0000 != 0 <==>
              x & 0xFF_0000_0000_0000 == 0 ||
              (x & 0xFF_0000_0000_0000 == 0x1_0000_0000_0000 && Marks(x) & 0x8000_0000_0000 != 0)
  {
  }

  lemma MarkRule7(x: bv64)
    ensures Marks(x) & 0x8000_0000_0000_0000 != 0 <==>
              x & 0xFF00_0000_0000_0000 == 0 ||
              (x & 0xFF00_0000_0000_0000 == 0x100_0000_0000_0000 && Marks(x) & 0x80_0000_0000_0000 != 0)
  {
  }

  /** Every lane is marked exactly when it is zero. */
  predicate MarksAreExact(x: bv64) {
    && (Marks(x) & 0x80 != 0 <==> x & 0xFF == 0)
    && (Marks(x) & 0x8000 != 0 <==> x & 0xFF00 == 0)
    && (Marks(x) & 0x80_0000 != 0 <==> x & 0xFF_0000 == 0)
    && (Marks(x) & 0x8000_0000 != 0 <==> x & 0xFF00_0000 == 0)
    && (Marks(x) & 0x80_0000_0000 != 0 <==> x & 0xFF_0000_0000 == 0)
    && (Marks(x) & 0x8000_0000_0000 != 0 <==> x & 0xFF00_0000_0000 == 0)
    && (Marks(x) & 0x80_0000_0000_0000 != 0 <==> x & 0xFF_0000_0000_0000 == 0)
    && (Marks(x) & 0x8000_0000_0000_0000 != 0 <==> x & 0xFF00_0000_0000_0000 == 0)
  }

  /** Some lane holds 0x01 directly above a zero lane. */
  predicate OneAboveZero(x: bv64) {
    || (x & 0xFF00 == 0x100 && x & 0xFF == 0)
    || (x & 0xFF_0000 == 0x1_0000 && x & 0xFF00 == 0)
    || (x & 0xFF00_0000 == 0x100_0000 && x & 0xFF_0000 == 0)
    || (x & 0xFF_0000_0000 == 0x1_0000_0000 && x & 0xFF00_0000 == 0)
    || (x & 0xFF00_0000_0000 == 0x100_0000_0000 && x & 0xFF_0000_0000 == 0)
    || (x & 0xFF_0000_0000_0000 == 0x1_0000_0000_0000 && x & 0xFF00_0000_0000 == 0)
    || (x & 0xFF00_0000_0000_0000 == 0x100_0000_0000_0000 && x & 0xFF_0000_0000_0000 == 0)
  }

  /** The marks are exactly the zero lanes if and only if no 0x01 stands directly above a zero
      lane; otherwise the borrow marks falsely, and only the lowest mark can be trusted. */
  lemma MarksExactIff(x: bv64)
    ensures MarksAreExact(x) <==> !OneAboveZero(x)
  {
    MarkRule0(x);
    MarkRule1(x);
    MarkRule2(x);
    MarkRule3(x);
    MarkRule4(x);
    MarkRule5(x);
    MarkRule6(x);
    MarkRule7(x);
  }

  /** The smallest failing word: lane 1 is 0x01 over a zero lane 0, and is marked. */
  lemma BorrowMarksFalsely()
    ensures OneAboveZero(0x0100) && Marks(0x0100) & 0x8000 != 0 && !MarksAreExact(0x0100)
  {
  }

  /** One word of the main loop: the marks vanish exactly when the delimiter is absent, and
      otherwise their trailing zeros name its first position. */
  lemma WordSearch(x: bv64, s: seq<byte>, d: byte, k: nat)
    requires |s| == 8 && k <= 8 && LanesMatch(x, s, d)
    requires forall j: nat :: j < k ==> s[j] != d
    requires k < 8 ==> s[k] == d
    ensures if k == 8 then Marks(x) == 0 else Marks(x) != 0 && TrailingZeros(Marks(x)) / 8 == k
  {
    LowestMarkIsFirstZero(x);
    match k {
      case 0 => MarkInLane0(Marks(x));
      case 1 => MarkInLane1(Marks(x));
      case 2 => MarkInLane2(Marks(x));
      case 3 => MarkInLane3(Marks(x));
      case 4 => MarkInLane4(Marks(x));
      case 5 => MarkInLane5(Marks(x));
      case 6 => MarkInLane6(Marks(x));
      case 7 => MarkInLane7(Marks(x));
      case _ =>
    }
  }

  /** The xored word of the main loop. */
  method XoredWord(chunk: seq<byte>, pattern: bv64, ghost delimiter: byte) returns (xored: bv64)
    requires |chunk| == 8 && pattern == Broadcast(delimiter)
    ensures LanesMatch(xored, chunk, delimiter)
  {
    xored := WordOf(chunk) ^ pattern;
    XoredLanes(xored, chunk, delimiter);
  }

  /** One word of `find_byte_swar`'s main loop: the first lane that holds the delimiter. */
  method SearchWord(chunk: seq<byte>, pattern: bv64, ghost delimiter: byte) returns (r: Option<nat>)
    requires |chunk| == 8 && pattern == Broadcast(delimiter)
    ensures r.Some? ==> r.value < 8 && chunk[r.value] == delimiter
    ensures forall q: nat :: q < (if r.Some? then r.value else 8) ==> chunk[q] != delimiter
  {
    var xored := XoredWord(chunk, pattern, delimiter);
    var hasZero := Marks(xored);
    WordSearch(xored, chunk, delimiter, FirstByteOf(chunk, delimiter));
    r := if hasZero != 0 then Some(TrailingZeros(hasZero) / 8) else None;
  }

  /** Counts the bytes that searches inspect, and the highest address among them. Every place that
      looks at haystack bytes notes it here. */
  class Meter {
    ghost var bytes: nat
    ghost var high: nat

    constructor ()
      ensures bytes == 0 && high == 0
    {
      bytes, high := 0, 0;
    }

    /** `n` bytes from `address` on are looked at. */
    ghost method Note(address: nat, n: nat)
      modifies this
      ensures bytes == old(bytes) + n && high == Max(old(high), address + n)
    {
      bytes, high := bytes + n, Max(high, address + n);
    }
  }

  /** The bytes before the first aligned address. */
  function AlignedPrefix(len: nat, address: nat): nat {
    if address % 8 == 0 then 0 else Min(8 - address % 8, len)
  }

  /** Where the word that holds offset `p` starts, when words start at `from`. */
  function WordStart(from: nat, p: nat): (w: nat)
    requires from <= p
    ensures from <= w <= p < w + 8
    decreases p - from
  {
    if p < from + 8 then from else WordStart(from + 8, p)
  }

  /** `to` is a word start when words start at `from`. */
  predicate OnWord(from: nat, to: nat) {
    from == to || (from + 8 <= to && OnWord(from, to - 8))
  }

  lemma {:induction false} WordOnWord(from: nat, to: nat, p: nat)
    requires from <= to <= p && OnWord(from, to)
    ensures WordStart(from, p) == WordStart(to, p)
  {
    if from < to {
      WordOnWord(from, to - 8, p);
    }
  }

  /** How far a search of `len` bytes at `address` looks when its answer is `r`: to the answer in the
      scalar prefix and tail, to the end of the answer's word in between. */
  function InspectedEnd(len: nat, address: nat, r: Option<nat>): nat {
    match r
    case None => len
    case Some(p) =>
      var prefix := AlignedPrefix(len, address);
      if p < prefix then p + 1
      else
        var word := WordStart(prefix, p);
        if word + 8 <= len then word + 8 else p + 1
  }

  /** A search looks past its answer by at most seven bytes, and never past the end. */
  lemma InspectedBounds(len: nat, address: nat, p: nat)
    requires p < len
    ensures p < InspectedEnd(len, address, Some(p)) <= Min(p + 8, len)
  {
  }

  /** A byte-by-byte stretch of a search: looks at every byte up to the answer, once. */
  method ScanBytes(haystack: seq<byte>, delimiter: byte, from: nat, to: nat, address: nat, meter: Meter)
    returns (r: Option<nat>)
    requires from <= to <= |haystack|
    modifies meter
    ensures FirstIn(haystack, delimiter, from, to, r)
    ensures Noted(meter, old(meter.bytes), old(meter.high), address, from, if r.Some? then r.value + 1 else to)
  {
    var i := from;
    while i < to
      invariant from <= i <= to
      invariant forall q: nat :: from <= q < i ==> haystack[q] != delimiter
      invariant Noted(meter, old(meter.bytes), old(meter.high), address, from, i)
    {
      meter.Note(address + i, 1);
      if haystack[i] == delimiter {
        return Some(i);
      }
      i := i + 1;
    }
    return None;
  }

  /** The word-by-word stretch of a search: looks at whole words up to the one that holds the answer. */
  method ScanWords(haystack: seq<byte>, delimiter: byte, from: nat, address: nat, meter: Meter)
    returns (r: Option<nat>, to: nat)
    requires from <= |haystack|
    modifies meter
    ensures from <= to <= |haystack| && OnWord(from, to)
    ensures FirstIn(haystack, delimiter, from, to, r)
    ensures if r.Some? then to == WordStart(from, r.value) + 8 else |haystack| < to + 8
    ensures Noted(meter, old(meter.bytes), old(meter.high), address, from, to)
  {
    var len := |haystack|;
    var pattern := Broadcast(delimiter);
    var i := from;
    while i + 8 <= len
      invariant from <= i <= len && OnWord(from, i)
      invariant forall q: nat :: from <= q < i ==> haystack[q] != delimiter
      invariant Noted(meter, old(meter.bytes), old(meter.high), address, from, i)
    {
      var chunk := haystack[i..i + 8];
      meter.Note(address + i, 8);
      var lane := SearchWord(chunk, pattern, delimiter);
      assert forall q: nat :: i <= q < i + 8 ==> haystack[q] == chunk[q - i];
      if lane.Some? {
        WordOnWord(from, i, i + lane.value);
        return Some(i + lane.value), i + 8;
      }
      i := i + 8;
    }
    return None, i;
  }

  /** `find_byte_swar`: scalar prefix up to an aligned address, eight bytes at a time, scalar
      tail. `address` is where the haystack starts in memory. */
  method FindByteSwar(haystack: seq<byte>, delimiter: byte, address: nat, meter: Meter) returns (r: Option<nat>)
    modifies meter
    ensures r == FirstFrom(haystack, [delimiter], 0)
    ensures Noted(meter, old(meter.bytes), old(meter.high), address, 0, InspectedEnd(|haystack|, address, r))
  {
    var len := |haystack|;
    if len == 0 {
      FirstByte(haystack, delimiter, 0);
      return None;
    }
    var i := 0;
    var align := address % 8;
    if align != 0 {
      i := Min(8 - align, len);
      r := ScanBytes(haystack, delimiter, 0, i, address, meter);
      if r.Some? {
        FirstByte(haystack, delimiter, r.value);
        return;
      }
    }
    ghost var end;
    r, end := ScanAligned(haystack, delimiter, i, address, meter);
    FirstByte(haystack, delimiter, if r.Some? then r.value else len);
  }

  /** The main loop and the tail, from the aligned offset `i` on. */
  method ScanAligned(haystack: seq<byte>, delimiter: byte, i: nat, address: nat, meter: Meter)
    returns (r: Option<nat>, ghost end: nat)
    requires i == AlignedPrefix(|haystack|, address)
    modifies meter
    ensures FirstIn(haystack, delimiter, i, |haystack|, r)
    ensures end == InspectedEnd(|haystack|, address, r)
    ensures Noted(meter, old(meter.bytes), old(meter.high), address, i, end)
  {
    var to;
    r, to := ScanWords(haystack, delimiter, i, address, meter);
    end := to;
    if r == None {
      r := ScanBytes(haystack, delimiter, to, |haystack|, address, meter);
      end := if r.Some? then r.value + 1 else |haystack|;
      if r.Some? {
        WordOnWord(i, to, r.value);
      }
    }
  }

  /** `r` is the first `d` in `[from, to)`. */
  ghost predicate FirstIn(s: seq<byte>, d: byte, from: nat, to: nat, r: Option<nat>)
    requires to <= |s|
  {
    && (r.Some? ==> from <= r.value < to && s[r.value] == d)
    && forall q: nat :: from <= q < (if r.Some? then r.value else to) ==> s[q] != d
  }

  /** Since the marks `bytes` and `high`, bytes `[from, to)` at `address` were looked at, once each. */
  ghost predicate Noted(meter: Meter, bytes: nat, high: nat, address: nat, from: nat, to: int)
    reads meter
  {
    meter.bytes == bytes + to - from && meter.high <= Max(high, address + to)
  }

  /** Index of the first `d`, or the length if there is none. */
  ghost function FirstByteOf(s: seq<byte>, d: byte): (k: nat)
    ensures k <= |s|
    ensures forall j: nat :: j < k ==> s[j] != d
    ensures k < |s| ==> s[k] == d
  {
    if s == [] || s[0] == d then 0 else 1 + FirstByteOf(s[1..], d)
  }

  /** The next place from `start` on that holds the pattern's first byte and leaves room for the rest. */
  method NextCandidate(haystack: seq<byte>, pattern: seq<byte>, start: nat, address: nat, meter: Meter)
    returns (pos: Option<nat>)
    requires |pattern| > 0 && start + |pattern| <= |haystack|
    modifies meter
    ensures pos.Some? ==> start <= pos.value && pos.value + |pattern| <= |haystack|
    ensures forall q: nat :: start <= q < (if pos.Some? then pos.value else |haystack|) ==>
              !OccursAt(haystack, pattern, q)
    ensures var end := if pos.Some? then Min(pos.value + 8, |haystack|) else |haystack|;
            meter.bytes <= old(meter.bytes) + end - start && meter.high <= Max(old(meter.high), address + end)
  {
    var rel := FindByteSwar(haystack[start..], pattern[0], address + start, meter);
    NoCandidateNoOccurrence(haystack, pattern, start, rel);
    if rel == None {
      return None;
    }
    CandidateInSuffix(haystack, pattern[0], start, rel.value);
    InspectedBounds(|haystack| - start, address + start, rel.value);
    if start + rel.value > |haystack| - |pattern| {
      return None;
    }
    return Some(start + rel.value);
  }

  lemma CandidateInSuffix(haystack: seq<byte>, b: byte, start: nat, p: nat)
    requires start <= |haystack| && OccursAt(haystack[start..], [b], p)
    ensures p < |haystack| - start
  {
  }

  /** The comparison of one candidate. */
  method CompareAt(haystack: seq<byte>, pattern: seq<byte>, pos: nat, address: nat, meter: Meter) returns (same: bool)
    requires pos + |pattern| <= |haystack|
    modifies meter
    ensures same <==> OccursAt(haystack, pattern, pos)
    ensures Noted(meter, old(meter.bytes), old(meter.high), address, pos, pos + |pattern|)
  {
    meter.Note(address + pos, |pattern|);
    same := haystack[pos..pos + |pattern|] == pattern;
  }

  /** One round of the loop of `find_pattern_in_slice`: the next candidate and its comparison. */
  method TryCandidate(haystack: seq<byte>, pattern: seq<byte>, start: nat, address: nat, meter: Meter)
    returns (pos: Option<nat>, same: bool)
    requires |pattern| > 0 && start + |pattern| <= |haystack|
    modifies meter
    ensures pos.Some? ==> start <= pos.value && pos.value + |pattern| <= |haystack|
    ensures forall q: nat :: start <= q < (if pos.Some? then pos.value else |haystack|) ==>
              !OccursAt(haystack, pattern, q)
    ensures pos.Some? ==> (same <==> OccursAt(haystack, pattern, pos.value))
    ensures var k := if pos.Some? then pos.value + 1 - start else |haystack| - start;
            meter.bytes <= old(meter.bytes) + k - 1 + |pattern| + 8
    ensures meter.high <= Max(old(meter.high), address + Reach(|haystack|, |pattern|, pos))
  {
    pos := NextCandidate(haystack, pattern, start, address, meter);
    same := false;
    if pos.Some? {
      same := CompareAt(haystack, pattern, pos.value, address, meter);
    }
  }

  /** The loop of `find_pattern_in_slice`. */
  method ScanCandidates(haystack: seq<byte>, pattern: seq<byte>, address: nat, meter: Meter) returns (r: Option<nat>)
    requires 1 < |pattern| <= |haystack|
    modifies meter
    ensures r.Some? ==> OccursAt(haystack, pattern, r.value)
    ensures forall q: nat :: q < (if r.Some? then r.value else |haystack|) ==> !OccursAt(haystack, pattern, q)
    ensures InBudget(meter, old(meter.bytes), |pattern| + 8, Considered(|haystack|, r))
    ensures meter.high <= Max(old(meter.high), address + Reach(|haystack|, |pattern|, r))
  {
    var maxSearch := |haystack| - |pattern|;
    var searchStart := 0;
    BudgetStart(|pattern| + 8, meter.bytes);
    while searchStart <= maxSearch
      invariant 0 <= searchStart <= maxSearch + 1
      invariant forall q: nat :: q < searchStart ==> !OccursAt(haystack, pattern, q)
      invariant InBudget(meter, old(meter.bytes), |pattern| + 8, searchStart)
      invariant meter.high <= Max(old(meter.high), address + Min(searchStart + |pattern| + 6, |haystack|))
    {
      ghost var before := meter.bytes;
      var pos, same := TryCandidate(haystack, pattern, searchStart, address, meter);
      BudgetStep(|pattern| + 8, old(meter.bytes), searchStart, Considered(|haystack|, pos) - searchStart,
                 before, meter.bytes);
      if pos == None || same {
        return pos;
      }
      searchStart := pos.value + 1;
    }
    BudgetStep(|pattern| + 8, old(meter.bytes), searchStart, |haystack| - searchStart, meter.bytes, meter.bytes);
    return None;
  }

  /** At most `cost` bytes for each of `k` positions. */
  ghost predicate Budget(cost: nat, start: nat, k: nat, bytes: nat) {
    bytes <= start + Times(cost, k)
  }

  /** `c * k` by repeated addition, which keeps products out of the loops' proofs. */
  ghost function Times(c: nat, k: nat): nat {
    if k == 0 then 0 else c + Times(c, k - 1)
  }

  lemma {:induction false} TimesIsProduct(c: nat, k: nat)
    ensures Times(c, k) == c * k
  {
    if k > 0 {
      TimesIsProduct(c, k - 1);
      assert c * k == c * (k - 1) + c;
    }
  }

  ghost predicate InBudget(meter: Meter, start: nat, cost: nat, k: nat)
    reads meter
  {
    Budget(cost, start, k, meter.bytes)
  }

  lemma BudgetStart(cost: nat, start: nat)
    ensures Budget(cost, start, 0, start)
  {
  }

  /** `k` more positions pay for `k - 1` bytes and one full candidate. */
  lemma BudgetStep(cost: nat, start: nat, done: nat, k: nat, before: nat, bytes: nat)
    requires cost >= 8 && Budget(cost, start, done, before)
    requires bytes <= before + if k == 0 then 0 else k - 1 + cost
    ensures Budget(cost, start, done + k, bytes)
  {
    TimesSum(cost, done, k);
    if k > 0 {
      TimesGrows(cost, k - 1);
    }
  }

  lemma BudgetAdd(cost: nat, start: nat, k: nat, middle: nat, more: nat, bytes: nat)
    requires Budget(cost, start, k, middle) && Budget(cost, middle, more, bytes)
    ensures Budget(cost, start, k + more, bytes)
  {
    TimesSum(cost, k, more);
  }

  /** Positions a pattern search had to consider. */
  ghost function Considered(len: nat, r: Option<nat>): nat {
    if r.Some? then r.value + 1 else len
  }

  /** How far a pattern search may look: past the end of its answer by at most seven bytes. */
  ghost function Reach(len: nat, plen: nat, r: Option<nat>): nat {
    if r.Some? then Min(r.value + plen + 7, len) else len
  }

  /** `find_pattern_in_slice`: jump between first-byte candidates, verify each. Every candidate may
      cost a word and a comparison, so the work is bounded by the product the documentation names;
      but it never looks further than seven bytes past the answer's last byte. */
  method FindPatternInSlice(haystack: seq<byte>, pattern: seq<byte>, address: nat, meter: Meter)
    returns (r: Option<nat>)
    modifies meter
    ensures r == if pattern == [] then None else FirstFrom(haystack, pattern, 0)
    ensures InBudget(meter, old(meter.bytes), |pattern| + 8, Considered(|haystack|, r))
    ensures |pattern| == 1 ==> meter.bytes == old(meter.bytes) + InspectedEnd(|haystack|, address, r)
    ensures meter.high <= Max(old(meter.high), address + Reach(|haystack|, |pattern|, r))
  {
    BudgetStart(|pattern| + 8, meter.bytes);
    if |pattern| == 0 || |haystack| < |pattern| {
      BudgetStep(|pattern| + 8, meter.bytes, 0, |haystack|, meter.bytes, meter.bytes);
      return None;
    }
    if |pattern| == 1 {
      assert pattern == [pattern[0]];
      r := FindByteSwar(haystack, pattern[0], address, meter);
      InspectedBounds(|haystack|, address, if r.Some? then r.value else 0);
      BudgetStep(|pattern| + 8, old(meter.bytes), 0, Considered(|haystack|, r), old(meter.bytes), meter.bytes);
      return;
    }
    r := ScanCandidates(haystack, pattern, address, meter);
  }

  lemma {:induction false} TimesSum(c: nat, a: nat, b: nat)
    ensures Times(c, a + b) == Times(c, a) + Times(c, b)
  {
    if b > 0 {
      TimesSum(c, a, b - 1);
    }
  }

  lemma {:induction false} TimesGrows(c: nat, k: nat)
    requires c > 0
    ensures k <= Times(c, k)
  {
    if k > 0 {
      TimesGrows(c, k - 1);
    }
  }

  /** Positions before the next first-byte candidate cannot start the pattern. */
  lemma NoCandidateNoOccurrence(haystack: seq<byte>, pattern: seq<byte>, start: nat, rel: Option<nat>)
    requires |pattern| > 0 && start <= |haystack|
    requires rel == FirstFrom(haystack[start..], [pattern[0]], 0)
    ensures rel == None ==> forall q: nat :: start <= q ==> !OccursAt(haystack, pattern, q)
    ensures rel.Some? ==> forall q: nat :: start <= q < start + rel.value ==> !OccursAt(haystack, pattern, q)
  {
    forall q: nat | start <= q && OccursAt(haystack, pattern, q)
      ensures rel.Some? && start + rel.value <= q
    {
      assert haystack[q] == haystack[q..q + |pattern|][0];
      OccursByte(haystack[start..], pattern[0], q - start);
    }
  }
}
