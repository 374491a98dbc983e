/** Bytes, machine limits and the one search specification that every fast or
    streaming search in the project is proved against. */
module Search {

  type byte = bv8

  datatype Option<+T> = None | Some(value: T)

  /** Largest value of the 64-bit `usize`. */
  const USIZE_MAX: nat := 0xFFFF_FFFF_FFFF_FFFF

  /** Largest value of `isize`: the bound on one allocation. */
  const ISIZE_MAX: nat := 0x7FFF_FFFF_FFFF_FFFF

  type usize = x: nat | x <= USIZE_MAX witness 0

  function Min(a: int, b: int): int {
    if a <= b then a else b
  }

  function Max(a: int, b: int): int {
    if a >= b then a else b
  }

  /** `usize::saturating_add`. */
  function SaturatingAdd(a: nat, b: nat): nat {
    Min(a + b, USIZE_MAX)
  }

  /** The complete pattern `d` lies in `data` at offset `p`. */
  predicate OccursAt(data: seq<byte>, d: seq<byte>, p: nat) {
    p + |d| <= |data| && data[p..p + |d|] == d
  }

  /** A complete pattern ends exactly at offset `t`. */
  predicate EndsAt(data: seq<byte>, d: seq<byte>, t: nat) {
    |d| <= t && OccursAt(data, d, t - |d|)
  }

  /** `r` is the first occurrence of `d` that starts at or after `from`. */
  ghost predicate IsFirst(data: seq<byte>, d: seq<byte>, from: nat, r: Option<nat>) {
    && (r.Some? ==> from <= r.value && OccursAt(data, d, r.value))
    && (forall q: nat :: from <= q && OccursAt(data, d, q) ==> r.Some? && r.value <= q)
  }

  lemma {:induction false} FirstExists(data: seq<byte>, d: seq<byte>, from: nat)
    ensures exists r: Option<nat> :: IsFirst(data, d, from, r)
    decreases |data| - from
  {
    if from > |data| {
      assert IsFirst(data, d, from, None);
    } else if OccursAt(data, d, from) {
      assert IsFirst(data, d, from, Some(from));
    } else {
      FirstExists(data, d, from + 1);
      var r: Option<nat> :| IsFirst(data, d, from + 1, r);
      assert IsFirst(data, d, from, r);
    }
  }

  /** First occurrence of `d` that starts at or after `from`. */
  ghost function FirstFrom(data: seq<byte>, d: seq<byte>, from: nat): (r: Option<nat>)
    ensures r.Some? ==> from <= r.value && OccursAt(data, d, r.value)
    ensures forall q: nat :: from <= q && OccursAt(data, d, q) ==> r.Some? && r.value <= q
  {
    FirstExists(data, d, from);
    var r: Option<nat> :| IsFirst(data, d, from, r);
    r
  }

  /** What `find the next delimiter` means for bytes up to `hi`: `e` is the end of the first complete
      pattern that starts at or after `from` and fits, or `hi` if there is none. */
  ghost predicate StopsAt(data: seq<byte>, d: seq<byte>, from: nat, hi: nat, e: nat) {
    || (from + |d| <= e <= hi && EndsAt(data, d, e) && forall q: nat :: from <= q < e - |d| ==> !OccursAt(data, d, q))
    || (e == hi && forall q: nat :: from <= q && q + |d| <= hi ==> !OccursAt(data, d, q))
  }

  lemma StopsOnce(data: seq<byte>, d: seq<byte>, from: nat, hi: nat, a: nat, b: nat)
    requires StopsAt(data, d, from, hi, a) && StopsAt(data, d, from, hi, b)
    ensures a == b
  {
  }

  lemma SliceSlice(s: seq<byte>, lo: nat, hi: nat, a: nat, b: nat)
    requires lo <= hi <= |s| && a <= b <= hi - lo
    ensures s[lo..hi][a..b] == s[lo + a..lo + b]
  {
    var x, y := s[lo..hi][a..b], s[lo + a..lo + b];
    assert |x| == |y| && forall i :: 0 <= i < |x| ==> x[i] == y[i];
  }

  /** Occurrences inside a slice are the occurrences of the whole that fit the slice. */
  lemma OccursInSlice(data: seq<byte>, d: seq<byte>, lo: nat, hi: nat, q: nat)
    requires lo <= hi <= |data|
    ensures OccursAt(data[lo..hi], d, q) <==> lo + q + |d| <= hi && OccursAt(data, d, lo + q)
  {
    if q + |d| <= hi - lo {
      SliceSlice(data, lo, hi, q, q + |d|);
    }
  }

  /** Searching a suffix from 0 is searching the whole from the suffix's start. */
  lemma FirstInSuffix(data: seq<byte>, d: seq<byte>, k: nat)
    requires |d| > 0 && k <= |data|
    ensures FirstFrom(data[k..], d, 0).Some? <==> FirstFrom(data, d, k).Some?
    ensures FirstFrom(data[k..], d, 0).Some? ==>
              k + FirstFrom(data[k..], d, 0).value == FirstFrom(data, d, k).value
  {
    var r, s := FirstFrom(data[k..], d, 0), FirstFrom(data, d, k);
    assert data[k..] == data[k..|data|];
    if r.Some? {
      OccursInSlice(data, d, k, |data|, r.value);
    }
    if s.Some? {
      OccursInSlice(data, d, k, |data|, s.value - k);
    }
  }

  /** A one-byte pattern occurs exactly where its byte stands. */
  lemma OccursByte(data: seq<byte>, b: byte, p: nat)
    ensures OccursAt(data, [b], p) <==> p < |data| && data[p] == b
  {
    if p < |data| {
      assert data[p..p + 1] == [data[p]];
    }
  }

  /** The first index that holds `b` is the first occurrence of the pattern `[b]`. */
  lemma FirstByte(data: seq<byte>, b: byte, p: nat)
    requires p <= |data|
    requires forall q: nat :: q < p ==> data[q] != b
    ensures p < |data| && data[p] == b ==> FirstFrom(data, [b], 0) == Some(p)
    ensures p == |data| ==> FirstFrom(data, [b], 0) == None
  {
    var r := FirstFrom(data, [b], 0);
    if r.Some? {
      OccursByte(data, b, r.value);
    }
    OccursByte(data, b, p);
  }
}
