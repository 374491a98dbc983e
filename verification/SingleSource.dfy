/** For one source the multi-file planner and the slice planner emit the same ranges, although
    one drops a cut at the end of the file and the other records it. */
module SingleSource {
  import opened Search
  import opened Partition
  import opened Reads
  import opened Logical

  /** One worker per range, each with one row of source 0. */
  ghost function WorkersOf(rs: seq<Range>, index: nat): seq<WorkerAssignment>
    requires forall k: nat :: k < |rs| ==> rs[k].start < rs[k].end
  {
    if rs == [] then []
    else
      var row := SourceRange(0, rs[0].start, rs[0].end, rs[0].end - rs[0].start);
      [WorkerAssignment(index, [row])] + WorkersOf(rs[1..], index + 1)
  }

  lemma OnePrefix(len: nat)
    ensures Prefix([len], 0) == 0 && Prefix([len], 1) == len && Total([len]) == len
  {
  }

  lemma ProjectOne(data: seq<byte>, d: seq<byte>, t: nat)
    requires |d| > 0 && 0 < t < |data|
    ensures SameLens([data], [|data|]) && Total([|data|]) == |data|
    ensures Project([data], [|data|], d, t) == NextBoundary(data, d, t)
  {
    OnePrefix(|data|);
    assert forall k: nat :: k <= 1 ==> Prefix([|data|], k) != t;
    assert Locate([|data|], t) == 0;
  }

  ghost predicate AllSome(cts: seq<Option<nat>>, ts: seq<nat>) {
    |cts| == |ts| && forall k: nat :: k < |ts| ==> cts[k] == Some(ts[k])
  }

  /** Increasing cuts strictly between `last` and the end. */
  ghost predicate Rising(cuts: seq<nat>, last: nat, len: nat)
    decreases |cuts|
  {
    cuts != [] ==> last < cuts[0] < len && Rising(cuts[1..], cuts[0], len)
  }

  /** The same ranges, whether or not the cut at the end is kept. */
  ghost predicate SameRanges(r: Result<seq<nat>>, cuts: seq<nat>, last: nat, len: nat) {
    r.Ok? && Rising(r.value, last, len) && RangesOf(len, last, r.value) == RangesOf(len, last, cuts)
  }

  lemma SameRangesPush(r: Result<seq<nat>>, cuts: seq<nat>, last: nat, b: nat, len: nat)
    requires last < b < len && SameRanges(r, cuts, b, len)
    ensures SameRanges(Prepend([b], r), [b] + cuts, last, len)
  {
    assert ([b] + r.value)[1..] == r.value && ([b] + cuts)[1..] == cuts;
  }

  lemma SameRangesStop(last: nat, len: nat)
    requires last < len
    ensures SameRanges(Ok([]), [len] + [], last, len)
  {
    assert ([len] + [])[1..] == [];
    assert RangesOf(len, last, [len]) == [Range(last, len)] + RangesOf(len, len, []);
  }

  lemma {:induction false} CutsAgree(data: seq<byte>, d: seq<byte>, ts: seq<nat>, cts: seq<Option<nat>>, last: nat)
    requires |d| > 0 && Below(ts, |data|) && AllSome(cts, ts) && last < |data|
    ensures SameLens([data], [|data|]) && BelowTotal(cts, Total([|data|]))
    ensures SameRanges(LogicalCuts([data], [|data|], d, cts, last), Cuts(data, d, ts, last), last, |data|)
    decreases |ts|
  {
    OnePrefix(|data|);
    if ts != [] {
      assert cts[0] == Some(ts[0]);
      if ts[0] <= last {
        CutsAgree(data, d, ts[1..], cts[1..], last);
      } else {
        ProjectOne(data, d, ts[0]);
        var b := NextBoundary(data, d, ts[0]);
        if b == |data| {
          CutsAfterEnd(data, d, ts[1..], b);
          SameRangesStop(last, |data|);
        } else {
          CutsAgree(data, d, ts[1..], cts[1..], b);
          SameRangesPush(LogicalCuts([data], [|data|], d, cts[1..], b), Cuts(data, d, ts[1..], b), last, b, |data|);
        }
      }
    }
  }

  lemma OneRow(len: nat, start: nat, end: nat)
    requires start < end <= len
    ensures RowsUpTo([len], start, end, 1) == [SourceRange(0, start, end, end - start)]
  {
    assert RowsUpTo([len], start, end, 0) == [];
    assert RowIn([len], start, end, 0) == [SourceRange(0, start, end, end - start)];
  }

  lemma {:induction false} WorkersAgree(len: nat, cuts: seq<nat>, last: nat, index: nat)
    requires last < len && Rising(cuts, last, len)
    ensures var rs := RangesOf(len, last, cuts);
            && (forall k: nat :: k < |rs| ==> rs[k].start < rs[k].end)
            && Assign([len], last, cuts + [len], index) == WorkersOf(rs, index)
    decreases |cuts|
  {
    var ends := cuts + [len];
    OneRow(len, last, ends[0]);
    if cuts == [] {
      assert ends[1..] == [];
      assert RangesOf(len, last, cuts) == [Range(last, len)];
    } else {
      WorkersAgree(len, cuts[1..], cuts[0], index + 1);
      assert ends[1..] == cuts[1..] + [len];
      var rest := RangesOf(len, cuts[0], cuts[1..]);
      assert RangesOf(len, last, cuts) == [Range(last, cuts[0])] + rest;
      assert ([Range(last, cuts[0])] + rest)[1..] == rest;
    }
  }

  /** No target of a `usize` count over a `usize` length leaves 128 bits. */
  lemma TargetsFit(total: usize, parts: usize)
    requires 0 < parts
    ensures AllSome(CheckedTargets(total, parts), Targets(total, parts))
  {
    forall k: nat | k < parts - 1
      ensures CheckedTargets(total, parts)[k] == Some(Targets(total, parts)[k])
    {
      MulMono(total, USIZE_MAX, k + 1);
      MulMono(k + 1, USIZE_MAX, USIZE_MAX);
    }
  }

  /** Main theorem: a single source is planned exactly as by the slice planner. */
  lemma SingleSourceAgrees(data: seq<byte>, d: seq<byte>, parts: usize)
    requires |d| > 0 && |data| <= USIZE_MAX
    ensures var rs := PlanRanges(data, d, parts);
            && (forall k: nat :: k < |rs| ==> rs[k].start < rs[k].end)
            && LogicalPlan([data], d, parts) == Ok(WorkersOf(rs, 0))
  {
    assert Lens([data]) == [|data|];
    OnePrefix(|data|);
    if parts > 0 && data != [] {
      var n := Min(parts, |data|);
      TargetsFit(|data|, n);
      TargetsBelow(|data|, n);
      CheckedTargetsBelow(|data|, n);
      CutsAgree(data, d, Targets(|data|, n), CheckedTargets(|data|, n), 0);
      WorkersAgree(|data|, LogicalCuts([data], [|data|], d, CheckedTargets(|data|, n), 0).value, 0, 0);
    }
  }
}
