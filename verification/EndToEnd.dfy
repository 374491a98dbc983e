/** The Python chain from a file to its numbered lines: plan, offsets, one reader per rank. */
module EndToEnd {
  import opened Search
  import opened Partition
  import opened Records
  import opened RangeReader
  import NativeClient

  /** Run every rank of a plan whose ranges end at line edges. */
  method RunAllRanks(data: seq<byte>, rs: seq<Range>, parts: nat, offsets: seq<nat>) returns (lines: seq<Line>)
    requires InFile(data, rs) && |offsets| == |rs|
    requires forall k: nat :: k < |rs| ==> offsets[k] == NewlinesBefore(data, rs, k)
    requires forall k: nat :: k < |rs| ==> RecordEnd(data, NEWLINE, rs[k].end)
    ensures lines == FromRank(data, rs, 0, parts)
  {
    lines := [];
    for rank := 0 to parts
      invariant lines + FromRank(data, rs, rank, parts) == FromRank(data, rs, 0, parts)
    {
      var out := Run(data, rs, parts, offsets, rank, parts);
      Assoc(lines, out.value, FromRank(data, rs, rank + 1, parts));
      lines := lines + out.value;
    }
  }

  lemma Assoc(a: seq<Line>, b: seq<Line>, c: seq<Line>)
    ensures (a + b) + c == a + (b + c)
  {
  }

  /** Plan an unchanging file with `plan_file`, build the reader, and run all ranks in order: the
      output is one sequential read of the file, and no step fails. */
  method ReadWithAllRanks(data: seq<byte>, parts: nat, address: nat) returns (lines: seq<Line>)
    requires parts > 0 && |data| <= USIZE_MAX
    ensures lines == Sequential(data, 0, 0)
  {
    var plan := NativeClient.PlanFile(data, |data|, parts, NEWLINE, address);
    ParallelReadIsSequential(data, parts);
    var offsets := RecordOffsets(data, plan.ranges);
    lines := RunAllRanks(data, plan.ranges, parts, offsets.value);
  }
}
