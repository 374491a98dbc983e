/** What a read may answer, and how reads and plans fail. */
module Reads {
  import opened Search

  datatype Error =
    | ReadFailed | BufferTooLarge | OpenFailed | WindowTooSmall | LengthChanged | DatasetTooLarge | TargetOverflow

  datatype Result<+T> = Ok(value: T) | Err(error: Error)

  /** What `read_at` may answer when `want` bytes are asked at `offset`: any positive prefix of
      what is there, and nothing only when nothing was asked or nothing is there. */
  ghost predicate LegalRead(contents: seq<byte>, offset: nat, want: nat, out: seq<byte>) {
    && |out| <= want
    && (out == [] <==> want == 0 || |contents| <= offset)
    && (out != [] ==> offset + |out| <= |contents| && out == contents[offset..offset + |out|])
  }

  /** How many bytes are there to read. */
  function Available(len: nat, offset: nat, want: nat): nat {
    if len <= offset then 0 else Min(want, len - offset)
  }
}
