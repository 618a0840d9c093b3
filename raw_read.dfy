/** The one primitive every backend rests on: `raw_read(n)`. Hardware is not
    modelled; instead a call receives the successive outputs of its byte
    source as a value, and returns what it did not consume. */
module RawRead {
  import opened Bytes
  import opened Failures

  /** What the byte source delivers on each successive read, in order. A read
      of n bytes takes the next entry, cut to n bytes; an entry shorter than n
      is a short read, and once the tape is exhausted every read delivers
      nothing. */
  type Tape = seq<seq<byte>>

  /** The bytes one read of n bytes delivers: at most n, exactly n when the
      next entry has them. */
  function Delivered(tape: Tape, n: nat): (d: seq<byte>)
    requires n > 0
    ensures |d| <= n
    ensures |d| == n <==> tape != [] && |tape[0]| >= n
    ensures |d| == n ==> d == tape[0][..n]
  {
    if tape == [] then []
    else if |tape[0]| >= n then tape[0][..n]
    else tape[0]
  }

  /** The tape after one read. */
  function Rest(tape: Tape): Tape
  {
    if tape == [] then [] else tape[1..]
  }

  /** The outcome of a call that reads from the tape: what it returns or
      raises, and what is left for the next call. */
  datatype Drawn<T> = Drawn(result: Result<T>, rest: Tape)
}
