/** The character sink behind a `FILE *`: the output written so far and a
    capacity. Every write either appends all of its characters or, when they
    do not fit, fails and appends nothing. This stands for `putc`, `PUT`
    (`fwrite`) and `PAD` (`__printf_pad`), whose failures `printf_size`
    reports as -1. */
module Sink {

  /** `n` copies of `c`; a non-positive count gives the empty string, which is
      how the callers treat a padding width that is not positive. */
  function Repeat(c: char, n: int): (r: seq<char>)
    ensures |r| == (if n > 0 then n else 0)
    ensures forall i :: 0 <= i < |r| ==> r[i] == c
  {
    if n <= 0 then [] else [c] + Repeat(c, n - 1)
  }

  /** How writing the text `t` left a stream of capacity `limit` that held
      `before`: when `t` fits, all of it was appended and its length is
      reported; otherwise a write failed, -1 is reported and what was
      appended is a proper prefix of `t`. */
  ghost predicate Wrote(before: seq<char>, after: seq<char>, limit: nat, t: seq<char>, done: int) {
    if |before| + |t| <= limit then done == |t| && after == before + t
    else done == -1 && before <= after < before + t
  }

  class Stream {
    /** Everything written to the stream so far. */
    var out: seq<char>
    /** How many characters the stream accepts in total. */
    const limit: nat

    /** A stream never holds more than its capacity. */
    ghost predicate Valid()
      reads this
    {
      |out| <= limit
    }

    constructor (limit: nat)
      ensures Valid() && out == [] && this.limit == limit
    {
      out := [];
      this.limit := limit;
    }

    /** Writes `s` as one block (`PUT`). */
    method Write(s: seq<char>) returns (ok: bool)
      requires Valid()
      modifies this
      ensures Valid()
      ensures ok <==> |old(out)| + |s| <= limit
      ensures out == if ok then old(out) + s else old(out)
    {
      ok := |out| + |s| <= limit;
      if ok {
        out := out + s;
      }
    }

    /** `putc`: one character; false stands for `EOF`. */
    method PutChar(c: char) returns (ok: bool)
      requires Valid()
      modifies this
      ensures Valid()
      ensures ok <==> |old(out)| < limit
      ensures out == if ok then old(out) + [c] else old(out)
    {
      ok := Write([c]);
    }

    /** `PAD`: `n` copies of `c`. */
    method Pad(c: char, n: nat) returns (ok: bool)
      requires Valid()
      modifies this
      ensures Valid()
      ensures ok <==> |old(out)| + n <= limit
      ensures out == if ok then old(out) + Repeat(c, n) else old(out)
    {
      ok := Write(Repeat(c, n));
    }
  }
}
