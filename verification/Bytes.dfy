/** Bytes, machine words, and the C strings that bytes make in a buffer. */
module Bytes {
  /** The number of values of an unsigned 32-bit word (ULONG). */
  const WORD: nat := 0x1_0000_0000

  type Byte = x: int | 0 <= x < 0x100

  /** The bytes before the first NUL. */
  function StrOf(b: seq<Byte>): (s: seq<Byte>)
    ensures 0 !in s && |s| <= |b| && b[..|s|] == s
    ensures |s| < |b| ==> b[|s|] == 0
  {
    if b == [] || b[0] == 0 then [] else [b[0]] + StrOf(b[1..])
  }

  lemma {:induction false} StrOfTerminated(s: seq<Byte>, rest: seq<Byte>)
    requires 0 !in s
    ensures StrOf(s + [0] + rest) == s
  {
    if s != [] {
      StrOfTerminated(s[1..], rest);
      assert (s + [0] + rest)[1..] == s[1..] + [0] + rest;
    }
  }
}
