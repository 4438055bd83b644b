/** The growth policy of a listing's record array. */
module Growth {

  /** `count` records in a buffer of `cap`; `copied` records were moved by growing since
      the buffer was last cleared. */
  datatype Buffer = Buffer(count: nat, cap: nat, copied: nat)

  /** Half as much again, and at least one more. */
  function Grown(cap: nat): nat {
    cap + cap / 2 + 1
  }

  /** One append; `alloc` tells whether the larger buffer could be had if one is needed. */
  function Push(b: Buffer, alloc: bool): Buffer {
    if b.count < b.cap then b.(count := b.count + 1)
    else if alloc then Buffer(b.count + 1, Grown(b.cap), b.copied + b.cap)
    else b
  }

  /** n appends that all find memory. */
  function PushMany(b: Buffer, n: nat): Buffer {
    if n == 0 then b else Push(PushMany(b, n - 1), true)
  }

  /** After clearing, n appends leave n records and have moved at most 3n records in all,
      whatever the capacity was. */
  lemma {:induction false} AmortisedCost(cap: nat, n: nat)
    ensures var b := PushMany(Buffer(0, cap, 0), n);
            && b.count == n <= b.cap
            && b.copied <= 2 * b.cap
            && b.copied <= 3 * n
  {
    if n > 0 {
      AmortisedCost(cap, n - 1);
    }
  }

  /** Trimming at the end of a fill: half of a large free part is returned. */
  function Trimmed(count: nat, cap: nat): nat
    requires count <= cap
  {
    var free := cap - count;
    if free > count / 2 then count + free / 2 else cap
  }

  /** Trimming keeps every record, never enlarges the buffer, and leaves no more free
      than half the records or half of what was free. */
  lemma TrimmedBounds(count: nat, cap: nat)
    requires count <= cap
    ensures count <= Trimmed(count, cap) <= cap
    ensures Trimmed(count, cap) - count <= count / 2 || 2 * (Trimmed(count, cap) - count) <= cap - count
  {
  }

  /** It asks for a buffer of zero bytes exactly when a single slot is allocated and unused. */
  lemma TrimmedToNothing(count: nat, cap: nat)
    requires count <= cap
    ensures cap > 0 && Trimmed(count, cap) == 0 <==> count == 0 && cap == 1
  {
  }
}
