/** The hash that prefilters key comparison in the directory cache. A ULONG is
    32 bits wide, so the shift and the addition wrap around; that is written out. */
module PathHash {
  import opened Bytes
  import opened CString

  const TOP_NIBBLE: nat := 0x1000_0000
  const HASH_MODULE: nat := 30031

  /** `char` is signed on the target: bytes from 0x80 on are negative. */
  function Signed(c: Char): int {
    if c as int < 0x80 then c as int else c as int - 0x100
  }

  /** Bitwise exclusive-or. */
  function Xor(a: nat, b: nat): nat {
    if a == 0 then b
    else if b == 0 then a
    else (a % 2 + b % 2) % 2 + 2 * Xor(a / 2, b / 2)
  }

  /** One pass of the accumulator loop: the top nibble `g` of the wrapped sum is
      folded into bits 4 to 7 and then cleared. */
  function Mix(hash: nat, c: Char): nat {
    var sum := (hash * 16 + Signed(c)) % WORD;
    var top := sum / TOP_NIBBLE;
    Xor(Xor(sum, top * 16), top * TOP_NIBBLE)
  }

  function Accumulate(s: CStr): nat {
    if s == [] then 0 else Mix(Accumulate(s[..|s| - 1]), s[|s| - 1])
  }

  function Hash(s: CStr): (h: nat)
    ensures h < HASH_MODULE
  {
    Accumulate(s) % HASH_MODULE
  }

  /** The loop of the source: both exclusive-ors are skipped when the top nibble is clear. */
  method ComputeHash(s: CStr) returns (h: nat)
    ensures h == Hash(s)
  {
    var hash: nat := 0;
    var i := 0;
    while i < |s|
      invariant 0 <= i <= |s|
      invariant hash == Accumulate(s[..i])
    {
      assert s[..i + 1][..i] == s[..i];
      hash := (hash * 16 + Signed(s[i])) % WORD;
      var g := hash / TOP_NIBBLE;
      if g != 0 {
        hash := Xor(hash, g * 16);
        hash := Xor(hash, g * TOP_NIBBLE);
      }
      i := i + 1;
    }
    assert s[..i] == s;
    h := hash % HASH_MODULE;
  }

  /** The accumulator fits in 28 bits after every step, whatever wrapped on the way:
      clearing `g` really clears the top nibble, although bits 4 to 7 changed first. */
  lemma AccumulatorBound(s: CStr)
    ensures Accumulate(s) < TOP_NIBBLE
  {
    if s != [] {
      MixBound(Accumulate(s[..|s| - 1]), s[|s| - 1]);
    }
  }

  lemma MixBound(hash: nat, c: Char)
    ensures Mix(hash, c) < TOP_NIBBLE
  {
    FoldedBound((hash * 16 + Signed(c)) % WORD);
  }

  lemma FoldedBound(sum: nat)
    requires sum < WORD
    ensures Xor(Xor(sum, sum / TOP_NIBBLE * 16), sum / TOP_NIBBLE * TOP_NIBBLE) < TOP_NIBBLE
  {
    var top := sum / TOP_NIBBLE;
    HighXor(sum, top * 16, 28);
    HighIs28(sum);
    HighIs28(top * 16);
    HighIs28(top * TOP_NIBBLE);
    EqualHighCancels(Xor(sum, top * 16), top * TOP_NIBBLE, 28);
    Pow2Is28();
  }

  lemma HighIs28(x: nat)
    ensures High(x, 28) == x / TOP_NIBBLE
  {
    HighIsDiv(x, 28);
    Pow2Is28();
  }

  lemma Pow2Is28()
    ensures Pow2(28) == TOP_NIBBLE
  {
    assert Pow2(10) == 0x400;
    assert Pow2(20) == 0x10_0000;
  }

  /** While nothing overflows the accumulator is the characters as digits to base 16, those from
      0x80 on being negative. */
  lemma PlainStep(hash: nat, c: Char)
    requires 0 <= hash * 16 + (if c as int < 0x80 then c as int else c as int - 0x100) < 0x1000_0000
    ensures Mix(hash, c) == hash * 16 + if c as int < 0x80 then c as int else c as int - 0x100
  {
  }

  /** Bit k of an exclusive-or. */
  lemma XorBits(x: nat, y: nat, k: nat)
    ensures High(Xor(x, y), k) % 2 == (High(x, k) + High(y, k)) % 2
  {
    hide High;
    HighXor(x, y, k);
    LowestBit(High(x, k), High(y, k));
  }

  lemma LowestBit(x: nat, y: nat)
    ensures Xor(x, y) % 2 == (x + y) % 2
  {
  }

  /** What one step does in any case: the wrapped sum with its top nibble folded into bits 4 to 7
      and cleared, and the remainder modulo 30031 of what that leads to. */
  lemma StepMeans(s: CStr, c: Char)
    ensures var word := if c as int < 0x80 then c as int else c as int + 0xFFFF_FF00;
            var sum := (Accumulate(s) * 16 + word) % 0x1_0000_0000;
            var g := sum / 0x1000_0000;
            Accumulate(s + [c]) == Xor(Xor(sum, g * 16), g * 0x1000_0000) && Accumulate([]) == 0
    ensures Hash(s) == Accumulate(s) % 30031
  {
    hide Xor;
    assert (s + [c])[..|s|] == s;
    WrappedSum(Accumulate(s), c);
  }

  lemma WrappedSum(hash: nat, c: Char)
    ensures (hash * 16 + Signed(c)) % WORD ==
            (hash * 16 + (if c as int < 0x80 then c as int else c as int + 0xFFFF_FF00)) % 0x1_0000_0000
  {
  }

  // ----- bits of a natural number

  function Pow2(k: nat): (p: nat)
    ensures p > 0
  {
    if k == 0 then 1 else 2 * Pow2(k - 1)
  }

  /** `x >> k` */
  function High(x: nat, k: nat): nat {
    if k == 0 then x else High(x / 2, k - 1)
  }

  lemma {:induction false} HighIsDiv(x: nat, k: nat)
    ensures High(x, k) == x / Pow2(k)
  {
    if k > 0 {
      HighIsDiv(x / 2, k - 1);
      DivDiv(x, Pow2(k - 1));
    }
  }

  lemma DivDiv(x: nat, p: nat)
    requires p > 0
    ensures x / 2 / p == x / (2 * p)
  {
    var q := x / 2 / p;
    var r := x / 2 % p;
    assert x == (2 * p) * q + (2 * r + x % 2);
    QuotientUnique(x, 2 * p, q, 2 * r + x % 2);
  }

  lemma QuotientUnique(x: nat, d: nat, q: nat, r: nat)
    requires 0 <= r < d && x == d * q + r
    ensures x / d == q
  {
    var q' := x / d;
    var r' := x % d;
    assert d * (q - q') == r' - r;
    if q' < q {
      MulAtLeast(d, q - q');
    } else if q' > q {
      MulAtLeast(d, q' - q);
    }
  }

  lemma MulAtLeast(d: nat, k: nat)
    requires k >= 1
    ensures d * k >= d
  {
  }

  lemma {:induction false} HighXor(x: nat, y: nat, k: nat)
    ensures High(Xor(x, y), k) == Xor(High(x, k), High(y, k))
  {
    hide Xor, High;
    HighStep(x, k);
    HighStep(y, k);
    HighStep(Xor(x, y), k);
    if k > 0 {
      HalfOfXor(x, y);
      HighXor(x / 2, y / 2, k - 1);
    }
  }

  lemma HighStep(x: nat, k: nat)
    ensures High(x, k) == if k == 0 then x else High(x / 2, k - 1)
  {
  }

  lemma HalfOfXor(x: nat, y: nat)
    ensures Xor(x, y) / 2 == Xor(x / 2, y / 2)
  {
  }

  /** Numbers that agree from bit k on differ only below it. */
  lemma {:induction false} EqualHighCancels(x: nat, y: nat, k: nat)
    requires High(x, k) == High(y, k)
    ensures Xor(x, y) < Pow2(k)
  {
    if k == 0 {
      XorSelf(x);
    } else {
      EqualHighCancels(x / 2, y / 2, k - 1);
    }
  }

  lemma {:induction false} XorSelf(x: nat)
    ensures Xor(x, x) == 0
  {
    if x > 0 {
      XorSelf(x / 2);
    }
  }
}
