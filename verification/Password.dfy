/** The hexadecimal form in which a password is kept among the resource's properties. */
module Password {
  import opened Bytes

  function FromHex(c: Byte): Byte {
    if '0' as int <= c <= '9' as int then c - '0' as int
    else if 'A' as int <= c <= 'F' as int then c - 'A' as int + 0xA
    else if 'a' as int <= c <= 'f' as int then c - 'a' as int + 0xA
    else 0
  }

  function ToHex(b: Byte): Byte {
    var n := b % 0x10;
    if n <= 9 then n + '0' as int else 'A' as int + (n - 0xA)
  }

  /** `(*s) >> 4` on a signed char, passed on as an unsigned one: the shift keeps the sign. */
  function ShiftRight4(c: Byte): Byte {
    var signed := if c < 0x80 then c else c as int - 0x100;
    (signed / 0x10) % 0x100
  }

  function Hex(s: seq<Byte>): (h: seq<Byte>)
    ensures |h| == 2 * |s|
  {
    if s == [] then []
    else Hex(s[..|s| - 1]) + [ToHex(ShiftRight4(s[|s| - 1])), ToHex(s[|s| - 1])]
  }

  /** The operands of the sum read left to right. */
  function Unhex(h: seq<Byte>): (s: seq<Byte>)
    requires |h| % 2 == 0
    ensures |s| == |h| / 2
  {
    if h == [] then []
    else Unhex(h[..|h| - 2]) + [Pair(h[|h| - 2], h[|h| - 1])]
  }

  function Pair(a: Byte, b: Byte): Byte {
    FromHex(a) * 0x10 + FromHex(b)
  }

  /** encryptPassword */
  method EncryptPassword(plain: array<Byte>, crypt: array<Byte>)
    requires plain != crypt && |StrOf(plain[..])| < plain.Length
    requires 2 * |StrOf(plain[..])| < crypt.Length
    modifies crypt
    ensures StrOf(crypt[..]) == Hex(StrOf(plain[..]))
    ensures var n := 2 * |StrOf(plain[..])| + 1; crypt[n..] == old(crypt[n..])
  {
    hide StrOf, ToHex, ShiftRight4;
    ghost var text := StrOf(plain[..]);
    var s, d := 0, 0;
    while plain[s] != 0
      invariant 0 <= s <= |text| && d == 2 * s
      invariant crypt[..d] == Hex(text[..s])
      invariant forall k :: 2 * |text| + 1 <= k < crypt.Length ==> crypt[k] == old(crypt[k])
      decreases |text| - s
    {
      assert plain[s] == text[s] && text[..s + 1][..s] == text[..s];
      crypt[d] := ToHex(ShiftRight4(plain[s]));
      crypt[d + 1] := ToHex(plain[s]);
      assert crypt[..d + 2] == crypt[..d] + [crypt[d], crypt[d + 1]];
      s, d := s + 1, d + 2;
    }
    assert text[..s] == text;
    crypt[d] := 0;
    HexHasNoNul(text);
    StrOfTerminated(Hex(text), crypt[d + 1..]);
    assert crypt[..] == crypt[..d] + [0] + crypt[d + 1..];
  }

  /** Where the loop of decryptPassword stops: only every other byte is compared with NUL. */
  predicate EndsAt(b: seq<Byte>, e: nat) {
    e < |b| && e % 2 == 0 && b[e] == 0 && forall k :: 0 <= k < e && k % 2 == 0 ==> b[k] != 0
  }

  /** That is the end of the text exactly when its length is even; otherwise the loop reads on
      behind the terminator. */
  lemma EndsWithTextIff(b: seq<Byte>, e: nat)
    requires EndsAt(b, e)
    ensures |StrOf(b)| <= e && (|StrOf(b)| == e <==> |StrOf(b)| % 2 == 0)
  {
    hide StrOf;
    var text := StrOf(b);
    assert forall k :: 0 <= k < |text| ==> b[..|text|][k] == b[k] && text[k] != 0;
  }

  /** decryptPassword; the source reads behind the buffer if `e` does not exist. */
  method DecryptPassword(crypt: array<Byte>, plain: array<Byte>, ghost e: nat)
    requires plain != crypt && EndsAt(crypt[..], e) && e / 2 < plain.Length
    modifies plain
    ensures StrOf(plain[..]) == StrOf(Unhex(crypt[..e]))
    ensures plain[..e / 2] == Unhex(crypt[..e]) && plain[e / 2] == 0
    ensures plain[e / 2 + 1..] == old(plain[e / 2 + 1..])
  {
    hide StrOf, Unhex;
    EmptyText();
    var s, d := 0, 0;
    assert crypt[..0] == [];
    while crypt[s] != 0
      invariant 0 <= s <= e && s == 2 * d
      invariant plain[..d] == Unhex(crypt[..s])
      invariant forall k :: e / 2 < k < plain.Length ==> plain[k] == old(plain[k])
      decreases e - s
    {
      NextPair(crypt[..], s);
      plain[d] := FromHex(crypt[s]) * 0x10 + FromHex(crypt[s + 1]);
      assert plain[..d + 1] == plain[..d] + [plain[d]];
      s, d := s + 2, d + 1;
    }
    assert crypt[..][s] == 0;
    plain[d] := 0;
    assert plain[..] == plain[..d] + [0] + plain[d + 1..];
    StrOfPrefix(plain[..d], plain[d + 1..]);
  }

  lemma EmptyText()
    ensures Unhex([]) == []
  {
  }

  lemma NextPair(b: seq<Byte>, s: nat)
    requires s % 2 == 0 && s + 2 <= |b|
    ensures Unhex(b[..s + 2]) == Unhex(b[..s]) + [Pair(b[s], b[s + 1])]
  {
    hide Pair;
    assert b[..s + 2][..s] == b[..s];
  }

  lemma StrOfPrefix(s: seq<Byte>, rest: seq<Byte>)
    ensures StrOf(s + [0] + rest) == StrOf(s)
  {
    var t := StrOf(s);
    if |t| < |s| {
      assert s + [0] + rest == t + [0] + (s[|t| + 1..] + [0] + rest);
      StrOfTerminated(t, s[|t| + 1..] + [0] + rest);
    } else {
      StrOfTerminated(s, rest);
    }
  }

  /** The digits: 0 to 9 and upper-case A to F are written, lower-case ones are read too, and any
      other character reads as 0. */
  lemma Digits(b: Byte)
    ensures ToHex(b) == [48, 49, 50, 51, 52, 53, 54, 55, 56, 57, 65, 66, 67, 68, 69, 70][b % 16]
    ensures FromHex(b) == if 48 <= b <= 57 then b - 48 else if 65 <= b <= 70 then b - 55
                          else if 97 <= b <= 102 then b - 87 else 0
  {
  }

  /** The high half of a byte comes first. */
  lemma {:induction false} HexLayout(s: seq<Byte>, i: nat)
    requires i < |s|
    ensures var digits := [48, 49, 50, 51, 52, 53, 54, 55, 56, 57, 65, 66, 67, 68, 69, 70];
            Hex(s)[2 * i] == digits[s[i] / 16] && Hex(s)[2 * i + 1] == digits[s[i] % 16]
  {
    hide ToHex, FromHex, ShiftRight4;
    var m := |s| - 1;
    if i == m {
      Digits(ShiftRight4(s[m]));
      Digits(s[m]);
      LowNibble(s[m]);
    } else {
      HexLayout(s[..m], i);
    }
  }

  // ----- round trips

  lemma {:induction false} HexHasNoNul(s: seq<Byte>)
    ensures 0 !in Hex(s)
  {
    if s != [] {
      HexHasNoNul(s[..|s| - 1]);
    }
  }

  /** The sign that the shift keeps is masked off, so both digits come back, for all 256 bytes. */
  lemma ByteRoundTrip(c: Byte)
    ensures Pair(ToHex(ShiftRight4(c)), ToHex(c)) == c
  {
    hide ToHex, ShiftRight4, FromHex;
    LowNibble(c);
    DigitOf(ShiftRight4(c));
    DigitOf(c);
  }

  lemma LowNibble(c: Byte)
    ensures ShiftRight4(c) % 0x10 == c / 0x10
  {
  }

  /** A digit stands for the low four bits. */
  lemma DigitOf(b: Byte)
    ensures FromHex(ToHex(b)) == b % 0x10
  {
  }

  lemma {:induction false} UnhexOfHex(s: seq<Byte>)
    ensures Unhex(Hex(s)) == s
  {
    hide Hex, Unhex, Pair, ToHex, ShiftRight4;
    if s == [] {
      NothingCoded();
    } else {
      var m := |s| - 1;
      UnhexOfHex(s[..m]);
      ByteRoundTrip(s[m]);
      LastDigits(s);
      assert s == s[..m] + [s[m]];
    }
  }

  lemma LastDigits(s: seq<Byte>)
    requires s != []
    ensures var m := |s| - 1;
            Unhex(Hex(s)) == Unhex(Hex(s[..m])) + [Pair(ToHex(ShiftRight4(s[m])), ToHex(s[m]))]
  {
    hide Pair, ToHex, ShiftRight4;
    var h := Hex(s);
    assert h[..|h| - 2] == Hex(s[..|s| - 1]);
  }

  /** What was encrypted is decrypted again, for every password. */
  lemma PasswordRoundTrip(s: seq<Byte>)
    requires 0 !in s
    ensures |Hex(s)| == 2 * |s| && 0 !in Hex(s)
    ensures StrOf(Unhex(Hex(s))) == s
  {
    HexHasNoNul(s);
    UnhexOfHex(s);
    StrOfTerminated(s, []);
    StrOfPrefix(s, []);
  }

  predicate IsHexDigit(c: Byte) {
    '0' as int <= c <= '9' as int || 'A' as int <= c <= 'F' as int || 'a' as int <= c <= 'f' as int
  }

  function Upper(c: Byte): Byte {
    if 'a' as int <= c <= 'f' as int then c - 0x20 else c
  }

  predicate AllHex(h: seq<Byte>) {
    forall i :: 0 <= i < |h| ==> IsHexDigit(h[i])
  }

  function UpperAll(h: seq<Byte>): (u: seq<Byte>)
    ensures |u| == |h| && forall i :: 0 <= i < |h| ==> u[i] == Upper(h[i])
  {
    seq(|h|, i requires 0 <= i < |h| => Upper(h[i]))
  }

  lemma DigitsRoundTrip(a: Byte, b: Byte)
    requires IsHexDigit(a) && IsHexDigit(b)
    ensures ToHex(ShiftRight4(Pair(a, b))) == Upper(a) && ToHex(Pair(a, b)) == Upper(b)
    ensures Pair(a, b) == 0 <==> a == b == '0' as int
  {
    hide ToHex, ShiftRight4, FromHex, Upper;
    var p := Pair(a, b);
    DigitValue(a);
    DigitValue(b);
    assert p / 0x10 == FromHex(a) && p % 0x10 == FromHex(b);
    LowNibble(p);
    SameNibble(ShiftRight4(p), FromHex(a));
    SameNibble(p, FromHex(b));
  }

  lemma DigitValue(c: Byte)
    requires IsHexDigit(c)
    ensures FromHex(c) < 0x10 && ToHex(FromHex(c)) == Upper(c) && (FromHex(c) == 0 <==> c == '0' as int)
  {
  }

  lemma SameNibble(b: Byte, n: Byte)
    requires n < 0x10 && b % 0x10 == n
    ensures ToHex(b) == ToHex(n)
  {
  }

  lemma {:induction false} HexOfUnhex(h: seq<Byte>)
    requires |h| % 2 == 0 && AllHex(h)
    ensures Hex(Unhex(h)) == UpperAll(h)
  {
    hide Hex, Unhex, AllHex, UpperAll, Pair, ToHex, ShiftRight4, Upper, IsHexDigit;
    if h == [] {
      NothingCoded();
    } else {
      var m := |h| - 2;
      HexDigits(h);
      HexOfUnhex(h[..m]);
      DigitsRoundTrip(h[m], h[m + 1]);
      LastPair(h);
      LastUpper(h);
    }
  }

  lemma NothingCoded()
    ensures Hex(Unhex([])) == [] == UpperAll([])
  {
  }

  lemma HexDigits(h: seq<Byte>)
    requires |h| >= 2 && AllHex(h)
    ensures AllHex(h[..|h| - 2]) && IsHexDigit(h[|h| - 2]) && IsHexDigit(h[|h| - 1])
  {
    hide IsHexDigit;
  }

  lemma LastUpper(h: seq<Byte>)
    requires |h| >= 2
    ensures UpperAll(h) == UpperAll(h[..|h| - 2]) + [Upper(h[|h| - 2]), Upper(h[|h| - 1])]
  {
    hide Upper;
  }

  lemma LastPair(h: seq<Byte>)
    requires |h| % 2 == 0 && h != []
    ensures var m := |h| - 2;
            && Unhex(h) == Unhex(h[..m]) + [Pair(h[m], h[m + 1])]
            && Hex(Unhex(h)) == Hex(Unhex(h[..m])) +
                                [ToHex(ShiftRight4(Pair(h[m], h[m + 1]))), ToHex(Pair(h[m], h[m + 1]))]
  {
    hide Pair, ToHex, ShiftRight4;
    var m, u := |h| - 2, Unhex(h);
    assert u[..|u| - 1] == Unhex(h[..m]);
  }

  lemma {:induction false} NulPairs(h: seq<Byte>, i: nat)
    requires |h| % 2 == 0 && AllHex(h) && i < |h| / 2
    ensures Unhex(h)[i] == 0 <==> h[2 * i] == h[2 * i + 1] == '0' as int
  {
    hide Pair, ToHex, ShiftRight4, Upper, IsHexDigit, FromHex;
    var m := |h| - 2;
    if 2 * i == m {
      DigitsRoundTrip(h[m], h[m + 1]);
    } else {
      NulPairs(h[..m], i);
    }
  }

  /** Decoding a stored text and encoding it again gives its upper-case form exactly when no
      digit pair is 00, which would end the password. */
  lemma ReencodedIffNoNulPair(h: seq<Byte>)
    requires |h| % 2 == 0 && AllHex(h)
    ensures Hex(StrOf(Unhex(h))) == UpperAll(h) <==>
            forall i :: 0 <= i < |h| / 2 ==> !(h[2 * i] == h[2 * i + 1] == '0' as int)
  {
    HexOfUnhex(h);
    forall i | 0 <= i < |h| / 2
      ensures Unhex(h)[i] == 0 <==> h[2 * i] == h[2 * i + 1] == '0' as int
    {
      NulPairs(h, i);
    }
    var u, t := Unhex(h), StrOf(Unhex(h));
    if |t| < |u| {
      assert u[|t|] == 0;
    } else {
      assert t == u;
      assert forall i :: 0 <= i < |u| ==> u[i] == t[i] != 0;
    }
  }
}
