/** The packed list of extended attributes (FEALIST) and the list of wanted names (GEALIST),
    as laid out by OS/2 and in sections 2.2.1.2.1 and 2.2.1.2.2 of [MS-CIFS]. */
module EaFormat {
  import opened Wrappers
  import opened Bytes

  /** One attribute: flags, name, value. */
  datatype Ea = Ea(fEA: Byte, name: seq<Byte>, value: seq<Byte>)

  /** What the length fields and the terminated name can carry. */
  predicate Storable(ea: Ea) {
    |ea.name| <= 0xFF && |ea.value| <= 0xFFFF && 0 !in ea.name
  }

  predicate AllStorable(l: seq<Ea>) {
    forall i :: 0 <= i < |l| ==> Storable(l[i])
  }

  function Le16(n: nat): (b: seq<Byte>)
    ensures |b| == 2
  {
    [n % 0x100, n / 0x100 % 0x100]
  }

  function Le32(n: nat): (b: seq<Byte>)
    ensures |b| == 4
  {
    [n % 0x100, n / 0x100 % 0x100, n / 0x1_0000 % 0x100, n / 0x100_0000 % 0x100]
  }

  function Read16(b: seq<Byte>, at: nat): nat
    requires at + 2 <= |b|
  {
    b[at] as int + b[at + 1] as int * 0x100
  }

  function Read32(b: seq<Byte>, at: nat): nat
    requires at + 4 <= |b|
  {
    b[at] as int + b[at + 1] as int * 0x100 + b[at + 2] as int * 0x1_0000 + b[at + 3] as int * 0x100_0000
  }

  function Size(ea: Ea): nat {
    4 + |ea.name| + 1 + |ea.value|
  }

  /** The four-byte header, the name with its terminator, the value. */
  function Record(ea: Ea): (b: seq<Byte>)
    requires Storable(ea)
    ensures |b| == Size(ea)
  {
    [ea.fEA, |ea.name|] + Le16(|ea.value|) + ea.name + [0] + ea.value
  }

  function Total(l: seq<Ea>): nat {
    if l == [] then 0 else Total(l[..|l| - 1]) + Size(l[|l| - 1])
  }

  function Records(l: seq<Ea>): (b: seq<Byte>)
    requires AllStorable(l)
    ensures |b| == Total(l)
  {
    if l == [] then [] else Records(l[..|l| - 1]) + Record(l[|l| - 1])
  }

  /** The whole list: its size in bytes, then the records. */
  function FeaList(l: seq<Ea>): (b: seq<Byte>)
    requires AllStorable(l)
    ensures |b| == 4 + Total(l)
  {
    Le32(4 + Total(l)) + Records(l)
  }

  // ----- the walk over a packed list

  /** Size of the record whose header is at `at`. */
  function SizeAt(b: seq<Byte>, at: nat): nat
    requires at + 4 <= |b|
  {
    4 + b[at + 1] + 1 + Read16(b, at + 2)
  }

  function EaAt(b: seq<Byte>, at: nat): Ea
    requires at + 4 <= |b| && at + SizeAt(b, at) <= |b|
  {
    var name := at + 4 + b[at + 1];
    Ea(b[at], b[at + 4..name], b[name + 1..at + SizeAt(b, at)])
  }

  /** The records from `done` up to `size`; None when the walk leaves the bytes or overshoots. */
  function Walk(b: seq<Byte>, done: nat, size: nat): Option<seq<Ea>>
    decreases size - done
  {
    if done >= size then (if done == size then Some([]) else None)
    else if done + 4 > |b| || done + SizeAt(b, done) > |b| then None
    else
      match Walk(b, done + SizeAt(b, done), size)
      case None => None
      case Some(rest) => Some([EaAt(b, done)] + rest)
  }

  function Decode(b: seq<Byte>): Option<seq<Ea>> {
    if |b| < 4 then None else Walk(b, 4, Read32(b, 0))
  }

  // ----- laws

  /** Where the parts of a record are: flags, lengths with the low byte first, name, NUL, value. */
  lemma RecordLayout(ea: Ea)
    requires Storable(ea)
    ensures var r, n := Record(ea), |ea.name|;
            && |r| == 5 + n + |ea.value|
            && r[0] == ea.fEA && r[1] == n && r[2] as int + 0x100 * r[3] as int == |ea.value|
            && r[4..4 + n] == ea.name && r[4 + n] == 0 && r[5 + n..] == ea.value
  {
  }

  /** ... and of a list: its whole size, with the low byte first, and the records one after the other. */
  lemma ListLayout(l: seq<Ea>, i: nat)
    requires AllStorable(l) && i < |l| && 4 + Total(l) < 0x1_0000_0000
    ensures var b := FeaList(l);
            var at := 4 + Total(l[..i]);
            && b[0] as int + 0x100 * b[1] as int + 0x1_0000 * b[2] as int + 0x100_0000 * b[3] as int == |b|
            && at + Size(l[i]) <= |b| && b[at..at + Size(l[i])] == Record(l[i])
            && Total(l[..i + 1]) == Total(l[..i]) + 5 + |l[i].name| + |l[i].value| && Total([]) == 0
  {
    hide Record, Records, Total, AllStorable, Le32;
    var b := FeaList(l);
    assert b[0..4] == Le32(4 + Total(l)) && b[4..] == Records(l);
    ReadLe32(4 + Total(l), b, 0);
    RecordInPlace(l, i);
    SliceOfSlice(b, 4, |b|, Total(l[..i]), Total(l[..i]) + Size(l[i]));
    EmptyTotal();
  }

  lemma EmptyTotal()
    ensures Total([]) == 0
  {
  }

  /** A wanted name: its length, its characters, NUL. */
  lemma NameLayout(name: seq<Byte>)
    requires |name| <= 0xFF
    ensures var r := GeaRecord(name);
            |r| == |name| + 2 && r[0] == |name| && r[1..1 + |name|] == name && r[1 + |name|] == 0
  {
  }

  lemma ReadLe16(n: nat, b: seq<Byte>, at: nat)
    requires n <= 0xFFFF && at + 2 <= |b| && b[at..at + 2] == Le16(n)
    ensures Read16(b, at) == n
  {
    assert b[at] == b[at..at + 2][0] && b[at + 1] == b[at..at + 2][1];
  }

  lemma ReadLe32(n: nat, b: seq<Byte>, at: nat)
    requires n < 0x1_0000_0000 && at + 4 <= |b| && b[at..at + 4] == Le32(n)
    ensures Read32(b, at) == n
  {
    var w := b[at..at + 4];
    assert b[at] == w[0] && b[at + 1] == w[1] && b[at + 2] == w[2] && b[at + 3] == w[3];
    assert n / 0x1_0000 == n / 0x100 / 0x100 && n / 0x100_0000 == n / 0x1_0000 / 0x100;
  }

  /** A record reads back as what was written. */
  lemma ReadRecord(ea: Ea, b: seq<Byte>, at: nat)
    requires Storable(ea) && at + Size(ea) <= |b| && b[at..at + Size(ea)] == Record(ea)
    ensures SizeAt(b, at) == Size(ea) && EaAt(b, at) == ea
    ensures b[at] == ea.fEA && b[at + 1] == |ea.name| && Read16(b, at + 2) == |ea.value|
    ensures b[at + 4..at + 4 + |ea.name|] == ea.name && b[at + 4 + |ea.name|] == 0
    ensures b[at + 5 + |ea.name|..at + Size(ea)] == ea.value
  {
    var r := Record(ea);
    var n := |ea.name|;
    assert forall i :: 0 <= i < |r| ==> b[at + i] == r[i];
    assert r[..2] == [ea.fEA, n] && r[2..4] == Le16(|ea.value|);
    assert b[at + 2..at + 4] == Le16(|ea.value|);
    ReadLe16(|ea.value|, b, at + 2);
    assert r[4..4 + n] == ea.name && r[4 + n] == 0 && r[5 + n..] == ea.value;
    assert b[at + 4..at + 4 + n] == r[4..4 + n];
    assert b[at + 5 + n..at + Size(ea)] == r[5 + n..];
  }

  lemma {:induction false} RecordsConcat(a: seq<Ea>, b: seq<Ea>)
    requires AllStorable(a) && AllStorable(b)
    ensures AllStorable(a + b) && Records(a + b) == Records(a) + Records(b) && Total(a + b) == Total(a) + Total(b)
  {
    hide Record;
    if b == [] {
      assert a + b == a;
    } else {
      var m := |b| - 1;
      assert (a + b)[..|a + b| - 1] == a + b[..m];
      RecordsConcat(a, b[..m]);
      assert Records(a) + Records(b) == (Records(a) + Records(b[..m])) + Record(b[m]);
    }
  }

  /** Where the i-th record is. */
  lemma RecordInPlace(l: seq<Ea>, i: nat)
    requires AllStorable(l) && i < |l|
    ensures var at := Total(l[..i]);
            && at + Size(l[i]) == Total(l[..i + 1]) <= Total(l)
            && Records(l)[at..at + Size(l[i])] == Record(l[i])
  {
    hide Record, Size, Records, Total, AllStorable;
    assert l == l[..i + 1] + l[i + 1..];
    StorableParts(l, i);
    RecordsConcat(l[..i + 1], l[i + 1..]);
    LastRecord(l, i);
    Middle(Records(l[..i]), Record(l[i]), Records(l[i + 1..]));
  }

  lemma StorableParts(l: seq<Ea>, i: nat)
    requires AllStorable(l) && i < |l|
    ensures AllStorable(l[..i]) && AllStorable(l[..i + 1]) && AllStorable(l[i + 1..]) && Storable(l[i])
  {
  }

  lemma LastRecord(l: seq<Ea>, i: nat)
    requires i < |l| && AllStorable(l[..i]) && AllStorable(l[..i + 1]) && Storable(l[i])
    ensures Records(l[..i + 1]) == Records(l[..i]) + Record(l[i]) && Total(l[..i + 1]) == Total(l[..i]) + Size(l[i])
  {
    hide Record, Size;
    assert l[..i + 1][..i] == l[..i];
  }

  lemma Middle<T>(a: seq<T>, b: seq<T>, c: seq<T>)
    ensures (a + b + c)[|a|..|a| + |b|] == b
  {
  }

  lemma SliceOfSlice<T>(b: seq<T>, from: nat, to: nat, i: nat, j: nat)
    requires from + i <= from + j <= to <= |b|
    ensures b[from..to][i..j] == b[from + i..from + j]
  {
    var c := b[from..to];
    forall k | 0 <= k < j - i
      ensures c[i..j][k] == b[from + i..from + j][k]
    {
      assert c[i..j][k] == c[i + k] == b[from + i + k];
    }
  }

  lemma {:induction false} WalkReads(l: seq<Ea>, i: nat, b: seq<Byte>)
    requires AllStorable(l) && i <= |l|
    requires 4 + Total(l) <= |b| && b[4..4 + Total(l)] == Records(l)
    ensures Total(l[..i]) <= Total(l)
    ensures Walk(b, 4 + Total(l[..i]), 4 + Total(l)) == Some(l[i..])
    decreases |l| - i
  {
    hide Record, Records, Read16, SizeAt, EaAt, Total;
    if i == |l| {
      assert l[..i] == l && l[i..] == [];
    } else {
      var at := Total(l[..i]);
      RecordInPlace(l, i);
      var end := at + Size(l[i]);
      SliceOfSlice(b, 4, 4 + Total(l), at, end);
      ReadRecord(l[i], b, 4 + at);
      WalkReads(l, i + 1, b);
      assert l[i..] == [l[i]] + l[i + 1..];
    }
  }

  /** Decoding a packed list gives the attributes back, whatever follows it in the buffer. */
  lemma DecodeOfFeaList(l: seq<Ea>, junk: seq<Byte>)
    requires AllStorable(l) && 4 + Total(l) < 0x1_0000_0000
    ensures Decode(FeaList(l) + junk) == Some(l)
  {
    hide Records, Le32, Read32, Walk;
    var b := FeaList(l) + junk;
    assert b[0..4] == Le32(4 + Total(l));
    ReadLe32(4 + Total(l), b, 0);
    assert b[4..4 + Total(l)] == Records(l);
    WalkReads(l, 0, b);
    assert l[..0] == [] && l[0..] == l;
  }

  // ----- the longest prefix that fits

  /** The longest prefix of the records that fits, with the size field, into `cap` bytes. */
  function Fitting(l: seq<Ea>, cap: nat): seq<Ea> {
    if l == [] || 4 + Total(l) <= cap then l else Fitting(l[..|l| - 1], cap)
  }

  lemma {:induction false} FittingIsLongest(l: seq<Ea>, cap: nat)
    ensures Fitting(l, cap) <= l
    ensures cap >= 4 ==> 4 + Total(Fitting(l, cap)) <= cap
    ensures forall n :: |Fitting(l, cap)| < n <= |l| ==> 4 + Total(l[..n]) > cap
  {
    if l != [] && 4 + Total(l) > cap {
      var m := |l| - 1;
      FittingIsLongest(l[..m], cap);
      forall n | |Fitting(l, cap)| < n <= |l|
        ensures 4 + Total(l[..n]) > cap
      {
        if n == |l| {
          assert l[..n] == l;
        } else {
          assert l[..m][..n] == l[..n];
        }
      }
    } else {
      assert Fitting(l, cap) == l;
    }
  }

  // ----- selection by name

  /** Wanted when no names are given, or when some given name is a prefix of the attribute's. */
  predicate Wanted(ea: Ea, names: seq<seq<Byte>>) {
    names == [] || exists g :: 0 <= g < |names| && names[g] <= ea.name
  }

  /** The wanted attributes in order, their flags cleared. */
  function Selected(l: seq<Ea>, names: seq<seq<Byte>>): seq<Ea> {
    if l == [] then []
    else
      var last := l[|l| - 1];
      Selected(l[..|l| - 1], names) + if Wanted(last, names) then [last.(fEA := 0)] else []
  }

  lemma {:induction false} SelectedStorable(l: seq<Ea>, names: seq<seq<Byte>>)
    requires AllStorable(l)
    ensures AllStorable(Selected(l, names)) && Total(Selected(l, names)) <= Total(l)
  {
    if l != [] {
      SelectedStorable(l[..|l| - 1], names);
      var s := Selected(l, names);
      assert Selected(l[..|l| - 1], names) + [] == Selected(l[..|l| - 1], names);
      if Wanted(l[|l| - 1], names) {
        assert s[..|s| - 1] == Selected(l[..|l| - 1], names);
        assert Size(s[|s| - 1]) == Size(l[|l| - 1]);
      }
    }
  }

  /** Without names, and with all flags clear already, everything is selected unchanged. */
  lemma {:induction false} SelectedAll(l: seq<Ea>)
    requires forall i :: 0 <= i < |l| ==> l[i].fEA == 0
    ensures Selected(l, []) == l
  {
    if l != [] {
      SelectedAll(l[..|l| - 1]);
    }
  }

  /** One wanted name: length, characters, terminator. */
  function GeaRecord(name: seq<Byte>): (b: seq<Byte>)
    requires |name| <= 0xFF
    ensures |b| == |name| + 2
  {
    [|name|] + name + [0]
  }

  predicate AllNames(names: seq<seq<Byte>>) {
    forall i :: 0 <= i < |names| ==> |names[i]| <= 0xFF && 0 !in names[i]
  }

  function GeaTotal(names: seq<seq<Byte>>): nat {
    if names == [] then 0 else GeaTotal(names[..|names| - 1]) + |names[|names| - 1]| + 2
  }

  function GeaRecords(names: seq<seq<Byte>>): (b: seq<Byte>)
    requires AllNames(names)
    ensures |b| == GeaTotal(names)
  {
    if names == [] then [] else GeaRecords(names[..|names| - 1]) + GeaRecord(names[|names| - 1])
  }

  function GeaList(names: seq<seq<Byte>>): (b: seq<Byte>)
    requires AllNames(names)
    ensures |b| == 4 + GeaTotal(names)
  {
    Le32(4 + GeaTotal(names)) + GeaRecords(names)
  }

  lemma {:induction false} GeaRecordsConcat(a: seq<seq<Byte>>, b: seq<seq<Byte>>)
    requires AllNames(a) && AllNames(b)
    ensures AllNames(a + b) && GeaRecords(a + b) == GeaRecords(a) + GeaRecords(b)
    ensures GeaTotal(a + b) == GeaTotal(a) + GeaTotal(b)
  {
    hide GeaRecord;
    if b == [] {
      assert a + b == a;
    } else {
      var m := |b| - 1;
      assert (a + b)[..|a + b| - 1] == a + b[..m];
      GeaRecordsConcat(a, b[..m]);
      assert GeaRecords(a) + GeaRecords(b) == (GeaRecords(a) + GeaRecords(b[..m])) + GeaRecord(b[m]);
    }
  }

  lemma GeaInPlace(names: seq<seq<Byte>>, i: nat)
    requires AllNames(names) && i < |names|
    ensures var at := GeaTotal(names[..i]);
            && at + |names[i]| + 2 == GeaTotal(names[..i + 1]) <= GeaTotal(names)
            && GeaRecords(names)[at..at + |names[i]| + 2] == GeaRecord(names[i])
  {
    hide GeaRecord;
    assert names == names[..i + 1] + names[i + 1..] && names[..i + 1][..i] == names[..i];
    GeaRecordsConcat(names[..i + 1], names[i + 1..]);
    Middle(GeaRecords(names[..i]), GeaRecord(names[i]), GeaRecords(names[i + 1..]));
  }
}
