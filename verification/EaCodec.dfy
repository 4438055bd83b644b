/** Extended attributes through byte buffers: unilistea packs what the server reports,
    buildFEALIST filters a packed list into the caller's buffer. */
module EaCodec {
  import opened Bytes
  import opened EaFormat
  import opened ErrorCodes

  /** A buffer whose size field and leading records were written over `before`. */
  function Image(size: nat, l: seq<Ea>, before: seq<Byte>): seq<Byte>
    requires AllStorable(l) && 4 + Total(l) <= |before|
  {
    Le32(size) + Records(l) + before[4 + Total(l)..]
  }

  /** `s` with the bytes from `at` on replaced. */
  function Overwrite(s: seq<Byte>, at: nat, bytes: seq<Byte>): (r: seq<Byte>)
    requires at + |bytes| <= |s|
    ensures |r| == |s|
  {
    s[..at] + bytes + s[at + |bytes|..]
  }

  /** memcpy, strcpy, strncpy */
  method PutBytes(dst: array<Byte>, at: nat, bytes: seq<Byte>)
    requires at + |bytes| <= dst.Length
    modifies dst
    ensures dst[..] == Overwrite(old(dst[..]), at, bytes)
  {
    var i := 0;
    while i < |bytes|
      invariant 0 <= i <= |bytes|
      invariant forall k :: 0 <= k < dst.Length ==>
                  dst[k] == if at <= k < at + i then bytes[k - at] else old(dst[k])
    {
      dst[at + i] := bytes[i];
      i := i + 1;
    }
  }

  /** One record with its flags clear: header fields, name, terminator, value. */
  method PutRecord(dst: array<Byte>, at: nat, name: seq<Byte>, value: seq<Byte>)
    requires Storable(Ea(0, name, value)) && at + Size(Ea(0, name, value)) <= dst.Length
    modifies dst
    ensures dst[..] == Overwrite(old(dst[..]), at, Record(Ea(0, name, value)))
  {
    hide Record, Le16, Overwrite;
    ghost var before := dst[..];
    var header := [0, |name|] + Le16(|value|);
    PutBytes(dst, at, header);
    PutBytes(dst, at + 4, name + [0]);
    PutBytes(dst, at + 5 + |name|, value);
    ThreeWrites(before, at, header, name + [0], value);
    RecordParts(name, value);
  }

  lemma RecordParts(name: seq<Byte>, value: seq<Byte>)
    requires Storable(Ea(0, name, value))
    ensures Record(Ea(0, name, value)) == ([0, |name|] + Le16(|value|)) + (name + [0]) + value
  {
  }

  lemma ThreeWrites(s: seq<Byte>, at: nat, a: seq<Byte>, b: seq<Byte>, c: seq<Byte>)
    requires at + |a| + |b| + |c| <= |s|
    ensures Overwrite(Overwrite(Overwrite(s, at, a), at + |a|, b), at + |a| + |b|, c) == Overwrite(s, at, a + b + c)
  {
    var s1 := Overwrite(s, at, a);
    assert s1[..at + |a|] == s[..at] + a && s1[at + |a| + |b|..] == s[at + |a| + |b|..];
    var s2 := Overwrite(s1, at + |a|, b);
    assert s2[..at + |a| + |b|] == s[..at] + a + b;
    assert s2[at + |a| + |b| + |c|..] == s[at + |a| + |b| + |c|..];
  }

  /** Writing the next record behind an image extends the image. */
  lemma ImageGrows(size: nat, l: seq<Ea>, ea: Ea, before: seq<Byte>)
    requires AllStorable(l) && Storable(ea) && 4 + Total(l) + Size(ea) <= |before|
    ensures AllStorable(l + [ea]) && Total(l + [ea]) == Total(l) + Size(ea)
    ensures var b, at := Image(size, l, before), 4 + Total(l);
            Overwrite(b, at, Record(ea)) == Image(size, l + [ea], before)
  {
    hide Record, Le32;
    assert (l + [ea])[..|l + [ea]| - 1] == l;
    var b, at := Image(size, l, before), 4 + Total(l);
    assert b[..at] == Le32(size) + Records(l);
    assert b[at + Size(ea)..] == before[at + Size(ea)..];
    assert Records(l + [ea]) == Records(l) + Record(ea);
  }

  lemma ImageStarts(size: nat, before: seq<Byte>, cap: nat)
    requires 4 <= |before|
    ensures Overwrite(before, 0, Le32(size)) == Image(size, [], before)
    ensures Fitting([], cap) == [] && AllStorable([])
  {
  }

  /** The size field of an image is rewritten at the end. */
  lemma ImageResized(from: nat, to: nat, l: seq<Ea>, before: seq<Byte>)
    requires AllStorable(l) && 4 + Total(l) <= |before|
    ensures Overwrite(Image(from, l, before), 0, Le32(to)) == Image(to, l, before)
  {
    hide Le32, Records, Total;
    assert Image(from, l, before)[4..] == Records(l) + before[4 + Total(l)..];
  }

  lemma FittingGrows(l: seq<Ea>, ea: Ea, cap: nat)
    requires AllStorable(l) && AllStorable(Fitting(l, cap)) && Storable(ea)
    ensures AllStorable(l + [ea]) && AllStorable(Fitting(l + [ea], cap))
    ensures Total(l + [ea]) == Total(l) + Size(ea)
    ensures Fitting(l + [ea], cap) == if 4 + Total(l) + Size(ea) <= cap then l + [ea] else Fitting(l, cap)
    ensures 4 + Total(l) + Size(ea) <= cap ==> Fitting(l, cap) == l
  {
    assert (l + [ea])[..|l + [ea]| - 1] == l;
  }

  /** The record counts in any case; it is written if the total still fits. `head` is what the
      size field holds meanwhile. */
  method AppendIfFits(dst: array<Byte>, p: nat, total: nat, limit: nat, name: seq<Byte>, value: seq<Byte>,
                      ghost all: seq<Ea>, ghost head: nat, ghost before: seq<Byte>) returns (next: nat)
    requires Storable(Ea(0, name, value)) && limit <= dst.Length == |before| && 4 <= |before|
    requires AllStorable(all) && AllStorable(Fitting(all, limit))
    requires total == 4 + Total(all) + Size(Ea(0, name, value))
    requires p == 4 + Total(Fitting(all, limit)) <= |before|
    requires dst[..] == Image(head, Fitting(all, limit), before)
    modifies dst
    ensures AllStorable(all + [Ea(0, name, value)]) && AllStorable(Fitting(all + [Ea(0, name, value)], limit))
    ensures total == 4 + Total(all + [Ea(0, name, value)])
    ensures next == 4 + Total(Fitting(all + [Ea(0, name, value)], limit)) <= |before|
    ensures dst[..] == Image(head, Fitting(all + [Ea(0, name, value)], limit), before)
  {
    hide Record, Records, Image, Fitting, AllStorable, Storable, Overwrite;
    ghost var ea := Ea(0, name, value);
    FittingGrows(all, ea, limit);
    next := p;
    if total <= limit {
      PutRecord(dst, p, name, value);
      ImageGrows(head, Fitting(all, limit), ea, before);
      next := p + 4 + |name| + 1 + |value|;
    }
  }

  // ----- packing

  /** The attributes that the length fields can carry, in order, flags clear. */
  function Eligible(l: seq<Ea>): seq<Ea> {
    if l == [] then []
    else
      var last := l[|l| - 1];
      Eligible(l[..|l| - 1]) +
      if |last.name| <= 0xFF && |last.value| <= 0xFFFF then [last.(fEA := 0)] else []
  }

  /** Attribute names are C strings. */
  predicate NamesTerminated(l: seq<Ea>) {
    forall i :: 0 <= i < |l| ==> 0 !in l[i].name
  }

  lemma {:induction false} EligibleStorable(l: seq<Ea>)
    requires NamesTerminated(l)
    ensures AllStorable(Eligible(l)) && forall i :: 0 <= i < |Eligible(l)| ==> Eligible(l)[i].fEA == 0
  {
    if l != [] {
      EligibleStorable(l[..|l| - 1]);
    }
  }

  /** unilistea, once the server reported `ea_list`. The size it stores is that of all eligible
      attributes, even if they do not fit; written is the longest prefix that does. */
  method Unilistea(ea_list: seq<Ea>, buffer: array<Byte>, size: nat) returns (rc: int)
    requires NamesTerminated(ea_list) && 4 <= size <= buffer.Length
    modifies buffer
    ensures rc == NO_ERROR
    ensures AllStorable(Eligible(ea_list)) && AllStorable(Fitting(Eligible(ea_list), size))
    ensures 4 + Total(Fitting(Eligible(ea_list), size)) <= buffer.Length
    ensures buffer[..] == Image(4 + Total(Eligible(ea_list)), Fitting(Eligible(ea_list), size), old(buffer[..]))
  {
    hide Records, Image, Fitting, Le32, AllStorable, Overwrite;
    ghost var before := buffer[..];
    var gotsize := 4;
    PutBytes(buffer, 0, Le32(0));
    ImageStarts(0, before, size);
    var p := 4;
    var i := 0;
    ghost var all: seq<Ea> := [];
    assert ea_list[..0] == [];
    while i < |ea_list|
      invariant 0 <= i <= |ea_list| && all == Eligible(ea_list[..i])
      invariant AllStorable(all) && AllStorable(Fitting(all, size))
      invariant gotsize == 4 + Total(all) && p == 4 + Total(Fitting(all, size)) <= |before|
      invariant buffer[..] == Image(0, Fitting(all, size), before)
    {
      var ea := ea_list[i];
      assert ea_list[..i + 1][..i] == ea_list[..i];
      var namelen := |ea.name|;
      if namelen > 0xFF || |ea.value| > 0xFFFF {
        i := i + 1;
        continue;
      }
      gotsize := gotsize + 4 + namelen + |ea.value| + 1;
      p := AppendIfFits(buffer, p, gotsize, size, ea.name, ea.value, all, 0, before);
      all := all + [ea.(fEA := 0)];
      i := i + 1;
    }
    assert ea_list[..i] == ea_list;
    PutBytes(buffer, 0, Le32(gotsize));
    ImageResized(0, gotsize, Fitting(all, size), before);
    rc := NO_ERROR;
  }

  // ----- filtering

  /** fsphStrNCmp(a, b, n) == 0 for a terminated name of length m in `a` and n characters in `b`. */
  method SameFirst(a: array<Byte>, ai: nat, ghost m: nat, b: array<Byte>, bi: nat, n: nat) returns (same: bool)
    requires ai + m < a.Length && a[ai + m] == 0 && bi + n <= b.Length
    requires 0 !in b[bi..bi + n]
    ensures same <==> b[bi..bi + n] <= a[ai..ai + m]
  {
    var j := 0;
    while j < n
      invariant 0 <= j <= n && j <= m
      invariant a[ai..ai + j] == b[bi..bi + j]
    {
      assert b[bi..bi + n][j] == b[bi + j];
      if a[ai + j] != b[bi + j] {
        assert j < m ==> a[ai..ai + m][j] == a[ai + j];
        return false;
      }
      j := j + 1;
    }
    assert a[ai..ai + m][..n] == a[ai..ai + n];
    return true;
  }

  /** The walk over the names of a GEA list. */
  method MatchesSome(src: array<Byte>, name: nat, ghost ea: Ea, gea: array<Byte>, size: nat,
                     ghost names: seq<seq<Byte>>) returns (insert: bool)
    requires name + |ea.name| < src.Length && src[name..name + |ea.name|] == ea.name && src[name + |ea.name|] == 0
    requires AllNames(names) && size == GeaTotal(names) && 4 + size <= gea.Length
    requires gea[4..4 + size] == GeaRecords(names)
    ensures insert <==> exists g :: 0 <= g < |names| && names[g] <= ea.name
  {
    hide GeaRecords, GeaTotal, AllNames;
    var done := 0;
    ghost var g := 0;
    NoNames(names);
    while done < size
      invariant 0 <= g <= |names| && done == GeaTotal(names[..g]) <= size
      invariant forall h :: 0 <= h < g ==> !(names[h] <= ea.name)
      decreases |names| - g
    {
      NotAtEnd(names, g);
      ReadName(names, g, gea, size);
      var cbName := gea[4 + done];
      var same := SameFirst(src, name, |ea.name|, gea, 5 + done, cbName);
      if same {
        return true;
      }
      done := done + cbName + 2;
      g := g + 1;
    }
    NoneLeft(names, g);
    return false;
  }

  lemma ReadName(names: seq<seq<Byte>>, g: nat, gea: array<Byte>, size: nat)
    requires AllNames(names) && size == GeaTotal(names) && 4 + size <= gea.Length
    requires gea[4..4 + size] == GeaRecords(names) && g < |names|
    ensures var at, n := 4 + GeaTotal(names[..g]), |names[g]|;
            && at + n + 2 == 4 + GeaTotal(names[..g + 1]) <= 4 + size
            && gea[at] == n && gea[at + 1..at + 1 + n] == names[g]
            && 0 !in gea[at + 1..at + 1 + n]
  {
    hide GeaRecords, GeaTotal, GeaRecord;
    GeaInPlace(names, g);
    var at, n := GeaTotal(names[..g]), |names[g]|;
    SliceOfSlice(gea[..], 4, 4 + size, at, at + n + 2);
    NameOfRecord(names[g], gea[..], 4 + at);
  }

  lemma NameOfRecord(name: seq<Byte>, gea: seq<Byte>, at: nat)
    requires |name| <= 0xFF && 0 !in name && at + |name| + 2 <= |gea|
    requires gea[at..at + |name| + 2] == GeaRecord(name)
    ensures gea[at] == |name| && gea[at + 1..at + 1 + |name|] == name && 0 !in gea[at + 1..at + 1 + |name|]
  {
    var r := gea[at..at + |name| + 2];
    assert r[0] == gea[at] && r[1..1 + |name|] == name;
    SliceOfSlice(gea, at, at + |name| + 2, 1, 1 + |name|);
  }

  lemma NoNames(names: seq<seq<Byte>>)
    ensures GeaTotal(names[..0]) == 0
  {
  }

  lemma NotAtEnd(names: seq<seq<Byte>>, g: nat)
    requires g <= |names| && GeaTotal(names[..g]) < GeaTotal(names)
    ensures g < |names|
  {
    assert names[..|names|] == names;
  }

  lemma NoneLeft(names: seq<seq<Byte>>, g: nat)
    requires g <= |names| && GeaTotal(names[..g]) == GeaTotal(names) && AllNames(names)
    ensures g == |names|
  {
    if g < |names| {
      GeaInPlace(names, g);
    }
  }

  /** The test for one record: all are wanted if there is no GEA list or an empty one. */
  method IsWanted(src: array<Byte>, name: nat, ghost ea: Ea, gea: array?<Byte>, ghost names: seq<seq<Byte>>)
    returns (insert: bool)
    requires name + |ea.name| < src.Length && src[name..name + |ea.name|] == ea.name && src[name + |ea.name|] == 0
    requires GeaPacked(gea, names)
    ensures insert == Wanted(ea, names)
  {
    insert := true;
    if gea != null {
      GeaFacts(names, gea[..]);
      var cbList := Read32(gea[..], 0);
      if cbList > 4 {
        insert := MatchesSome(src, name, ea, gea, cbList - 4, names);
      }
    }
  }

  /** `gea` holds the packed names, or is NULL when there are none. */
  ghost predicate GeaPacked(gea: array?<Byte>, names: seq<seq<Byte>>)
    reads gea
  {
    && AllNames(names) && 4 + GeaTotal(names) < WORD
    && if gea == null then names == []
       else 4 + GeaTotal(names) <= gea.Length && gea[..4 + GeaTotal(names)] == GeaList(names)
  }

  /** Too small a buffer is an error, but one with room for the size field alone is a query. */
  function Status(needed: nat, dsize: nat): int {
    if needed > dsize && dsize > 4 then ERROR_BUFFER_OVERFLOW else NO_ERROR
  }

  /** buildFEALIST over a packed source list and packed names; `gea` may be NULL. Written are
      the longest prefix of the selected records that fits and the size of all of them. */
  method BuildFEALIST(src: array<Byte>, gea: array?<Byte>, dst: array<Byte>,
                      ghost eas: seq<Ea>, ghost names: seq<seq<Byte>>) returns (rc: int)
    requires dst != src && dst != gea
    requires AllStorable(eas) && 4 + Total(eas) < WORD && 4 + Total(eas) <= src.Length
    requires src[..4 + Total(eas)] == FeaList(eas)
    requires GeaPacked(gea, names)
    requires 4 <= dst.Length && Read32(dst[..], 0) <= dst.Length
    modifies dst
    ensures var all, dsize := Selected(eas, names), Read32(old(dst[..]), 0);
            && AllStorable(all) && AllStorable(Fitting(all, dsize)) && 4 + Total(Fitting(all, dsize)) <= dst.Length
            && dst[..] == Image(4 + Total(all), Fitting(all, dsize), old(dst[..]))
            && rc == Status(4 + Total(all), dsize)
  {
    hide Records, Fitting, Image, AllStorable, Selected, Wanted, FeaList, GeaPacked, Storable, Read32, Read16, Total,
      Le32, Overwrite;
    rc := NO_ERROR;
    ghost var before := dst[..];
    SourceFacts(eas, src[..]);
    var size := Read32(src[..], 0);
    var dsize := Read32(dst[..], 0);
    var done: nat, ddone: nat, pfeadest: nat := 4, 4, 4;
    ghost var i := 0;
    ghost var all: seq<Ea> := [];
    assert eas[..0] == [];
    BuildStarts(eas, names, before, dsize);
    while done < size
      invariant 0 <= i <= |eas| && done == 4 + Total(eas[..i]) <= size == 4 + Total(eas)
      invariant all == Selected(eas[..i], names) && AllStorable(all) && AllStorable(Fitting(all, dsize))
      invariant ddone == 4 + Total(all) && pfeadest == 4 + Total(Fitting(all, dsize)) <= |before|
      invariant dst[..] == Image(Read32(before, 0), Fitting(all, dsize), before)
      decreases |eas| - i
    {
      assert eas[..|eas|] == eas;
      SourceRecord(eas, i, src[..]);
      var cbName: nat, cbValue: nat := src[done + 1], Read16(src[..], done + 2);
      var name := done + 4;
      var insert := IsWanted(src, name, eas[i], gea, names);
      SelectedStep(eas, i, names);
      if insert {
        var chars, value := src[name..name + cbName], src[name + cbName + 1..name + cbName + 1 + cbValue];
        ghost var ea := Ea(0, chars, value);
        assert ea == eas[i].(fEA := 0);
        ddone := ddone + 4 + cbName + 1 + cbValue;
        pfeadest := AppendIfFits(dst, pfeadest, ddone, dsize, chars, value, all, Read32(before, 0), before);
        all := all + [ea];
      }
      done := done + 4 + cbName + 1 + cbValue;
      i := i + 1;
    }
    SourceEnds(eas, i);
    PutBytes(dst, 0, Le32(ddone));
    ImageResized(Read32(before, 0), ddone, Fitting(all, dsize), before);
    if ddone > dsize && dsize > 4 {
      rc := ERROR_BUFFER_OVERFLOW;
    }
  }

  lemma SourceFacts(eas: seq<Ea>, src: seq<Byte>)
    requires AllStorable(eas) && 4 + Total(eas) < WORD && 4 + Total(eas) <= |src|
    requires src[..4 + Total(eas)] == FeaList(eas)
    ensures Read32(src, 0) == 4 + Total(eas)
    ensures src[4..4 + Total(eas)] == Records(eas)
  {
    hide Records, Le32, Read32;
    var l := src[..4 + Total(eas)];
    assert l[..4] == Le32(4 + Total(eas)) && src[0..4] == l[..4];
    ReadLe32(4 + Total(eas), src, 0);
    assert l[4..] == Records(eas) && src[4..4 + Total(eas)] == l[4..];
  }

  lemma SourceRecord(eas: seq<Ea>, i: nat, src: seq<Byte>)
    requires AllStorable(eas) && i < |eas| && 4 + Total(eas) <= |src|
    requires src[4..4 + Total(eas)] == Records(eas)
    ensures var at, ea := 4 + Total(eas[..i]), eas[i];
            && at + Size(ea) == 4 + Total(eas[..i + 1]) <= 4 + Total(eas)
            && Storable(ea) && Storable(ea.(fEA := 0))
            && src[at + 1] == |ea.name| && Read16(src, at + 2) == |ea.value|
            && src[at + 4..at + 4 + |ea.name|] == ea.name && src[at + 4 + |ea.name|] == 0
            && src[at + 5 + |ea.name|..at + Size(ea)] == ea.value
  {
    hide Record, Read16, Records, Total, SizeAt, EaAt;
    RecordInPlace(eas, i);
    var at := Total(eas[..i]);
    SliceOfSlice(src, 4, 4 + Total(eas), at, at + Size(eas[i]));
    ReadRecord(eas[i], src, 4 + at);
  }

  lemma SourceEnds(eas: seq<Ea>, i: nat)
    requires AllStorable(eas) && i <= |eas| && Total(eas[..i]) >= Total(eas)
    ensures eas[..i] == eas
  {
    if i < |eas| {
      RecordInPlace(eas, i);
    }
  }

  lemma BuildStarts(eas: seq<Ea>, names: seq<seq<Byte>>, before: seq<Byte>, dsize: nat)
    requires 4 <= |before|
    ensures Selected([], names) == [] && AllStorable([]) && Fitting([], dsize) == [] && Total([]) == 0
    ensures before == Image(Read32(before, 0), [], before)
  {
    Le32OfRead(before);
    assert before == before[..4] + before[4..];
  }

  lemma Le32OfRead(b: seq<Byte>)
    requires 4 <= |b|
    ensures Le32(Read32(b, 0)) == b[..4]
  {
    FourDigits(b[0], b[1], b[2], b[3]);
    assert b[..4] == [b[0], b[1], b[2], b[3]];
  }

  lemma FourDigits(b0: Byte, b1: Byte, b2: Byte, b3: Byte)
    ensures Le32(b0 as int + b1 as int * 0x100 + b2 as int * 0x1_0000 + b3 as int * 0x100_0000) == [b0, b1, b2, b3]
  {
    var m3: nat := b3;
    var m2: nat := b2 + 0x100 * m3;
    var m1: nat := b1 + 0x100 * m2;
    var n: nat := b0 + 0x100 * m1;
    FirstDigit(b2, m3);
    FirstDigit(b1, m2);
    FirstDigit(b0, m1);
    assert n / 0x1_0000 == n / 0x100 / 0x100 && n / 0x100_0000 == n / 0x1_0000 / 0x100;
  }

  lemma FirstDigit(b: Byte, m: nat)
    ensures (b + 0x100 * m) % 0x100 == b && (b + 0x100 * m) / 0x100 == m
  {
  }

  lemma SelectedStep(eas: seq<Ea>, i: nat, names: seq<seq<Byte>>)
    requires i < |eas|
    ensures Selected(eas[..i + 1], names) ==
            Selected(eas[..i], names) + if Wanted(eas[i], names) then [eas[i].(fEA := 0)] else []
  {
    assert eas[..i + 1][..i] == eas[..i];
  }

  lemma GeaFacts(names: seq<seq<Byte>>, gea: seq<Byte>)
    requires AllNames(names) && 4 + GeaTotal(names) < WORD
    requires 4 + GeaTotal(names) <= |gea| && gea[..4 + GeaTotal(names)] == GeaList(names)
    ensures Read32(gea, 0) == 4 + GeaTotal(names)
    ensures gea[4..4 + GeaTotal(names)] == GeaRecords(names)
    ensures GeaTotal(names) == 0 <==> names == []
  {
    hide Le32, Read32, GeaRecords;
    var l := gea[..4 + GeaTotal(names)];
    assert l[..4] == Le32(4 + GeaTotal(names)) && gea[0..4] == l[..4];
    ReadLe32(4 + GeaTotal(names), gea, 0);
    assert l[4..] == GeaRecords(names) && gea[4..4 + GeaTotal(names)] == l[4..];
  }
}
