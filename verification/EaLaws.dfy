/** What the attribute codec is for: nothing is lost between packing and filtering, and a
    caller can ask for the size first. */
module EaLaws {
  import opened Wrappers
  import opened Bytes
  import opened ErrorCodes
  import opened EaFormat
  import opened EaCodec
  import opened Selections

  lemma FittingAll(l: seq<Ea>, cap: nat)
    requires 4 + Total(l) <= cap
    ensures Fitting(l, cap) == l
  {
  }

  /** A walk that ends never left the bytes. */
  lemma {:induction false} WalkStaysInside(b: seq<Byte>, done: nat, size: nat)
    requires done <= |b| && Walk(b, done, size).Some?
    ensures size <= |b|
    decreases size - done
  {
    if done < size {
      WalkStaysInside(b, done + SizeAt(b, done), size);
    }
  }

  /** The buffer that unilistea fills decodes to exactly the eligible attributes, in order,
      if and only if they fit; otherwise its size field points past the buffer. */
  lemma PackedDecodesIffItFits(ea_list: seq<Ea>, before: seq<Byte>, size: nat)
    requires NamesTerminated(ea_list) && 4 <= size == |before| && 4 + Total(Eligible(ea_list)) < WORD
    ensures var all := Eligible(ea_list);
            && AllStorable(all) && AllStorable(Fitting(all, size)) && 4 + Total(Fitting(all, size)) <= size
            && (Decode(Image(4 + Total(all), Fitting(all, size), before)) == Some(all) <==> 4 + Total(all) <= size)
  {
    hide Records, Le32, Decode, Walk, Read32;
    var all := Eligible(ea_list);
    EligibleStorable(ea_list);
    FittingIsLongest(all, size);
    FittingStorable(all, size);
    var total := 4 + Total(all);
    var image := Image(total, Fitting(all, size), before);
    if total <= size {
      FittingAll(all, size);
      assert image == FeaList(all) + before[total..];
      DecodeOfFeaList(all, before[total..]);
    } else {
      Overshoots(image, total);
    }
  }

  lemma FittingStorable(l: seq<Ea>, cap: nat)
    requires AllStorable(l)
    ensures AllStorable(Fitting(l, cap))
  {
    FittingIsLongest(l, cap);
  }

  lemma Overshoots(b: seq<Byte>, total: nat)
    requires |b| >= 4 && b[..4] == Le32(total) && |b| < total < WORD
    ensures Decode(b) == None
  {
    hide Le32, Read32;
    assert b[0..4] == b[..4];
    ReadLe32(total, b, 0);
    if Decode(b).Some? {
      WalkStaysInside(b, 4, total);
    }
  }

  /** Packed attributes pass through buildFEALIST unchanged, byte for byte, when no names are
      given and there is room: both buffers begin with the same packed list. */
  lemma FilterReproduces(ea_list: seq<Ea>, size: nat, packed: seq<Byte>, dsize: nat, target: seq<Byte>)
    requires NamesTerminated(ea_list) && 4 <= |packed| && 4 <= |target|
    requires 4 + Total(Eligible(ea_list)) <= size <= |packed| && 4 + Total(Eligible(ea_list)) <= dsize <= |target|
    ensures var all, total := Eligible(ea_list), 4 + Total(Eligible(ea_list));
            && AllStorable(all) && Selected(all, []) == all
            && Fitting(all, size) == all && Fitting(all, dsize) == all
            && Image(total, all, packed)[..total] == FeaList(all) == Image(total, all, target)[..total]
  {
    hide Eligible, Selected, Fitting, Total, Image, FeaList;
    var all := Eligible(ea_list);
    EligibleStorable(ea_list);
    SelectedAll(all);
    FittingAll(all, size);
    FittingAll(all, dsize);
    ImageIsList(all, packed);
    ImageIsList(all, target);
  }

  /** Size query, then fill: with dsize 4 nothing is written but the size, without an error; a
      second call with that size succeeds and delivers every selected record. */
  lemma SizeQueryThenFill(eas: seq<Ea>, names: seq<seq<Byte>>, before: seq<Byte>)
    requires AllStorable(eas) && |before| == 4 + Total(Selected(eas, names))
    ensures var all := Selected(eas, names);
            var needed := 4 + Total(all);
            && AllStorable(all)
            && Fitting(all, 4) == [] && Status(needed, 4) == NO_ERROR
            && Fitting(all, needed) == all && Status(needed, needed) == NO_ERROR
            && Image(needed, all, before) == FeaList(all)
  {
    var all := Selected(eas, names);
    SelectedStorable(eas, names);
    FittingIsLongest(all, 4);
    if Fitting(all, 4) != [] {
      TotalPositive(Fitting(all, 4));
    }
    assert before[4 + Total(all)..] == [];
  }

  lemma TotalPositive(l: seq<Ea>)
    requires l != []
    ensures Total(l) >= 5
  {
  }

  /** What an image is: the size field with the low byte first, packed records, and the bytes behind
      them as they were. */
  lemma ImageMeans(size: nat, l: seq<Ea>, before: seq<Byte>)
    requires AllStorable(l) && 4 + Total(l) <= |before| && size < 0x1_0000_0000
    ensures var b, end := Image(size, l, before), 4 + Total(l);
            && |b| == |before| && b[end..] == before[end..] && b[4..end] == FeaList(l)[4..]
            && b[0] as int + 0x100 * b[1] as int + 0x1_0000 * b[2] as int + 0x100_0000 * b[3] as int == size
  {
    hide Records, Total, AllStorable, Le32;
    var b := Image(size, l, before);
    assert b[0..4] == Le32(size);
    ReadLe32(size, b, 0);
  }

  /** The positions of the wanted attributes. */
  function Positions(l: seq<Ea>, names: seq<seq<Byte>>): (at: seq<nat>)
    ensures forall k :: 0 <= k < |at| ==> at[k] < |l|
  {
    if l == [] then []
    else Positions(l[..|l| - 1], names) + if Wanted(l[|l| - 1], names) then [|l| - 1] else []
  }

  /** What a selection contains: exactly the wanted attributes, flags cleared, in their order. */
  lemma SelectedMeans(l: seq<Ea>, names: seq<seq<Byte>>)
    ensures var at, s := Positions(l, names), Selected(l, names);
            && |at| == |s|
            && (forall k :: 0 <= k < |at| ==> s[k] == l[at[k]].(fEA := 0))
            && (forall j, k :: 0 <= j < k < |at| ==> at[j] < at[k])
            && (forall m :: 0 <= m < |l| ==>
                  (m in at <==> names == [] || exists g :: 0 <= g < |names| && names[g] <= l[m].name))
  {
    PositionsSelect(l, names);
    PositionsOrdered(l, names);
  }

  /** What buildFEALIST writes: the first of the attributes that are asked for, as many as fit, with
      their flags cleared; `at` are the positions of all that are asked for, the written ones and the
      next. */
  lemma WrittenMeans(eas: seq<Ea>, names: seq<seq<Byte>>, dsize: nat) returns (at: seq<nat>)
    requires dsize >= 4
    ensures forall k :: 0 <= k < |at| ==> at[k] < |eas|
    ensures forall j, k :: 0 <= j < k < |at| ==> at[j] < at[k]
    ensures forall m :: 0 <= m < |eas| ==>
              (m in at <==> names == [] || exists g :: 0 <= g < |names| && names[g] <= eas[m].name)
    ensures var w := Fitting(Selected(eas, names), dsize);
            && |w| <= |at|
            && (forall k :: 0 <= k < |w| ==> w[k] == Ea(0, eas[at[k]].name, eas[at[k]].value))
            && 4 + Total(w) <= dsize
            && (|w| < |at| ==> 4 + Total(w + [eas[at[|w|]]]) > dsize)
            && (Status(4 + Total(Selected(eas, names)), dsize) == 0 <==> |w| == |at| || dsize == 4)
            && Status(4 + Total(Selected(eas, names)), dsize) in {0, 111}
  {
    hide Fitting, Selected, Positions, Total, Wanted;
    var all := Selected(eas, names);
    var w := Fitting(all, dsize);
    at := Positions(eas, names);
    SelectedMeans(eas, names);
    FittingIsLongest(all, dsize);
    assert forall k :: 0 <= k < |w| ==> w[k] == all[k];
    if |w| < |at| {
      var next := eas[at[|w|]];
      assert all[..|w| + 1] == w + [next.(fEA := 0)];
      SameTotal(w, next);
      TotalOfPrefix(all, |w| + 1);
    } else {
      assert w == all;
    }
  }

  lemma SameTotal(l: seq<Ea>, ea: Ea)
    ensures Total(l + [ea.(fEA := 0)]) == Total(l + [ea])
  {
    assert (l + [ea])[..|l|] == l && (l + [ea.(fEA := 0)])[..|l|] == l;
  }

  lemma {:induction false} TotalOfPrefix(l: seq<Ea>, n: nat)
    requires n <= |l|
    ensures Total(l[..n]) <= Total(l)
    decreases |l|
  {
    if n == |l| {
      assert l[..n] == l;
    } else {
      TotalOfPrefix(l[..|l| - 1], n);
      assert l[..|l| - 1][..n] == l[..n];
    }
  }

  lemma EligibleStep(l: seq<Ea>)
    ensures l == [] ==> Eligible(l) == []
    ensures l != [] ==>
              var n := |l| - 1;
              Eligible(l) == Eligible(l[..n]) + if |l[n].name| <= 255 && |l[n].value| <= 65535
                                                then [Ea(0, l[n].name, l[n].value)] else []
  {
  }

  /** What unilistea packs: exactly the attributes that the length fields can carry, in order. */
  lemma {:induction false} EligibleMeans(l: seq<Ea>) returns (at: seq<nat>)
    ensures Increasing(at, |l|) && |at| == |Eligible(l)|
    ensures forall k :: 0 <= k < |at| ==> Eligible(l)[k] == Ea(0, l[at[k]].name, l[at[k]].value)
    ensures forall m :: 0 <= m < |l| ==> (m in at <==> |l[m].name| <= 255 && |l[m].value| <= 65535)
  {
    hide Increasing, Eligible;
    at := [];
    NoneTaken(|l|);
    EligibleStep(l);
    if l != [] {
      var n := |l| - 1;
      var before := EligibleMeans(l[..n]);
      var fits := |l[n].name| <= 255 && |l[n].value| <= 65535;
      at := before + if fits then [n] else [];
      Extended(before, n, fits);
      assert forall m :: 0 <= m < n ==> l[m] == l[..n][m];
    }
  }

  lemma {:induction false} PositionsSelect(l: seq<Ea>, names: seq<seq<Byte>>)
    ensures |Positions(l, names)| == |Selected(l, names)|
    ensures forall k :: 0 <= k < |Positions(l, names)| ==>
              Selected(l, names)[k] == l[Positions(l, names)[k]].(fEA := 0)
  {
    hide Wanted;
    if l != [] {
      PositionsSelect(l[..|l| - 1], names);
    }
  }

  lemma {:induction false} PositionsOrdered(l: seq<Ea>, names: seq<seq<Byte>>)
    ensures forall j, k :: 0 <= j < k < |Positions(l, names)| ==> Positions(l, names)[j] < Positions(l, names)[k]
    ensures forall m :: 0 <= m < |l| ==>
              (m in Positions(l, names) <==> names == [] || exists g :: 0 <= g < |names| && names[g] <= l[m].name)
  {
    if l != [] {
      var n := |l| - 1;
      PositionsOrdered(l[..n], names);
      assert n !in Positions(l[..n], names);
      assert forall m :: 0 <= m < n ==> l[..n][m] == l[m];
    }
  }

  /** What the server answers to a request for the attributes of a file. */
  datatype Reported = Failed(rc: int) | Listed(l: seq<Ea>)

  const EA_BUFFER: nat := 0x1_0000

  /** NdpFileEAQuery on an open file, from the server's answer on: a packed list in a 64 KB buffer,
      then the filter. A missing file has no attributes. */
  method NdpFileEAQuery(reported: Reported, gea: array?<Byte>, dst: array<Byte>, ghost names: seq<seq<Byte>>)
    returns (rc: int)
    requires reported.Listed? ==> NamesTerminated(reported.l) && 4 + Total(Eligible(reported.l)) <= EA_BUFFER
    requires reported.Failed? ==> reported.rc != NO_ERROR
    requires dst != gea && GeaPacked(gea, names)
    requires 4 <= dst.Length && Read32(dst[..], 0) <= dst.Length
    modifies dst
    ensures reported.Listed? ==>
              var all, dsize := Selected(Eligible(reported.l), names), Read32(old(dst[..]), 0);
              && AllStorable(all) && AllStorable(Fitting(all, dsize)) && 4 + Total(Fitting(all, dsize)) <= dst.Length
              && dst[..] == Image(4 + Total(all), Fitting(all, dsize), old(dst[..]))
              && rc == Status(4 + Total(all), dsize)
    ensures reported.Failed? ==>
              if reported.rc == ERROR_FILE_NOT_FOUND || reported.rc == ERROR_PATH_NOT_FOUND
              then rc == NO_ERROR && dst[..] == Le32(4) + old(dst[4..])
              else if reported.rc == ERROR_BUFFER_OVERFLOW
              then rc == ERROR_BUFFER_OVERFLOW && dst[..] == Le32(0) + old(dst[4..])
              else rc == ERROR_EAS_NOT_SUPPORTED && dst[..] == old(dst[..])
    ensures rc in {0, 111, 282}
  {
    hide Records, Image, Fitting, FeaList, GeaPacked, Selected, Eligible, AllStorable, Total, Read32, Le32;
    match reported
    case Failed(code) =>
      if code == ERROR_FILE_NOT_FOUND || code == ERROR_PATH_NOT_FOUND {
        PutBytes(dst, 0, Le32(4));
        rc := NO_ERROR;
      } else if code == ERROR_BUFFER_OVERFLOW {
        PutBytes(dst, 0, Le32(0));
        rc := code;
      } else {
        rc := ERROR_EAS_NOT_SUPPORTED;
      }
    case Listed(l) =>
      rc := PackAndFilter(l, gea, dst, names);
  }

  /** NdpEAQuery writes the same, but any error, an overflow too, becomes ERROR_EAS_NOT_SUPPORTED:
      a caller whose buffer is too small learns the size needed only from the buffer. */
  method NdpEAQuery(reported: Reported, gea: array?<Byte>, dst: array<Byte>, ghost names: seq<seq<Byte>>)
    returns (rc: int)
    requires reported.Listed? ==> NamesTerminated(reported.l) && 4 + Total(Eligible(reported.l)) <= EA_BUFFER
    requires reported.Failed? ==> reported.rc != NO_ERROR
    requires dst != gea && GeaPacked(gea, names)
    requires 4 <= dst.Length && Read32(dst[..], 0) <= dst.Length
    modifies dst
    ensures reported.Listed? ==>
              var all, dsize := Selected(Eligible(reported.l), names), Read32(old(dst[..]), 0);
              && AllStorable(all) && AllStorable(Fitting(all, dsize)) && 4 + Total(Fitting(all, dsize)) <= dst.Length
              && dst[..] == Image(4 + Total(all), Fitting(all, dsize), old(dst[..]))
              && rc == if Status(4 + Total(all), dsize) == NO_ERROR then NO_ERROR else ERROR_EAS_NOT_SUPPORTED
    ensures reported.Failed? ==>
              if reported.rc == ERROR_FILE_NOT_FOUND || reported.rc == ERROR_PATH_NOT_FOUND
              then rc == NO_ERROR && dst[..] == Le32(4) + old(dst[4..])
              else if reported.rc == ERROR_BUFFER_OVERFLOW
              then rc == ERROR_EAS_NOT_SUPPORTED && dst[..] == Le32(0) + old(dst[4..])
              else rc == ERROR_EAS_NOT_SUPPORTED && dst[..] == old(dst[..])
  {
    hide Records, Image, Fitting, FeaList, GeaPacked, Selected, Eligible, AllStorable, Total, Read32, Le32, Status;
    rc := NdpFileEAQuery(reported, gea, dst, names);
    if rc != NO_ERROR {
      rc := ERROR_EAS_NOT_SUPPORTED;
    }
  }

  method PackAndFilter(l: seq<Ea>, gea: array?<Byte>, dst: array<Byte>, ghost names: seq<seq<Byte>>) returns (rc: int)
    requires NamesTerminated(l) && 4 + Total(Eligible(l)) <= EA_BUFFER
    requires dst != gea && GeaPacked(gea, names)
    requires 4 <= dst.Length && Read32(dst[..], 0) <= dst.Length
    modifies dst
    ensures var all, dsize := Selected(Eligible(l), names), Read32(old(dst[..]), 0);
            && AllStorable(all) && AllStorable(Fitting(all, dsize)) && 4 + Total(Fitting(all, dsize)) <= dst.Length
            && dst[..] == Image(4 + Total(all), Fitting(all, dsize), old(dst[..]))
            && rc == Status(4 + Total(all), dsize)
  {
    hide Records, Image, Fitting, FeaList, GeaPacked, Read32, Total, AllStorable, Selected, Eligible;
    var buffer := new Byte[EA_BUFFER];
    ghost var fresh' := buffer[..];
    var packed := Unilistea(l, buffer, EA_BUFFER);
    FittingAll(Eligible(l), EA_BUFFER);
    ImageIsList(Eligible(l), fresh');
    rc := BuildFEALIST(buffer, gea, dst, Eligible(l), names);
  }

  lemma ImageIsList(l: seq<Ea>, before: seq<Byte>)
    requires AllStorable(l) && 4 + Total(l) <= |before|
    ensures |Image(4 + Total(l), l, before)| == |before|
    ensures Image(4 + Total(l), l, before)[..4 + Total(l)] == FeaList(l)
  {
    hide Records, Total, AllStorable, Le32;
  }
}
