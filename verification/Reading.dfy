/** The blocks of code from which the generator assembles `Unmarshal`: each reads one piece
    of the buffer at a cursor, with Go's bounds checks. */
module Reading {
  import opened GoInts
  import opened Errors
  import opened Schemas
  import opened Decoding
  import Records
  import Varint

  /** The tag of a record. */
  method ReadTag(dAtA: bytes, start: int64) returns (err: Error, fieldNum: int32, wireType: nat, iNdEx: int64)
    requires 0 <= start <= |dAtA| < TWO63
    ensures err.Reports(Header(dAtA[start..]))
    ensures err.Nil? ==> start < iNdEx <= |dAtA| && dAtA[iNdEx..] == dAtA[start..][iNdEx - start..]
    ensures err.Nil? ==> Header(dAtA[start..]) == Ok(Head(fieldNum, wireType, iNdEx - start))
    ensures Varint.Dec(dAtA[start..]).Ok? ==>
              var wire := Varint.Dec(dAtA[start..]).value.0;
              && (fieldNum - wire / 8) % 0x1_0000_0000 == 0 && wireType == wire % 8
              && err == if wireType == 4 then ErrEndGroupForNonGroup
                        else if fieldNum <= 0 then ErrIllegalTag(fieldNum, wire) else Nil
  {
    hide Varint.Dec;
    var wire;
    err, wire, iNdEx := Records.ReadVarint(dAtA, start);
    fieldNum := Signed32(wire / 8);
    wireType := wire % 8;
    if err.Nil? {
      Records.DropTwice(dAtA, start, iNdEx - start);
      if wireType == 4 {
        err := ErrEndGroupForNonGroup;
      } else if fieldNum <= 0 {
        err := ErrIllegalTag(fieldNum, wire);
      }
    }
  }

  /** A length and the bounds of the bytes it announces. The length is an `int`, so it can be
      negative, and the sum can wrap around. */
  method ReadLength(dAtA: bytes, start: int64) returns (err: Error, iNdEx: int64, postIndex: int64)
    requires 0 <= start <= |dAtA| < TWO63
    ensures err.Reports(LenPrefix(dAtA[start..]))
    ensures !err.Nil? && Varint.Dec(dAtA[start..]).Ok? ==>
              var d := Varint.Dec(dAtA[start..]).value;
              err == if start + d.1 + d.0 >= TWO63 then ErrInvalidLength else ErrUnexpectedEOF
    ensures err.Nil? ==> LenPrefix(dAtA[start..]) == Ok((iNdEx - start, postIndex - start))
    ensures err.Nil? ==>
              && start < iNdEx <= postIndex <= |dAtA|
              && dAtA[iNdEx..] == dAtA[start..][iNdEx - start..]
              && dAtA[iNdEx..postIndex] == dAtA[iNdEx..][..postIndex - iNdEx]
              && dAtA[iNdEx..postIndex] == dAtA[start..][iNdEx - start..postIndex - start]
  {
    hide Varint.Dec, Add64, Signed64;
    var pattern;
    err, pattern, iNdEx := Records.ReadVarint(dAtA, start);
    postIndex := iNdEx;
    if !err.Nil? {
      return;
    }
    SignedPattern(pattern);
    var msglen := Signed64(pattern);
    if msglen < 0 {
      err := ErrInvalidLength;
      return;
    }
    AddWraps(iNdEx, msglen);
    postIndex := Add64(iNdEx, msglen);
    if postIndex < 0 {
      err := ErrInvalidLength;
      return;
    }
    if postIndex > |dAtA| {
      err := ErrUnexpectedEOF;
      return;
    }
    Records.DropTwice(dAtA, start, iNdEx - start);
  }

  /** An accumulator of 32 bits. */
  method ReadPattern32(dAtA: bytes, start: int64) returns (err: Error, v: uint32, iNdEx: int64)
    requires 0 <= start <= |dAtA| < TWO63
    ensures err.Reports(Varint.Dec(dAtA[start..]))
    ensures err.Nil? ==>
              var x := Varint.Dec(dAtA[start..]).value;
              v == x.0 % TWO32 && iNdEx == start + x.1 && iNdEx <= |dAtA|
  {
    var x, next;
    err, x, next := Varint.Decode(dAtA, start, 32);
    Pow2Known();
    if err.Nil? {
      Low32(Varint.DecAt(dAtA[start..], 0).value.0);
      v, iNdEx := x, next;
    } else {
      v, iNdEx := 0, start;
    }
  }

  lemma Low32(x: nat)
    ensures x % TWO64 % TWO32 == x % TWO32
  {
    AddMultiple(x % TWO64, x / TWO64 * TWO32, TWO32);
    assert x / TWO64 * TWO32 * TWO32 == x / TWO64 * TWO64;
  }

  method ReadUint32(dAtA: bytes, start: int64) returns (err: Error, v: uint32, iNdEx: int64)
    requires 0 <= start <= |dAtA| < TWO63
    ensures err.Reports(NumberStep(Uint32, dAtA[start..]))
    ensures err.Nil? ==> NumberStep(Uint32, dAtA[start..]) == Ok((v, iNdEx - start)) && start <= iNdEx <= |dAtA|
    ensures err.Nil? ==> Varint.Dec(dAtA[start..]).Ok? && v == Varint.Dec(dAtA[start..]).value.0 % 0x1_0000_0000
  {
    hide Varint.Dec;
    err, v, iNdEx := ReadPattern32(dAtA, start);
  }

  method ReadInt32(dAtA: bytes, start: int64) returns (err: Error, v: int32, iNdEx: int64)
    requires 0 <= start <= |dAtA| < TWO63
    ensures err.Reports(NumberStep(Int32, dAtA[start..]))
    ensures err.Nil? ==>
              NumberStep(Int32, dAtA[start..]) == Ok((Unsigned64(v), iNdEx - start)) && start <= iNdEx <= |dAtA|
    ensures err.Nil? ==>
              Varint.Dec(dAtA[start..]).Ok? && (v - Varint.Dec(dAtA[start..]).value.0) % 0x1_0000_0000 == 0
  {
    hide Varint.Dec;
    var pattern;
    err, pattern, iNdEx := ReadPattern32(dAtA, start);
    v := Signed32(pattern);
    if err.Nil? {
      Signed32Low(Varint.Dec(dAtA[start..]).value.0);
    }
  }

  lemma Signed32Low(x: uint64)
    ensures Signed32(x % TWO32) == Signed32(x)
  {
  }

  method ReadInt64(dAtA: bytes, start: int64) returns (err: Error, v: int64, iNdEx: int64)
    requires 0 <= start <= |dAtA| < TWO63
    ensures err.Reports(NumberStep(Int64, dAtA[start..]))
    ensures err.Nil? ==>
              NumberStep(Int64, dAtA[start..]) == Ok((Unsigned64(v), iNdEx - start)) && start <= iNdEx <= |dAtA|
    ensures err.Nil? ==>
              && Varint.Dec(dAtA[start..]).Ok?
              && (v - Varint.Dec(dAtA[start..]).value.0) % 0x1_0000_0000_0000_0000 == 0
  {
    hide Varint.Dec;
    var pattern;
    err, pattern, iNdEx := Records.ReadVarint(dAtA, start);
    SignedPattern(pattern);
    v := Signed64(pattern);
    assert Unsigned64(v) == pattern;
  }

  method ReadBool(dAtA: bytes, start: int64) returns (err: Error, v: bool, iNdEx: int64)
    requires 0 <= start <= |dAtA| < TWO63
    ensures err.Reports(NumberStep(Bool, dAtA[start..]))
    ensures err.Nil? ==>
              NumberStep(Bool, dAtA[start..]) == Ok((if v then 1 else 0, iNdEx - start)) && start <= iNdEx <= |dAtA|
    ensures err.Nil? ==> Varint.Dec(dAtA[start..]).Ok? && (v <==> Varint.Dec(dAtA[start..]).value.0 != 0)
  {
    hide Varint.Dec;
    var pattern;
    err, pattern, iNdEx := Records.ReadVarint(dAtA, start);
    SignedPattern(pattern);
    v := Signed64(pattern) != 0;
  }

  /** `encoding_binary.LittleEndian.Uint64`: a `float64` as its bits. */
  method ReadDouble(dAtA: bytes, start: int64) returns (err: Error, v: uint64, iNdEx: int64)
    requires 0 <= start <= |dAtA| < MAX_SLICE
    ensures err.Reports(NumberStep(Double, dAtA[start..]))
    ensures err.Nil? ==> NumberStep(Double, dAtA[start..]) == Ok((v, iNdEx - start)) && start <= iNdEx <= |dAtA|
    ensures err.Nil? <==> start + 8 <= |dAtA|
    ensures err.Nil? ==>
              && iNdEx == start + 8
              && v == dAtA[start] as int + 0x100 * (dAtA[start + 1] as int) +
                      0x1_0000 * (dAtA[start + 2] as int) + 0x100_0000 * (dAtA[start + 3] as int) +
                      0x1_0000_0000 * (dAtA[start + 4] as int) + 0x100_0000_0000 * (dAtA[start + 5] as int) +
                      0x1_0000_0000_0000 * (dAtA[start + 6] as int) + 0x100_0000_0000_0000 * (dAtA[start + 7] as int)
  {
    hide Word;
    v, iNdEx := 0, start;
    AddWraps(start, 8);
    if Add64(start, 8) > |dAtA| {
      err := ErrUnexpectedEOF;
      return;
    }
    EightDigits(dAtA[start..][..8]);
    v := dAtA[start] as int + 0x100 * (dAtA[start + 1] as int) +
        0x1_0000 * (dAtA[start + 2] as int) + 0x100_0000 * (dAtA[start + 3] as int) +
        0x1_0000_0000 * (dAtA[start + 4] as int) + 0x100_0000_0000 * (dAtA[start + 5] as int) +
        0x1_0000_0000_0000 * (dAtA[start + 6] as int) + 0x100_0000_0000_0000 * (dAtA[start + 7] as int);
    err, iNdEx := Nil, start + 8;
  }

  /** The entries of a map, read as the inlined inner loop reads them: strings are bounded by
      the end of the buffer, and the caller sets the cursor back to postIndex. */
  method ReadEntry(dAtA: bytes, start: int64, postIndex: int64) returns (err: Error, mapkey: bytes, mapvalue: bytes)
    requires 0 <= start <= postIndex <= |dAtA| < TWO63
    ensures err.Reports(Entry(dAtA[start..], postIndex - start, [], []))
    ensures err.Nil? ==> Entry(dAtA[start..], postIndex - start, [], []) == Ok((mapkey, mapvalue))
  {
    hide Entry, Varint.Dec, LenPrefix, Records.Length, Signed32;
    var iNdEx := start;
    mapkey, mapvalue := [], [];
    while iNdEx < postIndex
      invariant start <= iNdEx <= |dAtA|
      invariant Entry(dAtA[start..], postIndex - start, [], []) ==
                Entry(dAtA[iNdEx..], postIndex - iNdEx, mapkey, mapvalue)
      decreases |dAtA| - iNdEx
    {
      var entryPreIndex := iNdEx;
      ghost var t, left, key, value := dAtA[iNdEx..], postIndex - iNdEx, mapkey, mapvalue;
      var wire;
      err, wire, iNdEx := Records.ReadVarint(dAtA, iNdEx);
      EntryFault(t, left, key, value);
      if !err.Nil? {
        return;
      }
      Records.DropTwice(dAtA, entryPreIndex, iNdEx - entryPreIndex);
      var fieldNum := Signed32(wire / 8);
      if fieldNum == 1 || fieldNum == 2 {
        ghost var k := iNdEx - entryPreIndex;
        var lo, hi;
        err, lo, hi := ReadLength(dAtA, iNdEx);
        if !err.Nil? {
          return;
        }
        ghost var j := hi - iNdEx;
        Records.DropTwice(dAtA, entryPreIndex, k + j);
        if fieldNum == 1 {
          mapkey := dAtA[lo..hi];
        } else {
          mapvalue := dAtA[lo..hi];
        }
        iNdEx := hi;
        EntryString(t, left, key, value);
      } else {
        iNdEx := entryPreIndex;
        var skippy;
        err, skippy := SkipWithin(dAtA, iNdEx, postIndex);
        if !err.Nil? {
          return;
        }
        Records.DropTwice(dAtA, entryPreIndex, skippy);
        iNdEx := iNdEx + skippy;
        EntryRecord(t, left, key, value);
      }
    }
    EntryDone(dAtA[iNdEx..], postIndex - iNdEx, mapkey, mapvalue);
    err := Nil;
  }

  lemma EntryDone(t: bytes, left: int, key: bytes, value: bytes)
    requires left <= 0
    ensures Entry(t, left, key, value) == Ok((key, value))
  {
  }

  lemma EntryFault(t: bytes, left: int, key: bytes, value: bytes)
    requires left > 0
    ensures Varint.Dec(t).Err? ==> Entry(t, left, key, value) == Err(Varint.Dec(t).fault)
    ensures Varint.Dec(t).Ok? ==>
              var num, p := Signed32(Varint.Dec(t).value.0 / 8), t[Varint.Dec(t).value.1..];
              if num == 1 || num == 2 then LenPrefix(p).Err? ==> Entry(t, left, key, value) == Err(LenPrefix(p).fault)
              else
                && (Records.Length(t).Err? ==> Entry(t, left, key, value) == Err(Records.Length(t).fault))
                && (Records.Length(t).Ok? && Records.Length(t).value > left ==>
                      Entry(t, left, key, value) == Err(Bounds))
  {
    hide Varint.Dec, LenPrefix, Records.Length, Signed32;
  }

  lemma EntryString(t: bytes, left: int, key: bytes, value: bytes)
    requires left > 0 && Varint.Dec(t).Ok?
    ensures var num, k := Signed32(Varint.Dec(t).value.0 / 8), Varint.Dec(t).value.1;
            (num == 1 || num == 2) && LenPrefix(t[k..]).Ok? ==>
              var i, j := LenPrefix(t[k..]).value.0, LenPrefix(t[k..]).value.1;
              var str := t[k..][i..j];
              Entry(t, left, key, value) ==
              Entry(t[k + j..], left - (k + j), if num == 1 then str else key, if num == 1 then value else str)
  {
    hide Varint.Dec, LenPrefix, Records.Length, Signed32;
  }

  lemma EntryRecord(t: bytes, left: int, key: bytes, value: bytes)
    requires left > 0 && Varint.Dec(t).Ok?
    requires Signed32(Varint.Dec(t).value.0 / 8) != 1 && Signed32(Varint.Dec(t).value.0 / 8) != 2
    requires Records.Length(t).Ok? && Records.Length(t).value <= left
    ensures Entry(t, left, key, value) == Entry(t[Records.Length(t).value..], left - Records.Length(t).value,
        key, value)
  {
    hide Varint.Dec, LenPrefix, Records.Length, Signed32;
  }

  /** `skip*` on the rest of the buffer, and the callers' checks that the record ends
      by limit. */
  method SkipWithin(dAtA: bytes, iNdEx: int64, limit: int64) returns (err: Error, skippy: int64)
    requires 0 <= iNdEx <= limit <= |dAtA| < TWO63
    ensures Records.Length(dAtA[iNdEx..]).Err? ==> err.Reports(Records.Length(dAtA[iNdEx..]))
    ensures Records.Length(dAtA[iNdEx..]).Ok? ==>
              var n := Records.Length(dAtA[iNdEx..]).value;
              if iNdEx + n > limit then !err.Nil? && err.Fault() == Bounds else err.Nil? && skippy == n
  {
    hide Records.Length, Add64;
    skippy, err := Records.Skip(dAtA[iNdEx..]);
    if !err.Nil? {
      return;
    }
    if skippy >= 0 {
      AddWraps(iNdEx, skippy);
    }
    if skippy < 0 || Add64(iNdEx, skippy) < 0 {
      err := ErrInvalidLength;
    } else if Add64(iNdEx, skippy) > limit {
      err := ErrUnexpectedEOF;
    }
  }

  //
  // What Unmarshal and the switch inside its loop promise
  //

  /** The record at preIndex took the message from m to m', or was refused. */
  ghost predicate Stepped(sc: Schema, m: Msg, m': Msg, dAtA: bytes, preIndex: int, err: Error, iNdEx: int)
    requires WellTyped(sc, m) && 0 <= preIndex <= |dAtA|
  {
    && err.Reports(Step(sc, m, dAtA[preIndex..]))
    && (err.Nil? ==> preIndex < iNdEx <= |dAtA| && Step(sc, m, dAtA[preIndex..]) == Ok((m', iNdEx - preIndex)))
  }

  /** The records from iNdEx on remain to be read onto m'. */
  ghost predicate Remains(sc: Schema, m: Msg, m': Msg, dAtA: bytes, iNdEx: int)
    requires WellTyped(sc, m) && WellTyped(sc, m')
  {
    0 <= iNdEx <= |dAtA| && Decode(sc, m, dAtA) == Decode(sc, m', dAtA[iNdEx..])
  }

  /** All of dAtA took the message from m to m', or was refused. */
  ghost predicate Unmarshaled(sc: Schema, m: Msg, m': Msg, dAtA: bytes, err: Error)
    requires WellTyped(sc, m)
  {
    && err.Reports(Decode(sc, m, dAtA))
    && (err.Nil? ==> Decode(sc, m, dAtA) == Ok(m'))
  }

  lemma RemainsAll(sc: Schema, m: Msg, dAtA: bytes)
    requires WellTyped(sc, m)
    ensures Remains(sc, m, m, dAtA, 0)
  {
    hide Decode;
    assert dAtA[0..] == dAtA;
  }

  lemma RemainsStep(sc: Schema, m: Msg, m': Msg, m'': Msg, dAtA: bytes, preIndex: int, err: Error, iNdEx: int)
    requires WellTyped(sc, m) && WellTyped(sc, m') && Remains(sc, m, m', dAtA, preIndex) && preIndex < |dAtA|
    requires WellTyped(sc, m'') && Stepped(sc, m', m'', dAtA, preIndex, err, iNdEx)
    ensures err.Nil? ==> Remains(sc, m, m'', dAtA, iNdEx)
    ensures !err.Nil? ==> Unmarshaled(sc, m, m'', dAtA, err)
  {
    hide Decode, Step, WellTyped;
    DecodeStep(sc, m', dAtA[preIndex..]);
    if err.Nil? {
      Records.DropTwice(dAtA, preIndex, iNdEx - preIndex);
    }
  }

  lemma RemainsNone(sc: Schema, m: Msg, m': Msg, dAtA: bytes)
    requires WellTyped(sc, m) && WellTyped(sc, m') && Remains(sc, m, m', dAtA, |dAtA|)
    ensures Unmarshaled(sc, m, m', dAtA, Nil)
  {
    hide Decode, WellTyped;
    assert dAtA[|dAtA|..] == [];
    DecodeNone(sc, m');
  }

  /** `default:` of the switch: the cursor goes back to the tag, and the record is kept. */
  method ReadUnknown(dAtA: bytes, preIndex: int64) returns (err: Error, iNdEx: int64)
    requires 0 <= preIndex < |dAtA| < TWO63
    ensures err.Reports(Records.Length(dAtA[preIndex..]))
    ensures err.Nil? ==>
              && preIndex < iNdEx <= |dAtA|
              && Records.Length(dAtA[preIndex..]) == Ok(iNdEx - preIndex)
              && dAtA[preIndex..iNdEx] == dAtA[preIndex..][..iNdEx - preIndex]
  {
    hide Records.Length;
    var skippy;
    err, skippy := SkipWithin(dAtA, preIndex, |dAtA|);
    iNdEx := preIndex;
    if err.Nil? {
      iNdEx := iNdEx + skippy;
    }
  }

  //
  // What the blocks contribute to a step of the specification
  //

  /** s begins with a record of field i of sc. */
  ghost predicate IsField(sc: Schema, s: bytes, i: nat) {
    && Header(s).Ok?
    && i < |sc.fields|
    && Find(sc.fields, Header(s).value.num) == i
  }

  lemma FieldFound(sc: Schema, s: bytes, i: nat)
    requires ValidSchema(sc) && Header(s).Ok? && i < |sc.fields| && sc.fields[i].num == Header(s).value.num
    ensures IsField(sc, s, i)
  {
    FindKnown(sc, i);
  }

  lemma StepFault(sc: Schema, m: Msg, s: bytes)
    requires WellTyped(sc, m) && Header(s).Err?
    ensures Step(sc, m, s) == Err(Header(s).fault)
  {
    hide Header;
  }

  lemma StepWrongType(sc: Schema, m: Msg, s: bytes, i: nat)
    requires WellTyped(sc, m) && IsField(sc, s, i) && Header(s).value.wireType != sc.fields[i].kind.WireType()
    ensures Step(sc, m, s) == Err(WrongType(Header(s).value.wireType, Header(s).value.num))
  {
    hide Header, Find, HasType;
  }

  lemma StepNumber(sc: Schema, m: Msg, s: bytes, i: nat)
    requires WellTyped(sc, m) && IsField(sc, s, i) && Header(s).value.wireType == sc.fields[i].kind.WireType()
    requires sc.fields[i].kind.IsNumber()
    ensures var len := Header(s).value.len;
            var r := NumberStep(sc.fields[i].kind, s[len..]);
            Step(sc, m, s) ==
            if r.Err? then Err(r.fault) else Ok((m.(vals := m.vals[i := Num(r.value.0)]), len + r.value.1))
  {
    hide Header, Find, HasType, NumberStep;
  }

  lemma StepDelimited(sc: Schema, m: Msg, s: bytes, i: nat)
    requires WellTyped(sc, m) && IsField(sc, s, i) && Header(s).value.wireType == sc.fields[i].kind.WireType()
    requires sc.fields[i].kind.WireType() == 2
    ensures LenPrefix(s[Header(s).value.len..]).Err? ==>
              Step(sc, m, s) == Err(LenPrefix(s[Header(s).value.len..]).fault)
    ensures LenPrefix(s[Header(s).value.len..]).Ok? ==>
              var len := Header(s).value.len;
              var lo, hi := LenPrefix(s[len..]).value.0, LenPrefix(s[len..]).value.1;
              var r := BodyStep(sc.fields[i].kind, m.vals[i], s[len..][lo..], hi - lo);
              Step(sc, m, s) ==
              if r.Err? then Err(r.fault) else Ok((m.(vals := m.vals[i := r.value]), len + hi))
  {
    hide Header, Find, HasType, LenPrefix, Entry, Decode;
    var len := Header(s).value.len;
    if LenPrefix(s[len..]).Ok? {
      var lo, hi := LenPrefix(s[len..]).value.0, LenPrefix(s[len..]).value.1;
      assert s[len..][lo..][..hi - lo] == s[len..][lo..hi];
    }
  }

  /** What the body of a length-delimited record, the first n bytes of p, does to the field. */
  function BodyStep(kind: Kind, v: Val, p: bytes, n: nat): Result<Val>
    requires HasType(kind, v) && kind.WireType() == 2 && n <= |p|
  {
    match kind
    case String => Ok(Str(p[..n]))
    case RepeatedString => Ok(Strs(v.strs + [p[..n]]))
    case Message(sc) =>
      var m :- Decode(sc, if v.sub.Some? then v.sub.value else Empty(sc), p[..n]);
      Ok(Sub(Some(m)))
    case RepeatedMessage(sc) =>
      var m :- Decode(sc, Empty(sc), p[..n]);
      Ok(Subs(v.subs + [m]))
    case StringMap =>
      var (key, value) :- Entry(p, n, [], []);
      Ok(StrMap(v.entries[key := value]))
  }

  lemma StepUnknownRecord(sc: Schema, m: Msg, s: bytes)
    requires WellTyped(sc, m) && Header(s).Ok?
    requires forall i :: 0 <= i < |sc.fields| ==> sc.fields[i].num != Header(s).value.num
    ensures var r := Records.Length(s);
            Step(sc, m, s) == if r.Err? then Err(r.fault) else Ok((m.(unknown := m.unknown + s[..r.value]), r.value))
  {
    hide Header, HasType, Records.Length, FieldStep;
  }

  //
  // The cases of the switch
  //

  /** The tag at preIndex has been read, and it is that of field k. */
  ghost predicate AtField(sc: Schema, m: Msg, k: nat, dAtA: bytes, preIndex: int, start: int, fieldNum: int,
      wireType: nat) {
    && ValidSchema(sc) && WellTyped(sc, m)
    && 0 <= preIndex < start <= |dAtA| < MAX_SLICE
    && Header(dAtA[preIndex..]) == Ok(Head(fieldNum, wireType, start - preIndex))
    && k < |sc.fields| && sc.fields[k].num == fieldNum
  }

  /** The record of field k has been read and gives the field the value v, or is refused. */
  ghost predicate FieldRead(sc: Schema, m: Msg, k: nat, v: Val, dAtA: bytes, preIndex: int, err: Error, iNdEx: int)
    requires WellTyped(sc, m) && k < |sc.fields| && 0 <= preIndex <= |dAtA|
  {
    && err.Reports(Step(sc, m, dAtA[preIndex..]))
    && (err.Nil? ==>
          && preIndex < iNdEx <= |dAtA|
          && Step(sc, m, dAtA[preIndex..]) == Ok((m.(vals := m.vals[k := v]), iNdEx - preIndex)))
  }

  lemma HeaderRefused(sc: Schema, m: Msg, m': Msg, dAtA: bytes, preIndex: int, err: Error, iNdEx: int)
    requires WellTyped(sc, m) && 0 <= preIndex <= |dAtA|
    requires !err.Nil? && err.Reports(Header(dAtA[preIndex..]))
    ensures Stepped(sc, m, m', dAtA, preIndex, err, iNdEx)
  {
    hide Step;
    StepFault(sc, m, dAtA[preIndex..]);
  }

  lemma StepRefused(sc: Schema, m: Msg, m': Msg, dAtA: bytes, preIndex: int, err: Error, iNdEx: int)
    requires WellTyped(sc, m) && 0 <= preIndex <= |dAtA|
    requires !err.Nil? && err.Reports(Step(sc, m, dAtA[preIndex..]))
    ensures Stepped(sc, m, m', dAtA, preIndex, err, iNdEx)
  {
    hide Step;
  }

  /** s is t with the value of field k replaced, spelled out for messages of at most
      eight fields. */
  ghost predicate Updated(s: seq<Val>, t: seq<Val>, k: nat, v: Val) {
    && |s| == |t| <= 8 && k < |s| && s[k] == v
    && (|s| > 0 && k != 0 ==> s[0] == t[0])
    && (|s| > 1 && k != 1 ==> s[1] == t[1])
    && (|s| > 2 && k != 2 ==> s[2] == t[2])
    && (|s| > 3 && k != 3 ==> s[3] == t[3])
    && (|s| > 4 && k != 4 ==> s[4] == t[4])
    && (|s| > 5 && k != 5 ==> s[5] == t[5])
    && (|s| > 6 && k != 6 ==> s[6] == t[6])
    && (|s| > 7 && k != 7 ==> s[7] == t[7])
  }

  lemma FieldReadSteps(sc: Schema, m: Msg, k: nat, v: Val, m': Msg, dAtA: bytes, preIndex: int, err: Error, iNdEx: int)
    requires WellTyped(sc, m) && k < |sc.fields| && 0 <= preIndex <= |dAtA|
    requires FieldRead(sc, m, k, v, dAtA, preIndex, err, iNdEx)
    requires err.Nil? ==> m'.unknown == m.unknown && Updated(m'.vals, m.vals, k, v)
    ensures Stepped(sc, m, m', dAtA, preIndex, err, iNdEx)
    ensures err.Nil? ==> preIndex < iNdEx <= |dAtA|
  {
    hide Step;
    if err.Nil? {
      assert m'.vals == m.vals[k := v];
    }
  }

  /** A `uint32`. */
  method Uint32Field(dAtA: bytes, preIndex: int64, start: int64, fieldNum: int32, wireType: nat,
      ghost sc: Schema, ghost m: Msg, ghost k: nat)
    returns (err: Error, v: uint32, iNdEx: int64)
    requires AtField(sc, m, k, dAtA, preIndex, start, fieldNum, wireType) && sc.fields[k].kind == Uint32
    ensures FieldRead(sc, m, k, Num(v), dAtA, preIndex, err, iNdEx)
  {
    hide Header, Step, NumberStep, Find;
    ghost var s := dAtA[preIndex..];
    v, iNdEx := 0, start;
    FieldFound(sc, s, k);
    if wireType != 0 {
      StepWrongType(sc, m, s, k);
      err := ErrWrongWireType(wireType, fieldNum);
      return;
    }
    StepNumber(sc, m, s, k);
    Records.DropTwice(dAtA, preIndex, start - preIndex);
    err, v, iNdEx := ReadUint32(dAtA, start);
  }

  /** An `int32` or an enum. */
  method Int32Field(dAtA: bytes, preIndex: int64, start: int64, fieldNum: int32, wireType: nat,
      ghost sc: Schema, ghost m: Msg, ghost k: nat)
    returns (err: Error, v: int32, iNdEx: int64)
    requires AtField(sc, m, k, dAtA, preIndex, start, fieldNum, wireType) && sc.fields[k].kind == Int32
    ensures FieldRead(sc, m, k, Num(Int32Word(v)), dAtA, preIndex, err, iNdEx)
  {
    hide Header, Step, NumberStep, Find;
    ghost var s := dAtA[preIndex..];
    v, iNdEx := 0, start;
    FieldFound(sc, s, k);
    if wireType != 0 {
      StepWrongType(sc, m, s, k);
      err := ErrWrongWireType(wireType, fieldNum);
      return;
    }
    StepNumber(sc, m, s, k);
    Records.DropTwice(dAtA, preIndex, start - preIndex);
    err, v, iNdEx := ReadInt32(dAtA, start);
  }

  /** An `int64`. */
  method Int64Field(dAtA: bytes, preIndex: int64, start: int64, fieldNum: int32, wireType: nat,
      ghost sc: Schema, ghost m: Msg, ghost k: nat)
    returns (err: Error, v: int64, iNdEx: int64)
    requires AtField(sc, m, k, dAtA, preIndex, start, fieldNum, wireType) && sc.fields[k].kind == Int64
    ensures FieldRead(sc, m, k, Num(Int64Word(v)), dAtA, preIndex, err, iNdEx)
  {
    hide Header, Step, NumberStep, Find;
    ghost var s := dAtA[preIndex..];
    v, iNdEx := 0, start;
    FieldFound(sc, s, k);
    if wireType != 0 {
      StepWrongType(sc, m, s, k);
      err := ErrWrongWireType(wireType, fieldNum);
      return;
    }
    StepNumber(sc, m, s, k);
    Records.DropTwice(dAtA, preIndex, start - preIndex);
    err, v, iNdEx := ReadInt64(dAtA, start);
  }

  /** A `bool`. */
  method BoolField(dAtA: bytes, preIndex: int64, start: int64, fieldNum: int32, wireType: nat,
      ghost sc: Schema, ghost m: Msg, ghost k: nat)
    returns (err: Error, v: bool, iNdEx: int64)
    requires AtField(sc, m, k, dAtA, preIndex, start, fieldNum, wireType) && sc.fields[k].kind == Bool
    ensures FieldRead(sc, m, k, Num(BoolWord(v)), dAtA, preIndex, err, iNdEx)
  {
    hide Header, Step, NumberStep, Find;
    ghost var s := dAtA[preIndex..];
    v, iNdEx := false, start;
    FieldFound(sc, s, k);
    if wireType != 0 {
      StepWrongType(sc, m, s, k);
      err := ErrWrongWireType(wireType, fieldNum);
      return;
    }
    StepNumber(sc, m, s, k);
    Records.DropTwice(dAtA, preIndex, start - preIndex);
    err, v, iNdEx := ReadBool(dAtA, start);
  }

  /** A `float64`, as its bits. */
  method DoubleField(dAtA: bytes, preIndex: int64, start: int64, fieldNum: int32, wireType: nat,
      ghost sc: Schema, ghost m: Msg, ghost k: nat)
    returns (err: Error, v: uint64, iNdEx: int64)
    requires AtField(sc, m, k, dAtA, preIndex, start, fieldNum, wireType) && sc.fields[k].kind == Double
    ensures FieldRead(sc, m, k, Num(v), dAtA, preIndex, err, iNdEx)
  {
    hide Header, Step, NumberStep, Find;
    ghost var s := dAtA[preIndex..];
    v, iNdEx := 0, start;
    FieldFound(sc, s, k);
    if wireType != 1 {
      StepWrongType(sc, m, s, k);
      err := ErrWrongWireType(wireType, fieldNum);
      return;
    }
    StepNumber(sc, m, s, k);
    Records.DropTwice(dAtA, preIndex, start - preIndex);
    err, v, iNdEx := ReadDouble(dAtA, start);
  }

  /** The length of a string, message or map entry; the caller reads the body. */
  method LengthField(dAtA: bytes, preIndex: int64, start: int64, fieldNum: int32, wireType: nat,
      ghost sc: Schema, ghost m: Msg, ghost k: nat)
    returns (err: Error, iNdEx: int64, postIndex: int64)
    requires AtField(sc, m, k, dAtA, preIndex, start, fieldNum, wireType) && sc.fields[k].kind.WireType() == 2
    ensures !err.Nil? ==> err.Reports(Step(sc, m, dAtA[preIndex..]))
    ensures err.Nil? ==> AtBody(sc, m, k, dAtA, preIndex, iNdEx, postIndex)
  {
    hide Header, Step, LenPrefix, Find, BodyStep, HasType;
    ghost var s := dAtA[preIndex..];
    iNdEx, postIndex := start, start;
    FieldFound(sc, s, k);
    if wireType != 2 {
      StepWrongType(sc, m, s, k);
      err := ErrWrongWireType(wireType, fieldNum);
      return;
    }
    StepDelimited(sc, m, s, k);
    Records.DropTwice(dAtA, preIndex, start - preIndex);
    err, iNdEx, postIndex := ReadLength(dAtA, start);
  }

  /** The body of a record of field k lies between iNdEx and postIndex. */
  ghost predicate AtBody(sc: Schema, m: Msg, k: nat, dAtA: bytes, preIndex: int, iNdEx: int, postIndex: int)
    requires WellTyped(sc, m) && k < |sc.fields| && sc.fields[k].kind.WireType() == 2 && 0 <= preIndex <= |dAtA|
  {
    && preIndex < iNdEx <= postIndex <= |dAtA|
    && dAtA[iNdEx..postIndex] == dAtA[iNdEx..][..postIndex - iNdEx]
    && HasType(sc.fields[k].kind, m.vals[k])
    && var r := BodyStep(sc.fields[k].kind, m.vals[k], dAtA[iNdEx..], postIndex - iNdEx);
       Step(sc, m, dAtA[preIndex..]) ==
       if r.Err? then Err(r.fault) else Ok((m.(vals := m.vals[k := r.value]), postIndex - preIndex))
  }

  lemma BodyRead(sc: Schema, m: Msg, k: nat, v: Val, dAtA: bytes, preIndex: int, err: Error, iNdEx: int, postIndex: int)
    requires WellTyped(sc, m) && k < |sc.fields| && sc.fields[k].kind.WireType() == 2 && 0 <= preIndex <= |dAtA|
    requires AtBody(sc, m, k, dAtA, preIndex, iNdEx, postIndex)
    requires err.Reports(BodyStep(sc.fields[k].kind, m.vals[k], dAtA[iNdEx..], postIndex - iNdEx))
    requires err.Nil? ==> BodyStep(sc.fields[k].kind, m.vals[k], dAtA[iNdEx..], postIndex - iNdEx) == Ok(v)
    ensures FieldRead(sc, m, k, v, dAtA, preIndex, err, postIndex)
  {
    hide Step, HasType, BodyStep;
  }

  /** A `string`. */
  method StringField(dAtA: bytes, preIndex: int64, start: int64, fieldNum: int32, wireType: nat,
      ghost sc: Schema, ghost m: Msg, ghost k: nat)
    returns (err: Error, v: bytes, iNdEx: int64)
    requires AtField(sc, m, k, dAtA, preIndex, start, fieldNum, wireType) && sc.fields[k].kind == String
    ensures FieldRead(sc, m, k, Str(v), dAtA, preIndex, err, iNdEx)
  {
    hide Header, Step, LenPrefix, Find;
    var postIndex;
    v := [];
    err, iNdEx, postIndex := LengthField(dAtA, preIndex, start, fieldNum, wireType, sc, m, k);
    if err.Nil? {
      v := dAtA[iNdEx..postIndex];
      BodyRead(sc, m, k, Str(v), dAtA, preIndex, err, iNdEx, postIndex);
      iNdEx := postIndex;
    }
  }

  /** One string of a `repeated string`; the caller appends it. */
  method StringsField(dAtA: bytes, preIndex: int64, start: int64, fieldNum: int32, wireType: nat,
      ghost sc: Schema, ghost m: Msg, ghost k: nat)
    returns (err: Error, v: bytes, iNdEx: int64)
    requires AtField(sc, m, k, dAtA, preIndex, start, fieldNum, wireType) && sc.fields[k].kind == RepeatedString
    ensures HasType(sc.fields[k].kind, m.vals[k])
    ensures FieldRead(sc, m, k, Strs(m.vals[k].strs + [v]), dAtA, preIndex, err, iNdEx)
  {
    hide Header, Step, LenPrefix, Find;
    var postIndex;
    v := [];
    assert HasType(sc.fields[k].kind, m.vals[k]);
    err, iNdEx, postIndex := LengthField(dAtA, preIndex, start, fieldNum, wireType, sc, m, k);
    if err.Nil? {
      v := dAtA[iNdEx..postIndex];
      BodyRead(sc, m, k, Strs(m.vals[k].strs + [v]), dAtA, preIndex, err, iNdEx, postIndex);
      iNdEx := postIndex;
    }
  }

  /** An entry of a map has been read. */
  lemma EntryRead(sc: Schema, m: Msg, k: nat, mapkey: bytes, mapvalue: bytes, dAtA: bytes, preIndex: int,
      err: Error, iNdEx: int, postIndex: int)
    requires WellTyped(sc, m) && k < |sc.fields| && sc.fields[k].kind == StringMap && 0 <= preIndex <= |dAtA|
    requires AtBody(sc, m, k, dAtA, preIndex, iNdEx, postIndex)
    requires err.Reports(Entry(dAtA[iNdEx..], postIndex - iNdEx, [], []))
    requires err.Nil? ==> Entry(dAtA[iNdEx..], postIndex - iNdEx, [], []) == Ok((mapkey, mapvalue))
    ensures k < |m.vals| && m.vals[k].StrMap?
    ensures FieldRead(sc, m, k, StrMap(m.vals[k].entries[mapkey := mapvalue]), dAtA, preIndex, err, postIndex)
  {
    hide Step, Entry;
    assert HasType(sc.fields[k].kind, m.vals[k]);
    BodyRead(sc, m, k, StrMap(m.vals[k].entries[mapkey := mapvalue]), dAtA, preIndex, err, iNdEx, postIndex);
  }

  /** A sub-message has been unmarshaled onto what the field held, or onto a new one. */
  lemma MessageRead(sc: Schema, m: Msg, k: nat, sub: Schema, base: Msg, x: Msg, dAtA: bytes, preIndex: int,
      err: Error, iNdEx: int, postIndex: int)
    requires WellTyped(sc, m) && k < |sc.fields| && sc.fields[k].kind == Message(sub) && 0 <= preIndex <= |dAtA|
    requires AtBody(sc, m, k, dAtA, preIndex, iNdEx, postIndex)
    requires m.vals[k].Sub? && base == if m.vals[k].sub.Some? then m.vals[k].sub.value else Empty(sub)
    requires WellTyped(sub, base) && Unmarshaled(sub, base, x, dAtA[iNdEx..postIndex], err)
    ensures FieldRead(sc, m, k, Sub(Some(x)), dAtA, preIndex, err, postIndex)
  {
    hide Step, HasType, Decode, Empty, WellTyped;
    BodyRead(sc, m, k, Sub(Some(x)), dAtA, preIndex, err, iNdEx, postIndex);
  }

  /** A new message has been appended to the list and unmarshaled. */
  lemma ElementRead(sc: Schema, m: Msg, k: nat, sub: Schema, x: Msg, dAtA: bytes, preIndex: int, err: Error,
      iNdEx: int, postIndex: int)
    requires WellTyped(sc, m) && k < |sc.fields| && sc.fields[k].kind == RepeatedMessage(sub) && 0 <= preIndex <= |dAtA|
    requires AtBody(sc, m, k, dAtA, preIndex, iNdEx, postIndex)
    requires m.vals[k].Subs? && Unmarshaled(sub, Empty(sub), x, dAtA[iNdEx..postIndex], err)
    ensures k < |m.vals|
    ensures FieldRead(sc, m, k, Subs(m.vals[k].subs + [x]), dAtA, preIndex, err, postIndex)
  {
    hide Step, HasType, Decode, Empty;
    BodyRead(sc, m, k, Subs(m.vals[k].subs + [x]), dAtA, preIndex, err, iNdEx, postIndex);
  }

  /** `default:` of the switch. */
  method UnknownField(dAtA: bytes, preIndex: int64, ghost sc: Schema, ghost m: Msg)
    returns (err: Error, raw: bytes, iNdEx: int64)
    requires 0 <= preIndex < |dAtA| < TWO63 && WellTyped(sc, m) && Header(dAtA[preIndex..]).Ok?
    requires forall i :: 0 <= i < |sc.fields| ==> sc.fields[i].num != Header(dAtA[preIndex..]).value.num
    ensures Stepped(sc, m, m.(unknown := m.unknown + raw), dAtA, preIndex, err, iNdEx)
    ensures !err.Nil? ==> err.Reports(Step(sc, m, dAtA[preIndex..]))
    ensures err.Nil? ==> preIndex < iNdEx <= |dAtA|
  {
    hide Header, Step, Records.Length, WellTyped;
    StepUnknownRecord(sc, m, dAtA[preIndex..]);
    raw := [];
    err, iNdEx := ReadUnknown(dAtA, preIndex);
    if err.Nil? {
      raw := dAtA[preIndex..iNdEx];
    }
  }
}
