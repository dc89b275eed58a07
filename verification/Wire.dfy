/** The wire format in literal bytes, without message types: what the fields of a message look like
    in an encoding, and what one record of a field makes of a message that reads it. */
module Wire {
  import opened GoInts
  import opened Errors
  import opened Schemas
  import opened Decoding
  import opened Encoding
  import RoundTrip
  import Varint
  import Writing

  //
  // The pieces of a message
  //

  /** The word of an integer: negative ones are sign-extended to 64 bits. */
  function Word64(x: int): uint64
    requires -0x8000_0000_0000_0000 <= x < 0x8000_0000_0000_0000
  {
    if x < 0 then x + 0x1_0000_0000_0000_0000 else x
  }

  /** The little-endian bytes of a double. */
  function Eight(bits: uint64): bytes {
    [bits % 256, bits / 0x100 % 256, bits / 0x1_0000 % 256, bits / 0x100_0000 % 256,
     bits / 0x1_0000_0000 % 256, bits / 0x100_0000_0000 % 256, bits / 0x1_0000_0000_0000 % 256,
     bits / 0x100_0000_0000_0000]
  }

  /** A body behind its tag and its length. */
  function Chunk(tag: bytes, body: bytes): bytes {
    tag + Varint.Enc(|body|) + body
  }

  /** A number, bool or enum that is not zero. */
  function Number(tag: byte, w: uint64): bytes {
    if w == 0 then [] else [tag] + Varint.Enc(w)
  }

  /** A double other than the two zeros. */
  function Real(tag: byte, bits: uint64): bytes {
    if bits == 0 || bits == 0x8000_0000_0000_0000 then [] else [tag] + Eight(bits)
  }

  /** A string that is not empty. */
  function Text(tag: byte, s: bytes): bytes {
    if s == [] then [] else Chunk([tag], s)
  }

  /** A sub-message that is not nil. */
  function Nested(tag: byte, body: Option<bytes>): bytes {
    if body.None? then [] else Chunk([tag], body.value)
  }

  /** The elements of a list, strings or messages. */
  function Chunks(tag: byte, bodies: seq<bytes>): bytes {
    if bodies == [] then [] else Chunk([tag], bodies[0]) + Chunks(tag, bodies[1..])
  }

  /** The entries of a map in field 100, listed in some order. */
  function Pairs100(es: seq<(bytes, bytes)>): bytes {
    if es == [] then []
    else Chunk([0xA2, 0x06], Chunk([0x0A], es[0].0) + Chunk([0x12], es[0].1)) + Pairs100(es[1..])
  }

  /** The parts one after the other. */
  function Join(parts: seq<bytes>): bytes {
    if parts == [] then [] else parts[0] + Join(parts[1..])
  }

  //
  // An encoding is its fields and unknown bytes one after the other
  //

  /** p is what goes on the wire for the value v of field f, and nothing else is. */
  ghost predicate Only(f: Field, v: Val, p: bytes)
    requires HasType(f.kind, v)
  {
    forall b :: EncodesVal(f, v, b) <==> b == p
  }

  /** The same for a whole message. */
  ghost predicate IsImage(sc: Schema, m: Msg, p: bytes)
    requires WellTyped(sc, m)
  {
    forall b :: Encodes(sc, m, b) <==> b == p
  }

  ghost predicate IsParts(sc: Schema, m: Msg, parts: seq<bytes>)
    requires WellTyped(sc, m)
  {
    && |parts| == |sc.fields| + 1 && parts[|sc.fields|] == m.unknown
    && forall k :: 0 <= k < |sc.fields| ==> EncodesVal(sc.fields[k], m.vals[k], parts[k])
  }

  lemma {:induction false} PartsEncode(sc: Schema, m: Msg, parts: seq<bytes>, k: nat)
    requires WellTyped(sc, m) && IsParts(sc, m, parts) && k <= |sc.fields|
    ensures EncodesFrom(sc, m, k, Join(parts[k..]))
    decreases |sc.fields| - k
  {
    hide EncodesVal, HasType;
    if k == |sc.fields| {
      assert parts[k..] == [m.unknown];
      assert Join(parts[k..]) == m.unknown + Join([]);
    } else {
      PartsEncode(sc, m, parts, k + 1);
      assert parts[k..][1..] == parts[k + 1..];
    }
  }

  lemma {:induction false} EncodedParts(sc: Schema, m: Msg, k: nat, b: bytes) returns (parts: seq<bytes>)
    requires WellTyped(sc, m) && k <= |sc.fields| && EncodesFrom(sc, m, k, b)
    ensures |parts| == |sc.fields| - k + 1 && parts[|sc.fields| - k] == m.unknown && b == Join(parts)
    ensures forall i :: k <= i < |sc.fields| ==> EncodesVal(sc.fields[i], m.vals[i], parts[i - k])
    decreases |sc.fields| - k
  {
    hide EncodesVal, HasType;
    if k == |sc.fields| {
      parts := [b];
      assert Join(parts) == b + Join([]);
    } else {
      var b1, b2 :| EncodesVal(sc.fields[k], m.vals[k], b1) && EncodesFrom(sc, m, k + 1, b2) && b == b1 + b2;
      var rest := EncodedParts(sc, m, k + 1, b2);
      parts := [b1] + rest;
      assert parts[1..] == rest;
    }
  }

  /** An encoding is a choice of bytes for each field, and the unknown bytes. */
  lemma EncodesParts(sc: Schema, m: Msg, b: bytes)
    requires WellTyped(sc, m)
    ensures Encodes(sc, m, b) <==> exists parts :: IsParts(sc, m, parts) && b == Join(parts)
  {
    hide EncodesVal, HasType;
    if Encodes(sc, m, b) {
      var parts := EncodedParts(sc, m, 0, b);
      assert IsParts(sc, m, parts);
    }
    if parts :| IsParts(sc, m, parts) && b == Join(parts) {
      PartsEncode(sc, m, parts, 0);
      assert parts[0..] == parts;
    }
  }

  /** Field k can only be written as part k. */
  ghost predicate OnlyAt(sc: Schema, m: Msg, parts: seq<bytes>, k: nat)
    requires WellTyped(sc, m)
  {
    k < |sc.fields| && k < |parts| ==> Only(sc.fields[k], m.vals[k], parts[k])
  }

  /** A message of at most eight fields each of which can be written in one way only. */
  lemma OnlyImage(sc: Schema, m: Msg, parts: seq<bytes>)
    requires WellTyped(sc, m) && |sc.fields| <= 8 && |parts| == |sc.fields| + 1 && parts[|sc.fields|] == m.unknown
    requires OnlyAt(sc, m, parts, 0) && OnlyAt(sc, m, parts, 1) && OnlyAt(sc, m, parts, 2) && OnlyAt(sc, m, parts, 3)
    requires OnlyAt(sc, m, parts, 4) && OnlyAt(sc, m, parts, 5) && OnlyAt(sc, m, parts, 6) && OnlyAt(sc, m, parts, 7)
    ensures IsImage(sc, m, Join(parts))
  {
    hide EncodesVal, HasType, Encodes, Join;
    forall k | 0 <= k < |sc.fields| ensures Only(sc.fields[k], m.vals[k], parts[k]) {
      assert OnlyAt(sc, m, parts, k);
    }
    assert IsParts(sc, m, parts);
    forall b ensures Encodes(sc, m, b) <==> b == Join(parts) {
      EncodesParts(sc, m, b);
      if ps :| IsParts(sc, m, ps) && b == Join(ps) {
        assert ps == parts;
      }
    }
  }

  /** What has been marshaled into the buffer is an encoding of the message. */
  lemma FilledSome(sc: Schema, m: Msg, before: bytes, after: bytes, hi: int, n: nat) returns (b: bytes)
    requires WellTyped(sc, m) && Writing.Marshaled(sc, m, before, after, hi, n)
    ensures Encodes(sc, m, b) && n == |b| <= hi <= |after| && after[hi - n..hi] == b
  {
    hide Encodes, Size;
    b :| Encodes(sc, m, b) && Writing.Wrote(before, after, hi, hi - n, b);
    EncodesSize(sc, m, b);
  }

  /** It is the image of the message, if there is only one. */
  lemma Filled(sc: Schema, m: Msg, p: bytes, before: bytes, after: bytes, hi: int, n: nat)
    requires WellTyped(sc, m) && IsImage(sc, m, p) && Writing.Marshaled(sc, m, before, after, hi, n)
    ensures n == |p| <= hi <= |after| && after[hi - n..hi] == p
  {
    hide Encodes, Writing.Marshaled;
    var b := FilledSome(sc, m, before, after, hi, n);
  }

  lemma ImageSize(sc: Schema, m: Msg, p: bytes)
    requires WellTyped(sc, m) && IsImage(sc, m, p)
    ensures |p| == Size(sc, m)
  {
    hide Encodes, Size;
    assert Encodes(sc, m, p);
    EncodesSize(sc, m, p);
  }

  //
  // What each kind of field can be written as
  //

  lemma NumberOnly(f: Field, w: uint64, tag: byte)
    requires f.kind.IsVarint() && w == Narrow(f.kind, w) && tag == f.num * 8 < 128
    ensures HasType(f.kind, Num(w)) && Only(f, Num(w), Number(tag, w))
  {
    hide Varint.Enc, Tag, Narrow;
    Writing.TagByte(f.num, 0);
  }

  lemma Int32Is(x: int32)
    ensures Int32Word(x) == Word64(x) == Narrow(Int32, Int32Word(x))
  {
  }

  lemma Int64Is(x: int64)
    ensures Int64Word(x) == Word64(x) == Narrow(Int64, Int64Word(x))
  {
  }

  lemma Uint32Only(f: Field, x: uint32, tag: byte)
    requires f.kind == Uint32 && tag == f.num * 8 < 128
    ensures HasType(f.kind, Num(x)) && Only(f, Num(x), Number(tag, x))
  {
    hide Only;
    NumberOnly(f, x, tag);
  }

  lemma Int32Only(f: Field, x: int32, tag: byte)
    requires f.kind == Int32 && tag == f.num * 8 < 128
    ensures HasType(f.kind, Num(Int32Word(x))) && Only(f, Num(Int32Word(x)), Number(tag, Word64(x)))
  {
    Int32Is(x);
    hide Only, Narrow, Unsigned64, Word64, Int32Word;
    NumberOnly(f, Int32Word(x), tag);
  }

  lemma Int64Only(f: Field, x: int64, tag: byte)
    requires f.kind == Int64 && tag == f.num * 8 < 128
    ensures HasType(f.kind, Num(Int64Word(x))) && Only(f, Num(Int64Word(x)), Number(tag, Word64(x)))
  {
    Int64Is(x);
    hide Only, Narrow, Unsigned64, Word64, Int64Word;
    NumberOnly(f, Int64Word(x), tag);
  }

  lemma BoolOnly(f: Field, x: bool, tag: byte)
    requires f.kind == Bool && tag == f.num * 8 < 128
    ensures HasType(f.kind, Num(BoolWord(x))) && Only(f, Num(BoolWord(x)), Number(tag, if x then 1 else 0))
  {
    hide Only;
    NumberOnly(f, BoolWord(x), tag);
  }

  lemma RealOnly(f: Field, bits: uint64, tag: byte)
    requires f.kind == Double && tag == f.num * 8 + 1 < 128
    ensures HasType(f.kind, Num(bits)) && Only(f, Num(bits), Real(tag, bits))
  {
    hide FixedBytes, Tag;
    EightBytes(bits);
    Writing.TagByte(f.num, 1);
  }

  lemma ChunkIs(num: nat, tag: byte, body: bytes)
    requires tag == num * 8 + 2 < 128
    ensures Delimited(num, body) == Chunk([tag], body)
  {
    hide Varint.Enc, Tag;
    Writing.TagByte(num, 2);
  }

  lemma TextOnly(f: Field, s: bytes, tag: byte)
    requires f.kind == String && tag == f.num * 8 + 2 < 128
    ensures HasType(f.kind, Str(s)) && Only(f, Str(s), Text(tag, s))
  {
    hide Delimited, Chunk;
    ChunkIs(f.num, tag, s);
  }

  lemma {:induction false} StringsAre(num: nat, tag: byte, ss: seq<bytes>)
    requires tag == num * 8 + 2 < 128
    ensures Strings(num, ss) == Chunks(tag, ss)
  {
    hide Delimited, Chunk;
    if ss != [] {
      ChunkIs(num, tag, ss[0]);
      StringsAre(num, tag, ss[1..]);
    }
  }

  lemma TextsOnly(f: Field, ss: seq<bytes>, tag: byte)
    requires f.kind == RepeatedString && tag == f.num * 8 + 2 < 128
    ensures HasType(f.kind, Strs(ss)) && Only(f, Strs(ss), Chunks(tag, ss))
  {
    StringsAre(f.num, tag, ss);
  }

  lemma NestedOnly(f: Field, sc: Schema, x: Option<Msg>, body: Option<bytes>, tag: byte)
    requires f.kind == Message(sc) && tag == f.num * 8 + 2 < 128
    requires (x.None? <==> body.None?) && (x.Some? ==> WellTyped(sc, x.value) && IsImage(sc, x.value, body.value))
    ensures HasType(f.kind, Sub(x)) && Only(f, Sub(x), Nested(tag, body))
  {
    hide Delimited, Chunk, Encodes, WellTyped;
    if x.Some? {
      ChunkIs(f.num, tag, body.value);
      forall b ensures EncodesVal(f, Sub(x), b) <==> b == Nested(tag, body) {
        if EncodesVal(f, Sub(x), b) {
          var c :| Encodes(sc, x.value, c) && b == Delimited(f.num, c);
        }
        assert Encodes(sc, x.value, body.value);
      }
    }
  }

  lemma {:induction false} SubsAre(num: nat, sc: Schema, xs: seq<Msg>, bodies: seq<bytes>, tag: byte, b: bytes)
    requires tag == num * 8 + 2 < 128 && |xs| == |bodies|
    requires forall i :: 0 <= i < |xs| ==> WellTyped(sc, xs[i]) && IsImage(sc, xs[i], bodies[i])
    ensures EncodesSubs(num, sc, xs, b) <==> b == Chunks(tag, bodies)
    decreases |xs|
  {
    hide Delimited, Chunk, Encodes, WellTyped;
    if xs != [] {
      ChunkIs(num, tag, bodies[0]);
      SubsAre(num, sc, xs[1..], bodies[1..], tag, Chunks(tag, bodies[1..]));
      if EncodesSubs(num, sc, xs, b) {
        var c, rest := RoundTrip.FirstSub(num, sc, xs, b);
        SubsAre(num, sc, xs[1..], bodies[1..], tag, rest);
      } else {
        assert Encodes(sc, xs[0], bodies[0]);
      }
    }
  }

  lemma SubsOnly(f: Field, sc: Schema, xs: seq<Msg>, bodies: seq<bytes>, tag: byte)
    requires f.kind == RepeatedMessage(sc) && tag == f.num * 8 + 2 < 128 && |xs| == |bodies|
    requires forall i :: 0 <= i < |xs| ==> WellTyped(sc, xs[i]) && IsImage(sc, xs[i], bodies[i])
    ensures HasType(f.kind, Subs(xs)) && Only(f, Subs(xs), Chunks(tag, bodies))
  {
    hide EncodesSubs, WellTyped, IsImage;
    forall b ensures EncodesVal(f, Subs(xs), b) <==> b == Chunks(tag, bodies) {
      SubsAre(f.num, sc, xs, bodies, tag, b);
    }
  }

  /** The entries of a map in field 100. */
  lemma {:induction false} PairsAre(es: seq<(bytes, bytes)>)
    ensures Entries(100, es) == Pairs100(es)
  {
    hide Delimited, Chunk;
    if es != [] {
      PairIs(es[0].0, es[0].1);
      PairsAre(es[1..]);
    }
  }

  lemma PairIs(key: bytes, value: bytes)
    ensures EntryBody(key, value) == Chunk([0x0A], key) + Chunk([0x12], value)
    ensures Delimited(100, EntryBody(key, value)) == Chunk([0xA2, 0x06], Chunk([0x0A], key) + Chunk([0x12], value))
  {
    hide Varint.Enc, Tag;
    ChunkIs(1, 0x0A, key);
    ChunkIs(2, 0x12, value);
    Writing.TagHundred();
  }

  /** A map in field 100 is written as its entries, in any order. */
  lemma PairsOnly(f: Field, m: map<bytes, bytes>, b: bytes)
    requires f == Field(100, StringMap)
    ensures HasType(f.kind, StrMap(m))
    ensures EncodesVal(f, StrMap(m), b) <==> exists es :: Lists(es, m) && b == Pairs100(es)
  {
    hide Lists, Entries, Pairs100;
    if EncodesVal(f, StrMap(m), b) {
      var es :| Lists(es, m) && b == Entries(100, es);
      PairsAre(es);
      assert Lists(es, m) && b == Pairs100(es);
    }
    if es :| Lists(es, m) && b == Pairs100(es) {
      PairsAre(es);
      assert Lists(es, m) && b == Entries(100, es);
    }
  }

  //
  // One record on its own
  //

  lemma NumberRead(kind: Kind, num: nat, v: Val, p: bytes, w: uint64)
    requires kind.IsNumber() && HasType(kind, v) && NumberStep(kind, p) == Ok((w, |p|))
    ensures FieldStep(kind, num, kind.WireType(), v, p) == Ok((Num(w), |p|))
  {
    hide NumberStep, HasType, Narrow;
  }

  /** A number. */
  lemma ReadsNumber(sc: Schema, m: Msg, k: nat, tag: byte, w: uint64)
    requires ValidSchema(sc) && WellTyped(sc, m) && k < |sc.fields|
    requires sc.fields[k].kind.IsVarint() && tag == sc.fields[k].num * 8 < 128
    ensures Decode(sc, m, [tag] + Varint.Enc(w)) == Ok(m.(vals := m.vals[k := Num(Narrow(sc.fields[k].kind, w))]))
  {
    hide Decode, Tag, ValidSchema, WellTyped, HasType, FieldStep, Varint.Dec, Varint.Enc, Narrow;
    var f := sc.fields[k];
    Writing.TagByte(f.num, 0);
    RoundTrip.IsTyped(sc, m, k);
    Varint.RoundTrip(w, []);
    assert Varint.Enc(w) + [] == Varint.Enc(w);
    NumberRead(f.kind, f.num, m.vals[k], Varint.Enc(w), Narrow(f.kind, w));
    RoundTrip.DecodeField(sc, m, k, Varint.Enc(w), Num(Narrow(f.kind, w)));
  }

  lemma EightRead(bits: uint64)
    ensures |Eight(bits)| == 8 && NumberStep(Double, Eight(bits)) == Ok((bits, 8))
  {
    Pow2Known();
    RoundTrip.FixedRoundTrip(bits, 8);
    EightBytes(bits);
    hide FixedBytes, Fixed, Pow2;
    assert Eight(bits)[..8] == FixedBytes(bits, 8);
  }

  /** A double. */
  lemma ReadsReal(sc: Schema, m: Msg, k: nat, tag: byte, bits: uint64)
    requires ValidSchema(sc) && WellTyped(sc, m) && k < |sc.fields|
    requires sc.fields[k].kind == Double && tag == sc.fields[k].num * 8 + 1 < 128
    ensures Decode(sc, m, [tag] + Eight(bits)) == Ok(m.(vals := m.vals[k := Num(bits)]))
  {
    hide Decode, Tag, ValidSchema, WellTyped, HasType, FieldStep, NumberStep, Eight;
    Writing.TagByte(sc.fields[k].num, 1);
    RoundTrip.IsTyped(sc, m, k);
    EightRead(bits);
    NumberRead(Double, sc.fields[k].num, m.vals[k], Eight(bits), bits);
    RoundTrip.DecodeField(sc, m, k, Eight(bits), Num(bits));
  }

  /** A string, a message or an element of a list. */
  lemma ReadsChunk(sc: Schema, m: Msg, k: nat, tag: byte, body: bytes, v: Val)
    requires ValidSchema(sc) && WellTyped(sc, m) && k < |sc.fields| && |body| < 0x1_0000_0000_0000_0000
    requires sc.fields[k].kind.WireType() == 2 && tag == sc.fields[k].num * 8 + 2 < 128
    requires HasType(sc.fields[k].kind, m.vals[k])
    requires RoundTrip.DelimitedStep(sc.fields[k].kind, m.vals[k], body) == Ok(v)
    ensures Decode(sc, m, Chunk([tag], body)) == Ok(m.(vals := m.vals[k := v]))
  {
    hide Decode, Delimited, Chunk, ValidSchema, WellTyped, HasType, RoundTrip.DelimitedStep;
    ChunkIs(sc.fields[k].num, tag, body);
    RoundTrip.DecodeDelimited(sc, m, k, body, v);
  }

  /** A string, or one of a list. */
  lemma ReadsText(sc: Schema, m: Msg, k: nat, tag: byte, s: bytes)
    requires ValidSchema(sc) && WellTyped(sc, m) && k < |sc.fields| && |s| < 0x8000_0000_0000_0000
    requires sc.fields[k].kind == String || sc.fields[k].kind == RepeatedString
    requires tag == sc.fields[k].num * 8 + 2 < 128
    ensures k < |m.vals| && (sc.fields[k].kind == RepeatedString ==> m.vals[k].Strs?)
    ensures Decode(sc, m, Chunk([tag], s)) ==
            Ok(m.(vals := m.vals[k := if sc.fields[k].kind == String then Str(s) else Strs(m.vals[k].strs + [s])]))
  {
    hide Decode, Chunk, ValidSchema, WellTyped;
    RoundTrip.IsTyped(sc, m, k);
    ReadsChunk(sc, m, k, tag, s, if sc.fields[k].kind == String then Str(s) else Strs(m.vals[k].strs + [s]));
  }

  /** A sub-message, onto what is there or onto a new one. */
  lemma ReadsNested(sc: Schema, m: Msg, k: nat, tag: byte, sub: Schema, body: bytes, base: Msg, x: Msg)
    requires ValidSchema(sc) && WellTyped(sc, m) && k < |sc.fields| && |body| < 0x8000_0000_0000_0000
    requires sc.fields[k].kind == Message(sub) && tag == sc.fields[k].num * 8 + 2 < 128
    requires k < |m.vals| && m.vals[k].Sub? && base == if m.vals[k].sub.Some? then m.vals[k].sub.value else Empty(sub)
    requires WellTyped(sub, base) && Decode(sub, base, body) == Ok(x)
    ensures Decode(sc, m, Chunk([tag], body)) == Ok(m.(vals := m.vals[k := Sub(Some(x))]))
  {
    hide Decode, Chunk, ValidSchema, WellTyped, Empty;
    RoundTrip.IsTyped(sc, m, k);
    ReadsChunk(sc, m, k, tag, body, Sub(Some(x)));
  }

  /** An element of a list. */
  lemma ReadsElement(sc: Schema, m: Msg, k: nat, tag: byte, sub: Schema, body: bytes, x: Msg)
    requires ValidSchema(sc) && WellTyped(sc, m) && k < |sc.fields| && |body| < 0x8000_0000_0000_0000
    requires sc.fields[k].kind == RepeatedMessage(sub) && tag == sc.fields[k].num * 8 + 2 < 128
    requires Decode(sub, Empty(sub), body) == Ok(x)
    ensures k < |m.vals| && m.vals[k].Subs?
    ensures Decode(sc, m, Chunk([tag], body)) == Ok(m.(vals := m.vals[k := Subs(m.vals[k].subs + [x])]))
  {
    hide Decode, Chunk, ValidSchema, WellTyped, Empty;
    RoundTrip.IsTyped(sc, m, k);
    ReadsChunk(sc, m, k, tag, body, Subs(m.vals[k].subs + [x]));
  }

  /** An entry of a map in field 100. */
  lemma ReadsPair(sc: Schema, m: Msg, k: nat, key: bytes, value: bytes)
    requires ValidSchema(sc) && WellTyped(sc, m) && k < |sc.fields| && sc.fields[k] == Field(100, StringMap)
    requires |Chunk([0x0A], key) + Chunk([0x12], value)| < 0x8000_0000_0000_0000
    ensures m.vals[k].StrMap?
    ensures Decode(sc, m, Chunk([0xA2, 0x06], Chunk([0x0A], key) + Chunk([0x12], value))) ==
            Ok(m.(vals := m.vals[k := StrMap(m.vals[k].entries[key := value])]))
  {
    hide Decode, Delimited, EntryBody, Chunk, Entry, ValidSchema, WellTyped;
    RoundTrip.IsTyped(sc, m, k);
    PairIs(key, value);
    RoundTrip.EntryCovers(key, value);
    RoundTrip.EntryRoundTrip(key, value);
    RoundTrip.DecodeDelimited(sc, m, k, EntryBody(key, value), StrMap(m.vals[k].entries[key := value]));
  }

  //
  // The values of Go's integer types that a word stands for
  //

  lemma Uint32Low(w: uint64)
    ensures Narrow(Uint32, w) == w % 0x1_0000_0000
  {
  }

  lemma Int32Low(x: int32, w: uint64)
    ensures Int32Word(x) == Narrow(Int32, w) ==> (x - w) % 0x1_0000_0000 == 0
  {
  }

  lemma Int64Low(x: int64, w: uint64)
    ensures Int64Word(x) == Narrow(Int64, w) ==> (x - w) % 0x1_0000_0000_0000_0000 == 0
  {
  }

  lemma BoolLow(x: bool, w: uint64)
    ensures BoolWord(x) == Narrow(Bool, w) ==> x == (w != 0)
  {
  }

  lemma Int32Same(x: int32, y: int32)
    ensures Int32Word(x) == Int32Word(y) ==> x == y
  {
  }

  lemma Int64Same(x: int64, y: int64)
    ensures Int64Word(x) == Int64Word(y) ==> x == y
  {
  }
}
