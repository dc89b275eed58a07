/** Which byte strings are encodings of a message, and how long they are. A map is
    written in whatever order it is iterated, so this is a relation. */
module Encoding {
  import opened GoInts
  import opened Schemas
  import Varint

  //
  // The pieces of an encoding
  //

  /** The tag of a record. */
  function Tag(num: nat, wireType: nat): bytes {
    Varint.Enc(num * 8 + wireType)
  }

  /** A little-endian word of n bytes. */
  function FixedBytes(v: nat, n: nat): (s: bytes)
    ensures |s| == n
  {
    if n == 0 then [] else [v % 256] + FixedBytes(v / 256, n - 1)
  }

  /** The eight bytes of a double, one by one. */
  lemma EightBytes(v: nat)
    requires v < 0x1_0000_0000_0000_0000
    ensures FixedBytes(v, 8) ==
            [v % 256, v / 0x100 % 256, v / 0x1_0000 % 256, v / 0x100_0000 % 256, v / 0x1_0000_0000 % 256,
             v / 0x100_0000_0000 % 256, v / 0x1_0000_0000_0000 % 256, v / 0x100_0000_0000_0000]
  {
    DivDiv(v, 0x1_0000_0000, 0x100);
    DivDiv(v, 0x1_0000_0000, 0x1_0000);
    DivDiv(v, 0x1_0000_0000, 0x100_0000);
    TopByte(v);
    FourBytes(v, 8);
    FourBytes(v / 0x1_0000_0000, 4);
  }

  lemma TopByte(v: nat)
    requires v < 0x1_0000_0000_0000_0000
    ensures v / 0x100_0000_0000_0000 % 256 == v / 0x100_0000_0000_0000
  {
  }

  lemma FourBytes(v: nat, n: nat)
    requires n >= 4
    ensures FixedBytes(v, n) ==
            [v % 256, v / 0x100 % 256, v / 0x1_0000 % 256, v / 0x100_0000 % 256] + FixedBytes(v / 0x1_0000_0000, n - 4)
  {
    DivDiv(v, 0x100, 0x100);
    DivDiv(v, 0x1_0000, 0x100);
    DivDiv(v, 0x100_0000, 0x100);
    OneByte(v, n);
    OneByte(v / 0x100, n - 1);
    OneByte(v / 0x1_0000, n - 2);
    OneByte(v / 0x100_0000, n - 3);
  }

  lemma OneByte(v: nat, n: nat)
    requires n >= 1
    ensures FixedBytes(v, n) == [v % 256] + FixedBytes(v / 256, n - 1)
  {
  }

  /** A length-delimited record. */
  function Delimited(num: nat, body: bytes): bytes {
    Tag(num, 2) + Varint.Enc(|body|) + body
  }

  function Number(num: nat, kind: Kind, w: uint64): bytes
    requires kind.IsNumber()
  {
    if IsZero(kind, w) then []
    else Tag(num, kind.WireType()) +
         if kind.Double? then FixedBytes(w, 8) else if kind.Float? then FixedBytes(w, 4) else Varint.Enc(w)
  }

  function Strings(num: nat, strs: seq<bytes>): bytes {
    if strs == [] then [] else Delimited(num, strs[0]) + Strings(num, strs[1..])
  }

  /** The body of a map entry; key and value are written even when empty. */
  function EntryBody(key: bytes, value: bytes): bytes {
    Delimited(1, key) + Delimited(2, value)
  }

  function Entries(num: nat, es: seq<(bytes, bytes)>): bytes {
    if es == [] then [] else Delimited(num, EntryBody(es[0].0, es[0].1)) + Entries(num, es[1..])
  }

  /** es lists the entries of m, each of them once. */
  ghost predicate Lists(es: seq<(bytes, bytes)>, m: map<bytes, bytes>) {
    if es == [] then m == map[]
    else es[0].0 in m && m[es[0].0] == es[0].1 && Lists(es[1..], m - {es[0].0})
  }

  //
  // Encodings
  //

  /** b holds the records of field f, whose value is v. */
  ghost predicate EncodesVal(f: Field, v: Val, b: bytes)
    requires HasType(f.kind, v)
    decreases f.kind, 0
  {
    match f.kind
    case String => b == if v.str == [] then [] else Delimited(f.num, v.str)
    case RepeatedString => b == Strings(f.num, v.strs)
    case Message(sc) =>
      if v.sub.None? then b == [] else exists c :: Encodes(sc, v.sub.value, c) && b == Delimited(f.num, c)
    case RepeatedMessage(sc) => EncodesSubs(f.num, sc, v.subs, b)
    case StringMap => exists es :: Lists(es, v.entries) && b == Entries(f.num, es)
    case _ => b == Number(f.num, f.kind, v.word)
  }

  ghost predicate EncodesSubs(num: nat, sc: Schema, subs: seq<Msg>, b: bytes)
    requires forall i :: 0 <= i < |subs| ==> WellTyped(sc, subs[i])
    decreases sc, |sc.fields| + 2, |subs|
  {
    if subs == [] then b == []
    else
      exists c, rest ::
        Encodes(sc, subs[0], c) && EncodesSubs(num, sc, subs[1..], rest) && b == Delimited(num, c) + rest
  }

  /** b holds the records of the fields of m from position i on, and its unknown bytes. */
  ghost predicate EncodesFrom(sc: Schema, m: Msg, i: nat, b: bytes)
    requires WellTyped(sc, m) && i <= |sc.fields|
    decreases sc, |sc.fields| - i
  {
    if i == |sc.fields| then b == m.unknown
    else exists b1, b2 :: EncodesVal(sc.fields[i], m.vals[i], b1) && EncodesFrom(sc, m, i + 1, b2) && b == b1 + b2
  }

  /** b is an encoding of m. */
  ghost predicate Encodes(sc: Schema, m: Msg, b: bytes)
    requires WellTyped(sc, m)
    decreases sc, |sc.fields| + 1
  {
    EncodesFrom(sc, m, 0, b)
  }

  //
  // Sizes
  //

  function TagSize(num: nat, wireType: nat): nat {
    |Tag(num, wireType)|
  }

  function DelimitedSize(num: nat, n: nat): nat {
    TagSize(num, 2) + |Varint.Enc(n)| + n
  }

  function EntrySize(key: bytes, value: bytes): nat {
    DelimitedSize(1, |key|) + DelimitedSize(2, |value|)
  }

  function NumberSize(num: nat, kind: Kind, w: uint64): nat
    requires kind.IsNumber()
  {
    if IsZero(kind, w) then 0
    else TagSize(num, kind.WireType()) +
         if kind.Double? then 8 else if kind.Float? then 4 else |Varint.Enc(w)|
  }

  function StringsSize(num: nat, strs: seq<bytes>): nat {
    if strs == [] then 0 else DelimitedSize(num, |strs[0]|) + StringsSize(num, strs[1..])
  }

  /** The sum over the entries of a map, taken in some order. */
  ghost function MapSize(num: nat, m: map<bytes, bytes>): nat
    decreases |m|
  {
    if m == map[] then 0
    else
      assert m.Keys != {};
      var k :| k in m.Keys;
      DelimitedSize(num, EntrySize(k, m[k])) + MapSize(num, m - {k})
  }

  ghost function ValSize(f: Field, v: Val): nat
    requires HasType(f.kind, v)
    decreases f.kind, 0
  {
    match f.kind
    case String => if v.str == [] then 0 else DelimitedSize(f.num, |v.str|)
    case RepeatedString => StringsSize(f.num, v.strs)
    case Message(sc) => if v.sub.None? then 0 else DelimitedSize(f.num, Size(sc, v.sub.value))
    case RepeatedMessage(sc) => SubsSize(f.num, sc, v.subs)
    case StringMap => MapSize(f.num, v.entries)
    case _ => NumberSize(f.num, f.kind, v.word)
  }

  ghost function SubsSize(num: nat, sc: Schema, subs: seq<Msg>): nat
    requires forall i :: 0 <= i < |subs| ==> WellTyped(sc, subs[i])
    decreases sc, |sc.fields| + 2, |subs|
  {
    if subs == [] then 0 else DelimitedSize(num, Size(sc, subs[0])) + SubsSize(num, sc, subs[1..])
  }

  ghost function SizeFrom(sc: Schema, m: Msg, i: nat): nat
    requires WellTyped(sc, m) && i <= |sc.fields|
    decreases sc, |sc.fields| - i
  {
    if i == |sc.fields| then |m.unknown| else ValSize(sc.fields[i], m.vals[i]) + SizeFrom(sc, m, i + 1)
  }

  /** What `Size` returns. */
  ghost function Size(sc: Schema, m: Msg): nat
    requires WellTyped(sc, m)
    decreases sc, |sc.fields| + 1
  {
    SizeFrom(sc, m, 0)
  }

  //
  // Every encoding has the predicted size, whatever the order of its maps
  //

  lemma {:induction false} MapSizeAny(num: nat, m: map<bytes, bytes>, k: bytes)
    requires k in m
    ensures MapSize(num, m) == DelimitedSize(num, EntrySize(k, m[k])) + MapSize(num, m - {k})
    decreases |m|
  {
    hide MapSize, DelimitedSize, EntrySize;
    var j := Chosen(num, m);
    if j != k {
      MapSizeAny(num, m - {j}, k);
      MapSizeAny(num, m - {k}, j);
      assert m - {j} - {k} == m - {k} - {j};
    }
  }

  lemma Chosen(num: nat, m: map<bytes, bytes>) returns (k: bytes)
    requires m != map[]
    ensures k in m && MapSize(num, m) == DelimitedSize(num, EntrySize(k, m[k])) + MapSize(num, m - {k})
  {
    assert m.Keys != {};
    k :| k in m.Keys && MapSize(num, m) == DelimitedSize(num, EntrySize(k, m[k])) + MapSize(num, m - {k});
  }

  lemma {:induction false} EntriesSize(num: nat, es: seq<(bytes, bytes)>, m: map<bytes, bytes>)
    requires Lists(es, m)
    ensures |Entries(num, es)| == MapSize(num, m)
  {
    if es != [] {
      MapSizeAny(num, m, es[0].0);
      EntriesSize(num, es[1..], m - {es[0].0});
    }
  }

  lemma {:induction false} StringsLength(num: nat, strs: seq<bytes>)
    ensures |Strings(num, strs)| == StringsSize(num, strs)
  {
    if strs != [] {
      StringsLength(num, strs[1..]);
    }
  }

  lemma {:induction false} EncodesValSize(f: Field, v: Val, b: bytes)
    requires HasType(f.kind, v) && EncodesVal(f, v, b)
    ensures |b| == ValSize(f, v)
    decreases f.kind, 0
  {
    match f.kind
    case RepeatedString =>
      StringsLength(f.num, v.strs);
    case Message(sc) =>
      if v.sub.Some? {
        var c :| Encodes(sc, v.sub.value, c) && b == Delimited(f.num, c);
        EncodesSize(sc, v.sub.value, c);
      }
    case RepeatedMessage(sc) =>
      EncodesSubsSize(f.num, sc, v.subs, b);
    case StringMap =>
      var es :| Lists(es, v.entries) && b == Entries(f.num, es);
      EntriesSize(f.num, es, v.entries);
    case _ =>
  }

  lemma {:induction false} EncodesSubsSize(num: nat, sc: Schema, subs: seq<Msg>, b: bytes)
    requires forall i :: 0 <= i < |subs| ==> WellTyped(sc, subs[i])
    requires EncodesSubs(num, sc, subs, b)
    ensures |b| == SubsSize(num, sc, subs)
    decreases sc, |sc.fields| + 2, |subs|
  {
    if subs != [] {
      var c, rest :| Encodes(sc, subs[0], c) && EncodesSubs(num, sc, subs[1..], rest) && b == Delimited(num, c) + rest;
      EncodesSize(sc, subs[0], c);
      EncodesSubsSize(num, sc, subs[1..], rest);
    }
  }

  lemma {:induction false} EncodesFromSize(sc: Schema, m: Msg, i: nat, b: bytes)
    requires WellTyped(sc, m) && i <= |sc.fields| && EncodesFrom(sc, m, i, b)
    ensures |b| == SizeFrom(sc, m, i)
    decreases sc, |sc.fields| - i
  {
    if i < |sc.fields| {
      var b1, b2 :| EncodesVal(sc.fields[i], m.vals[i], b1) && EncodesFrom(sc, m, i + 1, b2) && b == b1 + b2;
      EncodesValSize(sc.fields[i], m.vals[i], b1);
      EncodesFromSize(sc, m, i + 1, b2);
    }
  }

  lemma EncodesSize(sc: Schema, m: Msg, b: bytes)
    requires WellTyped(sc, m) && Encodes(sc, m, b)
    ensures |b| == Size(sc, m)
    decreases sc, |sc.fields| + 1
  {
    EncodesFromSize(sc, m, 0, b);
  }

  lemma DelimitedCovers(num: nat, n: nat)
    ensures DelimitedSize(num, n) > n
  {
    hide Varint.Enc;
  }

  /** What an element adds to the size of the list. */
  lemma SubsSizeStep(num: nat, sc: Schema, subs: seq<Msg>, i: nat)
    requires forall j :: 0 <= j < |subs| ==> WellTyped(sc, subs[j])
    requires i < |subs|
    ensures SubsSize(num, sc, subs[i..]) == DelimitedSize(num, Size(sc, subs[i])) + SubsSize(num, sc, subs[i + 1..])
    ensures DelimitedSize(num, Size(sc, subs[i])) <= SubsSize(num, sc, subs)
  {
    hide DelimitedSize, Size, WellTyped;
    assert subs[i..][1..] == subs[i + 1..];
    SubsSizeCovers(num, sc, subs, i);
  }

  lemma SubsSizeNone(num: nat, sc: Schema)
    ensures SubsSize(num, sc, []) == 0
  {
  }

  /** No element is larger than the list. */
  lemma {:induction false} SubsSizeCovers(num: nat, sc: Schema, subs: seq<Msg>, i: nat)
    requires forall j :: 0 <= j < |subs| ==> WellTyped(sc, subs[j])
    requires i < |subs|
    ensures DelimitedSize(num, Size(sc, subs[i])) <= SubsSize(num, sc, subs)
  {
    hide DelimitedSize, Size, WellTyped;
    if i > 0 {
      SubsSizeCovers(num, sc, subs[1..], i - 1);
    }
  }
}
