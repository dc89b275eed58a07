/** Message types and message values, as the generator sees them: a message type is a list
    of numbered fields, a message is one value per field plus the bytes of the
    records that no field claims (`XXX_unrecognized`). */
module Schemas {
  import opened GoInts

  datatype Option<+T> = None | Some(value: T)

  /** A Go slice or map that can be nil is an Option; these are its contents. */
  function Elems<T>(o: Option<seq<T>>): seq<T> {
    if o.Some? then o.value else []
  }

  function Pairs<K, V>(o: Option<map<K, V>>): map<K, V> {
    if o.Some? then o.value else map[]
  }

  /** The kinds of field in the repository's messages. `Int32` is also the kind of
      an enum. Every map is a `map<string, string>`. */
  datatype Kind =
    | Uint32
    | Int32
    | Int64
    | Uint64
    | Bool
    | Double
    | Float
    | String
    | RepeatedString
    | Message(schema: Schema)
    | RepeatedMessage(schema: Schema)
    | StringMap
  {
    predicate IsVarint() {
      Uint32? || Int32? || Int64? || Uint64? || Bool?
    }

    predicate IsNumber() {
      IsVarint() || Double? || Float?
    }

    function WireType(): nat {
      if IsVarint() then 0 else if Double? then 1 else if Float? then 5 else 2
    }
  }

  datatype Field = Field(num: nat, kind: Kind)

  datatype Schema = Schema(fields: seq<Field>)

  /** A field's value. A number is held as the `uint64` that goes on the wire: a negative
      integer is sign-extended, a float is its bit pattern. A nil list or map
      is the empty one. */
  datatype Val =
    | Num(word: uint64)
    | Str(str: bytes)
    | Strs(strs: seq<bytes>)
    | Sub(sub: Option<Msg>)
    | Subs(subs: seq<Msg>)
    | StrMap(entries: map<bytes, bytes>)

  datatype Msg = Msg(vals: seq<Val>, unknown: bytes)

  /** The value that a numeric field takes when its varint is x: the accumulator has the
      width of the field, and a `bool` is whether the word is non-zero. */
  function Narrow(kind: Kind, x: uint64): (w: uint64)
    requires kind.IsNumber()
  {
    match kind
    case Uint32 => x % TWO32
    case Int32 => Unsigned64(Signed32(x))
    case Bool => if x != 0 then 1 else 0
    case Float => x % TWO32
    case _ => x
  }

  /** The words that the fields of Go's integer types put on the wire. */
  function Int32Word(x: int32): (w: uint64)
    ensures w == Unsigned64(x) && w == Narrow(Int32, w) && (w == 0 <==> x == 0)
  {
    Unsigned64(x)
  }

  function Int64Word(x: int64): (w: uint64)
    ensures w == Unsigned64(x) && (w == 0 <==> x == 0)
  {
    Unsigned64(x)
  }

  function BoolWord(x: bool): uint64 {
    if x then 1 else 0
  }

  /** Whether the guard `m.F != 0` is false: both floating-point zeros are zero. */
  predicate IsZero(kind: Kind, w: uint64) {
    w == 0 || (kind.Double? && w == TWO63) || (kind.Float? && w == TWO31)
  }

  ghost predicate ValidKind(kind: Kind) {
    (kind.Message? || kind.RepeatedMessage?) ==> ValidSchema(kind.schema)
  }

  /** Field numbers are distinct and in the range that the encoding allows. */
  ghost predicate ValidSchema(sc: Schema) {
    && (forall i :: 0 <= i < |sc.fields| ==> 1 <= sc.fields[i].num < 0x2000_0000)
    && (forall i, j :: 0 <= i < j < |sc.fields| ==> sc.fields[i].num != sc.fields[j].num)
    && (forall i :: 0 <= i < |sc.fields| ==> ValidKind(sc.fields[i].kind))
  }

  /** The repository's messages list their fields in increasing order of number. */
  lemma {:induction false} IncreasingDistinct(fields: seq<Field>, i: nat, j: nat)
    requires forall k :: 0 < k < |fields| ==> fields[k - 1].num < fields[k].num
    requires i < j < |fields|
    ensures fields[i].num < fields[j].num
  {
    if i + 1 < j {
      IncreasingDistinct(fields, i, j - 1);
    }
  }

  lemma IncreasingValid(sc: Schema)
    requires forall k :: 0 < k < |sc.fields| ==> sc.fields[k - 1].num < sc.fields[k].num
    requires forall k :: 0 <= k < |sc.fields| ==> 1 <= sc.fields[k].num < 0x2000_0000 && ValidKind(sc.fields[k].kind)
    ensures ValidSchema(sc)
  {
    hide ValidKind;
    forall i, j | 0 <= i < j < |sc.fields| ensures sc.fields[i].num != sc.fields[j].num {
      IncreasingDistinct(sc.fields, i, j);
    }
  }

  ghost predicate HasType(kind: Kind, v: Val) {
    match kind
    case String => v.Str?
    case RepeatedString => v.Strs?
    case Message(sc) => v.Sub? && (v.sub.Some? ==> WellTyped(sc, v.sub.value))
    case RepeatedMessage(sc) => v.Subs? && forall i :: 0 <= i < |v.subs| ==> WellTyped(sc, v.subs[i])
    case StringMap => v.StrMap?
    case _ => v.Num? && v.word == Narrow(kind, v.word)
  }

  ghost predicate WellTyped(sc: Schema, m: Msg) {
    && |m.vals| == |sc.fields|
    && forall i :: 0 <= i < |m.vals| ==> HasType(sc.fields[i].kind, m.vals[i])
  }

  function Default(kind: Kind): Val {
    match kind
    case String => Str([])
    case RepeatedString => Strs([])
    case Message(_) => Sub(None)
    case RepeatedMessage(_) => Subs([])
    case StringMap => StrMap(map[])
    case _ => Num(0)
  }

  /** A new message, as `&T{}` makes it. */
  function Empty(sc: Schema): (m: Msg)
    ensures WellTyped(sc, m)
  {
    Msg(seq(|sc.fields|, i requires 0 <= i < |sc.fields| => Default(sc.fields[i].kind)), [])
  }

  /** The position of the field with the given number, or the number of fields. */
  function Find(fields: seq<Field>, num: int): (i: nat)
    ensures i <= |fields|
    ensures i < |fields| ==> fields[i].num == num
    ensures i == |fields| ==> forall j :: 0 <= j < |fields| ==> fields[j].num != num
  {
    if fields == [] || fields[0].num == num then 0 else 1 + Find(fields[1..], num)
  }

  lemma FindKnown(sc: Schema, i: nat)
    requires ValidSchema(sc) && i < |sc.fields|
    ensures Find(sc.fields, sc.fields[i].num) == i
  {
  }
}
