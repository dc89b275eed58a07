/** The messages of loc.pb.go: Timestamp and Loc. */
module LocMessages {
  import opened GoInts
  import opened Errors
  import opened Schemas
  import opened Decoding
  import opened Reading
  import opened Writing
  import opened Copying
  import Encoding
  import Records
  import Varint
  import Wire

  const TIMESTAMP_SCHEMA := Schema([
    Field(1, Int64), Field(2, Int32)
  ])

  lemma TimestampSchemaValid()
    ensures ValidSchema(TIMESTAMP_SCHEMA)
  {
    IncreasingValid(TIMESTAMP_SCHEMA);
  }

  const LOC_SCHEMA := Schema([
    Field(1, Double), Field(2, Double), Field(3, Double), Field(4, Double), Field(5, Double),
    Field(6, Double), Field(7, Double), Field(8, Message(TIMESTAMP_SCHEMA))
  ])

  lemma LocSchemaValid()
    ensures ValidSchema(LOC_SCHEMA)
  {
    TimestampSchemaValid();
    IncreasingValid(LOC_SCHEMA);
  }

  class Timestamp {
    var seconds: int64
    var nanos: int32
    var unrecognized: bytes

    constructor ()
      ensures seconds == 0 && nanos == 0 && unrecognized == []
      ensures View() == Empty(TIMESTAMP_SCHEMA)
    {
      seconds := 0;
      nanos := 0;
      unrecognized := [];
      new;
      hide View;
      Blank();
    }

    lemma Blank()
      requires seconds == 0 && nanos == 0 && unrecognized == []
      ensures View() == Empty(TIMESTAMP_SCHEMA)
    {
      assert View().vals == Empty(TIMESTAMP_SCHEMA).vals;
    }

    /** The values of the fields, in the order of the schema. */
    static ghost function Vals(seconds: int64, nanos: int32): (vals: seq<Val>)
      ensures |vals| == 2 && forall u :: WellTyped(TIMESTAMP_SCHEMA, Msg(vals, u))
      ensures vals[0] == Num(Int64Word(seconds))
      ensures vals[1] == Num(Int32Word(nanos))
    {
      [Num(Int64Word(seconds)), Num(Int32Word(nanos))]
    }

    ghost function View(): (m: Msg)
      reads this
      ensures WellTyped(TIMESTAMP_SCHEMA, m)
    {
      Msg(Vals(seconds, nanos), unrecognized)
    }

    /** A message that may be nil, as the codec sees it. */
    static ghost function ViewOf(x: Timestamp?): (m: Option<Msg>)
      reads x
      ensures m.Some? ==> WellTyped(TIMESTAMP_SCHEMA, m.value)
    {
      if x != null then Some(x.View()) else None
    }

    //
    // On the wire
    //

    /** The bytes of the message: its fields in order, each behind its tag, and the unknown bytes. */
    ghost function Image(): bytes
      reads this
    {
      Wire.Join(Parts())
    }

    ghost function Parts(): (parts: seq<bytes>)
      reads this
    {
      [
        Wire.Number(0x08, Wire.Word64(seconds)),
        Wire.Number(0x10, Wire.Word64(nanos)),
        unrecognized
      ]
    }

    /** The bytes of a message that may be nil. */
    static ghost function ImageOf(x: Timestamp?): Option<bytes>
      reads x
    {
      if x != null then Some(x.Image()) else None
    }

    /** The message is written as its image, and as nothing else. */
    lemma Imaged()
      ensures Wire.IsImage(TIMESTAMP_SCHEMA, View(), Image())
    {
      hide Vals, HasType, WellTyped, Int32Word, Int64Word, BoolWord, Wire.Word64, Narrow, Wire.Only,
          Wire.Number, Wire.Real, Wire.Text, Wire.Chunks, Wire.Nested, Wire.Join, Encoding.Encodes;
      Wire.Int64Only(TIMESTAMP_SCHEMA.fields[0], seconds, 0x08);
      Wire.Int32Only(TIMESTAMP_SCHEMA.fields[1], nanos, 0x10);
      Wire.OnlyImage(TIMESTAMP_SCHEMA, View(), Parts());
    }

    lemma ImageSize()
      ensures |Image()| == Encoding.Size(TIMESTAMP_SCHEMA, View())
    {
      hide View, Image, Wire.IsImage, WellTyped, Encoding.Encodes, Encoding.Size;
      Imaged();
      Wire.ImageSize(TIMESTAMP_SCHEMA, View(), Image());
    }

    /** What has been marshaled into the buffer is the image of the message. */
    lemma ImageFilled(before: bytes, after: bytes, hi: int, n: nat)
      requires Marshaled(TIMESTAMP_SCHEMA, View(), before, after, hi, n)
      ensures n <= hi <= |after| && after[hi - n..hi] == Image()
    {
      hide View, Image, Wire.IsImage, WellTyped, Encoding.Encodes, Encoding.Size;
      Imaged();
      Wire.Filled(TIMESTAMP_SCHEMA, View(), Image(), before, after, hi, n);
    }

    method Size() returns (n: nat)
      requires Encoding.Size(TIMESTAMP_SCHEMA, View()) < TWO63
      ensures n == Encoding.Size(TIMESTAMP_SCHEMA, View())
      ensures n == |Image()|
    {
      hide Image, Wire.IsImage, Vals, VarintSize, BoolSize, DoubleSize, StringSize, MessageSize, Varint.Enc,
          Encoding.Size, Encoding.SizeFrom, Encoding.MapSize, Encoding.SubsSize, WellTyped;
      ghost var m := View();
      SizeAll(TIMESTAMP_SCHEMA, m);
      var l;
      n := 0;
      l := VarintSize(Int64Word(seconds), TIMESTAMP_SCHEMA, m, 0);
      n := n + l;
      l := VarintSize(Int32Word(nanos), TIMESTAMP_SCHEMA, m, 1);
      n := n + l;
      n := n + |unrecognized|;
      ImageSize();
    }

    method MarshalToSizedBuffer(dAtA: array<byte>, hi: int) returns (n: nat)
      requires Encoding.Size(TIMESTAMP_SCHEMA, View()) <= hi <= dAtA.Length < TWO63
      modifies dAtA
      ensures View() == old(View()) && Marshaled(TIMESTAMP_SCHEMA, View(), old(dAtA[..]), dAtA[..], hi, n)
      ensures n <= hi && dAtA[hi - n..hi] == Image()
    {
      hide Image, Wire.IsImage, Vals, Written, Marshaled, Encoding.Size, Encoding.SubsSize, WellTyped;
      ghost var m, a := View(), dAtA[..];
      var i := Writing.UnknownField(dAtA, hi, unrecognized, TIMESTAMP_SCHEMA, m);
      i := Writing.Int32Field(dAtA, i, nanos, 0x10, TIMESTAMP_SCHEMA, m, 1, a, hi);
      i := Writing.Int64Field(dAtA, i, seconds, 0x8, TIMESTAMP_SCHEMA, m, 0, a, hi);
      MarshalDone(TIMESTAMP_SCHEMA, m, a, dAtA[..], hi, i);
      n := hi - i;
      ImageFilled(a, dAtA[..], hi, n);
    }

    method Unmarshal(dAtA: bytes) returns (err: Error)
      requires |dAtA| < MAX_SLICE
      modifies this
      ensures Unmarshaled(TIMESTAMP_SCHEMA, old(View()), View(), dAtA, err)
    {
      hide View, Remains, Stepped, Unmarshaled, WellTyped;
      var l, iNdEx := |dAtA|, 0;
      RemainsAll(TIMESTAMP_SCHEMA, View(), dAtA);
      while iNdEx < l
        invariant 0 <= iNdEx <= l && Remains(TIMESTAMP_SCHEMA, old(View()), View(), dAtA, iNdEx)
        decreases l - iNdEx
      {
        ghost var m, preIndex := View(), iNdEx;
        err, iNdEx := UnmarshalField(dAtA, iNdEx);
        RemainsStep(TIMESTAMP_SCHEMA, old(View()), m, View(), dAtA, preIndex, err, iNdEx);
        if !err.Nil? {
          return;
        }
      }
      assert iNdEx == l;
      RemainsNone(TIMESTAMP_SCHEMA, old(View()), View(), dAtA);
      err := Nil;
    }

    /** The switch on the field number inside the loop. */
    method UnmarshalField(dAtA: bytes, preIndex: int64) returns (err: Error, iNdEx: int64)
      requires 0 <= preIndex < |dAtA| < MAX_SLICE
      modifies this
      ensures Stepped(TIMESTAMP_SCHEMA, old(View()), View(), dAtA, preIndex, err, iNdEx)
      ensures err.Nil? ==> preIndex < iNdEx <= |dAtA|
    {
      hide Vals, Header, Step, WellTyped, ValidSchema, Find, Decode, BodyStep, FieldRead, Stepped, Unmarshaled;
      ghost var m := View();
      TimestampSchemaValid();
      var fieldNum, wireType;
      err, fieldNum, wireType, iNdEx := ReadTag(dAtA, preIndex);
      if !err.Nil? {
        HeaderRefused(TIMESTAMP_SCHEMA, m, View(), dAtA, preIndex, err, iNdEx);
        return;
      }
      match fieldNum {
        case 1 =>
          var v;
          err, v, iNdEx := Reading.Int64Field(dAtA, preIndex, iNdEx, fieldNum, wireType, TIMESTAMP_SCHEMA, m, 0);
          if err.Nil? {
            seconds := v;
          }
          FieldReadSteps(TIMESTAMP_SCHEMA, m, 0, Num(Int64Word(v)), View(), dAtA, preIndex, err, iNdEx);
        case 2 =>
          var v;
          err, v, iNdEx := Reading.Int32Field(dAtA, preIndex, iNdEx, fieldNum, wireType, TIMESTAMP_SCHEMA, m, 1);
          if err.Nil? {
            nanos := v;
          }
          FieldReadSteps(TIMESTAMP_SCHEMA, m, 1, Num(Int32Word(v)), View(), dAtA, preIndex, err, iNdEx);
        case _ =>
          var raw;
          err, raw, iNdEx := Reading.UnknownField(dAtA, preIndex, TIMESTAMP_SCHEMA, m);
          if err.Nil? {
            unrecognized := unrecognized + raw;
            assert View() == m.(unknown := m.unknown + raw);
          } else {
            StepRefused(TIMESTAMP_SCHEMA, m, View(), dAtA, preIndex, err, iNdEx);
          }
      }
    }

    //
    // One record read
    //

    /** What it means that the value of field k has become v. */
    twostate lemma Became(new k: nat, new v: Val)
      requires k < 2
      requires View() == old(View()).(vals := old(View()).vals[k := v])
      ensures unrecognized == old(unrecognized)
      ensures if k == 0 then Num(Int64Word(seconds)) == v else seconds == old(seconds)
      ensures if k == 1 then Num(Int32Word(nanos)) == v else nanos == old(nanos)
    {
      hide WellTyped, Int32Word, Int64Word;
      Wire.Int64Same(seconds, old(seconds));
      Wire.Int32Same(nanos, old(nanos));
      ghost var was, now := old(View()).vals, View().vals;
      assert now[0] == if k == 0 then v else was[0];
      assert now[1] == if k == 1 then v else was[1];
    }

    /** What `Unmarshal` makes of one number. */
    twostate lemma NumberFromWire(new tag: byte, new w: uint64, new err: Error)
      requires tag == 0x08 || tag == 0x10
      requires Unmarshaled(TIMESTAMP_SCHEMA, old(View()), View(), [tag] + Varint.Enc(w), err)
      ensures err.Nil? && unrecognized == old(unrecognized)
      ensures if tag == 0x08 then (seconds - w) % 0x1_0000_0000_0000_0000 == 0 else seconds == old(seconds)
      ensures if tag == 0x10 then (nanos - w) % 0x1_0000_0000 == 0 else nanos == old(nanos)
    {
      hide View, Vals, WellTyped, Decode, ValidSchema, Int32Word, Int64Word, Narrow;
      TimestampSchemaValid();
      var k := if tag == 0x08 then 0 else 1;
      Wire.ReadsNumber(TIMESTAMP_SCHEMA, old(View()), k, tag, w);
      Became(k, Num(Narrow(TIMESTAMP_SCHEMA.fields[k].kind, w)));
      Wire.Int64Low(seconds, w);
      Wire.Int32Low(nanos, w);
    }

    //
    // Copying
    //

    static ghost function Items(seconds: int64, nanos: int32): (items: seq<Item>)
      ensures |items| == 2
      ensures items[0] == Word(seconds)
      ensures items[1] == Word(nanos)
    {
      [Word(seconds), Word(nanos)]
    }

    /** The message as copying sees it. */
    ghost function Fields(): (t: Tree)
      reads this
      ensures |t.items| == 2
    {
      Tree(Items(seconds, nanos), unrecognized)
    }

    /** A message that may be nil, as copying sees it. */
    static ghost function FieldsOf(x: Timestamp?): Option<Tree>
      reads x
    {
      if x != null then Some(x.Fields()) else None
    }

    /** A new message is the zero of its type. */
    lemma NewFields(src: Timestamp)
      requires seconds == 0 && nanos == 0 && unrecognized == []
      ensures Fields() == Zero(src.Fields())
    {
      hide Items;
      assert Fields().items == Zero(src.Fields()).items;
    }

    lemma FieldsOnWire()
      ensures ToMsg(Fields()) == View()
    {
      hide Items, Vals, ToMsg, WellTyped;
      ghost var items, vals := Fields().items, View().vals;
      assert ToVal(items[0]) == vals[0];
      assert ToVal(items[1]) == vals[1];
      assert ToMsg(Fields()).vals == View().vals;
    }

    /** The messages have the same declared fields, at every level. A float may be either zero where the
        other is. */
    ghost predicate Equals(o: Timestamp)
      reads this, o
    {
      && seconds == o.seconds
      && nanos == o.nanos
    }

    /** The same to copying is the same field by field. */
    lemma SameIsEqual(o: Timestamp)
      requires SameTree(Fields(), o.Fields())
      ensures Equals(o)
    {
      hide Items;
      ghost var r, s := Fields().items, o.Fields().items;
      assert SameItem(r[0], s[0]);
      assert SameItem(r[1], s[1]);
    }

    lemma FieldsUnknown()
      ensures Fields().unknown == unrecognized
    {
    }

    /** What copying the fields from `seconds` to `nanos` does to the message. */
    twostate lemma SecondsToNanosSet(new src: Timestamp, new m: Tree, new s: Tree, new before: int,
        new changed: int)
      requires src.Fields() == s
      requires CopiedUpTo(old(Fields()), m, s, 0, before)
      requires unrecognized == old(unrecognized)
      requires seconds == src.seconds
      requires nanos == src.nanos
      requires changed == before +
                 (if old(seconds) == src.seconds then 0 else 1) +
                 (if old(nanos) == src.nanos then 0 else 1)
      ensures CopiedUpTo(Fields(), m, s, 2, changed)
    {
      hide Items, CopiedUpTo, CopyItem, Changes, FloatEq;
      PlainItem(old(Fields()).items[0], s.items[0]);
      PlainItem(old(Fields()).items[1], s.items[1]);
      CopySpan(old(Fields()), Fields(), m, s, 0, 2, before, changed);
    }

    /** Messages of the same type are alike. */
    lemma FieldsAlike(src: Timestamp)
      ensures Alike(Fields(), src.Fields())
    {
      hide Items;
      assert AlikeItem(Fields().items[0], src.Fields().items[0]);
      assert AlikeItem(Fields().items[1], src.Fields().items[1]);
    }

    /** The fields from `seconds` to `nanos`. */
    method CopySecondsToNanos(src: Timestamp, before: int, ghost m: Tree, ghost s: Tree) returns (changed: int)
      requires src != this
      requires src.Fields() == s && CopiedUpTo(Fields(), m, s, 0, before)
      modifies `seconds, `nanos
      ensures src.Fields() == s && CopiedUpTo(Fields(), m, s, 2, changed)
    {
      hide Fields, Items, CopiedUpTo, CopyTree, TreeChanges, CopyItem, Changes, FloatEq;
      changed := before;
      if seconds != src.seconds {
        seconds := src.seconds;
        changed := changed + 1;
      }
      if nanos != src.nanos {
        nanos := src.nanos;
        changed := changed + 1;
      }
      SecondsToNanosSet(src, m, s, before, changed);
    }

    method CopyInFields(src: Timestamp) returns (changed: int)
      requires src != this
      modifies this
      ensures src.Fields() == old(src.Fields())
      ensures Fields() == CopyTree(old(Fields()), old(src.Fields()))
      ensures changed == TreeChanges(old(Fields()), old(src.Fields()))
      ensures SameTree(Fields(), src.Fields()) && (changed == 0 ==> Untouched(old(Fields()), Fields()))
      ensures Equals(src) && unrecognized == old(unrecognized)
    {
      hide Fields, Items, CopiedUpTo, CopyTree, TreeChanges, CopyItem, Changes, FloatEq, SameTree, Untouched,
          Alike, Equals;
      ghost var m, s := Fields(), src.Fields();
      FieldsAlike(src);
      FieldsUnknown();
      changed := 0;
      CopyStart(m, s);
      changed := CopySecondsToNanos(src, changed, m, s);
      CopyDone(Fields(), m, s, changed);
      CopyAgrees(m, s);
      SameIsEqual(src);
      FieldsUnknown();
      if changed == 0 {
        NoChanges(m, s);
      }
    }

    /** The fields of a deep copy. */
    lemma DeepCopied(src: Timestamp)
      requires seconds == src.seconds
      requires nanos == src.nanos
      ensures Fields() == Bare(src.Fields()).(unknown := unrecognized)
    {
      hide Items, Bare, Bares;
      BareFields(Fields(), src.Fields());
    }

    method DeepCopyIn(src: Timestamp)
      requires src != this
      modifies this
      ensures Fields() == Bare(old(src.Fields())).(unknown := old(unrecognized))
      ensures Equals(src) && unrecognized == old(unrecognized)
    {
      hide Fields, Items, Bare, Bares, SameTree, Equals;
      seconds := src.seconds;
      nanos := src.nanos;
      DeepCopied(src);
      BareSame(Fields(), src.Fields(), unrecognized);
      SameIsEqual(src);
    }

    method Clone() returns (cp: Timestamp)
      ensures fresh(cp)
      ensures cp.Fields() == Bare(old(Fields())) && SameTree(cp.Fields(), old(Fields()))
      ensures cp.Equals(this) && cp.unrecognized == []
      ensures cp.View() == Cleared(old(View()))
    {
      hide SameTree, Equals;
      BareAgrees(Fields());
      FieldsOnWire();
      BareOnWire(Fields());
      cp := new Timestamp();
      cp.DeepCopyIn(this);
      cp.FieldsOnWire();
    }
  }

  class Loc {
    var latitude: uint64
    var longitude: uint64
    var horizontalAccuracy: uint64
    var verticalAccuracy: uint64
    var altitude: uint64
    var course: uint64
    var speed: uint64
    var timestamp: Timestamp?
    var unrecognized: bytes

    constructor ()
      ensures timestamp == null
      ensures latitude == 0 && longitude == 0 && horizontalAccuracy == 0 && verticalAccuracy == 0
          && altitude == 0 && course == 0 && speed == 0 && unrecognized == []
      ensures View() == Empty(LOC_SCHEMA)
    {
      latitude := 0;
      longitude := 0;
      horizontalAccuracy := 0;
      verticalAccuracy := 0;
      altitude := 0;
      course := 0;
      speed := 0;
      timestamp := null;
      unrecognized := [];
      new;
      hide View;
      Blank();
    }

    lemma Blank()
      requires latitude == 0 && longitude == 0 && horizontalAccuracy == 0 && verticalAccuracy == 0
          && altitude == 0 && course == 0 && speed == 0 && timestamp == null && unrecognized == []
      ensures View() == Empty(LOC_SCHEMA)
    {
      assert View().vals == Empty(LOC_SCHEMA).vals;
    }

    /** The values of the fields, in the order of the schema. */
    static ghost function Vals(latitude: uint64, longitude: uint64, horizontalAccuracy: uint64,
        verticalAccuracy: uint64, altitude: uint64, course: uint64, speed: uint64,
        timestamp: Option<Msg>): (vals: seq<Val>)
      requires timestamp.Some? ==> WellTyped(TIMESTAMP_SCHEMA, timestamp.value)
      ensures |vals| == 8 && forall u :: WellTyped(LOC_SCHEMA, Msg(vals, u))
      ensures vals[0] == Num(latitude)
      ensures vals[1] == Num(longitude)
      ensures vals[2] == Num(horizontalAccuracy)
      ensures vals[3] == Num(verticalAccuracy)
      ensures vals[4] == Num(altitude)
      ensures vals[5] == Num(course)
      ensures vals[6] == Num(speed)
      ensures vals[7] == Sub(timestamp)
    {
      [Num(latitude), Num(longitude), Num(horizontalAccuracy), Num(verticalAccuracy), Num(altitude),
       Num(course), Num(speed), Sub(timestamp)]
    }

    ghost function View(): (m: Msg)
      reads this, timestamp
      ensures WellTyped(LOC_SCHEMA, m)
    {
      Msg(Vals(latitude, longitude, horizontalAccuracy, verticalAccuracy, altitude, course, speed,
          Timestamp.ViewOf(timestamp)), unrecognized)
    }

    /** A message that may be nil, as the codec sees it. */
    static ghost function ViewOf(x: Loc?): (m: Option<Msg>)
      reads x, if x == null then null else x.timestamp
      ensures m.Some? ==> WellTyped(LOC_SCHEMA, m.value)
    {
      if x != null then Some(x.View()) else None
    }

    //
    // On the wire
    //

    /** The bytes of the message: its fields in order, each behind its tag, and the unknown bytes. */
    ghost function Image(): bytes
      reads this, timestamp
    {
      Wire.Join(Parts())
    }

    ghost function Parts(): (parts: seq<bytes>)
      reads this, timestamp
    {
      [
        Wire.Real(0x09, latitude),
        Wire.Real(0x11, longitude),
        Wire.Real(0x19, horizontalAccuracy),
        Wire.Real(0x21, verticalAccuracy),
        Wire.Real(0x29, altitude),
        Wire.Real(0x31, course),
        Wire.Real(0x39, speed),
        Wire.Nested(0x42, Timestamp.ImageOf(timestamp)),
        unrecognized
      ]
    }

    /** The bytes of a message that may be nil. */
    static ghost function ImageOf(x: Loc?): Option<bytes>
      reads x, if x == null then null else x.timestamp
    {
      if x != null then Some(x.Image()) else None
    }

    /** The message is written as its image, and as nothing else. */
    lemma Imaged()
      ensures Wire.IsImage(LOC_SCHEMA, View(), Image())
    {
      hide Timestamp.View, Timestamp.Image, Vals, HasType, WellTyped, Int32Word, Int64Word, BoolWord,
          Wire.Word64, Narrow, Wire.Only, Wire.Number, Wire.Real, Wire.Text, Wire.Chunks, Wire.Nested,
          Wire.Join, Encoding.Encodes;
      if timestamp != null {
        timestamp.Imaged();
      }
      Wire.RealOnly(LOC_SCHEMA.fields[0], latitude, 0x09);
      Wire.RealOnly(LOC_SCHEMA.fields[1], longitude, 0x11);
      Wire.RealOnly(LOC_SCHEMA.fields[2], horizontalAccuracy, 0x19);
      Wire.RealOnly(LOC_SCHEMA.fields[3], verticalAccuracy, 0x21);
      Wire.RealOnly(LOC_SCHEMA.fields[4], altitude, 0x29);
      Wire.RealOnly(LOC_SCHEMA.fields[5], course, 0x31);
      Wire.RealOnly(LOC_SCHEMA.fields[6], speed, 0x39);
      Wire.NestedOnly(LOC_SCHEMA.fields[7], TIMESTAMP_SCHEMA, Timestamp.ViewOf(timestamp),
          Timestamp.ImageOf(timestamp), 0x42);
      Wire.OnlyImage(LOC_SCHEMA, View(), Parts());
    }

    lemma ImageSize()
      ensures |Image()| == Encoding.Size(LOC_SCHEMA, View())
    {
      hide View, Image, Wire.IsImage, WellTyped, Encoding.Encodes, Encoding.Size;
      Imaged();
      Wire.ImageSize(LOC_SCHEMA, View(), Image());
    }

    /** What has been marshaled into the buffer is the image of the message. */
    lemma ImageFilled(before: bytes, after: bytes, hi: int, n: nat)
      requires Marshaled(LOC_SCHEMA, View(), before, after, hi, n)
      ensures n <= hi <= |after| && after[hi - n..hi] == Image()
    {
      hide View, Image, Wire.IsImage, WellTyped, Encoding.Encodes, Encoding.Size;
      Imaged();
      Wire.Filled(LOC_SCHEMA, View(), Image(), before, after, hi, n);
    }

    method Size() returns (n: nat)
      requires Encoding.Size(LOC_SCHEMA, View()) < TWO63
      ensures n == Encoding.Size(LOC_SCHEMA, View())
      ensures n == |Image()|
    {
      hide Timestamp.View, Timestamp.Image, Image, Wire.IsImage, Vals, VarintSize, BoolSize, DoubleSize,
          StringSize, MessageSize, Varint.Enc, Encoding.Size, Encoding.SizeFrom, Encoding.MapSize,
          Encoding.SubsSize, WellTyped;
      ghost var m := View();
      SizeAll(LOC_SCHEMA, m);
      var l;
      n := 0;
      l := DoubleSize(latitude, LOC_SCHEMA, m, 0);
      n := n + l;
      l := DoubleSize(longitude, LOC_SCHEMA, m, 1);
      n := n + l;
      l := DoubleSize(horizontalAccuracy, LOC_SCHEMA, m, 2);
      n := n + l;
      l := DoubleSize(verticalAccuracy, LOC_SCHEMA, m, 3);
      n := n + l;
      l := DoubleSize(altitude, LOC_SCHEMA, m, 4);
      n := n + l;
      l := DoubleSize(course, LOC_SCHEMA, m, 5);
      n := n + l;
      l := DoubleSize(speed, LOC_SCHEMA, m, 6);
      n := n + l;
      SizeKnown(LOC_SCHEMA, m, 7);
      l := 0;
      if timestamp != null {
        Encoding.DelimitedCovers(8, Encoding.Size(TIMESTAMP_SCHEMA, timestamp.View()));
        l := timestamp.Size();
        l := MessageSize(l, 8);
      }
      n := n + l;
      n := n + |unrecognized|;
      ImageSize();
    }

    method MarshalToSizedBuffer(dAtA: array<byte>, hi: int) returns (n: nat)
      requires Encoding.Size(LOC_SCHEMA, View()) <= hi <= dAtA.Length < TWO63
      modifies dAtA
      ensures View() == old(View()) && Marshaled(LOC_SCHEMA, View(), old(dAtA[..]), dAtA[..], hi, n)
      ensures n <= hi && dAtA[hi - n..hi] == Image()
    {
      hide Timestamp.View, Timestamp.Image, Image, Wire.IsImage, Vals, Written, Marshaled, Encoding.Size,
          Encoding.SubsSize, WellTyped;
      ghost var m, a := View(), dAtA[..];
      var i := Writing.UnknownField(dAtA, hi, unrecognized, LOC_SCHEMA, m);
      i := MarshalTimestamp(dAtA, i, m, a, hi);
      i := Writing.DoubleField(dAtA, i, speed, 0x39, LOC_SCHEMA, m, 6, a, hi);
      i := Writing.DoubleField(dAtA, i, course, 0x31, LOC_SCHEMA, m, 5, a, hi);
      i := Writing.DoubleField(dAtA, i, altitude, 0x29, LOC_SCHEMA, m, 4, a, hi);
      i := Writing.DoubleField(dAtA, i, verticalAccuracy, 0x21, LOC_SCHEMA, m, 3, a, hi);
      i := Writing.DoubleField(dAtA, i, horizontalAccuracy, 0x19, LOC_SCHEMA, m, 2, a, hi);
      i := Writing.DoubleField(dAtA, i, longitude, 0x11, LOC_SCHEMA, m, 1, a, hi);
      i := Writing.DoubleField(dAtA, i, latitude, 0x9, LOC_SCHEMA, m, 0, a, hi);
      MarshalDone(LOC_SCHEMA, m, a, dAtA[..], hi, i);
      n := hi - i;
      ImageFilled(a, dAtA[..], hi, n);
    }

    /** The sub-message `timestamp`, in the prefix of the buffer that is left. */
    method MarshalTimestamp(dAtA: array<byte>, i: int, ghost m: Msg, ghost before: bytes,
        ghost hi: int) returns (j: int)
      requires View() == m
      requires BeforeField(LOC_SCHEMA, m, 7, Message(TIMESTAMP_SCHEMA), 0x42, before, dAtA[..], hi, i)
      modifies dAtA
      ensures View() == m
      ensures Written(LOC_SCHEMA, m, 7, before, dAtA[..], hi, j)
    {
      hide Timestamp.View, Timestamp.Image, Vals, Written, Marshaled, Encoding.Size, Encoding.SubsSize, WellTyped;
      if timestamp == null {
        NilField(LOC_SCHEMA, m, 7, TIMESTAMP_SCHEMA, 0x42, before, dAtA[..], hi, i);
        return i;
      }
      RoomMessage(LOC_SCHEMA, m, 7, TIMESTAMP_SCHEMA, 0x42, before, dAtA[..], hi, i);
      ghost var mid := dAtA[..];
      var size := timestamp.MarshalToSizedBuffer(dAtA, i);
      j := MessageField(dAtA, i, size, 0x42, LOC_SCHEMA, m, 7, TIMESTAMP_SCHEMA, before, mid, hi);
    }

    method Unmarshal(dAtA: bytes) returns (err: Error)
      requires |dAtA| < MAX_SLICE
      modifies this, timestamp
      ensures timestamp == old(timestamp) || (old(timestamp) == null && fresh(timestamp))
      ensures Unmarshaled(LOC_SCHEMA, old(View()), View(), dAtA, err)
    {
      hide View, Remains, Stepped, Unmarshaled, WellTyped;
      var l, iNdEx := |dAtA|, 0;
      RemainsAll(LOC_SCHEMA, View(), dAtA);
      while iNdEx < l
        invariant 0 <= iNdEx <= l && Remains(LOC_SCHEMA, old(View()), View(), dAtA, iNdEx)
        invariant timestamp == old(timestamp) || (old(timestamp) == null && fresh(timestamp))
        decreases l - iNdEx
      {
        ghost var m, preIndex := View(), iNdEx;
        err, iNdEx := UnmarshalField(dAtA, iNdEx);
        RemainsStep(LOC_SCHEMA, old(View()), m, View(), dAtA, preIndex, err, iNdEx);
        if !err.Nil? {
          return;
        }
      }
      assert iNdEx == l;
      RemainsNone(LOC_SCHEMA, old(View()), View(), dAtA);
      err := Nil;
    }

    /** The switch on the field number inside the loop. */
    method UnmarshalField(dAtA: bytes, preIndex: int64) returns (err: Error, iNdEx: int64)
      requires 0 <= preIndex < |dAtA| < MAX_SLICE
      modifies this, timestamp
      ensures timestamp == old(timestamp) || (old(timestamp) == null && fresh(timestamp))
      ensures Stepped(LOC_SCHEMA, old(View()), View(), dAtA, preIndex, err, iNdEx)
      ensures err.Nil? ==> preIndex < iNdEx <= |dAtA|
    {
      hide View, Timestamp.View, Vals, Header, Step, WellTyped, ValidSchema, Find, Decode, BodyStep, FieldRead,
          Stepped, Unmarshaled;
      ghost var m := View();
      LocSchemaValid();
      var fieldNum, wireType;
      err, fieldNum, wireType, iNdEx := ReadTag(dAtA, preIndex);
      if !err.Nil? {
        HeaderRefused(LOC_SCHEMA, m, View(), dAtA, preIndex, err, iNdEx);
        return;
      }
      match fieldNum {
        case 1 | 2 =>
          err, iNdEx := UnmarshalLatitudeToLongitude(dAtA, preIndex, iNdEx, fieldNum, wireType);
        case 3 | 4 =>
          err, iNdEx := UnmarshalHorizontalAccuracyToVerticalAccuracy(dAtA, preIndex, iNdEx, fieldNum, wireType);
        case 5 | 6 =>
          err, iNdEx := UnmarshalAltitudeToCourse(dAtA, preIndex, iNdEx, fieldNum, wireType);
        case 7 =>
          err, iNdEx := UnmarshalSpeed(dAtA, preIndex, iNdEx, fieldNum, wireType);
        case 8 =>
          err, iNdEx := UnmarshalTimestamp(dAtA, preIndex, iNdEx, fieldNum, wireType);
        case _ =>
          err, iNdEx := UnmarshalUnknown(dAtA, preIndex, iNdEx, fieldNum, wireType);
      }
    }

    /** The cases of the switch from `latitude` to `longitude`. */
    method UnmarshalLatitudeToLongitude(dAtA: bytes, preIndex: int64, start: int64, fieldNum: int32, wireType: nat)
      returns (err: Error, iNdEx: int64)
      requires 0 <= preIndex < start <= |dAtA| < MAX_SLICE
      requires fieldNum == 1 || fieldNum == 2
      requires Header(dAtA[preIndex..]) == Ok(Head(fieldNum, wireType, start - preIndex))
      modifies `latitude, `longitude
      ensures Stepped(LOC_SCHEMA, old(View()), View(), dAtA, preIndex, err, iNdEx)
      ensures err.Nil? ==> preIndex < iNdEx <= |dAtA|
    {
      hide Timestamp.View, Vals, Header, Step, WellTyped, ValidSchema, Find, Decode, BodyStep, FieldRead,
          Stepped, Unmarshaled;
      ghost var m := View();
      LocSchemaValid();
      iNdEx := start;
      match fieldNum {
        case 1 =>
          var v;
          err, v, iNdEx := Reading.DoubleField(dAtA, preIndex, iNdEx, fieldNum, wireType, LOC_SCHEMA, m, 0);
          if err.Nil? {
            latitude := v;
          }
          FieldReadSteps(LOC_SCHEMA, m, 0, Num(v), View(), dAtA, preIndex, err, iNdEx);
        case _ =>
          var v;
          err, v, iNdEx := Reading.DoubleField(dAtA, preIndex, iNdEx, fieldNum, wireType, LOC_SCHEMA, m, 1);
          if err.Nil? {
            longitude := v;
          }
          FieldReadSteps(LOC_SCHEMA, m, 1, Num(v), View(), dAtA, preIndex, err, iNdEx);
      }
    }

    /** The cases of the switch from `horizontalAccuracy` to `verticalAccuracy`. */
    method UnmarshalHorizontalAccuracyToVerticalAccuracy(dAtA: bytes, preIndex: int64, start: int64,
        fieldNum: int32, wireType: nat)
      returns (err: Error, iNdEx: int64)
      requires 0 <= preIndex < start <= |dAtA| < MAX_SLICE
      requires fieldNum == 3 || fieldNum == 4
      requires Header(dAtA[preIndex..]) == Ok(Head(fieldNum, wireType, start - preIndex))
      modifies `horizontalAccuracy, `verticalAccuracy
      ensures Stepped(LOC_SCHEMA, old(View()), View(), dAtA, preIndex, err, iNdEx)
      ensures err.Nil? ==> preIndex < iNdEx <= |dAtA|
    {
      hide Timestamp.View, Vals, Header, Step, WellTyped, ValidSchema, Find, Decode, BodyStep, FieldRead,
          Stepped, Unmarshaled;
      ghost var m := View();
      LocSchemaValid();
      iNdEx := start;
      match fieldNum {
        case 3 =>
          var v;
          err, v, iNdEx := Reading.DoubleField(dAtA, preIndex, iNdEx, fieldNum, wireType, LOC_SCHEMA, m, 2);
          if err.Nil? {
            horizontalAccuracy := v;
          }
          FieldReadSteps(LOC_SCHEMA, m, 2, Num(v), View(), dAtA, preIndex, err, iNdEx);
        case _ =>
          var v;
          err, v, iNdEx := Reading.DoubleField(dAtA, preIndex, iNdEx, fieldNum, wireType, LOC_SCHEMA, m, 3);
          if err.Nil? {
            verticalAccuracy := v;
          }
          FieldReadSteps(LOC_SCHEMA, m, 3, Num(v), View(), dAtA, preIndex, err, iNdEx);
      }
    }

    /** The cases of the switch from `altitude` to `course`. */
    method UnmarshalAltitudeToCourse(dAtA: bytes, preIndex: int64, start: int64, fieldNum: int32, wireType: nat)
      returns (err: Error, iNdEx: int64)
      requires 0 <= preIndex < start <= |dAtA| < MAX_SLICE
      requires fieldNum == 5 || fieldNum == 6
      requires Header(dAtA[preIndex..]) == Ok(Head(fieldNum, wireType, start - preIndex))
      modifies `altitude, `course
      ensures Stepped(LOC_SCHEMA, old(View()), View(), dAtA, preIndex, err, iNdEx)
      ensures err.Nil? ==> preIndex < iNdEx <= |dAtA|
    {
      hide Timestamp.View, Vals, Header, Step, WellTyped, ValidSchema, Find, Decode, BodyStep, FieldRead,
          Stepped, Unmarshaled;
      ghost var m := View();
      LocSchemaValid();
      iNdEx := start;
      match fieldNum {
        case 5 =>
          var v;
          err, v, iNdEx := Reading.DoubleField(dAtA, preIndex, iNdEx, fieldNum, wireType, LOC_SCHEMA, m, 4);
          if err.Nil? {
            altitude := v;
          }
          FieldReadSteps(LOC_SCHEMA, m, 4, Num(v), View(), dAtA, preIndex, err, iNdEx);
        case _ =>
          var v;
          err, v, iNdEx := Reading.DoubleField(dAtA, preIndex, iNdEx, fieldNum, wireType, LOC_SCHEMA, m, 5);
          if err.Nil? {
            course := v;
          }
          FieldReadSteps(LOC_SCHEMA, m, 5, Num(v), View(), dAtA, preIndex, err, iNdEx);
      }
    }

    /** The case of the switch for `speed`. */
    method UnmarshalSpeed(dAtA: bytes, preIndex: int64, start: int64, fieldNum: int32, wireType: nat)
      returns (err: Error, iNdEx: int64)
      requires 0 <= preIndex < start <= |dAtA| < MAX_SLICE
      requires fieldNum == 7
      requires Header(dAtA[preIndex..]) == Ok(Head(fieldNum, wireType, start - preIndex))
      modifies `speed
      ensures Stepped(LOC_SCHEMA, old(View()), View(), dAtA, preIndex, err, iNdEx)
      ensures err.Nil? ==> preIndex < iNdEx <= |dAtA|
    {
      hide Timestamp.View, Vals, Header, Step, WellTyped, ValidSchema, Find, Decode, BodyStep, FieldRead,
          Stepped, Unmarshaled;
      ghost var m := View();
      LocSchemaValid();
      iNdEx := start;
      var v;
      err, v, iNdEx := Reading.DoubleField(dAtA, preIndex, iNdEx, fieldNum, wireType, LOC_SCHEMA, m, 6);
      if err.Nil? {
        speed := v;
      }
      FieldReadSteps(LOC_SCHEMA, m, 6, Num(v), View(), dAtA, preIndex, err, iNdEx);
    }

    /** The default of the switch. */
    method UnmarshalUnknown(dAtA: bytes, preIndex: int64, start: int64, fieldNum: int32, wireType: nat)
      returns (err: Error, iNdEx: int64)
      requires 0 <= preIndex < start <= |dAtA| < MAX_SLICE
      requires fieldNum != 1 && fieldNum != 2 && fieldNum != 3 && fieldNum != 4 && fieldNum != 5
          && fieldNum != 6 && fieldNum != 7 && fieldNum != 8
      requires Header(dAtA[preIndex..]) == Ok(Head(fieldNum, wireType, start - preIndex))
      modifies `unrecognized
      ensures Stepped(LOC_SCHEMA, old(View()), View(), dAtA, preIndex, err, iNdEx)
      ensures err.Nil? ==> preIndex < iNdEx <= |dAtA|
    {
      hide Timestamp.View, Vals, Header, Step, WellTyped, ValidSchema, Find, Decode, BodyStep, FieldRead,
          Stepped, Unmarshaled;
      ghost var m := View();
      LocSchemaValid();
      var raw;
      err, raw, iNdEx := Reading.UnknownField(dAtA, preIndex, LOC_SCHEMA, m);
      if err.Nil? {
        unrecognized := unrecognized + raw;
        assert View() == m.(unknown := m.unknown + raw);
      } else {
        StepRefused(LOC_SCHEMA, m, View(), dAtA, preIndex, err, iNdEx);
      }
    }

    /** Reads a body onto `timestamp`, which is made first if it is nil. */
    method ReadTimestamp(body: bytes) returns (err: Error, ghost base: Msg, ghost x: Msg)
      requires |body| < MAX_SLICE
      modifies `timestamp, timestamp
      ensures timestamp == old(timestamp) || (old(timestamp) == null && fresh(timestamp))
      ensures View().unknown == old(View().unknown)
      ensures Updated(View().vals, old(View()).vals, 7, Sub(Some(x)))
      ensures var was := old(View()).vals[7].sub; base == if was.Some? then was.value else Empty(TIMESTAMP_SCHEMA)
      ensures WellTyped(TIMESTAMP_SCHEMA, base) && Unmarshaled(TIMESTAMP_SCHEMA, base, x, body, err)
    {
      hide Timestamp.View, Vals, WellTyped, Unmarshaled;
      if timestamp == null {
        timestamp := new Timestamp();
      }
      base := timestamp.View();
      err := timestamp.Unmarshal(body);
      x := timestamp.View();
    }

    /** The case of the switch for the sub-message `timestamp`. */
    method UnmarshalTimestamp(dAtA: bytes, preIndex: int64, start: int64, fieldNum: int32, wireType: nat)
      returns (err: Error, iNdEx: int64)
      requires AtField(LOC_SCHEMA, View(), 7, dAtA, preIndex, start, fieldNum, wireType)
      modifies `timestamp, timestamp
      ensures timestamp == old(timestamp) || (old(timestamp) == null && fresh(timestamp))
      ensures Stepped(LOC_SCHEMA, old(View()), View(), dAtA, preIndex, err, iNdEx)
      ensures err.Nil? ==> preIndex < iNdEx <= |dAtA|
    {
      hide View, Vals, Step, WellTyped, ValidSchema, BodyStep, FieldRead, Stepped, Unmarshaled, Updated;
      ghost var m := View();
      var postIndex;
      err, iNdEx, postIndex := LengthField(dAtA, preIndex, start, fieldNum, wireType, LOC_SCHEMA, m, 7);
      if !err.Nil? {
        StepRefused(LOC_SCHEMA, m, View(), dAtA, preIndex, err, iNdEx);
        return;
      }
      ghost var base, x;
      err, base, x := ReadTimestamp(dAtA[iNdEx..postIndex]);
      MessageRead(LOC_SCHEMA, m, 7, TIMESTAMP_SCHEMA, base, x, dAtA, preIndex, err, iNdEx, postIndex);
      iNdEx := postIndex;
      FieldReadSteps(LOC_SCHEMA, m, 7, Sub(Some(x)), View(), dAtA, preIndex, err, iNdEx);
    }

    //
    // One record read
    //

    /** What it means that the value of field k has become v. */
    twostate lemma Became(new k: nat, new v: Val)
      requires k < 8
      requires View() == old(View()).(vals := old(View()).vals[k := v])
      ensures unrecognized == old(unrecognized)
      ensures if k == 0 then Num(latitude) == v else latitude == old(latitude)
      ensures if k == 1 then Num(longitude) == v else longitude == old(longitude)
      ensures if k == 2 then Num(horizontalAccuracy) == v else horizontalAccuracy == old(horizontalAccuracy)
      ensures if k == 3 then Num(verticalAccuracy) == v else verticalAccuracy == old(verticalAccuracy)
      ensures if k == 4 then Num(altitude) == v else altitude == old(altitude)
      ensures if k == 5 then Num(course) == v else course == old(course)
      ensures if k == 6 then Num(speed) == v else speed == old(speed)
      ensures if k == 7 then Sub(Timestamp.ViewOf(timestamp)) == v
              else Timestamp.ViewOf(timestamp) == old(Timestamp.ViewOf(timestamp))
    {
      hide Timestamp.View, Timestamp.Image, WellTyped, Int32Word, Int64Word;
      ghost var was, now := old(View()).vals, View().vals;
      assert now[0] == if k == 0 then v else was[0];
      assert now[1] == if k == 1 then v else was[1];
      assert now[2] == if k == 2 then v else was[2];
      assert now[3] == if k == 3 then v else was[3];
      assert now[4] == if k == 4 then v else was[4];
      assert now[5] == if k == 5 then v else was[5];
      assert now[6] == if k == 6 then v else was[6];
      assert now[7] == if k == 7 then v else was[7];
    }

    /** What `Unmarshal` makes of one double. */
    twostate lemma RealFromWire(new tag: byte, new bits: uint64, new err: Error)
      requires tag == 0x09 || tag == 0x11 || tag == 0x19 || tag == 0x21 || tag == 0x29 || tag == 0x31 || tag == 0x39
      requires Unmarshaled(LOC_SCHEMA, old(View()), View(), [tag] + Wire.Eight(bits), err)
      ensures err.Nil? && unrecognized == old(unrecognized)
      ensures if tag == 0x09 then latitude == bits else latitude == old(latitude)
      ensures if tag == 0x11 then longitude == bits else longitude == old(longitude)
      ensures if tag == 0x19 then horizontalAccuracy == bits else horizontalAccuracy == old(horizontalAccuracy)
      ensures if tag == 0x21 then verticalAccuracy == bits else verticalAccuracy == old(verticalAccuracy)
      ensures if tag == 0x29 then altitude == bits else altitude == old(altitude)
      ensures if tag == 0x31 then course == bits else course == old(course)
      ensures if tag == 0x39 then speed == bits else speed == old(speed)
      ensures Timestamp.ViewOf(timestamp) == old(Timestamp.ViewOf(timestamp))
    {
      hide View, Timestamp.View, Timestamp.Image, Vals, WellTyped, Decode, ValidSchema, Int32Word, Int64Word,
          Narrow;
      LocSchemaValid();
      var k := if tag == 0x09 then 0 else if tag == 0x11 then 1 else if tag == 0x19 then 2
               else if tag == 0x21 then 3 else if tag == 0x29 then 4 else if tag == 0x31 then 5 else 6;
      Wire.ReadsReal(LOC_SCHEMA, old(View()), k, tag, bits);
      Became(k, Num(bits));
    }

    /** What `Unmarshal` makes of one body of `timestamp`: it is read onto what is there. */
    twostate lemma TimestampFromWire(new body: bytes, new base: Msg, new x: Msg, new err: Error)
      requires |body| < 0x8000_0000_0000_0000
      requires base == if old(timestamp) == null then Empty(TIMESTAMP_SCHEMA)
                       else old(Timestamp.ViewOf(timestamp)).value
      requires WellTyped(TIMESTAMP_SCHEMA, base) && Decode(TIMESTAMP_SCHEMA, base, body) == Ok(x)
      requires Unmarshaled(LOC_SCHEMA, old(View()), View(), Wire.Chunk([0x42], body), err)
      ensures err.Nil? && unrecognized == old(unrecognized)
      ensures timestamp != null && timestamp.View() == x
      ensures latitude == old(latitude)
      ensures longitude == old(longitude)
      ensures horizontalAccuracy == old(horizontalAccuracy)
      ensures verticalAccuracy == old(verticalAccuracy)
      ensures altitude == old(altitude)
      ensures course == old(course)
      ensures speed == old(speed)
    {
      hide View, Timestamp.View, Timestamp.Image, Vals, WellTyped, Decode, ValidSchema, Int32Word, Int64Word,
          Narrow;
      LocSchemaValid();
      WasTimestamp();
      Wire.ReadsNested(LOC_SCHEMA, old(View()), 7, 0x42, TIMESTAMP_SCHEMA, body, base, x);
      Became(7, Sub(Some(x)));
    }

    twostate lemma WasTimestamp()
      ensures |old(View()).vals| == 8 && old(View()).vals[7] == Sub(old(Timestamp.ViewOf(timestamp)))
    {
      hide Timestamp.View, Timestamp.Image, WellTyped;
    }

    //
    // Copying
    //

    static ghost function Items(latitude: uint64, longitude: uint64, horizontalAccuracy: uint64,
        verticalAccuracy: uint64, altitude: uint64, course: uint64, speed: uint64,
        timestamp: Option<Tree>): (items: seq<Item>)
      ensures |items| == 8
      ensures items[0] == Real(latitude)
      ensures items[1] == Real(longitude)
      ensures items[2] == Real(horizontalAccuracy)
      ensures items[3] == Real(verticalAccuracy)
      ensures items[4] == Real(altitude)
      ensures items[5] == Real(course)
      ensures items[6] == Real(speed)
      ensures items[7] == One(timestamp)
    {
      [Real(latitude), Real(longitude), Real(horizontalAccuracy), Real(verticalAccuracy), Real(altitude),
       Real(course), Real(speed), One(timestamp)]
    }

    /** The message as copying sees it. */
    ghost function Fields(): (t: Tree)
      reads this, timestamp
      ensures |t.items| == 8
    {
      Tree(Items(latitude, longitude, horizontalAccuracy, verticalAccuracy, altitude, course, speed,
          Timestamp.FieldsOf(timestamp)), unrecognized)
    }

    /** The sub-message of a message that may be nil. */
    static ghost function StampOf(x: Loc?): Timestamp?
      reads x
    {
      if x == null then null else x.timestamp
    }

    /** A message that may be nil, as copying sees it. */
    static ghost function FieldsOf(x: Loc?): Option<Tree>
      reads x, StampOf(x)
    {
      if x != null then Some(x.Fields()) else None
    }

    /** A new message is the zero of its type. */
    lemma NewFields(src: Loc)
      requires latitude == 0 && longitude == 0 && horizontalAccuracy == 0 && verticalAccuracy == 0
          && altitude == 0 && course == 0 && speed == 0 && timestamp == null && unrecognized == []
      ensures Fields() == Zero(src.Fields())
    {
      hide Items;
      assert Fields().items == Zero(src.Fields()).items;
    }

    lemma FieldsOnWire()
      ensures ToMsg(Fields()) == View()
    {
      if timestamp != null {
        timestamp.FieldsOnWire();
      }
      hide Items, Vals, ToMsg, WellTyped, Timestamp.Fields, Timestamp.View;
      assert ToVal(Fields().items[7]) == View().vals[7];
      ghost var items, vals := Fields().items, View().vals;
      assert ToVal(items[0]) == vals[0];
      assert ToVal(items[1]) == vals[1];
      assert ToVal(items[2]) == vals[2];
      assert ToVal(items[3]) == vals[3];
      assert ToVal(items[4]) == vals[4];
      assert ToVal(items[5]) == vals[5];
      assert ToVal(items[6]) == vals[6];
      assert ToMsg(Fields()).vals == View().vals;
    }

    /** The messages have the same declared fields, at every level. A float may be either zero where the
        other is. */
    ghost predicate Equals(o: Loc)
      reads this, timestamp, o, o.timestamp
    {
      && (latitude == o.latitude || (latitude % 0x8000_0000_0000_0000 == 0
          && o.latitude % 0x8000_0000_0000_0000 == 0))
      && (longitude == o.longitude || (longitude % 0x8000_0000_0000_0000 == 0
          && o.longitude % 0x8000_0000_0000_0000 == 0))
      && (horizontalAccuracy == o.horizontalAccuracy || (horizontalAccuracy % 0x8000_0000_0000_0000 == 0
          && o.horizontalAccuracy % 0x8000_0000_0000_0000 == 0))
      && (verticalAccuracy == o.verticalAccuracy || (verticalAccuracy % 0x8000_0000_0000_0000 == 0
          && o.verticalAccuracy % 0x8000_0000_0000_0000 == 0))
      && (altitude == o.altitude || (altitude % 0x8000_0000_0000_0000 == 0
          && o.altitude % 0x8000_0000_0000_0000 == 0))
      && (course == o.course || (course % 0x8000_0000_0000_0000 == 0 && o.course % 0x8000_0000_0000_0000 == 0))
      && (speed == o.speed || (speed % 0x8000_0000_0000_0000 == 0 && o.speed % 0x8000_0000_0000_0000 == 0))
      && (timestamp == null <==> o.timestamp == null)
      && (timestamp != null && o.timestamp != null ==> timestamp.Equals(o.timestamp))
    }

    /** The same to copying is the same field by field. */
    lemma SameIsEqual(o: Loc)
      requires SameTree(Fields(), o.Fields())
      ensures Equals(o)
    {
      hide Timestamp.Fields, Timestamp.View, Timestamp.Equals, Items;
      ghost var r, s := Fields().items, o.Fields().items;
      assert SameItem(r[0], s[0]);
      assert SameItem(r[1], s[1]);
      assert SameItem(r[2], s[2]);
      assert SameItem(r[3], s[3]);
      assert SameItem(r[4], s[4]);
      assert SameItem(r[5], s[5]);
      assert SameItem(r[6], s[6]);
      assert SameItem(r[7], s[7]);
      if timestamp != null && o.timestamp != null {
        timestamp.SameIsEqual(o.timestamp);
      }
    }

    lemma FieldsUnknown()
      ensures Fields().unknown == unrecognized
    {
    }

    lemma TimestampItem()
      ensures |Fields().items| == 8 && Fields().items[7] == One(Timestamp.FieldsOf(timestamp))
    {
      hide Timestamp.FieldsOf, Items;
    }

    /** What a copy of `timestamp` leaves as it was. */
    twostate lemma TimestampAside()
      requires unrecognized == old(unrecognized)
      requires latitude == old(latitude)
      requires longitude == old(longitude)
      requires horizontalAccuracy == old(horizontalAccuracy)
      requires verticalAccuracy == old(verticalAccuracy)
      requires altitude == old(altitude)
      requires course == old(course)
      requires speed == old(speed)
      ensures ItemsKept(Fields(), old(Fields()), 7, 8)
    {
      hide Timestamp.FieldsOf, Items;
    }

    /** What copying the fields from `latitude` to `verticalAccuracy` does to the message. */
    twostate lemma LatitudeToVerticalAccuracySet(new src: Loc, new m: Tree, new s: Tree, new before: int,
        new changed: int)
      requires src.Fields() == s
      requires CopiedUpTo(old(Fields()), m, s, 0, before)
      requires unrecognized == old(unrecognized)
      requires latitude == FloatCopied(old(latitude), src.latitude)
      requires longitude == FloatCopied(old(longitude), src.longitude)
      requires horizontalAccuracy == FloatCopied(old(horizontalAccuracy), src.horizontalAccuracy)
      requires verticalAccuracy == FloatCopied(old(verticalAccuracy), src.verticalAccuracy)
      requires altitude == old(altitude)
      requires course == old(course)
      requires speed == old(speed)
      requires Timestamp.FieldsOf(timestamp) == old(Timestamp.FieldsOf(timestamp))
      requires changed == before +
                 (if FloatEq(old(latitude), src.latitude) then 0 else 1) +
                 (if FloatEq(old(longitude), src.longitude) then 0 else 1) +
                 (if FloatEq(old(horizontalAccuracy), src.horizontalAccuracy) then 0 else 1) +
                 (if FloatEq(old(verticalAccuracy), src.verticalAccuracy) then 0 else 1)
      ensures CopiedUpTo(Fields(), m, s, 4, changed)
    {
      hide Timestamp.Fields, Timestamp.View, Timestamp.FieldsOf, Items, CopiedUpTo, CopyItem, Changes, FloatEq;
      RealItem(old(Fields()).items[0], s.items[0]);
      RealItem(old(Fields()).items[1], s.items[1]);
      RealItem(old(Fields()).items[2], s.items[2]);
      RealItem(old(Fields()).items[3], s.items[3]);
      CopySpan(old(Fields()), Fields(), m, s, 0, 4, before, changed);
    }

    /** What copying the fields from `altitude` to `speed` does to the message. */
    twostate lemma AltitudeToSpeedSet(new src: Loc, new m: Tree, new s: Tree, new before: int, new changed: int)
      requires src.Fields() == s
      requires CopiedUpTo(old(Fields()), m, s, 4, before)
      requires unrecognized == old(unrecognized)
      requires latitude == old(latitude)
      requires longitude == old(longitude)
      requires horizontalAccuracy == old(horizontalAccuracy)
      requires verticalAccuracy == old(verticalAccuracy)
      requires altitude == FloatCopied(old(altitude), src.altitude)
      requires course == FloatCopied(old(course), src.course)
      requires speed == FloatCopied(old(speed), src.speed)
      requires Timestamp.FieldsOf(timestamp) == old(Timestamp.FieldsOf(timestamp))
      requires changed == before +
                 (if FloatEq(old(altitude), src.altitude) then 0 else 1) +
                 (if FloatEq(old(course), src.course) then 0 else 1) +
                 (if FloatEq(old(speed), src.speed) then 0 else 1)
      ensures CopiedUpTo(Fields(), m, s, 7, changed)
    {
      hide Timestamp.Fields, Timestamp.View, Timestamp.FieldsOf, Items, CopiedUpTo, CopyItem, Changes, FloatEq;
      RealItem(old(Fields()).items[4], s.items[4]);
      RealItem(old(Fields()).items[5], s.items[5]);
      RealItem(old(Fields()).items[6], s.items[6]);
      CopySpan(old(Fields()), Fields(), m, s, 4, 7, before, changed);
    }

    /** Inside `timestamp`: the fields from `seconds` to `nanos`. */
    method CopyTimestampSecondsToNanos(src: Loc, before: int, ghost m: Tree, ghost s: Tree) returns (changed: int)
      requires timestamp != null && src != this && src.timestamp != null && src.timestamp != timestamp
      requires src.timestamp.Fields() == s && CopiedUpTo(timestamp.Fields(), m, s, 0, before)
      modifies timestamp`seconds, timestamp`nanos
      ensures src.timestamp.Fields() == s && CopiedUpTo(timestamp.Fields(), m, s, 2, changed)
    {
      hide Timestamp.Items, CopiedUpTo, CopyTree, TreeChanges, CopyItem, Changes, FloatEq, Timestamp.Fields;
      changed := before;
      if timestamp.seconds != src.timestamp.seconds {
        timestamp.seconds := src.timestamp.seconds;
        changed := changed + 1;
      }
      if timestamp.nanos != src.timestamp.nanos {
        timestamp.nanos := src.timestamp.nanos;
        changed := changed + 1;
      }
      timestamp.SecondsToNanosSet(src.timestamp, m, s, before, changed);
    }

    /** The inlined copy of `timestamp`: into the one that is there, or into a new one. */
    method TakeTimestamp(src: Loc, before: int) returns (changed: int)
      requires src != this && (timestamp != null ==> src.timestamp != timestamp)
      modifies `timestamp, timestamp
      ensures timestamp == null || timestamp == old(timestamp) || (old(timestamp) == null && fresh(timestamp))
      ensures OneTaken(Timestamp.FieldsOf(timestamp), old(Timestamp.FieldsOf(timestamp)),
          old(Timestamp.FieldsOf(src.timestamp)), before, changed)
      ensures Timestamp.FieldsOf(src.timestamp) == old(Timestamp.FieldsOf(src.timestamp))
    {
      hide Timestamp.Items, CopiedUpTo, CopyTree, TreeChanges, CopyItem, Changes, FloatEq, Timestamp.Fields;
      changed := before;
      if src.timestamp != null {
        ghost var s := src.timestamp.Fields();
        ghost var b := Onto(One(Timestamp.FieldsOf(timestamp)), s);
        if timestamp == null {
          timestamp := new Timestamp();
          timestamp.NewFields(src.timestamp);
        }
        ghost var m := timestamp.Fields();
        assert m == b;
        CopyStart(m, s);
        var count := 0;
        count := CopyTimestampSecondsToNanos(src, count, m, s);
        CopyDone(timestamp.Fields(), m, s, count);
        changed := changed + count;
      } else if timestamp != null {
        timestamp := null;
        changed := changed + 1;
      }
    }

    /** The sub-message `timestamp` of a deep copy. */
    method CloneTimestamp(src: Loc)
      requires src != this
      modifies `timestamp
      ensures timestamp == null <==> src.timestamp == null
      ensures timestamp != null ==> fresh(timestamp)
      ensures timestamp != null ==> timestamp.Fields() == Bare(old(src.timestamp.Fields()))
    {
      hide Timestamp.Fields;
      if src.timestamp != null {
        var tmp := new Timestamp();
        tmp.DeepCopyIn(src.timestamp);
        timestamp := tmp;
      } else {
        timestamp := null;
      }
    }

    /** Messages of the same type are alike. */
    lemma FieldsAlike(src: Loc)
      ensures Alike(Fields(), src.Fields())
    {
      hide Timestamp.Fields, Timestamp.Items, Items;
      if timestamp != null && src.timestamp != null {
        timestamp.FieldsAlike(src.timestamp);
      }
      assert AlikeItem(Fields().items[0], src.Fields().items[0]);
      assert AlikeItem(Fields().items[1], src.Fields().items[1]);
      assert AlikeItem(Fields().items[2], src.Fields().items[2]);
      assert AlikeItem(Fields().items[3], src.Fields().items[3]);
      assert AlikeItem(Fields().items[4], src.Fields().items[4]);
      assert AlikeItem(Fields().items[5], src.Fields().items[5]);
      assert AlikeItem(Fields().items[6], src.Fields().items[6]);
      assert AlikeItem(Fields().items[7], src.Fields().items[7]);
    }

    /** The fields from `latitude` to `verticalAccuracy`. */
    method CopyLatitudeToVerticalAccuracy(src: Loc, before: int, ghost m: Tree, ghost s: Tree)
        returns (changed: int)
      requires src != this && (timestamp != null ==> timestamp != src.timestamp)
      requires src.Fields() == s && CopiedUpTo(Fields(), m, s, 0, before)
      modifies `latitude, `longitude, `horizontalAccuracy, `verticalAccuracy
      ensures src.Fields() == s && CopiedUpTo(Fields(), m, s, 4, changed)
    {
      hide Fields, Timestamp.Items, Timestamp.Fields, Items, CopiedUpTo, CopyTree, TreeChanges, CopyItem,
          Changes, FloatEq;
      changed := before;
      if !FloatEq(latitude, src.latitude) {
        latitude := src.latitude;
        changed := changed + 1;
      }
      if !FloatEq(longitude, src.longitude) {
        longitude := src.longitude;
        changed := changed + 1;
      }
      if !FloatEq(horizontalAccuracy, src.horizontalAccuracy) {
        horizontalAccuracy := src.horizontalAccuracy;
        changed := changed + 1;
      }
      if !FloatEq(verticalAccuracy, src.verticalAccuracy) {
        verticalAccuracy := src.verticalAccuracy;
        changed := changed + 1;
      }
      LatitudeToVerticalAccuracySet(src, m, s, before, changed);
    }

    /** The fields from `altitude` to `speed`. */
    method CopyAltitudeToSpeed(src: Loc, before: int, ghost m: Tree, ghost s: Tree) returns (changed: int)
      requires src != this && (timestamp != null ==> timestamp != src.timestamp)
      requires src.Fields() == s && CopiedUpTo(Fields(), m, s, 4, before)
      modifies `altitude, `course, `speed
      ensures src.Fields() == s && CopiedUpTo(Fields(), m, s, 7, changed)
    {
      hide Fields, Timestamp.Items, Timestamp.Fields, Items, CopiedUpTo, CopyTree, TreeChanges, CopyItem,
          Changes, FloatEq;
      changed := before;
      if !FloatEq(altitude, src.altitude) {
        altitude := src.altitude;
        changed := changed + 1;
      }
      if !FloatEq(course, src.course) {
        course := src.course;
        changed := changed + 1;
      }
      if !FloatEq(speed, src.speed) {
        speed := src.speed;
        changed := changed + 1;
      }
      AltitudeToSpeedSet(src, m, s, before, changed);
    }

    /** The sub-message `timestamp`. */
    method CopyTimestamp(src: Loc, before: int, ghost m: Tree, ghost s: Tree) returns (changed: int)
      requires src != this && (timestamp != null ==> timestamp != src.timestamp)
      requires src.Fields() == s && CopiedUpTo(Fields(), m, s, 7, before)
      modifies `timestamp, timestamp
      ensures timestamp == null || timestamp == old(timestamp) || (old(timestamp) == null && fresh(timestamp))
      ensures src.Fields() == s && CopiedUpTo(Fields(), m, s, 8, changed)
    {
      hide Fields, Timestamp.Items, Timestamp.Fields, Items, CopiedUpTo, CopyTree, TreeChanges, CopyItem,
          Changes, FloatEq;
      ghost var r := Fields();
      changed := before;
      TimestampItem();
      src.TimestampItem();
      changed := TakeTimestamp(src, changed);
      TimestampItem();
      TimestampAside();
      CopyOne(r, Fields(), m, s, 7, before, changed);
    }

    method CopyInFields(src: Loc) returns (changed: int)
      requires src != this && (timestamp != null ==> timestamp != src.timestamp)
      modifies this, timestamp
      ensures timestamp == null || timestamp == old(timestamp) || (old(timestamp) == null && fresh(timestamp))
      ensures src.Fields() == old(src.Fields())
      ensures Fields() == CopyTree(old(Fields()), old(src.Fields()))
      ensures changed == TreeChanges(old(Fields()), old(src.Fields()))
      ensures SameTree(Fields(), src.Fields()) && (changed == 0 ==> Untouched(old(Fields()), Fields()))
      ensures Equals(src) && unrecognized == old(unrecognized)
    {
      hide Fields, Timestamp.Items, Timestamp.Fields, Items, CopiedUpTo, CopyTree, TreeChanges, CopyItem,
          Changes, FloatEq, SameTree, Untouched, Alike, Equals;
      ghost var m, s := Fields(), src.Fields();
      FieldsAlike(src);
      FieldsUnknown();
      changed := 0;
      CopyStart(m, s);
      changed := CopyLatitudeToVerticalAccuracy(src, changed, m, s);
      changed := CopyAltitudeToSpeed(src, changed, m, s);
      changed := CopyTimestamp(src, changed, m, s);
      CopyDone(Fields(), m, s, changed);
      CopyAgrees(m, s);
      SameIsEqual(src);
      FieldsUnknown();
      if changed == 0 {
        NoChanges(m, s);
      }
    }

    /** The fields of a deep copy. */
    lemma DeepCopied(src: Loc)
      requires latitude == src.latitude
      requires longitude == src.longitude
      requires horizontalAccuracy == src.horizontalAccuracy
      requires verticalAccuracy == src.verticalAccuracy
      requires altitude == src.altitude
      requires course == src.course
      requires speed == src.speed
      requires timestamp == null <==> src.timestamp == null
      requires timestamp != null ==> timestamp.Fields() == Bare(src.timestamp.Fields())
      ensures Fields() == Bare(src.Fields()).(unknown := unrecognized)
    {
      hide Timestamp.Fields, Timestamp.View, Items, Bare, Bares;
      BareFields(Fields(), src.Fields());
    }

    method DeepCopyIn(src: Loc)
      requires src != this
      modifies this
      ensures timestamp != null ==> fresh(timestamp)
      ensures Fields() == Bare(old(src.Fields())).(unknown := old(unrecognized))
      ensures Equals(src) && latitude == src.latitude && longitude == src.longitude
          && horizontalAccuracy == src.horizontalAccuracy && verticalAccuracy == src.verticalAccuracy
          && altitude == src.altitude && course == src.course && speed == src.speed
          && unrecognized == old(unrecognized)
    {
      hide Fields, Timestamp.Fields, Timestamp.View, Items, Bare, Bares, SameTree, Equals;
      latitude := src.latitude;
      longitude := src.longitude;
      horizontalAccuracy := src.horizontalAccuracy;
      verticalAccuracy := src.verticalAccuracy;
      altitude := src.altitude;
      course := src.course;
      speed := src.speed;
      CloneTimestamp(src);
      DeepCopied(src);
      BareSame(Fields(), src.Fields(), unrecognized);
      SameIsEqual(src);
    }

    method Clone() returns (cp: Loc)
      ensures fresh(cp) && (cp.timestamp != null ==> fresh(cp.timestamp))
      ensures cp.Fields() == Bare(old(Fields())) && SameTree(cp.Fields(), old(Fields()))
      ensures cp.Equals(this) && cp.unrecognized == []
      ensures cp.View() == Cleared(old(View()))
    {
      hide SameTree, Equals;
      BareAgrees(Fields());
      FieldsOnWire();
      BareOnWire(Fields());
      cp := new Loc();
      cp.DeepCopyIn(this);
      cp.FieldsOnWire();
    }
  }
}
