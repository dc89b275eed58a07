/** The message of appcommon.pb.go that the others contain: AppPort. */
module AppCommon {
  import opened GoInts
  import opened Errors
  import opened Schemas
  import opened Decoding
  import opened Reading
  import opened Writing
  import opened Copying
  import Encoding
  import Records
  import Varint
  import Wire

  const APP_PORT_SCHEMA := Schema([
    Field(1, Int32), Field(2, Int32), Field(3, Int32), Field(5, String), Field(6, Int32),
    Field(7, Bool), Field(8, Bool), Field(9, Int64)
  ])

  lemma AppPortSchemaValid()
    ensures ValidSchema(APP_PORT_SCHEMA)
  {
    IncreasingValid(APP_PORT_SCHEMA);
  }

  class AppPort {
    var proto: int32
    var internalPort: int32
    var publicPort: int32
    var fqdnPrefix: bytes
    var endPort: int32
    var tls: bool
    var nginx: bool
    var maxPktSize: int64
    var unrecognized: bytes

    constructor ()
      ensures proto == 0 && internalPort == 0 && publicPort == 0 && fqdnPrefix == [] && endPort == 0
          && tls == false && nginx == false && maxPktSize == 0 && unrecognized == []
      ensures View() == Empty(APP_PORT_SCHEMA)
    {
      proto := 0;
      internalPort := 0;
      publicPort := 0;
      fqdnPrefix := [];
      endPort := 0;
      tls := false;
      nginx := false;
      maxPktSize := 0;
      unrecognized := [];
      new;
      hide View;
      Blank();
    }

    lemma Blank()
      requires proto == 0 && internalPort == 0 && publicPort == 0 && fqdnPrefix == [] && endPort == 0
          && tls == false && nginx == false && maxPktSize == 0 && unrecognized == []
      ensures View() == Empty(APP_PORT_SCHEMA)
    {
      assert View().vals == Empty(APP_PORT_SCHEMA).vals;
    }

    /** The values of the fields, in the order of the schema. */
    static ghost function Vals(proto: int32, internalPort: int32, publicPort: int32, fqdnPrefix: bytes,
        endPort: int32, tls: bool, nginx: bool, maxPktSize: int64): (vals: seq<Val>)
      ensures |vals| == 8 && forall u :: WellTyped(APP_PORT_SCHEMA, Msg(vals, u))
      ensures vals[0] == Num(Int32Word(proto))
      ensures vals[1] == Num(Int32Word(internalPort))
      ensures vals[2] == Num(Int32Word(publicPort))
      ensures vals[3] == Str(fqdnPrefix)
      ensures vals[4] == Num(Int32Word(endPort))
      ensures vals[5] == Num(BoolWord(tls))
      ensures vals[6] == Num(BoolWord(nginx))
      ensures vals[7] == Num(Int64Word(maxPktSize))
    {
      [Num(Int32Word(proto)), Num(Int32Word(internalPort)), Num(Int32Word(publicPort)), Str(fqdnPrefix),
       Num(Int32Word(endPort)), Num(BoolWord(tls)), Num(BoolWord(nginx)), Num(Int64Word(maxPktSize))]
    }

    ghost function View(): (m: Msg)
      reads this
      ensures WellTyped(APP_PORT_SCHEMA, m)
    {
      Msg(Vals(proto, internalPort, publicPort, fqdnPrefix, endPort, tls, nginx, maxPktSize), unrecognized)
    }

    static ghost function Views(xs: seq<AppPort>): (ms: seq<Msg>)
      reads xs
      ensures |ms| == |xs| && forall i :: 0 <= i < |ms| ==> ms[i] == xs[i].View()
    {
      seq(|xs|, i requires 0 <= i < |xs| reads xs => xs[i].View())
    }

    static lemma ViewsTyped(xs: seq<AppPort>)
      ensures forall i :: 0 <= i < |xs| ==> WellTyped(APP_PORT_SCHEMA, Views(xs)[i])
    {
      hide AppPort.View, AppPort.Views, WellTyped;
    }

    static twostate lemma {:induction false} ViewsKept(xs: seq<AppPort>)
      requires forall x :: x in xs ==> x.View() == old(x.View())
      ensures Views(xs) == old(Views(xs))
    {
      hide AppPort.View, AppPort.Vals;
      if xs != [] {
        assert xs[0] in xs;
        ViewsKept(xs[1..]);
      }
    }

    static lemma ViewsAppend(xs: seq<AppPort>, x: AppPort)
      ensures Views(xs + [x]) == Views(xs) + [x.View()]
    {
    }

    //
    // On the wire
    //

    /** The bytes of the message: its fields in order, each behind its tag, and the unknown bytes. */
    ghost function Image(): bytes
      reads this
    {
      Wire.Join(Parts())
    }

    ghost function Parts(): (parts: seq<bytes>)
      reads this
    {
      [
        Wire.Number(0x08, Wire.Word64(proto)),
        Wire.Number(0x10, Wire.Word64(internalPort)),
        Wire.Number(0x18, Wire.Word64(publicPort)),
        Wire.Text(0x2A, fqdnPrefix),
        Wire.Number(0x30, Wire.Word64(endPort)),
        Wire.Number(0x38, if tls then 1 else 0),
        Wire.Number(0x40, if nginx then 1 else 0),
        Wire.Number(0x48, Wire.Word64(maxPktSize)),
        unrecognized
      ]
    }

    static ghost function Images(xs: seq<AppPort>): (bs: seq<bytes>)
      reads xs
      ensures |bs| == |xs| && forall i :: 0 <= i < |bs| ==> bs[i] == xs[i].Image()
    {
      seq(|xs|, i requires 0 <= i < |xs| reads xs => xs[i].Image())
    }

    /** Each element is written as its image. */
    static lemma AllImaged(xs: seq<AppPort>)
      ensures forall i :: 0 <= i < |xs| ==>
                WellTyped(APP_PORT_SCHEMA, Views(xs)[i]) && Wire.IsImage(APP_PORT_SCHEMA, Views(xs)[i],
                    Images(xs)[i])
    {
      hide AppPort.View, AppPort.Image, Wire.IsImage, WellTyped;
      ViewsTyped(xs);
      forall i | 0 <= i < |xs| ensures Wire.IsImage(APP_PORT_SCHEMA, Views(xs)[i], Images(xs)[i]) {
        xs[i].Imaged();
      }
    }

    /** What the fields from `proto` to `fqdnPrefix` are written as. */
    lemma ProtoToFqdnPrefixOnly()
      ensures Wire.OnlyAt(APP_PORT_SCHEMA, View(), Parts(), 0)
      ensures Wire.OnlyAt(APP_PORT_SCHEMA, View(), Parts(), 1)
      ensures Wire.OnlyAt(APP_PORT_SCHEMA, View(), Parts(), 2)
      ensures Wire.OnlyAt(APP_PORT_SCHEMA, View(), Parts(), 3)
    {
      hide Vals, HasType, WellTyped, Int32Word, Int64Word, BoolWord, Wire.Word64, Narrow, Wire.Only,
          Wire.Number, Wire.Real, Wire.Text, Wire.Chunks, Wire.Nested, Wire.Join, Encoding.Encodes;
      Wire.Int32Only(APP_PORT_SCHEMA.fields[0], proto, 0x08);
      Wire.Int32Only(APP_PORT_SCHEMA.fields[1], internalPort, 0x10);
      Wire.Int32Only(APP_PORT_SCHEMA.fields[2], publicPort, 0x18);
      Wire.TextOnly(APP_PORT_SCHEMA.fields[3], fqdnPrefix, 0x2A);
    }

    /** What the fields from `endPort` to `maxPktSize` are written as. */
    lemma EndPortToMaxPktSizeOnly()
      ensures Wire.OnlyAt(APP_PORT_SCHEMA, View(), Parts(), 4)
      ensures Wire.OnlyAt(APP_PORT_SCHEMA, View(), Parts(), 5)
      ensures Wire.OnlyAt(APP_PORT_SCHEMA, View(), Parts(), 6)
      ensures Wire.OnlyAt(APP_PORT_SCHEMA, View(), Parts(), 7)
    {
      hide Vals, HasType, WellTyped, Int32Word, Int64Word, BoolWord, Wire.Word64, Narrow, Wire.Only,
          Wire.Number, Wire.Real, Wire.Text, Wire.Chunks, Wire.Nested, Wire.Join, Encoding.Encodes;
      Wire.Int32Only(APP_PORT_SCHEMA.fields[4], endPort, 0x30);
      Wire.BoolOnly(APP_PORT_SCHEMA.fields[5], tls, 0x38);
      Wire.BoolOnly(APP_PORT_SCHEMA.fields[6], nginx, 0x40);
      Wire.Int64Only(APP_PORT_SCHEMA.fields[7], maxPktSize, 0x48);
    }

    /** The message is written as its image, and as nothing else. */
    lemma Imaged()
      ensures Wire.IsImage(APP_PORT_SCHEMA, View(), Image())
    {
      hide Vals, HasType, WellTyped, Int32Word, Int64Word, BoolWord, Wire.Word64, Narrow, Wire.Only,
          Wire.Number, Wire.Real, Wire.Text, Wire.Chunks, Wire.Nested, Wire.Join, Encoding.Encodes, Wire.OnlyAt;
      ProtoToFqdnPrefixOnly();
      EndPortToMaxPktSizeOnly();
      Wire.OnlyImage(APP_PORT_SCHEMA, View(), Parts());
    }

    lemma ImageSize()
      ensures |Image()| == Encoding.Size(APP_PORT_SCHEMA, View())
    {
      hide View, Image, Wire.IsImage, WellTyped, Encoding.Encodes, Encoding.Size;
      Imaged();
      Wire.ImageSize(APP_PORT_SCHEMA, View(), Image());
    }

    /** What has been marshaled into the buffer is the image of the message. */
    lemma ImageFilled(before: bytes, after: bytes, hi: int, n: nat)
      requires Marshaled(APP_PORT_SCHEMA, View(), before, after, hi, n)
      ensures n <= hi <= |after| && after[hi - n..hi] == Image()
    {
      hide View, Image, Wire.IsImage, WellTyped, Encoding.Encodes, Encoding.Size;
      Imaged();
      Wire.Filled(APP_PORT_SCHEMA, View(), Image(), before, after, hi, n);
    }

    method Size() returns (n: nat)
      requires Encoding.Size(APP_PORT_SCHEMA, View()) < TWO63
      ensures n == Encoding.Size(APP_PORT_SCHEMA, View())
      ensures n == |Image()|
    {
      hide Image, Wire.IsImage, Vals, VarintSize, BoolSize, DoubleSize, StringSize, MessageSize, Varint.Enc,
          Encoding.Size, Encoding.SizeFrom, Encoding.MapSize, Encoding.SubsSize, WellTyped;
      ghost var m := View();
      SizeAll(APP_PORT_SCHEMA, m);
      var l;
      n := 0;
      l := VarintSize(Int32Word(proto), APP_PORT_SCHEMA, m, 0);
      n := n + l;
      l := VarintSize(Int32Word(internalPort), APP_PORT_SCHEMA, m, 1);
      n := n + l;
      l := VarintSize(Int32Word(publicPort), APP_PORT_SCHEMA, m, 2);
      n := n + l;
      l := StringSize(fqdnPrefix, APP_PORT_SCHEMA, m, 3);
      n := n + l;
      l := VarintSize(Int32Word(endPort), APP_PORT_SCHEMA, m, 4);
      n := n + l;
      l := BoolSize(tls, APP_PORT_SCHEMA, m, 5);
      n := n + l;
      l := BoolSize(nginx, APP_PORT_SCHEMA, m, 6);
      n := n + l;
      l := VarintSize(Int64Word(maxPktSize), APP_PORT_SCHEMA, m, 7);
      n := n + l;
      n := n + |unrecognized|;
      ImageSize();
    }

    /** The loop of a `Size` that has these messages in a list. */
    static method SizeOfAll(xs: seq<AppPort>, ghost num: nat) returns (n: nat)
      requires 1 <= num < 16 && Encoding.SubsSize(num, APP_PORT_SCHEMA, Views(xs)) < TWO63
      ensures n == Encoding.SubsSize(num, APP_PORT_SCHEMA, Views(xs))
    {
      hide AppPort.View, AppPort.Views, AppPort.Image, Varint.Enc, Encoding.Size, Encoding.DelimitedSize,
          Encoding.SubsSize, WellTyped;
      ghost var ms := Views(xs);
      n := 0;
      assert ms[0..] == ms;
      for k := 0 to |xs|
        invariant forall i :: 0 <= i < |xs| ==> xs[i].View() == ms[i]
        invariant n + Encoding.SubsSize(num, APP_PORT_SCHEMA, ms[k..]) == Encoding.SubsSize(num,
            APP_PORT_SCHEMA, ms)
      {
        Encoding.SubsSizeStep(num, APP_PORT_SCHEMA, ms, k);
        Encoding.DelimitedCovers(num, Encoding.Size(APP_PORT_SCHEMA, ms[k]));
        var l := xs[k].Size();
        l := MessageSize(l, num);
        n := n + l;
      }
      Encoding.SubsSizeNone(num, APP_PORT_SCHEMA);
      assert ms[|xs|..] == [];
      assert Views(xs) == ms;
    }

    method MarshalToSizedBuffer(dAtA: array<byte>, hi: int) returns (n: nat)
      requires Encoding.Size(APP_PORT_SCHEMA, View()) <= hi <= dAtA.Length < TWO63
      modifies dAtA
      ensures View() == old(View()) && Marshaled(APP_PORT_SCHEMA, View(), old(dAtA[..]), dAtA[..], hi, n)
      ensures n <= hi && dAtA[hi - n..hi] == Image()
    {
      hide Image, Wire.IsImage, Vals, Written, Marshaled, Encoding.Size, Encoding.SubsSize, WellTyped;
      ghost var m, a := View(), dAtA[..];
      var i := Writing.UnknownField(dAtA, hi, unrecognized, APP_PORT_SCHEMA, m);
      i := Writing.Int64Field(dAtA, i, maxPktSize, 0x48, APP_PORT_SCHEMA, m, 7, a, hi);
      i := Writing.BoolField(dAtA, i, nginx, 0x40, APP_PORT_SCHEMA, m, 6, a, hi);
      i := Writing.BoolField(dAtA, i, tls, 0x38, APP_PORT_SCHEMA, m, 5, a, hi);
      i := Writing.Int32Field(dAtA, i, endPort, 0x30, APP_PORT_SCHEMA, m, 4, a, hi);
      i := Writing.StringField(dAtA, i, fqdnPrefix, 0x2a, APP_PORT_SCHEMA, m, 3, a, hi);
      i := Writing.Int32Field(dAtA, i, publicPort, 0x18, APP_PORT_SCHEMA, m, 2, a, hi);
      i := Writing.Int32Field(dAtA, i, internalPort, 0x10, APP_PORT_SCHEMA, m, 1, a, hi);
      i := Writing.Int32Field(dAtA, i, proto, 0x8, APP_PORT_SCHEMA, m, 0, a, hi);
      MarshalDone(APP_PORT_SCHEMA, m, a, dAtA[..], hi, i);
      n := hi - i;
      ImageFilled(a, dAtA[..], hi, n);
    }

    /** The loop of a `MarshalToSizedBuffer` that has these messages in a list. */
    static method MarshalAll(xs: seq<AppPort>, dAtA: array<byte>, j: int, tag: byte, ghost num: nat)
        returns (i: int)
      requires tag == num * 8 + 2 < 128
      requires Encoding.SubsSize(num, APP_PORT_SCHEMA, Views(xs)) <= j <= dAtA.Length < TWO63
      modifies dAtA
      ensures Views(xs) == old(Views(xs))
      ensures SubsWritten(num, APP_PORT_SCHEMA, Views(xs), 0, old(dAtA[..]), dAtA[..], j, i)
    {
      hide AppPort.View, AppPort.Views, AppPort.Image, Varint.Enc, Wrote, Marshaled, SubsWritten,
          Encoding.Size, Encoding.SubsSize, WellTyped, Encoding.Tag;
      ghost var ms, a := Views(xs), dAtA[..];
      i := j;
      SubsWrittenNone(num, APP_PORT_SCHEMA, ms, a, j);
      var k := |xs|;
      while k > 0
        invariant 0 <= k <= |xs|
        invariant forall i :: 0 <= i < |xs| ==> xs[i].View() == ms[i]
        invariant SubsWritten(num, APP_PORT_SCHEMA, ms, k, a, dAtA[..], j, i)
      {
        ghost var s, from := dAtA[..], i;
        RoomSub(num, APP_PORT_SCHEMA, ms, k, a, s, j, i);
        k := k - 1;
        TagByte(num, 2);
        var size := xs[k].MarshalToSizedBuffer(dAtA, i);
        ghost var t := dAtA[..];
        MarshaledLength(APP_PORT_SCHEMA, ms[k], s, t, i, size);
        i := i - size;
        i := PutPrefix(dAtA, i, size, tag, num);
        ExtendSub(num, APP_PORT_SCHEMA, ms, k, a, s, t, dAtA[..], j, from, size, i);
      }
      assert Views(xs) == ms;
    }

    method Unmarshal(dAtA: bytes) returns (err: Error)
      requires |dAtA| < MAX_SLICE
      modifies this
      ensures Unmarshaled(APP_PORT_SCHEMA, old(View()), View(), dAtA, err)
    {
      hide View, Remains, Stepped, Unmarshaled, WellTyped;
      var l, iNdEx := |dAtA|, 0;
      RemainsAll(APP_PORT_SCHEMA, View(), dAtA);
      while iNdEx < l
        invariant 0 <= iNdEx <= l && Remains(APP_PORT_SCHEMA, old(View()), View(), dAtA, iNdEx)
        decreases l - iNdEx
      {
        ghost var m, preIndex := View(), iNdEx;
        err, iNdEx := UnmarshalField(dAtA, iNdEx);
        RemainsStep(APP_PORT_SCHEMA, old(View()), m, View(), dAtA, preIndex, err, iNdEx);
        if !err.Nil? {
          return;
        }
      }
      assert iNdEx == l;
      RemainsNone(APP_PORT_SCHEMA, old(View()), View(), dAtA);
      err := Nil;
    }

    /** The switch on the field number inside the loop. */
    method UnmarshalField(dAtA: bytes, preIndex: int64) returns (err: Error, iNdEx: int64)
      requires 0 <= preIndex < |dAtA| < MAX_SLICE
      modifies this
      ensures Stepped(APP_PORT_SCHEMA, old(View()), View(), dAtA, preIndex, err, iNdEx)
      ensures err.Nil? ==> preIndex < iNdEx <= |dAtA|
    {
      hide View, Vals, Header, Step, WellTyped, ValidSchema, Find, Decode, BodyStep, FieldRead, Stepped,
          Unmarshaled;
      ghost var m := View();
      AppPortSchemaValid();
      var fieldNum, wireType;
      err, fieldNum, wireType, iNdEx := ReadTag(dAtA, preIndex);
      if !err.Nil? {
        HeaderRefused(APP_PORT_SCHEMA, m, View(), dAtA, preIndex, err, iNdEx);
        return;
      }
      match fieldNum {
        case 1 | 2 =>
          err, iNdEx := UnmarshalProtoToInternalPort(dAtA, preIndex, iNdEx, fieldNum, wireType);
        case 3 | 5 =>
          err, iNdEx := UnmarshalPublicPortToFqdnPrefix(dAtA, preIndex, iNdEx, fieldNum, wireType);
        case 6 | 7 =>
          err, iNdEx := UnmarshalEndPortToTls(dAtA, preIndex, iNdEx, fieldNum, wireType);
        case 8 | 9 =>
          err, iNdEx := UnmarshalNginxToMaxPktSize(dAtA, preIndex, iNdEx, fieldNum, wireType);
        case _ =>
          err, iNdEx := UnmarshalUnknown(dAtA, preIndex, iNdEx, fieldNum, wireType);
      }
    }

    /** The cases of the switch from `proto` to `internalPort`. */
    method UnmarshalProtoToInternalPort(dAtA: bytes, preIndex: int64, start: int64, fieldNum: int32, wireType: nat)
      returns (err: Error, iNdEx: int64)
      requires 0 <= preIndex < start <= |dAtA| < MAX_SLICE
      requires fieldNum == 1 || fieldNum == 2
      requires Header(dAtA[preIndex..]) == Ok(Head(fieldNum, wireType, start - preIndex))
      modifies `proto, `internalPort
      ensures Stepped(APP_PORT_SCHEMA, old(View()), View(), dAtA, preIndex, err, iNdEx)
      ensures err.Nil? ==> preIndex < iNdEx <= |dAtA|
    {
      hide Vals, Header, Step, WellTyped, ValidSchema, Find, Decode, BodyStep, FieldRead, Stepped, Unmarshaled;
      ghost var m := View();
      AppPortSchemaValid();
      iNdEx := start;
      match fieldNum {
        case 1 =>
          var v;
          err, v, iNdEx := Reading.Int32Field(dAtA, preIndex, iNdEx, fieldNum, wireType, APP_PORT_SCHEMA, m, 0);
          if err.Nil? {
            proto := v;
          }
          FieldReadSteps(APP_PORT_SCHEMA, m, 0, Num(Int32Word(v)), View(), dAtA, preIndex, err, iNdEx);
        case _ =>
          var v;
          err, v, iNdEx := Reading.Int32Field(dAtA, preIndex, iNdEx, fieldNum, wireType, APP_PORT_SCHEMA, m, 1);
          if err.Nil? {
            internalPort := v;
          }
          FieldReadSteps(APP_PORT_SCHEMA, m, 1, Num(Int32Word(v)), View(), dAtA, preIndex, err, iNdEx);
      }
    }

    /** The cases of the switch from `publicPort` to `fqdnPrefix`. */
    method UnmarshalPublicPortToFqdnPrefix(dAtA: bytes, preIndex: int64, start: int64, fieldNum: int32,
        wireType: nat)
      returns (err: Error, iNdEx: int64)
      requires 0 <= preIndex < start <= |dAtA| < MAX_SLICE
      requires fieldNum == 3 || fieldNum == 5
      requires Header(dAtA[preIndex..]) == Ok(Head(fieldNum, wireType, start - preIndex))
      modifies `publicPort, `fqdnPrefix
      ensures Stepped(APP_PORT_SCHEMA, old(View()), View(), dAtA, preIndex, err, iNdEx)
      ensures err.Nil? ==> preIndex < iNdEx <= |dAtA|
    {
      hide Vals, Header, Step, WellTyped, ValidSchema, Find, Decode, BodyStep, FieldRead, Stepped, Unmarshaled;
      ghost var m := View();
      AppPortSchemaValid();
      iNdEx := start;
      match fieldNum {
        case 3 =>
          var v;
          err, v, iNdEx := Reading.Int32Field(dAtA, preIndex, iNdEx, fieldNum, wireType, APP_PORT_SCHEMA, m, 2);
          if err.Nil? {
            publicPort := v;
          }
          FieldReadSteps(APP_PORT_SCHEMA, m, 2, Num(Int32Word(v)), View(), dAtA, preIndex, err, iNdEx);
        case _ =>
          var v;
          err, v, iNdEx := Reading.StringField(dAtA, preIndex, iNdEx, fieldNum, wireType, APP_PORT_SCHEMA, m, 3);
          if err.Nil? {
            fqdnPrefix := v;
          }
          FieldReadSteps(APP_PORT_SCHEMA, m, 3, Str(v), View(), dAtA, preIndex, err, iNdEx);
      }
    }

    /** The cases of the switch from `endPort` to `tls`. */
    method UnmarshalEndPortToTls(dAtA: bytes, preIndex: int64, start: int64, fieldNum: int32, wireType: nat)
      returns (err: Error, iNdEx: int64)
      requires 0 <= preIndex < start <= |dAtA| < MAX_SLICE
      requires fieldNum == 6 || fieldNum == 7
      requires Header(dAtA[preIndex..]) == Ok(Head(fieldNum, wireType, start - preIndex))
      modifies `endPort, `tls
      ensures Stepped(APP_PORT_SCHEMA, old(View()), View(), dAtA, preIndex, err, iNdEx)
      ensures err.Nil? ==> preIndex < iNdEx <= |dAtA|
    {
      hide Vals, Header, Step, WellTyped, ValidSchema, Find, Decode, BodyStep, FieldRead, Stepped, Unmarshaled;
      ghost var m := View();
      AppPortSchemaValid();
      iNdEx := start;
      match fieldNum {
        case 6 =>
          var v;
          err, v, iNdEx := Reading.Int32Field(dAtA, preIndex, iNdEx, fieldNum, wireType, APP_PORT_SCHEMA, m, 4);
          if err.Nil? {
            endPort := v;
          }
          FieldReadSteps(APP_PORT_SCHEMA, m, 4, Num(Int32Word(v)), View(), dAtA, preIndex, err, iNdEx);
        case _ =>
          var v;
          err, v, iNdEx := Reading.BoolField(dAtA, preIndex, iNdEx, fieldNum, wireType, APP_PORT_SCHEMA, m, 5);
          if err.Nil? {
            tls := v;
          }
          FieldReadSteps(APP_PORT_SCHEMA, m, 5, Num(BoolWord(v)), View(), dAtA, preIndex, err, iNdEx);
      }
    }

    /** The cases of the switch from `nginx` to `maxPktSize`. */
    method UnmarshalNginxToMaxPktSize(dAtA: bytes, preIndex: int64, start: int64, fieldNum: int32, wireType: nat)
      returns (err: Error, iNdEx: int64)
      requires 0 <= preIndex < start <= |dAtA| < MAX_SLICE
      requires fieldNum == 8 || fieldNum == 9
      requires Header(dAtA[preIndex..]) == Ok(Head(fieldNum, wireType, start - preIndex))
      modifies `nginx, `maxPktSize
      ensures Stepped(APP_PORT_SCHEMA, old(View()), View(), dAtA, preIndex, err, iNdEx)
      ensures err.Nil? ==> preIndex < iNdEx <= |dAtA|
    {
      hide Vals, Header, Step, WellTyped, ValidSchema, Find, Decode, BodyStep, FieldRead, Stepped, Unmarshaled;
      ghost var m := View();
      AppPortSchemaValid();
      iNdEx := start;
      match fieldNum {
        case 8 =>
          var v;
          err, v, iNdEx := Reading.BoolField(dAtA, preIndex, iNdEx, fieldNum, wireType, APP_PORT_SCHEMA, m, 6);
          if err.Nil? {
            nginx := v;
          }
          FieldReadSteps(APP_PORT_SCHEMA, m, 6, Num(BoolWord(v)), View(), dAtA, preIndex, err, iNdEx);
        case _ =>
          var v;
          err, v, iNdEx := Reading.Int64Field(dAtA, preIndex, iNdEx, fieldNum, wireType, APP_PORT_SCHEMA, m, 7);
          if err.Nil? {
            maxPktSize := v;
          }
          FieldReadSteps(APP_PORT_SCHEMA, m, 7, Num(Int64Word(v)), View(), dAtA, preIndex, err, iNdEx);
      }
    }

    /** The default of the switch. */
    method UnmarshalUnknown(dAtA: bytes, preIndex: int64, start: int64, fieldNum: int32, wireType: nat)
      returns (err: Error, iNdEx: int64)
      requires 0 <= preIndex < start <= |dAtA| < MAX_SLICE
      requires fieldNum != 1 && fieldNum != 2 && fieldNum != 3 && fieldNum != 5 && fieldNum != 6
          && fieldNum != 7 && fieldNum != 8 && fieldNum != 9
      requires Header(dAtA[preIndex..]) == Ok(Head(fieldNum, wireType, start - preIndex))
      modifies `unrecognized
      ensures Stepped(APP_PORT_SCHEMA, old(View()), View(), dAtA, preIndex, err, iNdEx)
      ensures err.Nil? ==> preIndex < iNdEx <= |dAtA|
    {
      hide Vals, Header, Step, WellTyped, ValidSchema, Find, Decode, BodyStep, FieldRead, Stepped, Unmarshaled;
      ghost var m := View();
      AppPortSchemaValid();
      var raw;
      err, raw, iNdEx := Reading.UnknownField(dAtA, preIndex, APP_PORT_SCHEMA, m);
      if err.Nil? {
        unrecognized := unrecognized + raw;
        assert View() == m.(unknown := m.unknown + raw);
      } else {
        StepRefused(APP_PORT_SCHEMA, m, View(), dAtA, preIndex, err, iNdEx);
      }
    }

    //
    // One record read
    //

    /** What it means that the value of field k has become v. */
    twostate lemma Became(new k: nat, new v: Val)
      requires k < 8
      requires View() == old(View()).(vals := old(View()).vals[k := v])
      ensures unrecognized == old(unrecognized)
      ensures if k == 0 then Num(Int32Word(proto)) == v else proto == old(proto)
      ensures if k == 1 then Num(Int32Word(internalPort)) == v else internalPort == old(internalPort)
      ensures if k == 2 then Num(Int32Word(publicPort)) == v else publicPort == old(publicPort)
      ensures if k == 3 then Str(fqdnPrefix) == v else fqdnPrefix == old(fqdnPrefix)
      ensures if k == 4 then Num(Int32Word(endPort)) == v else endPort == old(endPort)
      ensures if k == 5 then Num(BoolWord(tls)) == v else tls == old(tls)
      ensures if k == 6 then Num(BoolWord(nginx)) == v else nginx == old(nginx)
      ensures if k == 7 then Num(Int64Word(maxPktSize)) == v else maxPktSize == old(maxPktSize)
    {
      hide WellTyped, Int32Word, Int64Word;
      Wire.Int32Same(proto, old(proto));
      Wire.Int32Same(internalPort, old(internalPort));
      Wire.Int32Same(publicPort, old(publicPort));
      Wire.Int32Same(endPort, old(endPort));
      Wire.Int64Same(maxPktSize, old(maxPktSize));
      ghost var was, now := old(View()).vals, View().vals;
      assert now[0] == if k == 0 then v else was[0];
      assert now[1] == if k == 1 then v else was[1];
      assert now[2] == if k == 2 then v else was[2];
      assert now[3] == if k == 3 then v else was[3];
      assert now[4] == if k == 4 then v else was[4];
      assert now[5] == if k == 5 then v else was[5];
      assert now[6] == if k == 6 then v else was[6];
      assert now[7] == if k == 7 then v else was[7];
    }

    /** What `Unmarshal` makes of one number. */
    twostate lemma NumberFromWire(new tag: byte, new w: uint64, new err: Error)
      requires tag == 0x08 || tag == 0x10 || tag == 0x18 || tag == 0x30 || tag == 0x38 || tag == 0x40 || tag == 0x48
      requires Unmarshaled(APP_PORT_SCHEMA, old(View()), View(), [tag] + Varint.Enc(w), err)
      ensures err.Nil? && unrecognized == old(unrecognized)
      ensures if tag == 0x08 then (proto - w) % 0x1_0000_0000 == 0 else proto == old(proto)
      ensures if tag == 0x10 then (internalPort - w) % 0x1_0000_0000 == 0 else internalPort == old(internalPort)
      ensures if tag == 0x18 then (publicPort - w) % 0x1_0000_0000 == 0 else publicPort == old(publicPort)
      ensures fqdnPrefix == old(fqdnPrefix)
      ensures if tag == 0x30 then (endPort - w) % 0x1_0000_0000 == 0 else endPort == old(endPort)
      ensures if tag == 0x38 then tls == (w != 0) else tls == old(tls)
      ensures if tag == 0x40 then nginx == (w != 0) else nginx == old(nginx)
      ensures if tag == 0x48 then (maxPktSize - w) % 0x1_0000_0000_0000_0000 == 0 else maxPktSize == old(maxPktSize)
    {
      hide View, Vals, WellTyped, Decode, ValidSchema, Int32Word, Int64Word, Narrow;
      AppPortSchemaValid();
      var k := if tag == 0x08 then 0 else if tag == 0x10 then 1 else if tag == 0x18 then 2
               else if tag == 0x30 then 4 else if tag == 0x38 then 5 else if tag == 0x40 then 6 else 7;
      Wire.ReadsNumber(APP_PORT_SCHEMA, old(View()), k, tag, w);
      Became(k, Num(Narrow(APP_PORT_SCHEMA.fields[k].kind, w)));
      Wire.Int32Low(proto, w);
      Wire.Int32Low(internalPort, w);
      Wire.Int32Low(publicPort, w);
      Wire.Int32Low(endPort, w);
      Wire.BoolLow(tls, w);
      Wire.BoolLow(nginx, w);
      Wire.Int64Low(maxPktSize, w);
    }

    /** What `Unmarshal` makes of a string for `fqdnPrefix`. */
    twostate lemma TextFromWire(new s: bytes, new err: Error)
      requires |s| < 0x8000_0000_0000_0000
      requires Unmarshaled(APP_PORT_SCHEMA, old(View()), View(), Wire.Chunk([0x2A], s), err)
      ensures err.Nil? && unrecognized == old(unrecognized)
      ensures proto == old(proto)
      ensures internalPort == old(internalPort)
      ensures publicPort == old(publicPort)
      ensures fqdnPrefix == s
      ensures endPort == old(endPort)
      ensures tls == old(tls)
      ensures nginx == old(nginx)
      ensures maxPktSize == old(maxPktSize)
    {
      hide View, Vals, WellTyped, Decode, ValidSchema, Int32Word, Int64Word, Narrow;
      AppPortSchemaValid();
      Wire.ReadsText(APP_PORT_SCHEMA, old(View()), 3, 0x2A, s);
      Became(3, Str(s));
    }

    //
    // Copying
    //

    static ghost function Items(proto: int32, internalPort: int32, publicPort: int32, fqdnPrefix: bytes,
        endPort: int32, tls: bool, nginx: bool, maxPktSize: int64): (items: seq<Item>)
      ensures |items| == 8
      ensures items[0] == Word(proto)
      ensures items[1] == Word(internalPort)
      ensures items[2] == Word(publicPort)
      ensures items[3] == Text(fqdnPrefix)
      ensures items[4] == Word(endPort)
      ensures items[5] == Word(if tls then 1 else 0)
      ensures items[6] == Word(if nginx then 1 else 0)
      ensures items[7] == Word(maxPktSize)
    {
      [Word(proto), Word(internalPort), Word(publicPort), Text(fqdnPrefix), Word(endPort),
       Word(if tls then 1 else 0), Word(if nginx then 1 else 0), Word(maxPktSize)]
    }

    /** The message as copying sees it. */
    ghost function Fields(): (t: Tree)
      reads this
      ensures |t.items| == 8
    {
      Tree(Items(proto, internalPort, publicPort, fqdnPrefix, endPort, tls, nginx, maxPktSize), unrecognized)
    }

    static ghost function Trees(xs: seq<AppPort>): (ts: seq<Tree>)
      reads xs
      ensures |ts| == |xs| && forall i :: 0 <= i < |ts| ==> ts[i] == xs[i].Fields()
    {
      seq(|xs|, i requires 0 <= i < |xs| reads xs => xs[i].Fields())
    }

    /** A list of these messages as copying sees it. */
    static ghost function ForestOf(xs: Option<seq<AppPort>>): Forest
      reads Elems(xs)
    {
      if xs.None? then NilList else Forest(Trees(xs.value))
    }

    static twostate lemma {:induction false} TreesKept(xs: seq<AppPort>)
      requires forall x :: x in xs ==> x.Fields() == old(x.Fields())
      ensures Trees(xs) == old(Trees(xs))
    {
      hide AppPort.Fields, AppPort.View;
      if xs != [] {
        assert xs[0] in xs;
        TreesKept(xs[1..]);
      }
    }

    lemma FieldsOnWire()
      ensures ToMsg(Fields()) == View()
    {
      hide Items, Vals, ToMsg, WellTyped, Unsigned64, Narrow;
      BitsOnWire();
      ghost var items, vals := Fields().items, View().vals;
      assert ToVal(items[0]) == vals[0];
      assert ToVal(items[1]) == vals[1];
      assert ToVal(items[2]) == vals[2];
      assert ToVal(items[3]) == vals[3];
      assert ToVal(items[4]) == vals[4];
      assert ToVal(items[5]) == vals[5];
      assert ToVal(items[6]) == vals[6];
      assert ToVal(items[7]) == vals[7];
      assert ToMsg(Fields()).vals == View().vals;
    }

    static lemma TreesOnWire(xs: seq<AppPort>)
      ensures forall i :: 0 <= i < |xs| ==> ToMsg(Trees(xs)[i]) == Views(xs)[i]
    {
      hide AppPort.Fields, AppPort.View, AppPort.Trees, AppPort.Views, ToMsg;
      forall i | 0 <= i < |xs| ensures ToMsg(xs[i].Fields()) == xs[i].View() {
        xs[i].FieldsOnWire();
      }
    }

    /** The messages have the same declared fields, at every level. A float may be either zero where the
        other is. */
    ghost predicate Equals(o: AppPort)
      reads this, o
    {
      && proto == o.proto
      && internalPort == o.internalPort
      && publicPort == o.publicPort
      && fqdnPrefix == o.fqdnPrefix
      && endPort == o.endPort
      && tls == o.tls
      && nginx == o.nginx
      && maxPktSize == o.maxPktSize
    }

    static ghost predicate AllEqual(xs: seq<AppPort>, os: seq<AppPort>)
      reads xs, os
    {
      |xs| == |os| && forall i :: 0 <= i < |xs| ==> xs[i].Equals(os[i])
    }

    static lemma AllSame(xs: seq<AppPort>, os: seq<AppPort>)
      requires |xs| == |os| && forall i :: 0 <= i < |xs| ==> SameTree(Trees(xs)[i], Trees(os)[i])
      ensures AllEqual(xs, os)
    {
      hide AppPort.Fields, SameTree, AppPort.Equals;
      forall i | 0 <= i < |xs| ensures xs[i].Equals(os[i]) {
        assert SameTree(Trees(xs)[i], Trees(os)[i]);
        xs[i].SameIsEqual(os[i]);
      }
    }

    /** The same to copying is the same field by field. */
    lemma SameIsEqual(o: AppPort)
      requires SameTree(Fields(), o.Fields())
      ensures Equals(o)
    {
      hide Items;
      ghost var r, s := Fields().items, o.Fields().items;
      assert SameItem(r[0], s[0]);
      assert SameItem(r[1], s[1]);
      assert SameItem(r[2], s[2]);
      assert SameItem(r[3], s[3]);
      assert SameItem(r[4], s[4]);
      assert SameItem(r[5], s[5]);
      assert SameItem(r[6], s[6]);
      assert SameItem(r[7], s[7]);
    }

    /** The fields of a deep copy. */
    lemma DeepCopied(src: AppPort)
      requires proto == src.proto
      requires internalPort == src.internalPort
      requires publicPort == src.publicPort
      requires fqdnPrefix == src.fqdnPrefix
      requires endPort == src.endPort
      requires tls == src.tls
      requires nginx == src.nginx
      requires maxPktSize == src.maxPktSize
      ensures Fields() == Bare(src.Fields()).(unknown := unrecognized)
    {
      hide Items, Bare, Bares;
      BareFields(Fields(), src.Fields());
    }

    method DeepCopyIn(src: AppPort)
      requires src != this
      modifies this
      ensures Fields() == Bare(old(src.Fields())).(unknown := old(unrecognized))
      ensures Equals(src) && unrecognized == old(unrecognized)
    {
      hide Fields, Items, Bare, Bares, SameTree, Equals;
      proto := src.proto;
      internalPort := src.internalPort;
      publicPort := src.publicPort;
      fqdnPrefix := src.fqdnPrefix;
      endPort := src.endPort;
      tls := src.tls;
      nginx := src.nginx;
      maxPktSize := src.maxPktSize;
      DeepCopied(src);
      BareSame(Fields(), src.Fields(), unrecognized);
      SameIsEqual(src);
    }

    method Clone() returns (cp: AppPort)
      ensures fresh(cp)
      ensures cp.Fields() == Bare(old(Fields())) && SameTree(cp.Fields(), old(Fields()))
      ensures cp.Equals(this) && cp.unrecognized == []
      ensures cp.View() == Cleared(old(View()))
    {
      hide SameTree, Equals;
      BareAgrees(Fields());
      FieldsOnWire();
      BareOnWire(Fields());
      cp := new AppPort();
      cp.DeepCopyIn(this);
      cp.FieldsOnWire();
    }

    /** The loop of a copy that has these messages in a list. */
    static method CloneAll(xs: seq<AppPort>) returns (ys: seq<AppPort>)
      ensures |ys| == |xs| && forall y :: y in ys ==> fresh(y)
      ensures Trees(ys) == Bares(old(Trees(xs)))
    {
      hide AppPort.View, AppPort.Trees, AppPort.Fields, Cleared, Bare, SameTree, AppPort.Equals;
      ghost var ts := Trees(xs);
      ys := [];
      for k := 0 to |xs|
        invariant |ys| == k
        invariant forall i :: 0 <= i < |xs| ==> xs[i].Fields() == ts[i]
        invariant forall i :: 0 <= i < k ==> fresh(ys[i]) && ys[i].Fields() == Bare(ts[i])
      {
        var y := xs[k].Clone();
        ys := ys + [y];
      }
      assert Trees(ys) == Bares(ts);
    }
  }
}
