/** The deepest tree of app-client.pb.go: AppInstListReply, CloudletLocation and Appinstance. */
module AppClient {
  import opened GoInts
  import opened Errors
  import opened Schemas
  import opened Decoding
  import opened Reading
  import opened Writing
  import opened Copying
  import opened TagMaps
  import opened Transfers
  import opened Unknowns
  import Merging
  import opened AppCommon
  import opened LocMessages
  import Encoding
  import Records
  import Varint
  import Wire

  const APPINSTANCE_SCHEMA := Schema([
    Field(1, String), Field(2, String), Field(3, String), Field(4, RepeatedMessage(APP_PORT_SCHEMA)),
    Field(5, String), Field(6, String)
  ])

  lemma AppinstanceSchemaValid()
    ensures ValidSchema(APPINSTANCE_SCHEMA)
  {
    AppPortSchemaValid();
    IncreasingValid(APPINSTANCE_SCHEMA);
  }

  lemma AppinstanceSchemaFields()
    ensures |APPINSTANCE_SCHEMA.fields| == 6
    ensures APPINSTANCE_SCHEMA.fields[0] == Field(1, String)
    ensures APPINSTANCE_SCHEMA.fields[1] == Field(2, String)
    ensures APPINSTANCE_SCHEMA.fields[2] == Field(3, String)
    ensures APPINSTANCE_SCHEMA.fields[3] == Field(4, RepeatedMessage(APP_PORT_SCHEMA))
    ensures APPINSTANCE_SCHEMA.fields[4] == Field(5, String)
    ensures APPINSTANCE_SCHEMA.fields[5] == Field(6, String)
  {
  }

  const CLOUDLET_LOCATION_SCHEMA := Schema([
    Field(1, String), Field(2, String), Field(3, Message(LOC_SCHEMA)), Field(4, Double),
    Field(5, RepeatedMessage(APPINSTANCE_SCHEMA))
  ])

  lemma CloudletLocationSchemaValid()
    ensures ValidSchema(CLOUDLET_LOCATION_SCHEMA)
  {
    LocSchemaValid();
    AppinstanceSchemaValid();
    IncreasingValid(CLOUDLET_LOCATION_SCHEMA);
  }

  lemma CloudletLocationSchemaFields()
    ensures |CLOUDLET_LOCATION_SCHEMA.fields| == 5
    ensures CLOUDLET_LOCATION_SCHEMA.fields[0] == Field(1, String)
    ensures CLOUDLET_LOCATION_SCHEMA.fields[1] == Field(2, String)
    ensures CLOUDLET_LOCATION_SCHEMA.fields[2] == Field(3, Message(LOC_SCHEMA))
    ensures CLOUDLET_LOCATION_SCHEMA.fields[3] == Field(4, Double)
    ensures CLOUDLET_LOCATION_SCHEMA.fields[4] == Field(5, RepeatedMessage(APPINSTANCE_SCHEMA))
  {
  }

  const APP_INST_LIST_REPLY_SCHEMA := Schema([
    Field(1, Uint32), Field(2, Int32), Field(3, RepeatedMessage(CLOUDLET_LOCATION_SCHEMA)),
    Field(100, StringMap)
  ])

  lemma AppInstListReplySchemaValid()
    ensures ValidSchema(APP_INST_LIST_REPLY_SCHEMA)
  {
    CloudletLocationSchemaValid();
    IncreasingValid(APP_INST_LIST_REPLY_SCHEMA);
  }

  lemma AppInstListReplySchemaFields()
    ensures |APP_INST_LIST_REPLY_SCHEMA.fields| == 4
    ensures APP_INST_LIST_REPLY_SCHEMA.fields[0] == Field(1, Uint32)
    ensures APP_INST_LIST_REPLY_SCHEMA.fields[1] == Field(2, Int32)
    ensures APP_INST_LIST_REPLY_SCHEMA.fields[2] == Field(3, RepeatedMessage(CLOUDLET_LOCATION_SCHEMA))
    ensures APP_INST_LIST_REPLY_SCHEMA.fields[3] == Field(100, StringMap)
  {
  }

  class Appinstance {
    var appName: bytes
    var appVers: bytes
    var fqdn: bytes
    var ports: Option<seq<AppPort>>
    var orgName: bytes
    var edgeEventsCookie: bytes
    var unrecognized: bytes
    ghost var Repr: set<object>

    constructor ()
      ensures ports == None
      ensures Valid() && Repr == {this}
      ensures appName == [] && appVers == [] && fqdn == [] && orgName == [] && edgeEventsCookie == []
          && unrecognized == []
      ensures View() == Empty(APPINSTANCE_SCHEMA)
    {
      appName := [];
      appVers := [];
      fqdn := [];
      ports := None;
      orgName := [];
      edgeEventsCookie := [];
      unrecognized := [];
      Repr := {this};
      new;
      hide View, Valid;
      Blank();
    }

    lemma Blank()
      requires appName == [] && appVers == [] && fqdn == [] && ports == None && orgName == []
          && edgeEventsCookie == [] && unrecognized == []
      requires Repr == {this}
      ensures Valid()
      ensures View() == Empty(APPINSTANCE_SCHEMA)
    {
      assert View().vals == Empty(APPINSTANCE_SCHEMA).vals;
    }

    /** The objects that the message may consist of. */
    static ghost predicate Part(o: object) {
      o is Appinstance || o is AppPort
    }

    /** Repr holds the objects that the message consists of, all of them of those types. */
    ghost predicate Valid()
      reads this, Repr
      ensures Valid() ==> this in Repr && forall o :: o in Repr ==> Part(o)
    {
      && this in Repr
      && (forall x: AppPort :: x in Elems(ports) ==> x in Repr)
      && (forall o :: o in Repr ==> Part(o))
    }

    /** No list of the message is empty without being nil, at any level. */
    ghost predicate Tight()
      reads `ports
    {
      && ports != Some([])
    }

    /** The values of the fields, in the order of the schema. */
    static ghost function Vals(appName: bytes, appVers: bytes, fqdn: bytes, ports: seq<Msg>, orgName: bytes,
        edgeEventsCookie: bytes): (vals: seq<Val>)
      requires forall i :: 0 <= i < |ports| ==> WellTyped(APP_PORT_SCHEMA, ports[i])
      ensures |vals| == 6 && forall u :: WellTyped(APPINSTANCE_SCHEMA, Msg(vals, u))
      ensures vals[0] == Str(appName)
      ensures vals[1] == Str(appVers)
      ensures vals[2] == Str(fqdn)
      ensures vals[3] == Subs(ports)
      ensures vals[4] == Str(orgName)
      ensures vals[5] == Str(edgeEventsCookie)
    {
      [Str(appName), Str(appVers), Str(fqdn), Subs(ports), Str(orgName), Str(edgeEventsCookie)]
    }

    ghost function View(): (m: Msg)
      requires Valid()
      reads this, Repr
      ensures WellTyped(APPINSTANCE_SCHEMA, m)
    {
      AppPort.ViewsTyped(Elems(ports));
      Msg(Vals(appName, appVers, fqdn, AppPort.Views(Elems(ports)), orgName, edgeEventsCookie), unrecognized)
    }

    lemma ViewVals()
      requires Valid()
      ensures View().unknown == unrecognized && |View().vals| == 6
      ensures View().vals[0] == Str(appName)
      ensures View().vals[1] == Str(appVers)
      ensures View().vals[2] == Str(fqdn)
      ensures View().vals[3] == Subs(AppPort.Views(Elems(ports)))
      ensures View().vals[4] == Str(orgName)
      ensures View().vals[5] == Str(edgeEventsCookie)
    {
      hide AppPort.View, AppPort.Views, Vals, WellTyped;
    }

    static ghost function Views(xs: seq<Appinstance>): (ms: seq<Msg>)
      requires forall x :: x in xs ==> x.Valid()
      reads xs, set x, o | x in xs && o in x.Repr :: o
      ensures |ms| == |xs| && forall i :: 0 <= i < |ms| ==> ms[i] == xs[i].View()
    {
      seq(|xs|, i requires 0 <= i < |xs| && xs[i] in xs && xs[i].Valid()
        reads xs, set x, o | x in xs && o in x.Repr :: o => xs[i].View())
    }

    static lemma ViewsTyped(xs: seq<Appinstance>)
      requires forall x :: x in xs ==> x.Valid()
      ensures forall i :: 0 <= i < |xs| ==> WellTyped(APPINSTANCE_SCHEMA, Views(xs)[i])
    {
      hide Appinstance.View, Appinstance.Views, WellTyped;
    }

    static twostate lemma {:induction false} ViewsKept(xs: seq<Appinstance>)
      requires old(forall x :: x in xs ==> x.Valid()) && forall x :: x in xs ==> x.Valid()
      requires forall x :: x in xs ==> x.View() == old(x.View())
      ensures Views(xs) == old(Views(xs))
    {
      hide Appinstance.View, Appinstance.Vals;
      if xs != [] {
        assert xs[0] in xs;
        ViewsKept(xs[1..]);
      }
    }

    static lemma ViewsAppend(xs: seq<Appinstance>, x: Appinstance)
      requires x.Valid() && forall y :: y in xs ==> y.Valid()
      ensures Views(xs + [x]) == Views(xs) + [x.View()]
    {
    }

    //
    // On the wire
    //

    /** The bytes of the message: its fields in order, each behind its tag, and the unknown bytes. */
    ghost function Image(): bytes
      requires Valid()
      reads this, Repr
    {
      Wire.Join(Parts())
    }

    ghost function Parts(): (parts: seq<bytes>)
      requires Valid()
      reads this, Repr
    {
      [
        Wire.Text(0x0A, appName),
        Wire.Text(0x12, appVers),
        Wire.Text(0x1A, fqdn),
        Wire.Chunks(0x22, AppPort.Images(Elems(ports))),
        Wire.Text(0x2A, orgName),
        Wire.Text(0x32, edgeEventsCookie),
        unrecognized
      ]
    }

    static ghost function Images(xs: seq<Appinstance>): (bs: seq<bytes>)
      requires forall x :: x in xs ==> x.Valid()
      reads xs, set x, o | x in xs && o in x.Repr :: o
      ensures |bs| == |xs| && forall i :: 0 <= i < |bs| ==> bs[i] == xs[i].Image()
    {
      seq(|xs|, i requires 0 <= i < |xs| && xs[i] in xs && xs[i].Valid()
        reads xs, set x, o | x in xs && o in x.Repr :: o => xs[i].Image())
    }

    /** Each element is written as its image. */
    static lemma AllImaged(xs: seq<Appinstance>)
      requires forall x :: x in xs ==> x.Valid()
      ensures forall i :: 0 <= i < |xs| ==>
                WellTyped(APPINSTANCE_SCHEMA, Views(xs)[i]) && Wire.IsImage(APPINSTANCE_SCHEMA, Views(xs)[i],
                    Images(xs)[i])
    {
      hide Appinstance.View, Appinstance.Image, Wire.IsImage, WellTyped;
      ViewsTyped(xs);
      forall i | 0 <= i < |xs| ensures Wire.IsImage(APPINSTANCE_SCHEMA, Views(xs)[i], Images(xs)[i]) {
        xs[i].Imaged();
      }
    }

    /** The message is written as its image, and as nothing else. */
    lemma Imaged()
      requires Valid()
      ensures Wire.IsImage(APPINSTANCE_SCHEMA, View(), Image())
    {
      hide View, Valid, AppPort.View, AppPort.Views, AppPort.Image, AppPort.Images, Vals, HasType, WellTyped,
          Int32Word, Int64Word, BoolWord, Wire.Word64, Narrow, Wire.Only, Wire.Number, Wire.Real, Wire.Text,
          Wire.Chunks, Wire.Nested, Wire.Join, Encoding.Encodes;
      AppinstanceSchemaFields();
      ViewVals();
      AppPort.AllImaged(Elems(ports));
      Wire.TextOnly(APPINSTANCE_SCHEMA.fields[0], appName, 0x0A);
      Wire.TextOnly(APPINSTANCE_SCHEMA.fields[1], appVers, 0x12);
      Wire.TextOnly(APPINSTANCE_SCHEMA.fields[2], fqdn, 0x1A);
      Wire.SubsOnly(APPINSTANCE_SCHEMA.fields[3], APP_PORT_SCHEMA, AppPort.Views(Elems(ports)),
          AppPort.Images(Elems(ports)), 0x22);
      Wire.TextOnly(APPINSTANCE_SCHEMA.fields[4], orgName, 0x2A);
      Wire.TextOnly(APPINSTANCE_SCHEMA.fields[5], edgeEventsCookie, 0x32);
      Wire.OnlyImage(APPINSTANCE_SCHEMA, View(), Parts());
    }

    lemma ImageSize()
      requires Valid()
      ensures |Image()| == Encoding.Size(APPINSTANCE_SCHEMA, View())
    {
      hide View, Valid, Image, Wire.IsImage, WellTyped, Encoding.Encodes, Encoding.Size;
      Imaged();
      Wire.ImageSize(APPINSTANCE_SCHEMA, View(), Image());
    }

    /** What has been marshaled into the buffer is the image of the message. */
    lemma ImageFilled(before: bytes, after: bytes, hi: int, n: nat)
      requires Valid()
      requires Marshaled(APPINSTANCE_SCHEMA, View(), before, after, hi, n)
      ensures n <= hi <= |after| && after[hi - n..hi] == Image()
    {
      hide View, Valid, Image, Wire.IsImage, WellTyped, Encoding.Encodes, Encoding.Size;
      Imaged();
      Wire.Filled(APPINSTANCE_SCHEMA, View(), Image(), before, after, hi, n);
    }

    method Size() returns (n: nat)
      requires Valid()
      requires Encoding.Size(APPINSTANCE_SCHEMA, View()) < TWO63
      ensures n == Encoding.Size(APPINSTANCE_SCHEMA, View())
      ensures n == |Image()|
    {
      hide AppPort.View, Valid, AppPort.Views, AppPort.Image, Image, Wire.IsImage, Vals, VarintSize, BoolSize,
          DoubleSize, StringSize, MessageSize, Varint.Enc, Encoding.Size, Encoding.SizeFrom, Encoding.MapSize,
          Encoding.SubsSize, WellTyped, APPINSTANCE_SCHEMA, APP_PORT_SCHEMA;
      AppinstanceSchemaFields();
      ghost var m := View();
      SizeAll(APPINSTANCE_SCHEMA, m);
      var l;
      n := 0;
      l := StringSize(appName, APPINSTANCE_SCHEMA, m, 0);
      n := n + l;
      l := StringSize(appVers, APPINSTANCE_SCHEMA, m, 1);
      n := n + l;
      l := StringSize(fqdn, APPINSTANCE_SCHEMA, m, 2);
      n := n + l;
      SizeKnown(APPINSTANCE_SCHEMA, m, 3);
      l := AppPort.SizeOfAll(Elems(ports), 4);
      n := n + l;
      l := StringSize(orgName, APPINSTANCE_SCHEMA, m, 4);
      n := n + l;
      l := StringSize(edgeEventsCookie, APPINSTANCE_SCHEMA, m, 5);
      n := n + l;
      n := n + |unrecognized|;
      ImageSize();
    }

    /** The loop of a `Size` that has these messages in a list. */
    static method SizeOfAll(xs: seq<Appinstance>, ghost num: nat) returns (n: nat)
      requires forall x :: x in xs ==> x.Valid()
      requires 1 <= num < 16 && Encoding.SubsSize(num, APPINSTANCE_SCHEMA, Views(xs)) < TWO63
      ensures n == Encoding.SubsSize(num, APPINSTANCE_SCHEMA, Views(xs))
    {
      hide Appinstance.View, Appinstance.Views, Appinstance.Image, Appinstance.Valid, Varint.Enc,
          Encoding.Size, Encoding.DelimitedSize, Encoding.SubsSize, WellTyped;
      ghost var ms := Views(xs);
      n := 0;
      assert ms[0..] == ms;
      for k := 0 to |xs|
        invariant forall i :: 0 <= i < |xs| ==> xs[i].Valid() && xs[i].View() == ms[i]
        invariant n + Encoding.SubsSize(num, APPINSTANCE_SCHEMA, ms[k..]) == Encoding.SubsSize(num,
            APPINSTANCE_SCHEMA, ms)
      {
        Encoding.SubsSizeStep(num, APPINSTANCE_SCHEMA, ms, k);
        Encoding.DelimitedCovers(num, Encoding.Size(APPINSTANCE_SCHEMA, ms[k]));
        var l := xs[k].Size();
        l := MessageSize(l, num);
        n := n + l;
      }
      Encoding.SubsSizeNone(num, APPINSTANCE_SCHEMA);
      assert ms[|xs|..] == [];
      assert Views(xs) == ms;
    }

    method MarshalToSizedBuffer(dAtA: array<byte>, hi: int) returns (n: nat)
      requires Valid()
      requires Encoding.Size(APPINSTANCE_SCHEMA, View()) <= hi <= dAtA.Length < TWO63
      modifies dAtA
      ensures Valid()
      ensures View() == old(View()) && Marshaled(APPINSTANCE_SCHEMA, View(), old(dAtA[..]), dAtA[..], hi, n)
      ensures n <= hi && dAtA[hi - n..hi] == Image()
    {
      hide View, Valid, AppPort.View, AppPort.Views, AppPort.Image, Image, Wire.IsImage, Vals, Written,
          Marshaled, Encoding.Size, Encoding.SubsSize, WellTyped, APPINSTANCE_SCHEMA, APP_PORT_SCHEMA;
      AppinstanceSchemaFields();
      ViewVals();
      assert dAtA !in Repr;
      ghost var m, a := View(), dAtA[..];
      var i := Writing.UnknownField(dAtA, hi, unrecognized, APPINSTANCE_SCHEMA, m);
      i := Writing.StringField(dAtA, i, edgeEventsCookie, 0x32, APPINSTANCE_SCHEMA, m, 5, a, hi);
      i := Writing.StringField(dAtA, i, orgName, 0x2a, APPINSTANCE_SCHEMA, m, 4, a, hi);
      i := MarshalPorts(dAtA, i, m, a, hi);
      i := Writing.StringField(dAtA, i, fqdn, 0x1a, APPINSTANCE_SCHEMA, m, 2, a, hi);
      i := Writing.StringField(dAtA, i, appVers, 0x12, APPINSTANCE_SCHEMA, m, 1, a, hi);
      i := Writing.StringField(dAtA, i, appName, 0xa, APPINSTANCE_SCHEMA, m, 0, a, hi);
      MarshalDone(APPINSTANCE_SCHEMA, m, a, dAtA[..], hi, i);
      n := hi - i;
      ImageFilled(a, dAtA[..], hi, n);
    }

    /** The list `ports`, its last element first. */
    method MarshalPorts(dAtA: array<byte>, i: int, ghost m: Msg, ghost before: bytes, ghost hi: int)
        returns (j: int)
      requires Valid() && View() == m
      requires BeforeField(APPINSTANCE_SCHEMA, m, 3, RepeatedMessage(APP_PORT_SCHEMA), 0x22, before, dAtA[..],
          hi, i)
      modifies dAtA
      ensures Valid() && View() == m
      ensures Written(APPINSTANCE_SCHEMA, m, 3, before, dAtA[..], hi, j)
    {
      hide View, Valid, AppPort.View, AppPort.Views, AppPort.Image, Vals, Written, Marshaled, Encoding.Size,
          Encoding.SubsSize, WellTyped;
      ViewVals();
      RoomSubs(APPINSTANCE_SCHEMA, m, 3, APP_PORT_SCHEMA, 0x22, before, dAtA[..], hi, i);
      ghost var mid := dAtA[..];
      j := AppPort.MarshalAll(Elems(ports), dAtA, i, 0x22, 4);
      SubsField(APPINSTANCE_SCHEMA, m, 3, APP_PORT_SCHEMA, 0x22, before, mid, dAtA[..], hi, i, j);
    }

    /** The loop of a `MarshalToSizedBuffer` that has these messages in a list. */
    static method MarshalAll(xs: seq<Appinstance>, dAtA: array<byte>, j: int, tag: byte,
        ghost num: nat) returns (i: int)
      requires tag == num * 8 + 2 < 128
      requires forall x :: x in xs ==> x.Valid()
      requires Encoding.SubsSize(num, APPINSTANCE_SCHEMA, Views(xs)) <= j <= dAtA.Length < TWO63
      modifies dAtA
      ensures forall x :: x in xs ==> x.Valid()
      ensures Views(xs) == old(Views(xs))
      ensures SubsWritten(num, APPINSTANCE_SCHEMA, Views(xs), 0, old(dAtA[..]), dAtA[..], j, i)
    {
      hide Appinstance.View, Appinstance.Views, Appinstance.Image, Appinstance.Valid, Varint.Enc, Wrote,
          Marshaled, SubsWritten, Encoding.Size, Encoding.SubsSize, WellTyped, Encoding.Tag;
      ghost var ms, a := Views(xs), dAtA[..];
      i := j;
      SubsWrittenNone(num, APPINSTANCE_SCHEMA, ms, a, j);
      var k := |xs|;
      while k > 0
        invariant 0 <= k <= |xs|
        invariant forall i :: 0 <= i < |xs| ==> xs[i].Valid() && xs[i].View() == ms[i]
        invariant SubsWritten(num, APPINSTANCE_SCHEMA, ms, k, a, dAtA[..], j, i)
      {
        ghost var s, from := dAtA[..], i;
        RoomSub(num, APPINSTANCE_SCHEMA, ms, k, a, s, j, i);
        k := k - 1;
        TagByte(num, 2);
        var size := xs[k].MarshalToSizedBuffer(dAtA, i);
        ghost var t := dAtA[..];
        MarshaledLength(APPINSTANCE_SCHEMA, ms[k], s, t, i, size);
        i := i - size;
        i := PutPrefix(dAtA, i, size, tag, num);
        ExtendSub(num, APPINSTANCE_SCHEMA, ms, k, a, s, t, dAtA[..], j, from, size, i);
      }
      assert Views(xs) == ms;
    }

    method Unmarshal(dAtA: bytes) returns (err: Error)
      requires |dAtA| < MAX_SLICE
      requires Valid()
      modifies this
      ensures Valid() && fresh(Repr - old(Repr))
      ensures ports == old(ports) || Elems(ports) != []
      ensures err.Nil? && old(Tight()) ==> Tight()
      ensures Unmarshaled(APPINSTANCE_SCHEMA, old(View()), View(), dAtA, err)
    {
      hide View, Valid, Remains, Stepped, Unmarshaled, WellTyped;
      var l, iNdEx := |dAtA|, 0;
      RemainsAll(APPINSTANCE_SCHEMA, View(), dAtA);
      while iNdEx < l
        invariant Valid() && fresh(Repr - old(Repr))
        invariant 0 <= iNdEx <= l && Remains(APPINSTANCE_SCHEMA, old(View()), View(), dAtA, iNdEx)
        invariant ports == old(ports) || Elems(ports) != []
        invariant old(Tight()) ==> Tight()
        decreases l - iNdEx
      {
        ghost var m, preIndex := View(), iNdEx;
        err, iNdEx := UnmarshalField(dAtA, iNdEx);
        RemainsStep(APPINSTANCE_SCHEMA, old(View()), m, View(), dAtA, preIndex, err, iNdEx);
        if !err.Nil? {
          return;
        }
      }
      assert iNdEx == l;
      RemainsNone(APPINSTANCE_SCHEMA, old(View()), View(), dAtA);
      err := Nil;
    }

    /** What assigning to the other fields leaves as it was. */
    twostate lemma ElementsKept()
      requires old(Valid()) && Repr == old(Repr)
      requires ports == old(ports)
      requires forall x :: x in Elems(ports) ==> x.View() == old(x.View())
      ensures Valid() && AppPort.Views(Elems(ports)) == old(AppPort.Views(Elems(ports)))
    {
      hide AppPort.View, AppPort.Views;
      AppPort.ViewsKept(Elems(ports));
    }

    /** The switch on the field number inside the loop. */
    method UnmarshalField(dAtA: bytes, preIndex: int64) returns (err: Error, iNdEx: int64)
      requires 0 <= preIndex < |dAtA| < MAX_SLICE
      requires Valid()
      modifies this
      ensures Valid() && fresh(Repr - old(Repr))
      ensures ports == old(ports) || Elems(ports) != []
      ensures err.Nil? && old(Tight()) ==> Tight()
      ensures Stepped(APPINSTANCE_SCHEMA, old(View()), View(), dAtA, preIndex, err, iNdEx)
      ensures err.Nil? ==> preIndex < iNdEx <= |dAtA|
    {
      hide View, Valid, AppPort.View, AppPort.Views, Vals, Header, Step, WellTyped, ValidSchema, Find, Decode,
          BodyStep, FieldRead, Stepped, Unmarshaled;
      ghost var m := View();
      AppinstanceSchemaValid();
      var fieldNum, wireType;
      err, fieldNum, wireType, iNdEx := ReadTag(dAtA, preIndex);
      if !err.Nil? {
        HeaderRefused(APPINSTANCE_SCHEMA, m, View(), dAtA, preIndex, err, iNdEx);
        return;
      }
      match fieldNum {
        case 1 | 2 =>
          err, iNdEx := UnmarshalAppNameToAppVers(dAtA, preIndex, iNdEx, fieldNum, wireType);
        case 3 =>
          err, iNdEx := UnmarshalFqdn(dAtA, preIndex, iNdEx, fieldNum, wireType);
        case 4 =>
          err, iNdEx := UnmarshalPorts(dAtA, preIndex, iNdEx, fieldNum, wireType);
        case 5 | 6 =>
          err, iNdEx := UnmarshalOrgNameToEdgeEventsCookie(dAtA, preIndex, iNdEx, fieldNum, wireType);
        case _ =>
          err, iNdEx := UnmarshalUnknown(dAtA, preIndex, iNdEx, fieldNum, wireType);
      }
    }

    /** The cases of the switch from `appName` to `appVers`. */
    method UnmarshalAppNameToAppVers(dAtA: bytes, preIndex: int64, start: int64, fieldNum: int32, wireType: nat)
      returns (err: Error, iNdEx: int64)
      requires Valid()
      requires 0 <= preIndex < start <= |dAtA| < MAX_SLICE
      requires fieldNum == 1 || fieldNum == 2
      requires Header(dAtA[preIndex..]) == Ok(Head(fieldNum, wireType, start - preIndex))
      modifies `appName, `appVers
      ensures Valid()
      ensures Stepped(APPINSTANCE_SCHEMA, old(View()), View(), dAtA, preIndex, err, iNdEx)
      ensures err.Nil? ==> preIndex < iNdEx <= |dAtA|
    {
      hide View, Valid, AppPort.View, AppPort.Views, Vals, Header, Step, WellTyped, ValidSchema, Find, Decode,
          BodyStep, FieldRead, Stepped, Unmarshaled;
      ghost var m := View();
      ViewVals();
      AppinstanceSchemaValid();
      iNdEx := start;
      match fieldNum {
        case 1 =>
          var v;
          err, v, iNdEx := Reading.StringField(dAtA, preIndex, iNdEx, fieldNum, wireType, APPINSTANCE_SCHEMA, m, 0);
          if err.Nil? {
            appName := v;
          }
          ElementsKept();
          ViewVals();
          FieldReadSteps(APPINSTANCE_SCHEMA, m, 0, Str(v), View(), dAtA, preIndex, err, iNdEx);
        case _ =>
          var v;
          err, v, iNdEx := Reading.StringField(dAtA, preIndex, iNdEx, fieldNum, wireType, APPINSTANCE_SCHEMA, m, 1);
          if err.Nil? {
            appVers := v;
          }
          ElementsKept();
          ViewVals();
          FieldReadSteps(APPINSTANCE_SCHEMA, m, 1, Str(v), View(), dAtA, preIndex, err, iNdEx);
      }
    }

    /** The case of the switch for `fqdn`. */
    method UnmarshalFqdn(dAtA: bytes, preIndex: int64, start: int64, fieldNum: int32, wireType: nat)
      returns (err: Error, iNdEx: int64)
      requires Valid()
      requires 0 <= preIndex < start <= |dAtA| < MAX_SLICE
      requires fieldNum == 3
      requires Header(dAtA[preIndex..]) == Ok(Head(fieldNum, wireType, start - preIndex))
      modifies `fqdn
      ensures Valid()
      ensures Stepped(APPINSTANCE_SCHEMA, old(View()), View(), dAtA, preIndex, err, iNdEx)
      ensures err.Nil? ==> preIndex < iNdEx <= |dAtA|
    {
      hide View, Valid, AppPort.View, AppPort.Views, Vals, Header, Step, WellTyped, ValidSchema, Find, Decode,
          BodyStep, FieldRead, Stepped, Unmarshaled;
      ghost var m := View();
      ViewVals();
      AppinstanceSchemaValid();
      iNdEx := start;
      var v;
      err, v, iNdEx := Reading.StringField(dAtA, preIndex, iNdEx, fieldNum, wireType, APPINSTANCE_SCHEMA, m, 2);
      if err.Nil? {
        fqdn := v;
      }
      ElementsKept();
      ViewVals();
      FieldReadSteps(APPINSTANCE_SCHEMA, m, 2, Str(v), View(), dAtA, preIndex, err, iNdEx);
    }

    /** The cases of the switch from `orgName` to `edgeEventsCookie`. */
    method UnmarshalOrgNameToEdgeEventsCookie(dAtA: bytes, preIndex: int64, start: int64, fieldNum: int32,
        wireType: nat)
      returns (err: Error, iNdEx: int64)
      requires Valid()
      requires 0 <= preIndex < start <= |dAtA| < MAX_SLICE
      requires fieldNum == 5 || fieldNum == 6
      requires Header(dAtA[preIndex..]) == Ok(Head(fieldNum, wireType, start - preIndex))
      modifies `orgName, `edgeEventsCookie
      ensures Valid()
      ensures Stepped(APPINSTANCE_SCHEMA, old(View()), View(), dAtA, preIndex, err, iNdEx)
      ensures err.Nil? ==> preIndex < iNdEx <= |dAtA|
    {
      hide View, Valid, AppPort.View, AppPort.Views, Vals, Header, Step, WellTyped, ValidSchema, Find, Decode,
          BodyStep, FieldRead, Stepped, Unmarshaled;
      ghost var m := View();
      ViewVals();
      AppinstanceSchemaValid();
      iNdEx := start;
      match fieldNum {
        case 5 =>
          var v;
          err, v, iNdEx := Reading.StringField(dAtA, preIndex, iNdEx, fieldNum, wireType, APPINSTANCE_SCHEMA, m, 4);
          if err.Nil? {
            orgName := v;
          }
          ElementsKept();
          ViewVals();
          FieldReadSteps(APPINSTANCE_SCHEMA, m, 4, Str(v), View(), dAtA, preIndex, err, iNdEx);
        case _ =>
          var v;
          err, v, iNdEx := Reading.StringField(dAtA, preIndex, iNdEx, fieldNum, wireType, APPINSTANCE_SCHEMA, m, 5);
          if err.Nil? {
            edgeEventsCookie := v;
          }
          ElementsKept();
          ViewVals();
          FieldReadSteps(APPINSTANCE_SCHEMA, m, 5, Str(v), View(), dAtA, preIndex, err, iNdEx);
      }
    }

    /** The default of the switch. */
    method UnmarshalUnknown(dAtA: bytes, preIndex: int64, start: int64, fieldNum: int32, wireType: nat)
      returns (err: Error, iNdEx: int64)
      requires Valid()
      requires 0 <= preIndex < start <= |dAtA| < MAX_SLICE
      requires fieldNum != 1 && fieldNum != 2 && fieldNum != 3 && fieldNum != 4 && fieldNum != 5 && fieldNum != 6
      requires Header(dAtA[preIndex..]) == Ok(Head(fieldNum, wireType, start - preIndex))
      modifies `unrecognized
      ensures Valid()
      ensures Stepped(APPINSTANCE_SCHEMA, old(View()), View(), dAtA, preIndex, err, iNdEx)
      ensures err.Nil? ==> preIndex < iNdEx <= |dAtA|
    {
      hide View, Valid, AppPort.View, AppPort.Views, Vals, Header, Step, WellTyped, ValidSchema, Find, Decode,
          BodyStep, FieldRead, Stepped, Unmarshaled;
      ghost var m := View();
      ViewVals();
      AppinstanceSchemaValid();
      var raw;
      err, raw, iNdEx := Reading.UnknownField(dAtA, preIndex, APPINSTANCE_SCHEMA, m);
      if err.Nil? {
        unrecognized := unrecognized + raw;
        ElementsKept();
        ViewVals();
        assert View() == m.(unknown := m.unknown + raw);
      } else {
        StepRefused(APPINSTANCE_SCHEMA, m, View(), dAtA, preIndex, err, iNdEx);
      }
    }

    /** What appending y to `ports` leaves as it was. */
    twostate lemma PortsAppended(new y: AppPort)
      requires old(Valid()) && ports == Some(old(Elems(ports)) + [y])
      requires Repr == old(Repr) + {y}
      requires forall x :: x in old(Elems(ports)) ==> x.View() == old(x.View())
      ensures Valid()
      ensures AppPort.Views(Elems(ports)) == old(AppPort.Views(Elems(ports))) + [y.View()]
    {
      hide AppPort.View, AppPort.Views;
      AppPort.ViewsKept(old(Elems(ports)));
      AppPort.ViewsAppend(old(Elems(ports)), y);
    }

    /** Appends a new element to `ports` and reads a body onto it, and says what that leaves as it was. */
    method GrowPorts(body: bytes) returns (err: Error, y: AppPort)
      requires |body| < MAX_SLICE && Valid()
      modifies `ports, `Repr
      ensures fresh(y)
      ensures ports == Some(old(Elems(ports)) + [y]) && Repr == old(Repr) + {y}
      ensures forall x :: x in old(Elems(ports)) ==> x.View() == old(x.View())
      ensures Unmarshaled(APP_PORT_SCHEMA, Empty(APP_PORT_SCHEMA), y.View(), body, err)
    {
      hide View, Valid, AppPort.View, AppPort.Views, Vals, WellTyped, Unmarshaled;
      ViewVals();
      y := new AppPort();
      ports := Some(Elems(ports) + [y]);
      err := y.Unmarshal(body);
      Repr := Repr + {y};
    }

    /** The new element, as a change to the whole message. */
    method AppendPorts(body: bytes) returns (err: Error, ghost x: Msg)
      requires |body| < MAX_SLICE
      requires Valid()
      modifies `ports, `Repr
      ensures Valid() && fresh(Repr - old(Repr))
      ensures ports == old(ports) || Elems(ports) != []
      ensures err.Nil? && old(Tight()) ==> Tight()
      ensures View().unknown == old(View().unknown)
      ensures Updated(View().vals, old(View()).vals, 3, Subs(old(View()).vals[3].subs + [x]))
      ensures Unmarshaled(APP_PORT_SCHEMA, Empty(APP_PORT_SCHEMA), x, body, err)
    {
      hide View, Valid, AppPort.View, AppPort.Views, Vals, WellTyped, Unmarshaled;
      ViewVals();
      var y;
      err, y := GrowPorts(body);
      x := y.View();
      PortsAppended(y);
      ViewVals();
    }

    /** The case of the switch for an element of `ports`. */
    method UnmarshalPorts(dAtA: bytes, preIndex: int64, start: int64, fieldNum: int32, wireType: nat)
      returns (err: Error, iNdEx: int64)
      requires Valid()
      requires AtField(APPINSTANCE_SCHEMA, View(), 3, dAtA, preIndex, start, fieldNum, wireType)
      modifies `ports, `Repr
      ensures Valid() && fresh(Repr - old(Repr))
      ensures ports == old(ports) || Elems(ports) != []
      ensures err.Nil? && old(Tight()) ==> Tight()
      ensures Stepped(APPINSTANCE_SCHEMA, old(View()), View(), dAtA, preIndex, err, iNdEx)
      ensures err.Nil? ==> preIndex < iNdEx <= |dAtA|
    {
      hide View, Valid, Vals, Step, WellTyped, ValidSchema, BodyStep, FieldRead, Stepped, Unmarshaled, Updated;
      ghost var m := View();
      var postIndex;
      err, iNdEx, postIndex := LengthField(dAtA, preIndex, start, fieldNum, wireType, APPINSTANCE_SCHEMA, m, 3);
      if !err.Nil? {
        StepRefused(APPINSTANCE_SCHEMA, m, View(), dAtA, preIndex, err, iNdEx);
        return;
      }
      ghost var x;
      err, x := AppendPorts(dAtA[iNdEx..postIndex]);
      ElementRead(APPINSTANCE_SCHEMA, m, 3, APP_PORT_SCHEMA, x, dAtA, preIndex, err, iNdEx, postIndex);
      iNdEx := postIndex;
      FieldReadSteps(APPINSTANCE_SCHEMA, m, 3, Subs(m.vals[3].subs + [x]), View(), dAtA, preIndex, err, iNdEx);
    }

    //
    // One record read
    //

    /** What it means that the value of field k has become v. */
    twostate lemma Became(new k: nat, new v: Val)
      requires old(Valid()) && Valid() && k < 6
      requires View() == old(View()).(vals := old(View()).vals[k := v])
      ensures unrecognized == old(unrecognized)
      ensures if k == 0 then Str(appName) == v else appName == old(appName)
      ensures if k == 1 then Str(appVers) == v else appVers == old(appVers)
      ensures if k == 2 then Str(fqdn) == v else fqdn == old(fqdn)
      ensures if k == 3 then Subs(AppPort.Views(Elems(ports))) == v
              else AppPort.Views(Elems(ports)) == old(AppPort.Views(Elems(ports)))
      ensures if k == 4 then Str(orgName) == v else orgName == old(orgName)
      ensures if k == 5 then Str(edgeEventsCookie) == v else edgeEventsCookie == old(edgeEventsCookie)
    {
      hide AppPort.View, AppPort.Views, AppPort.Image, Valid, WellTyped, Int32Word, Int64Word;
      ghost var was, now := old(View()).vals, View().vals;
      assert now[0] == if k == 0 then v else was[0];
      assert now[1] == if k == 1 then v else was[1];
      assert now[2] == if k == 2 then v else was[2];
      assert now[3] == if k == 3 then v else was[3];
      assert now[4] == if k == 4 then v else was[4];
      assert now[5] == if k == 5 then v else was[5];
    }

    /** What `Unmarshal` makes of one string. */
    twostate lemma TextFromWire(new tag: byte, new s: bytes, new err: Error)
      requires tag == 0x0A || tag == 0x12 || tag == 0x1A || tag == 0x2A || tag == 0x32
      requires |s| < 0x8000_0000_0000_0000
      requires old(Valid()) && Valid()
      requires Unmarshaled(APPINSTANCE_SCHEMA, old(View()), View(), Wire.Chunk([tag], s), err)
      ensures err.Nil? && unrecognized == old(unrecognized)
      ensures if tag == 0x0A then appName == s else appName == old(appName)
      ensures if tag == 0x12 then appVers == s else appVers == old(appVers)
      ensures if tag == 0x1A then fqdn == s else fqdn == old(fqdn)
      ensures AppPort.Views(Elems(ports)) == old(AppPort.Views(Elems(ports)))
      ensures if tag == 0x2A then orgName == s else orgName == old(orgName)
      ensures if tag == 0x32 then edgeEventsCookie == s else edgeEventsCookie == old(edgeEventsCookie)
    {
      hide View, Valid, AppPort.View, AppPort.Views, AppPort.Image, Vals, WellTyped, Decode, ValidSchema,
          Int32Word, Int64Word, Narrow;
      AppinstanceSchemaValid();
      AppinstanceSchemaFields();
      var k := if tag == 0x0A then 0 else if tag == 0x12 then 1 else if tag == 0x1A then 2
               else if tag == 0x2A then 4 else 5;
      Wire.ReadsText(APPINSTANCE_SCHEMA, old(View()), k, tag, s);
      Became(k, Str(s));
    }

    /** What `Unmarshal` makes of one body of `ports`: it is read onto a new element. */
    twostate lemma PortsFromWire(new body: bytes, new x: Msg, new err: Error)
      requires |body| < 0x8000_0000_0000_0000
      requires Decode(APP_PORT_SCHEMA, Empty(APP_PORT_SCHEMA), body) == Ok(x)
      requires old(Valid()) && Valid()
      requires Unmarshaled(APPINSTANCE_SCHEMA, old(View()), View(), Wire.Chunk([0x22], body), err)
      ensures err.Nil? && unrecognized == old(unrecognized)
      ensures appName == old(appName)
      ensures appVers == old(appVers)
      ensures fqdn == old(fqdn)
      ensures AppPort.Views(Elems(ports)) == old(AppPort.Views(Elems(ports))) + [x]
      ensures orgName == old(orgName)
      ensures edgeEventsCookie == old(edgeEventsCookie)
    {
      hide View, Valid, AppPort.View, AppPort.Views, AppPort.Image, Vals, WellTyped, Decode, ValidSchema,
          Int32Word, Int64Word, Narrow;
      AppinstanceSchemaValid();
      AppinstanceSchemaFields();
      WasPorts();
      Wire.ReadsElement(APPINSTANCE_SCHEMA, old(View()), 3, 0x22, APP_PORT_SCHEMA, body, x);
      Became(3, Subs(old(AppPort.Views(Elems(ports))) + [x]));
    }

    twostate lemma WasPorts()
      requires old(Valid())
      ensures |old(View()).vals| == 6 && old(View()).vals[3] == Subs(old(AppPort.Views(Elems(ports))))
    {
      hide AppPort.View, AppPort.Views, AppPort.Image, Valid, WellTyped;
    }

    //
    // Copying
    //

    static ghost function Items(appName: bytes, appVers: bytes, fqdn: bytes, ports: Forest, orgName: bytes,
        edgeEventsCookie: bytes): (items: seq<Item>)
      ensures |items| == 6
      ensures items[0] == Text(appName)
      ensures items[1] == Text(appVers)
      ensures items[2] == Text(fqdn)
      ensures items[3] == Many(ports)
      ensures items[4] == Text(orgName)
      ensures items[5] == Text(edgeEventsCookie)
    {
      [Text(appName), Text(appVers), Text(fqdn), Many(ports), Text(orgName), Text(edgeEventsCookie)]
    }

    /** The message as copying sees it. */
    ghost function Fields(): (t: Tree)
      requires Valid()
      reads this, Repr
      ensures |t.items| == 6
    {
      Tree(Items(appName, appVers, fqdn, AppPort.ForestOf(ports), orgName, edgeEventsCookie), unrecognized)
    }

    /** The objects that the fields lead to. */
    ghost function Footprint(): set<object>
      reads `ports
    {
      {this} + (set x: AppPort | x in Elems(ports))
    }

    lemma FieldItems()
      requires Valid()
      ensures Fields().unknown == unrecognized && |Fields().items| == 6
      ensures Fields().items[0] == Text(appName)
      ensures Fields().items[1] == Text(appVers)
      ensures Fields().items[2] == Text(fqdn)
      ensures Fields().items[3] == Many(AppPort.ForestOf(ports))
      ensures Fields().items[4] == Text(orgName)
      ensures Fields().items[5] == Text(edgeEventsCookie)
      ensures Footprint() <= Repr && this in Repr
    {
      hide AppPort.View, AppPort.Fields, AppPort.Views, AppPort.Trees, Items;
    }

    /** A message none of whose objects has changed. */
    twostate lemma Same()
      requires old(Valid()) && unchanged(old(Repr))
      ensures Valid() && Repr == old(Repr) && Fields() == old(Fields())
    {
      hide Fields, Valid;
    }

    static ghost function Trees(xs: seq<Appinstance>): (ts: seq<Tree>)
      requires forall x :: x in xs ==> x.Valid()
      reads xs, set x, o | x in xs && o in x.Repr :: o
      ensures |ts| == |xs| && forall i :: 0 <= i < |ts| ==> ts[i] == xs[i].Fields()
    {
      seq(|xs|, i requires 0 <= i < |xs| && xs[i] in xs && xs[i].Valid()
        reads xs, set x, o | x in xs && o in x.Repr :: o => xs[i].Fields())
    }

    /** A list of these messages as copying sees it. */
    static ghost function ForestOf(xs: Option<seq<Appinstance>>): Forest
      requires forall x :: x in Elems(xs) ==> x.Valid()
      reads Elems(xs), set x, o | x in Elems(xs) && o in x.Repr :: o
    {
      if xs.None? then NilList else Forest(Trees(xs.value))
    }

    static twostate lemma {:induction false} TreesKept(xs: seq<Appinstance>)
      requires old(forall x :: x in xs ==> x.Valid()) && forall x :: x in xs ==> x.Valid()
      requires forall x :: x in xs ==> x.Fields() == old(x.Fields())
      ensures Trees(xs) == old(Trees(xs))
    {
      hide Appinstance.Fields, Appinstance.View;
      if xs != [] {
        assert xs[0] in xs;
        TreesKept(xs[1..]);
      }
    }

    lemma FieldsOnWire()
      requires Valid()
      ensures ToMsg(Fields()) == View()
    {
      hide View, Fields, Valid, AppPort.View, AppPort.Fields, AppPort.Views, AppPort.Trees;
      ViewVals();
      FieldItems();
      AppPort.TreesOnWire(Elems(ports));
      assert ToVal(Many(AppPort.ForestOf(ports))).subs == AppPort.Views(Elems(ports));
      assert ToMsg(Fields()).vals == View().vals;
    }

    static lemma TreesOnWire(xs: seq<Appinstance>)
      requires forall x :: x in xs ==> x.Valid()
      ensures forall i :: 0 <= i < |xs| ==> ToMsg(Trees(xs)[i]) == Views(xs)[i]
    {
      hide Appinstance.Fields, Appinstance.View, Appinstance.Trees, Appinstance.Views, ToMsg;
      forall i | 0 <= i < |xs| ensures ToMsg(xs[i].Fields()) == xs[i].View() {
        xs[i].FieldsOnWire();
      }
    }

    /** The messages have the same declared fields, at every level. A float may be either zero where the
        other is. */
    ghost predicate Equals(o: Appinstance)
      requires Valid() && o.Valid()
      reads this, Repr, o, o.Repr
    {
      && appName == o.appName
      && appVers == o.appVers
      && fqdn == o.fqdn
      && (ports == None <==> o.ports == None)
      && AppPort.AllEqual(Elems(ports), Elems(o.ports))
      && orgName == o.orgName
      && edgeEventsCookie == o.edgeEventsCookie
    }

    static ghost predicate AllEqual(xs: seq<Appinstance>, os: seq<Appinstance>)
      requires (forall x :: x in xs ==> x.Valid()) && forall x :: x in os ==> x.Valid()
      reads xs, os, (set x, p | x in xs && p in x.Repr :: p), (set x, p | x in os && p in x.Repr :: p)
    {
      |xs| == |os| && forall i :: 0 <= i < |xs| ==> xs[i].Equals(os[i])
    }

    static lemma AllSame(xs: seq<Appinstance>, os: seq<Appinstance>)
      requires (forall x :: x in xs ==> x.Valid()) && forall x :: x in os ==> x.Valid()
      requires |xs| == |os| && forall i :: 0 <= i < |xs| ==> SameTree(Trees(xs)[i], Trees(os)[i])
      ensures AllEqual(xs, os)
    {
      hide Appinstance.Fields, SameTree, Appinstance.Equals;
      forall i | 0 <= i < |xs| ensures xs[i].Equals(os[i]) {
        assert SameTree(Trees(xs)[i], Trees(os)[i]);
        xs[i].SameIsEqual(os[i]);
      }
    }

    /** The same to copying is the same field by field. */
    lemma SameIsEqual(o: Appinstance)
      requires Valid() && o.Valid()
      requires SameTree(Fields(), o.Fields())
      ensures Equals(o)
    {
      hide View, Fields, Valid, AppPort.View, AppPort.Fields, AppPort.Views, AppPort.Trees, AppPort.Equals,
          AppPort.AllEqual, Items, Footprint;
      FieldItems();
      o.FieldItems();
      ghost var r, s := Fields().items, o.Fields().items;
      assert SameItem(r[0], s[0]);
      assert SameItem(r[1], s[1]);
      assert SameItem(r[2], s[2]);
      assert SameItem(r[3], s[3]);
      assert SameItem(r[4], s[4]);
      assert SameItem(r[5], s[5]);
      if ports == None {
        assert Elems(ports) == Elems(o.ports) == [];
      }
      AppPort.AllSame(Elems(ports), Elems(o.ports));
    }

    /** The list `ports` of a deep copy. */
    method ClonePorts(src: Appinstance)
      requires src != this
      modifies `ports
      ensures ports.None? <==> src.ports.None?
      ensures forall y :: y in Elems(ports) ==> fresh(y)
      ensures AppPort.Trees(Elems(ports)) == Bares(old(AppPort.Trees(Elems(src.ports))))
    {
      hide AppPort.View, AppPort.Fields;
      if src.ports != None {
        var ys := AppPort.CloneAll(src.ports.value);
        ports := Some(ys);
      } else {
        ports := None;
      }
    }

    /** The assignments of a deep copy. */
    method AssignFields(src: Appinstance)
      requires src.Valid() && this !in src.Repr
      modifies `appName, `appVers, `fqdn, `ports, `orgName, `edgeEventsCookie
      ensures appName == src.appName
      ensures appVers == src.appVers
      ensures fqdn == src.fqdn
      ensures ports.None? <==> src.ports.None?
      ensures forall y :: y in Elems(ports) ==> fresh(y)
      ensures AppPort.Trees(Elems(ports)) == Bares(old(AppPort.Trees(Elems(src.ports))))
      ensures orgName == src.orgName
      ensures edgeEventsCookie == src.edgeEventsCookie
    {
      hide View, Fields, AppPort.View, AppPort.Fields, AppPort.Views, AppPort.Trees, Valid, Bares;
      appName := src.appName;
      appVers := src.appVers;
      fqdn := src.fqdn;
      ClonePorts(src);
      orgName := src.orgName;
      edgeEventsCookie := src.edgeEventsCookie;
    }

    /** What a deep copy makes the message consist of. */
    twostate lemma AllAssigned()
      requires Repr == Footprint()
      requires forall y :: y in Elems(ports) ==> fresh(y)
      ensures Valid() && fresh(Repr - {this})
    {
    }

    /** The assignments of a deep copy, and what the message consists of after them. */
    method AssignAll(src: Appinstance)
      requires Valid() && src.Valid() && this !in src.Repr
      modifies this
      ensures Valid() && fresh(Repr - {this})
      ensures appName == src.appName
      ensures appVers == src.appVers
      ensures fqdn == src.fqdn
      ensures ports.None? <==> src.ports.None?
      ensures AppPort.Trees(Elems(ports)) == Bares(old(AppPort.Trees(Elems(src.ports))))
      ensures orgName == src.orgName
      ensures edgeEventsCookie == src.edgeEventsCookie
      ensures unrecognized == old(unrecognized)
    {
      hide View, Fields, AppPort.View, AppPort.Fields, AppPort.Views, AppPort.Trees, Valid, Footprint, Items,
          Bare, Bares;
      AssignFields(src);
      Repr := Footprint();
      AllAssigned();
    }

    /** The fields of a deep copy. */
    lemma DeepCopied(src: Appinstance)
      requires Valid() && src.Valid()
      requires appName == src.appName
      requires appVers == src.appVers
      requires fqdn == src.fqdn
      requires ports.None? <==> src.ports.None?
      requires AppPort.Trees(Elems(ports)) == Bares(AppPort.Trees(Elems(src.ports)))
      requires orgName == src.orgName
      requires edgeEventsCookie == src.edgeEventsCookie
      ensures Fields() == Bare(src.Fields()).(unknown := unrecognized)
    {
      hide AppPort.View, AppPort.Fields, AppPort.Views, AppPort.Trees, Valid, Items, Bare, Bares;
      BareFields(Fields(), src.Fields());
    }

    method DeepCopyIn(src: Appinstance)
      requires Valid() && src.Valid() && this !in src.Repr
      modifies this
      ensures Valid() && fresh(Repr - {this})
      ensures Fields() == Bare(old(src.Fields())).(unknown := old(unrecognized))
      ensures src.Valid() && Equals(src) && unrecognized == old(unrecognized)
    {
      hide View, Fields, AppPort.View, AppPort.Fields, AppPort.Views, AppPort.Trees, Valid, Footprint, Items,
          Bare, Bares, SameTree, Equals;
      src.FieldItems();
      AssignAll(src);
      src.Same();
      FieldItems();
      src.FieldItems();
      DeepCopied(src);
      BareSame(Fields(), src.Fields(), unrecognized);
      SameIsEqual(src);
    }

    method Clone() returns (cp: Appinstance)
      requires Valid()
      ensures cp.Valid() && fresh(cp.Repr)
      ensures cp.Fields() == Bare(old(Fields())) && SameTree(cp.Fields(), old(Fields()))
      ensures Valid() && cp.Equals(this) && cp.unrecognized == []
      ensures cp.View() == Cleared(old(View()))
    {
      hide View, Fields, Valid, SameTree, Equals;
      BareAgrees(Fields());
      FieldsOnWire();
      BareOnWire(Fields());
      cp := new Appinstance();
      cp.DeepCopyIn(this);
      cp.FieldsOnWire();
    }

    static ghost function Reprs(xs: seq<Appinstance>): set<object>
      reads xs`Repr
    {
      set x, o | x in xs && o in x.Repr :: o
    }

    /** The loop of a copy that has these messages in a list. */
    static method CloneAll(xs: seq<Appinstance>) returns (ys: seq<Appinstance>)
      requires forall x :: x in xs ==> x.Valid()
      ensures |ys| == |xs| && (forall y :: y in ys ==> y.Valid()) && fresh(Reprs(ys))
      ensures Trees(ys) == Bares(old(Trees(xs)))
    {
      hide Appinstance.View, Appinstance.Trees, Appinstance.Fields, Appinstance.Valid, Cleared, Bare, SameTree,
          Appinstance.Equals;
      ghost var ts := Trees(xs);
      ys := [];
      for k := 0 to |xs|
        invariant |ys| == k
        invariant forall i :: 0 <= i < |xs| ==> xs[i].Valid() && xs[i].Fields() == ts[i]
        invariant forall i :: 0 <= i < k ==> ys[i].Valid() && fresh(ys[i].Repr) && ys[i].Fields() == Bare(ts[i])
      {
        var y := xs[k].Clone();
        ys := ys + [y];
      }
      assert Trees(ys) == Bares(ts);
    }
  }

  class CloudletLocation {
    var carrierName: bytes
    var cloudletName: bytes
    var gpsLocation: Loc?
    var distance: uint64
    var appinstances: Option<seq<Appinstance>>
    var unrecognized: bytes
    ghost var Repr: set<object>

    constructor ()
      ensures gpsLocation == null
      ensures appinstances == None
      ensures Valid() && Repr == {this}
      ensures carrierName == [] && cloudletName == [] && distance == 0 && unrecognized == []
      ensures View() == Empty(CLOUDLET_LOCATION_SCHEMA)
    {
      carrierName := [];
      cloudletName := [];
      gpsLocation := null;
      distance := 0;
      appinstances := None;
      unrecognized := [];
      Repr := {this};
      new;
      hide View, Valid;
      Blank();
    }

    lemma Blank()
      requires carrierName == [] && cloudletName == [] && gpsLocation == null && distance == 0
          && appinstances == None && unrecognized == []
      requires Repr == {this}
      ensures Valid()
      ensures View() == Empty(CLOUDLET_LOCATION_SCHEMA)
    {
      assert View().vals == Empty(CLOUDLET_LOCATION_SCHEMA).vals;
    }

    /** The objects that the message may consist of. */
    static ghost predicate Part(o: object) {
      o is CloudletLocation || o is Loc || o is Timestamp || o is Appinstance || o is AppPort
    }

    /** Repr holds the objects that the message consists of, all of them of those types. */
    ghost predicate Valid()
      reads this, Repr
      ensures Valid() ==> this in Repr && forall o :: o in Repr ==> Part(o)
    {
      && this in Repr
      && (gpsLocation != null ==> gpsLocation in Repr)
      && (gpsLocation != null && gpsLocation.timestamp != null ==> gpsLocation.timestamp in Repr)
      && (forall x: Appinstance :: x in Elems(appinstances) ==>
            && x in Repr && x.Repr <= Repr && this !in x.Repr
            && gpsLocation !in x.Repr
            && (gpsLocation != null ==> gpsLocation.timestamp !in x.Repr)
            && x.Valid())
      && (forall o :: o in Repr ==> Part(o))
    }

    ghost function Instances(): set<Appinstance>
      reads `appinstances
    {
      set x | x in Elems(appinstances)
    }

    /** No list of the message is empty without being nil, at any level. */
    ghost predicate Tight()
      reads `appinstances, Instances()`ports
    {
      && appinstances != Some([])
      && forall x :: x in Elems(appinstances) ==> x.Tight()
    }

    /** The values of the fields, in the order of the schema. */
    static ghost function Vals(carrierName: bytes, cloudletName: bytes, gpsLocation: Option<Msg>,
        distance: uint64, appinstances: seq<Msg>): (vals: seq<Val>)
      requires gpsLocation.Some? ==> WellTyped(LOC_SCHEMA, gpsLocation.value)
      requires forall i :: 0 <= i < |appinstances| ==> WellTyped(APPINSTANCE_SCHEMA, appinstances[i])
      ensures |vals| == 5 && forall u :: WellTyped(CLOUDLET_LOCATION_SCHEMA, Msg(vals, u))
      ensures vals[0] == Str(carrierName)
      ensures vals[1] == Str(cloudletName)
      ensures vals[2] == Sub(gpsLocation)
      ensures vals[3] == Num(distance)
      ensures vals[4] == Subs(appinstances)
    {
      [Str(carrierName), Str(cloudletName), Sub(gpsLocation), Num(distance), Subs(appinstances)]
    }

    ghost function View(): (m: Msg)
      requires Valid()
      reads this, Repr
      ensures WellTyped(CLOUDLET_LOCATION_SCHEMA, m)
    {
      Appinstance.ViewsTyped(Elems(appinstances));
      Msg(Vals(carrierName, cloudletName, Loc.ViewOf(gpsLocation), distance,
          Appinstance.Views(Elems(appinstances))), unrecognized)
    }

    /** The elements are valid, and share no object with what else the message points to. */
    lemma ElementsApart()
      requires Valid()
      ensures forall x :: x in Elems(appinstances) ==>
                && x.Valid() && this !in x.Repr
                && gpsLocation !in x.Repr
                && (gpsLocation != null ==> gpsLocation.timestamp !in x.Repr)
    {
    }

    lemma ViewVals()
      requires Valid()
      ensures View().unknown == unrecognized && |View().vals| == 5
      ensures View().vals[0] == Str(carrierName)
      ensures View().vals[1] == Str(cloudletName)
      ensures View().vals[2] == if gpsLocation == null then Sub(None) else Sub(Some(gpsLocation.View()))
      ensures View().vals[3] == Num(distance)
      ensures View().vals[4] == Subs(Appinstance.Views(Elems(appinstances)))
    {
      hide Loc.View, Appinstance.View, Appinstance.Views, Appinstance.Valid, Vals, WellTyped;
    }

    static ghost function Views(xs: seq<CloudletLocation>): (ms: seq<Msg>)
      requires forall x :: x in xs ==> x.Valid()
      reads xs, set x, o | x in xs && o in x.Repr :: o
      ensures |ms| == |xs| && forall i :: 0 <= i < |ms| ==> ms[i] == xs[i].View()
    {
      seq(|xs|, i requires 0 <= i < |xs| && xs[i] in xs && xs[i].Valid()
        reads xs, set x, o | x in xs && o in x.Repr :: o => xs[i].View())
    }

    static lemma ViewsTyped(xs: seq<CloudletLocation>)
      requires forall x :: x in xs ==> x.Valid()
      ensures forall i :: 0 <= i < |xs| ==> WellTyped(CLOUDLET_LOCATION_SCHEMA, Views(xs)[i])
    {
      hide CloudletLocation.View, CloudletLocation.Views, WellTyped;
    }

    static twostate lemma {:induction false} ViewsKept(xs: seq<CloudletLocation>)
      requires old(forall x :: x in xs ==> x.Valid()) && forall x :: x in xs ==> x.Valid()
      requires forall x :: x in xs ==> x.View() == old(x.View())
      ensures Views(xs) == old(Views(xs))
    {
      hide CloudletLocation.View, CloudletLocation.Vals;
      if xs != [] {
        assert xs[0] in xs;
        ViewsKept(xs[1..]);
      }
    }

    static lemma ViewsAppend(xs: seq<CloudletLocation>, x: CloudletLocation)
      requires x.Valid() && forall y :: y in xs ==> y.Valid()
      ensures Views(xs + [x]) == Views(xs) + [x.View()]
    {
    }

    //
    // On the wire
    //

    /** The bytes of the message: its fields in order, each behind its tag, and the unknown bytes. */
    ghost function Image(): bytes
      requires Valid()
      reads this, Repr
    {
      Wire.Join(Parts())
    }

    ghost function Parts(): (parts: seq<bytes>)
      requires Valid()
      reads this, Repr
    {
      [
        Wire.Text(0x0A, carrierName),
        Wire.Text(0x12, cloudletName),
        Wire.Nested(0x1A, Loc.ImageOf(gpsLocation)),
        Wire.Real(0x21, distance),
        Wire.Chunks(0x2A, Appinstance.Images(Elems(appinstances))),
        unrecognized
      ]
    }

    static ghost function Images(xs: seq<CloudletLocation>): (bs: seq<bytes>)
      requires forall x :: x in xs ==> x.Valid()
      reads xs, set x, o | x in xs && o in x.Repr :: o
      ensures |bs| == |xs| && forall i :: 0 <= i < |bs| ==> bs[i] == xs[i].Image()
    {
      seq(|xs|, i requires 0 <= i < |xs| && xs[i] in xs && xs[i].Valid()
        reads xs, set x, o | x in xs && o in x.Repr :: o => xs[i].Image())
    }

    /** Each element is written as its image. */
    static lemma AllImaged(xs: seq<CloudletLocation>)
      requires forall x :: x in xs ==> x.Valid()
      ensures forall i :: 0 <= i < |xs| ==>
                WellTyped(CLOUDLET_LOCATION_SCHEMA, Views(xs)[i]) && Wire.IsImage(CLOUDLET_LOCATION_SCHEMA,
                    Views(xs)[i], Images(xs)[i])
    {
      hide CloudletLocation.View, CloudletLocation.Image, Wire.IsImage, WellTyped;
      ViewsTyped(xs);
      forall i | 0 <= i < |xs| ensures Wire.IsImage(CLOUDLET_LOCATION_SCHEMA, Views(xs)[i], Images(xs)[i]) {
        xs[i].Imaged();
      }
    }

    /** The message is written as its image, and as nothing else. */
    lemma Imaged()
      requires Valid()
      ensures Wire.IsImage(CLOUDLET_LOCATION_SCHEMA, View(), Image())
    {
      hide View, Valid, Loc.View, Appinstance.View, Appinstance.Views, Appinstance.Valid, Loc.Image,
          Appinstance.Image, Appinstance.Images, Vals, HasType, WellTyped, Int32Word, Int64Word, BoolWord,
          Wire.Word64, Narrow, Wire.Only, Wire.Number, Wire.Real, Wire.Text, Wire.Chunks, Wire.Nested,
          Wire.Join, Encoding.Encodes;
      CloudletLocationSchemaFields();
      ElementsApart();
      ViewVals();
      if gpsLocation != null {
        gpsLocation.Imaged();
      }
      Appinstance.AllImaged(Elems(appinstances));
      Wire.TextOnly(CLOUDLET_LOCATION_SCHEMA.fields[0], carrierName, 0x0A);
      Wire.TextOnly(CLOUDLET_LOCATION_SCHEMA.fields[1], cloudletName, 0x12);
      Wire.NestedOnly(CLOUDLET_LOCATION_SCHEMA.fields[2], LOC_SCHEMA, Loc.ViewOf(gpsLocation),
          Loc.ImageOf(gpsLocation), 0x1A);
      Wire.RealOnly(CLOUDLET_LOCATION_SCHEMA.fields[3], distance, 0x21);
      Wire.SubsOnly(CLOUDLET_LOCATION_SCHEMA.fields[4], APPINSTANCE_SCHEMA,
          Appinstance.Views(Elems(appinstances)), Appinstance.Images(Elems(appinstances)), 0x2A);
      Wire.OnlyImage(CLOUDLET_LOCATION_SCHEMA, View(), Parts());
    }

    lemma ImageSize()
      requires Valid()
      ensures |Image()| == Encoding.Size(CLOUDLET_LOCATION_SCHEMA, View())
    {
      hide View, Valid, Image, Wire.IsImage, WellTyped, Encoding.Encodes, Encoding.Size;
      Imaged();
      Wire.ImageSize(CLOUDLET_LOCATION_SCHEMA, View(), Image());
    }

    /** What has been marshaled into the buffer is the image of the message. */
    lemma ImageFilled(before: bytes, after: bytes, hi: int, n: nat)
      requires Valid()
      requires Marshaled(CLOUDLET_LOCATION_SCHEMA, View(), before, after, hi, n)
      ensures n <= hi <= |after| && after[hi - n..hi] == Image()
    {
      hide View, Valid, Image, Wire.IsImage, WellTyped, Encoding.Encodes, Encoding.Size;
      Imaged();
      Wire.Filled(CLOUDLET_LOCATION_SCHEMA, View(), Image(), before, after, hi, n);
    }

    method Size() returns (n: nat)
      requires Valid()
      requires Encoding.Size(CLOUDLET_LOCATION_SCHEMA, View()) < TWO63
      ensures n == Encoding.Size(CLOUDLET_LOCATION_SCHEMA, View())
      ensures n == |Image()|
    {
      hide Loc.View, Appinstance.View, Appinstance.Valid, Appinstance.Views, Loc.Image, Appinstance.Image,
          Image, Wire.IsImage, Vals, VarintSize, BoolSize, DoubleSize, StringSize, MessageSize, Varint.Enc,
          Encoding.Size, Encoding.SizeFrom, Encoding.MapSize, Encoding.SubsSize, WellTyped,
          CLOUDLET_LOCATION_SCHEMA, LOC_SCHEMA, APPINSTANCE_SCHEMA;
      CloudletLocationSchemaFields();
      ghost var m := View();
      SizeAll(CLOUDLET_LOCATION_SCHEMA, m);
      var l;
      n := 0;
      l := StringSize(carrierName, CLOUDLET_LOCATION_SCHEMA, m, 0);
      n := n + l;
      l := StringSize(cloudletName, CLOUDLET_LOCATION_SCHEMA, m, 1);
      n := n + l;
      SizeKnown(CLOUDLET_LOCATION_SCHEMA, m, 2);
      l := 0;
      if gpsLocation != null {
        Encoding.DelimitedCovers(3, Encoding.Size(LOC_SCHEMA, gpsLocation.View()));
        l := gpsLocation.Size();
        l := MessageSize(l, 3);
      }
      n := n + l;
      l := DoubleSize(distance, CLOUDLET_LOCATION_SCHEMA, m, 3);
      n := n + l;
      SizeKnown(CLOUDLET_LOCATION_SCHEMA, m, 4);
      l := Appinstance.SizeOfAll(Elems(appinstances), 5);
      n := n + l;
      n := n + |unrecognized|;
      ImageSize();
    }

    /** The loop of a `Size` that has these messages in a list. */
    static method SizeOfAll(xs: seq<CloudletLocation>, ghost num: nat) returns (n: nat)
      requires forall x :: x in xs ==> x.Valid()
      requires 1 <= num < 16 && Encoding.SubsSize(num, CLOUDLET_LOCATION_SCHEMA, Views(xs)) < TWO63
      ensures n == Encoding.SubsSize(num, CLOUDLET_LOCATION_SCHEMA, Views(xs))
    {
      hide CloudletLocation.View, CloudletLocation.Views, CloudletLocation.Image, CloudletLocation.Valid,
          Varint.Enc, Encoding.Size, Encoding.DelimitedSize, Encoding.SubsSize, WellTyped;
      ghost var ms := Views(xs);
      n := 0;
      assert ms[0..] == ms;
      for k := 0 to |xs|
        invariant forall i :: 0 <= i < |xs| ==> xs[i].Valid() && xs[i].View() == ms[i]
        invariant n + Encoding.SubsSize(num, CLOUDLET_LOCATION_SCHEMA, ms[k..]) == Encoding.SubsSize(num,
            CLOUDLET_LOCATION_SCHEMA, ms)
      {
        Encoding.SubsSizeStep(num, CLOUDLET_LOCATION_SCHEMA, ms, k);
        Encoding.DelimitedCovers(num, Encoding.Size(CLOUDLET_LOCATION_SCHEMA, ms[k]));
        var l := xs[k].Size();
        l := MessageSize(l, num);
        n := n + l;
      }
      Encoding.SubsSizeNone(num, CLOUDLET_LOCATION_SCHEMA);
      assert ms[|xs|..] == [];
      assert Views(xs) == ms;
    }

    method MarshalToSizedBuffer(dAtA: array<byte>, hi: int) returns (n: nat)
      requires Valid()
      requires Encoding.Size(CLOUDLET_LOCATION_SCHEMA, View()) <= hi <= dAtA.Length < TWO63
      modifies dAtA
      ensures Valid()
      ensures View() == old(View()) && Marshaled(CLOUDLET_LOCATION_SCHEMA, View(), old(dAtA[..]), dAtA[..], hi, n)
      ensures n <= hi && dAtA[hi - n..hi] == Image()
    {
      hide View, Valid, Loc.View, Appinstance.View, Appinstance.Views, Appinstance.Valid, Loc.Image,
          Appinstance.Image, Image, Wire.IsImage, Vals, Written, Marshaled, Encoding.Size, Encoding.SubsSize,
          WellTyped, CLOUDLET_LOCATION_SCHEMA, LOC_SCHEMA, APPINSTANCE_SCHEMA, Elems, Appinstance.Reprs;
      CloudletLocationSchemaFields();
      ViewVals();
      assert dAtA !in Repr;
      ghost var m, a := View(), dAtA[..];
      var i := Writing.UnknownField(dAtA, hi, unrecognized, CLOUDLET_LOCATION_SCHEMA, m);
      i := MarshalAppinstances(dAtA, i, m, a, hi);
      i := Writing.DoubleField(dAtA, i, distance, 0x21, CLOUDLET_LOCATION_SCHEMA, m, 3, a, hi);
      i := MarshalGpsLocation(dAtA, i, m, a, hi);
      i := Writing.StringField(dAtA, i, cloudletName, 0x12, CLOUDLET_LOCATION_SCHEMA, m, 1, a, hi);
      i := Writing.StringField(dAtA, i, carrierName, 0xa, CLOUDLET_LOCATION_SCHEMA, m, 0, a, hi);
      MarshalDone(CLOUDLET_LOCATION_SCHEMA, m, a, dAtA[..], hi, i);
      n := hi - i;
      ImageFilled(a, dAtA[..], hi, n);
    }

    /** The list `appinstances`, its last element first. */
    method MarshalAppinstances(dAtA: array<byte>, i: int, ghost m: Msg, ghost before: bytes,
        ghost hi: int) returns (j: int)
      requires Valid() && View() == m
      requires BeforeField(CLOUDLET_LOCATION_SCHEMA, m, 4, RepeatedMessage(APPINSTANCE_SCHEMA), 0x2a, before,
          dAtA[..], hi, i)
      modifies dAtA
      ensures Valid() && View() == m
      ensures Written(CLOUDLET_LOCATION_SCHEMA, m, 4, before, dAtA[..], hi, j)
    {
      hide View, Valid, Loc.View, Appinstance.View, Appinstance.Views, Appinstance.Valid, Loc.Image,
          Appinstance.Image, Vals, Written, Marshaled, Encoding.Size, Encoding.SubsSize, WellTyped;
      ElementsApart();
      ViewVals();
      RoomSubs(CLOUDLET_LOCATION_SCHEMA, m, 4, APPINSTANCE_SCHEMA, 0x2a, before, dAtA[..], hi, i);
      ghost var mid := dAtA[..];
      j := Appinstance.MarshalAll(Elems(appinstances), dAtA, i, 0x2a, 5);
      SubsField(CLOUDLET_LOCATION_SCHEMA, m, 4, APPINSTANCE_SCHEMA, 0x2a, before, mid, dAtA[..], hi, i, j);
    }

    /** The sub-message `gpsLocation`, in the prefix of the buffer that is left. */
    method MarshalGpsLocation(dAtA: array<byte>, i: int, ghost m: Msg, ghost before: bytes,
        ghost hi: int) returns (j: int)
      requires Valid() && View() == m
      requires BeforeField(CLOUDLET_LOCATION_SCHEMA, m, 2, Message(LOC_SCHEMA), 0x1a, before, dAtA[..], hi, i)
      modifies dAtA
      ensures Valid() && View() == m
      ensures Written(CLOUDLET_LOCATION_SCHEMA, m, 2, before, dAtA[..], hi, j)
    {
      hide View, Valid, Loc.View, Appinstance.View, Appinstance.Views, Appinstance.Valid, Loc.Image,
          Appinstance.Image, Vals, Written, Marshaled, Encoding.Size, Encoding.SubsSize, WellTyped;
      ElementsApart();
      ViewVals();
      if gpsLocation == null {
        NilField(CLOUDLET_LOCATION_SCHEMA, m, 2, LOC_SCHEMA, 0x1a, before, dAtA[..], hi, i);
        return i;
      }
      RoomMessage(CLOUDLET_LOCATION_SCHEMA, m, 2, LOC_SCHEMA, 0x1a, before, dAtA[..], hi, i);
      ghost var mid := dAtA[..];
      var size := gpsLocation.MarshalToSizedBuffer(dAtA, i);
      j := MessageField(dAtA, i, size, 0x1a, CLOUDLET_LOCATION_SCHEMA, m, 2, LOC_SCHEMA, before, mid, hi);
    }

    /** The loop of a `MarshalToSizedBuffer` that has these messages in a list. */
    static method MarshalAll(xs: seq<CloudletLocation>, dAtA: array<byte>, j: int, tag: byte,
        ghost num: nat) returns (i: int)
      requires tag == num * 8 + 2 < 128
      requires forall x :: x in xs ==> x.Valid()
      requires Encoding.SubsSize(num, CLOUDLET_LOCATION_SCHEMA, Views(xs)) <= j <= dAtA.Length < TWO63
      modifies dAtA
      ensures forall x :: x in xs ==> x.Valid()
      ensures Views(xs) == old(Views(xs))
      ensures SubsWritten(num, CLOUDLET_LOCATION_SCHEMA, Views(xs), 0, old(dAtA[..]), dAtA[..], j, i)
    {
      hide CloudletLocation.View, CloudletLocation.Views, CloudletLocation.Image, CloudletLocation.Valid,
          Varint.Enc, Wrote, Marshaled, SubsWritten, Encoding.Size, Encoding.SubsSize, WellTyped, Encoding.Tag;
      ghost var ms, a := Views(xs), dAtA[..];
      i := j;
      SubsWrittenNone(num, CLOUDLET_LOCATION_SCHEMA, ms, a, j);
      var k := |xs|;
      while k > 0
        invariant 0 <= k <= |xs|
        invariant forall i :: 0 <= i < |xs| ==> xs[i].Valid() && xs[i].View() == ms[i]
        invariant SubsWritten(num, CLOUDLET_LOCATION_SCHEMA, ms, k, a, dAtA[..], j, i)
      {
        ghost var s, from := dAtA[..], i;
        RoomSub(num, CLOUDLET_LOCATION_SCHEMA, ms, k, a, s, j, i);
        k := k - 1;
        TagByte(num, 2);
        var size := xs[k].MarshalToSizedBuffer(dAtA, i);
        ghost var t := dAtA[..];
        MarshaledLength(CLOUDLET_LOCATION_SCHEMA, ms[k], s, t, i, size);
        i := i - size;
        i := PutPrefix(dAtA, i, size, tag, num);
        ExtendSub(num, CLOUDLET_LOCATION_SCHEMA, ms, k, a, s, t, dAtA[..], j, from, size, i);
      }
      assert Views(xs) == ms;
    }

    method Unmarshal(dAtA: bytes) returns (err: Error)
      requires |dAtA| < MAX_SLICE
      requires Valid()
      modifies this, gpsLocation, Loc.StampOf(gpsLocation)
      ensures Valid() && fresh(Repr - old(Repr))
      ensures gpsLocation == old(gpsLocation) || (old(gpsLocation) == null && fresh(gpsLocation))
      ensures gpsLocation != null ==>
                gpsLocation.timestamp == old(Loc.StampOf(gpsLocation))
                    || (old(Loc.StampOf(gpsLocation)) == null && fresh(gpsLocation.timestamp))
      ensures appinstances == old(appinstances) || Elems(appinstances) != []
      ensures err.Nil? && old(Tight()) ==> Tight()
      ensures Unmarshaled(CLOUDLET_LOCATION_SCHEMA, old(View()), View(), dAtA, err)
    {
      hide View, Valid, Remains, Stepped, Unmarshaled, WellTyped;
      var l, iNdEx := |dAtA|, 0;
      RemainsAll(CLOUDLET_LOCATION_SCHEMA, View(), dAtA);
      while iNdEx < l
        invariant Valid() && fresh(Repr - old(Repr))
        invariant 0 <= iNdEx <= l && Remains(CLOUDLET_LOCATION_SCHEMA, old(View()), View(), dAtA, iNdEx)
        invariant gpsLocation == old(gpsLocation) || (old(gpsLocation) == null && fresh(gpsLocation))
        invariant gpsLocation != null ==>
                    gpsLocation.timestamp == old(Loc.StampOf(gpsLocation))
                        || (old(Loc.StampOf(gpsLocation)) == null && fresh(gpsLocation.timestamp))
        invariant appinstances == old(appinstances) || Elems(appinstances) != []
        invariant old(Tight()) ==> Tight()
        decreases l - iNdEx
      {
        ghost var m, preIndex := View(), iNdEx;
        err, iNdEx := UnmarshalField(dAtA, iNdEx);
        RemainsStep(CLOUDLET_LOCATION_SCHEMA, old(View()), m, View(), dAtA, preIndex, err, iNdEx);
        if !err.Nil? {
          return;
        }
      }
      assert iNdEx == l;
      RemainsNone(CLOUDLET_LOCATION_SCHEMA, old(View()), View(), dAtA);
      err := Nil;
    }

    /** What assigning to the other fields leaves as it was. */
    twostate lemma ElementsKept()
      requires old(Valid()) && Repr == old(Repr)
      requires gpsLocation == old(gpsLocation)
      requires gpsLocation != null ==>
                 && gpsLocation.timestamp == old(gpsLocation.timestamp)
                 && gpsLocation.View() == old(gpsLocation.View())
      requires appinstances == old(appinstances)
      requires forall x :: x in Elems(appinstances) ==>
                old(x.Valid()) && x.Valid() && x.Repr == old(x.Repr) && x.View() == old(x.View())
      ensures Valid() && Appinstance.Views(Elems(appinstances)) == old(Appinstance.Views(Elems(appinstances)))
    {
      hide Appinstance.View, Appinstance.Views;
      Appinstance.ViewsKept(Elems(appinstances));
    }

    /** The switch on the field number inside the loop. */
    method UnmarshalField(dAtA: bytes, preIndex: int64) returns (err: Error, iNdEx: int64)
      requires 0 <= preIndex < |dAtA| < MAX_SLICE
      requires Valid()
      modifies this, gpsLocation, Loc.StampOf(gpsLocation)
      ensures Valid() && fresh(Repr - old(Repr))
      ensures gpsLocation == old(gpsLocation) || (old(gpsLocation) == null && fresh(gpsLocation))
      ensures gpsLocation != null ==>
                gpsLocation.timestamp == old(Loc.StampOf(gpsLocation))
                    || (old(Loc.StampOf(gpsLocation)) == null && fresh(gpsLocation.timestamp))
      ensures appinstances == old(appinstances) || Elems(appinstances) != []
      ensures err.Nil? && old(Tight()) ==> Tight()
      ensures Stepped(CLOUDLET_LOCATION_SCHEMA, old(View()), View(), dAtA, preIndex, err, iNdEx)
      ensures err.Nil? ==> preIndex < iNdEx <= |dAtA|
    {
      hide View, Valid, Loc.View, Appinstance.View, Appinstance.Views, Appinstance.Valid, Vals, Header, Step,
          WellTyped, ValidSchema, Find, Decode, BodyStep, FieldRead, Stepped, Unmarshaled;
      ghost var m := View();
      CloudletLocationSchemaValid();
      var fieldNum, wireType;
      err, fieldNum, wireType, iNdEx := ReadTag(dAtA, preIndex);
      if !err.Nil? {
        HeaderRefused(CLOUDLET_LOCATION_SCHEMA, m, View(), dAtA, preIndex, err, iNdEx);
        return;
      }
      match fieldNum {
        case 1 | 2 =>
          err, iNdEx := UnmarshalCarrierNameToCloudletName(dAtA, preIndex, iNdEx, fieldNum, wireType);
        case 3 =>
          err, iNdEx := UnmarshalGpsLocation(dAtA, preIndex, iNdEx, fieldNum, wireType);
        case 4 =>
          err, iNdEx := UnmarshalDistance(dAtA, preIndex, iNdEx, fieldNum, wireType);
        case 5 =>
          err, iNdEx := UnmarshalAppinstances(dAtA, preIndex, iNdEx, fieldNum, wireType);
        case _ =>
          err, iNdEx := UnmarshalUnknown(dAtA, preIndex, iNdEx, fieldNum, wireType);
      }
    }

    /** The cases of the switch from `carrierName` to `cloudletName`. */
    method UnmarshalCarrierNameToCloudletName(dAtA: bytes, preIndex: int64, start: int64, fieldNum: int32,
        wireType: nat)
      returns (err: Error, iNdEx: int64)
      requires Valid()
      requires 0 <= preIndex < start <= |dAtA| < MAX_SLICE
      requires fieldNum == 1 || fieldNum == 2
      requires Header(dAtA[preIndex..]) == Ok(Head(fieldNum, wireType, start - preIndex))
      modifies `carrierName, `cloudletName
      ensures Valid()
      ensures Stepped(CLOUDLET_LOCATION_SCHEMA, old(View()), View(), dAtA, preIndex, err, iNdEx)
      ensures err.Nil? ==> preIndex < iNdEx <= |dAtA|
    {
      hide View, Valid, Loc.View, Appinstance.View, Appinstance.Views, Appinstance.Valid, Vals, Header, Step,
          WellTyped, ValidSchema, Find, Decode, BodyStep, FieldRead, Stepped, Unmarshaled;
      ghost var m := View();
      ElementsApart();
      ViewVals();
      CloudletLocationSchemaValid();
      iNdEx := start;
      match fieldNum {
        case 1 =>
          var v;
          err, v, iNdEx := Reading.StringField(dAtA, preIndex, iNdEx, fieldNum, wireType,
              CLOUDLET_LOCATION_SCHEMA, m, 0);
          if err.Nil? {
            carrierName := v;
          }
          ElementsKept();
          ViewVals();
          FieldReadSteps(CLOUDLET_LOCATION_SCHEMA, m, 0, Str(v), View(), dAtA, preIndex, err, iNdEx);
        case _ =>
          var v;
          err, v, iNdEx := Reading.StringField(dAtA, preIndex, iNdEx, fieldNum, wireType,
              CLOUDLET_LOCATION_SCHEMA, m, 1);
          if err.Nil? {
            cloudletName := v;
          }
          ElementsKept();
          ViewVals();
          FieldReadSteps(CLOUDLET_LOCATION_SCHEMA, m, 1, Str(v), View(), dAtA, preIndex, err, iNdEx);
      }
    }

    /** The case of the switch for `distance`. */
    method UnmarshalDistance(dAtA: bytes, preIndex: int64, start: int64, fieldNum: int32, wireType: nat)
      returns (err: Error, iNdEx: int64)
      requires Valid()
      requires 0 <= preIndex < start <= |dAtA| < MAX_SLICE
      requires fieldNum == 4
      requires Header(dAtA[preIndex..]) == Ok(Head(fieldNum, wireType, start - preIndex))
      modifies `distance
      ensures Valid()
      ensures Stepped(CLOUDLET_LOCATION_SCHEMA, old(View()), View(), dAtA, preIndex, err, iNdEx)
      ensures err.Nil? ==> preIndex < iNdEx <= |dAtA|
    {
      hide View, Valid, Loc.View, Appinstance.View, Appinstance.Views, Appinstance.Valid, Vals, Header, Step,
          WellTyped, ValidSchema, Find, Decode, BodyStep, FieldRead, Stepped, Unmarshaled;
      ghost var m := View();
      ElementsApart();
      ViewVals();
      CloudletLocationSchemaValid();
      iNdEx := start;
      var v;
      err, v, iNdEx := Reading.DoubleField(dAtA, preIndex, iNdEx, fieldNum, wireType, CLOUDLET_LOCATION_SCHEMA,
          m, 3);
      if err.Nil? {
        distance := v;
      }
      ElementsKept();
      ViewVals();
      FieldReadSteps(CLOUDLET_LOCATION_SCHEMA, m, 3, Num(v), View(), dAtA, preIndex, err, iNdEx);
    }

    /** The default of the switch. */
    method UnmarshalUnknown(dAtA: bytes, preIndex: int64, start: int64, fieldNum: int32, wireType: nat)
      returns (err: Error, iNdEx: int64)
      requires Valid()
      requires 0 <= preIndex < start <= |dAtA| < MAX_SLICE
      requires fieldNum != 1 && fieldNum != 2 && fieldNum != 3 && fieldNum != 4 && fieldNum != 5
      requires Header(dAtA[preIndex..]) == Ok(Head(fieldNum, wireType, start - preIndex))
      modifies `unrecognized
      ensures Valid()
      ensures Stepped(CLOUDLET_LOCATION_SCHEMA, old(View()), View(), dAtA, preIndex, err, iNdEx)
      ensures err.Nil? ==> preIndex < iNdEx <= |dAtA|
    {
      hide View, Valid, Loc.View, Appinstance.View, Appinstance.Views, Appinstance.Valid, Vals, Header, Step,
          WellTyped, ValidSchema, Find, Decode, BodyStep, FieldRead, Stepped, Unmarshaled;
      ghost var m := View();
      ElementsApart();
      ViewVals();
      CloudletLocationSchemaValid();
      var raw;
      err, raw, iNdEx := Reading.UnknownField(dAtA, preIndex, CLOUDLET_LOCATION_SCHEMA, m);
      if err.Nil? {
        unrecognized := unrecognized + raw;
        ElementsKept();
        ViewVals();
        assert View() == m.(unknown := m.unknown + raw);
      } else {
        StepRefused(CLOUDLET_LOCATION_SCHEMA, m, View(), dAtA, preIndex, err, iNdEx);
      }
    }

    /** What reading onto `gpsLocation` leaves as it was. */
    twostate lemma GpsLocationLoaded()
      requires old(Valid())
      requires gpsLocation != null && (gpsLocation == old(gpsLocation) || (old(gpsLocation) == null
          && fresh(gpsLocation)))
      requires gpsLocation.timestamp == old(Loc.StampOf(gpsLocation))
          || (old(Loc.StampOf(gpsLocation)) == null && fresh(gpsLocation.timestamp))
      requires Repr == old(Repr) + {gpsLocation} +
                 (if gpsLocation.timestamp == null then {} else {gpsLocation.timestamp})
      requires appinstances == old(appinstances)
      requires forall x :: x in Elems(appinstances) ==>
                old(x.Valid()) && x.Valid() && x.Repr == old(x.Repr) && x.View() == old(x.View())
      ensures Valid() && fresh(Repr - old(Repr))
      ensures Appinstance.Views(Elems(appinstances)) == old(Appinstance.Views(Elems(appinstances)))
    {
      hide Loc.View, Appinstance.View, Appinstance.Views, Appinstance.Valid;
      Appinstance.ViewsKept(Elems(appinstances));
    }

    /** Reads a body onto `gpsLocation`, and says what that leaves as it was. */
    method LoadGpsLocation(body: bytes) returns (err: Error, ghost base: Msg, ghost x: Msg)
      requires |body| < MAX_SLICE && Valid()
      modifies `gpsLocation, gpsLocation, Loc.StampOf(gpsLocation), `Repr
      ensures Valid() && fresh(Repr - old(Repr))
      ensures gpsLocation == old(gpsLocation) || (old(gpsLocation) == null && fresh(gpsLocation))
      ensures gpsLocation != null ==>
                || gpsLocation.timestamp == old(Loc.StampOf(gpsLocation))
                || (old(Loc.StampOf(gpsLocation)) == null && fresh(gpsLocation.timestamp))
      ensures gpsLocation != null && x == gpsLocation.View()
      ensures base == if old(gpsLocation) == null then Empty(LOC_SCHEMA) else old(Loc.ViewOf(gpsLocation)).value
      ensures WellTyped(LOC_SCHEMA, base) && Unmarshaled(LOC_SCHEMA, base, x, body, err)
      ensures Appinstance.Views(Elems(appinstances)) == old(Appinstance.Views(Elems(appinstances)))
    {
      hide View, Valid, Loc.View, Appinstance.View, Appinstance.Views, Appinstance.Valid, Vals, WellTyped,
          Unmarshaled;
      ElementsApart();
      ViewVals();
      if gpsLocation == null {
        gpsLocation := new Loc();
      }
      base := gpsLocation.View();
      err := gpsLocation.Unmarshal(body);
      Repr := Repr + {gpsLocation} + (if gpsLocation.timestamp == null then {} else {gpsLocation.timestamp});
      x := gpsLocation.View();
      GpsLocationLoaded();
    }

    /** Reads a body onto `gpsLocation`, which is made first if it is nil. */
    method ReadGpsLocation(body: bytes) returns (err: Error, ghost base: Msg, ghost x: Msg)
      requires |body| < MAX_SLICE
      requires Valid()
      modifies `gpsLocation, gpsLocation, Loc.StampOf(gpsLocation), `Repr
      ensures Valid() && fresh(Repr - old(Repr))
      ensures gpsLocation == old(gpsLocation) || (old(gpsLocation) == null && fresh(gpsLocation))
      ensures gpsLocation != null ==>
                || gpsLocation.timestamp == old(Loc.StampOf(gpsLocation))
                || (old(Loc.StampOf(gpsLocation)) == null && fresh(gpsLocation.timestamp))
      ensures View().unknown == old(View().unknown)
      ensures Updated(View().vals, old(View()).vals, 2, Sub(Some(x)))
      ensures var was := old(View()).vals[2].sub; base == if was.Some? then was.value else Empty(LOC_SCHEMA)
      ensures WellTyped(LOC_SCHEMA, base) && Unmarshaled(LOC_SCHEMA, base, x, body, err)
    {
      hide View, Valid, Loc.View, Appinstance.View, Appinstance.Views, Appinstance.Valid, Vals, WellTyped,
          Unmarshaled;
      ElementsApart();
      ViewVals();
      err, base, x := LoadGpsLocation(body);
      ViewVals();
    }

    /** The case of the switch for the sub-message `gpsLocation`. */
    method UnmarshalGpsLocation(dAtA: bytes, preIndex: int64, start: int64, fieldNum: int32, wireType: nat)
      returns (err: Error, iNdEx: int64)
      requires Valid()
      requires AtField(CLOUDLET_LOCATION_SCHEMA, View(), 2, dAtA, preIndex, start, fieldNum, wireType)
      modifies `gpsLocation, gpsLocation, Loc.StampOf(gpsLocation), `Repr
      ensures Valid() && fresh(Repr - old(Repr))
      ensures gpsLocation == old(gpsLocation) || (old(gpsLocation) == null && fresh(gpsLocation))
      ensures gpsLocation != null ==>
                || gpsLocation.timestamp == old(Loc.StampOf(gpsLocation))
                || (old(Loc.StampOf(gpsLocation)) == null && fresh(gpsLocation.timestamp))
      ensures Stepped(CLOUDLET_LOCATION_SCHEMA, old(View()), View(), dAtA, preIndex, err, iNdEx)
      ensures err.Nil? ==> preIndex < iNdEx <= |dAtA|
    {
      hide View, Valid, Vals, Step, WellTyped, ValidSchema, BodyStep, FieldRead, Stepped, Unmarshaled, Updated;
      ghost var m := View();
      var postIndex;
      err, iNdEx, postIndex := LengthField(dAtA, preIndex, start, fieldNum, wireType, CLOUDLET_LOCATION_SCHEMA,
          m, 2);
      if !err.Nil? {
        StepRefused(CLOUDLET_LOCATION_SCHEMA, m, View(), dAtA, preIndex, err, iNdEx);
        return;
      }
      ghost var base, x;
      err, base, x := ReadGpsLocation(dAtA[iNdEx..postIndex]);
      MessageRead(CLOUDLET_LOCATION_SCHEMA, m, 2, LOC_SCHEMA, base, x, dAtA, preIndex, err, iNdEx, postIndex);
      iNdEx := postIndex;
      FieldReadSteps(CLOUDLET_LOCATION_SCHEMA, m, 2, Sub(Some(x)), View(), dAtA, preIndex, err, iNdEx);
    }

    /** What appending y to `appinstances` leaves as it was. */
    twostate lemma AppinstancesAppended(new y: Appinstance)
      requires old(Valid()) && appinstances == Some(old(Elems(appinstances)) + [y])
      requires Repr == old(Repr) + y.Repr && y.Valid()
      requires forall x :: x in old(Elems(appinstances)) ==>
                old(x.Valid()) && x.Valid() && x.Repr == old(x.Repr) && x.View() == old(x.View())
      requires gpsLocation == old(gpsLocation)
      requires gpsLocation != null ==>
                 && gpsLocation.timestamp == old(gpsLocation.timestamp)
                 && gpsLocation.View() == old(gpsLocation.View())
      ensures Valid()
      ensures Appinstance.Views(Elems(appinstances)) == old(Appinstance.Views(Elems(appinstances))) + [y.View()]
    {
      hide Loc.View, Appinstance.View, Appinstance.Views, Appinstance.Valid;
      Appinstance.ViewsKept(old(Elems(appinstances)));
      Appinstance.ViewsAppend(old(Elems(appinstances)), y);
    }

    /** Appends a new element to `appinstances` and reads a body onto it, and says what that leaves as it was. */
    method GrowAppinstances(body: bytes) returns (err: Error, y: Appinstance)
      requires |body| < MAX_SLICE && Valid()
      modifies `appinstances, `Repr
      ensures fresh(y) && y.Valid() && fresh(y.Repr)
      ensures appinstances == Some(old(Elems(appinstances)) + [y]) && Repr == old(Repr) + y.Repr
      ensures forall x :: x in old(Elems(appinstances)) ==>
                old(x.Valid()) && x.Valid() && x.Repr == old(x.Repr) && x.View() == old(x.View())
      ensures forall x :: x in old(Elems(appinstances)) ==> x.Tight() == old(x.Tight())
      ensures err.Nil? ==> y.Tight()
      ensures Unmarshaled(APPINSTANCE_SCHEMA, Empty(APPINSTANCE_SCHEMA), y.View(), body, err)
    {
      hide View, Valid, Loc.View, Appinstance.View, Appinstance.Views, Appinstance.Valid, Vals, WellTyped,
          Unmarshaled;
      ElementsApart();
      ViewVals();
      y := new Appinstance();
      appinstances := Some(Elems(appinstances) + [y]);
      err := y.Unmarshal(body);
      Repr := Repr + y.Repr;
    }

    /** The new element, as a change to the whole message. */
    method AppendAppinstances(body: bytes) returns (err: Error, ghost x: Msg)
      requires |body| < MAX_SLICE
      requires Valid()
      modifies `appinstances, `Repr
      ensures Valid() && fresh(Repr - old(Repr))
      ensures appinstances == old(appinstances) || Elems(appinstances) != []
      ensures err.Nil? && old(Tight()) ==> Tight()
      ensures View().unknown == old(View().unknown)
      ensures Updated(View().vals, old(View()).vals, 4, Subs(old(View()).vals[4].subs + [x]))
      ensures Unmarshaled(APPINSTANCE_SCHEMA, Empty(APPINSTANCE_SCHEMA), x, body, err)
    {
      hide View, Valid, Loc.View, Appinstance.View, Appinstance.Views, Appinstance.Valid, Vals, WellTyped,
          Unmarshaled;
      ElementsApart();
      ViewVals();
      var y;
      err, y := GrowAppinstances(body);
      x := y.View();
      AppinstancesAppended(y);
      ViewVals();
    }

    /** The case of the switch for an element of `appinstances`. */
    method UnmarshalAppinstances(dAtA: bytes, preIndex: int64, start: int64, fieldNum: int32, wireType: nat)
      returns (err: Error, iNdEx: int64)
      requires Valid()
      requires AtField(CLOUDLET_LOCATION_SCHEMA, View(), 4, dAtA, preIndex, start, fieldNum, wireType)
      modifies `appinstances, `Repr
      ensures Valid() && fresh(Repr - old(Repr))
      ensures appinstances == old(appinstances) || Elems(appinstances) != []
      ensures err.Nil? && old(Tight()) ==> Tight()
      ensures Stepped(CLOUDLET_LOCATION_SCHEMA, old(View()), View(), dAtA, preIndex, err, iNdEx)
      ensures err.Nil? ==> preIndex < iNdEx <= |dAtA|
    {
      hide View, Valid, Vals, Step, WellTyped, ValidSchema, BodyStep, FieldRead, Stepped, Unmarshaled, Updated;
      ghost var m := View();
      var postIndex;
      err, iNdEx, postIndex := LengthField(dAtA, preIndex, start, fieldNum, wireType, CLOUDLET_LOCATION_SCHEMA,
          m, 4);
      if !err.Nil? {
        StepRefused(CLOUDLET_LOCATION_SCHEMA, m, View(), dAtA, preIndex, err, iNdEx);
        return;
      }
      ghost var x;
      err, x := AppendAppinstances(dAtA[iNdEx..postIndex]);
      ElementRead(CLOUDLET_LOCATION_SCHEMA, m, 4, APPINSTANCE_SCHEMA, x, dAtA, preIndex, err, iNdEx, postIndex);
      iNdEx := postIndex;
      FieldReadSteps(CLOUDLET_LOCATION_SCHEMA, m, 4, Subs(m.vals[4].subs + [x]), View(), dAtA, preIndex, err,
          iNdEx);
    }

    //
    // One record read
    //

    /** What it means that the value of field k has become v. */
    twostate lemma Became(new k: nat, new v: Val)
      requires old(Valid()) && Valid() && k < 5
      requires View() == old(View()).(vals := old(View()).vals[k := v])
      ensures unrecognized == old(unrecognized)
      ensures if k == 0 then Str(carrierName) == v else carrierName == old(carrierName)
      ensures if k == 1 then Str(cloudletName) == v else cloudletName == old(cloudletName)
      ensures if k == 2 then Sub(Loc.ViewOf(gpsLocation)) == v
              else Loc.ViewOf(gpsLocation) == old(Loc.ViewOf(gpsLocation))
      ensures if k == 3 then Num(distance) == v else distance == old(distance)
      ensures if k == 4 then Subs(Appinstance.Views(Elems(appinstances))) == v
              else Appinstance.Views(Elems(appinstances)) == old(Appinstance.Views(Elems(appinstances)))
    {
      hide Loc.View, Appinstance.View, Appinstance.Views, Appinstance.Valid, Loc.Image, Appinstance.Image,
          Valid, WellTyped, Int32Word, Int64Word;
      ghost var was, now := old(View()).vals, View().vals;
      assert now[0] == if k == 0 then v else was[0];
      assert now[1] == if k == 1 then v else was[1];
      assert now[2] == if k == 2 then v else was[2];
      assert now[3] == if k == 3 then v else was[3];
      assert now[4] == if k == 4 then v else was[4];
    }

    /** What `Unmarshal` makes of a double for `distance`. */
    twostate lemma RealFromWire(new bits: uint64, new err: Error)
      requires old(Valid()) && Valid()
      requires Unmarshaled(CLOUDLET_LOCATION_SCHEMA, old(View()), View(), [0x21] + Wire.Eight(bits), err)
      ensures err.Nil? && unrecognized == old(unrecognized)
      ensures carrierName == old(carrierName)
      ensures cloudletName == old(cloudletName)
      ensures Loc.ViewOf(gpsLocation) == old(Loc.ViewOf(gpsLocation))
      ensures distance == bits
      ensures Appinstance.Views(Elems(appinstances)) == old(Appinstance.Views(Elems(appinstances)))
    {
      hide View, Valid, Loc.View, Appinstance.View, Appinstance.Views, Appinstance.Valid, Loc.Image,
          Appinstance.Image, Vals, WellTyped, Decode, ValidSchema, Int32Word, Int64Word, Narrow;
      CloudletLocationSchemaValid();
      CloudletLocationSchemaFields();
      Wire.ReadsReal(CLOUDLET_LOCATION_SCHEMA, old(View()), 3, 0x21, bits);
      Became(3, Num(bits));
    }

    /** What `Unmarshal` makes of one string. */
    twostate lemma TextFromWire(new tag: byte, new s: bytes, new err: Error)
      requires tag == 0x0A || tag == 0x12
      requires |s| < 0x8000_0000_0000_0000
      requires old(Valid()) && Valid()
      requires Unmarshaled(CLOUDLET_LOCATION_SCHEMA, old(View()), View(), Wire.Chunk([tag], s), err)
      ensures err.Nil? && unrecognized == old(unrecognized)
      ensures if tag == 0x0A then carrierName == s else carrierName == old(carrierName)
      ensures if tag == 0x12 then cloudletName == s else cloudletName == old(cloudletName)
      ensures Loc.ViewOf(gpsLocation) == old(Loc.ViewOf(gpsLocation))
      ensures distance == old(distance)
      ensures Appinstance.Views(Elems(appinstances)) == old(Appinstance.Views(Elems(appinstances)))
    {
      hide View, Valid, Loc.View, Appinstance.View, Appinstance.Views, Appinstance.Valid, Loc.Image,
          Appinstance.Image, Vals, WellTyped, Decode, ValidSchema, Int32Word, Int64Word, Narrow;
      CloudletLocationSchemaValid();
      CloudletLocationSchemaFields();
      var k := if tag == 0x0A then 0 else 1;
      Wire.ReadsText(CLOUDLET_LOCATION_SCHEMA, old(View()), k, tag, s);
      Became(k, Str(s));
    }

    /** What `Unmarshal` makes of one body of `gpsLocation`: it is read onto what is there. */
    twostate lemma GpsLocationFromWire(new body: bytes, new base: Msg, new x: Msg, new err: Error)
      requires |body| < 0x8000_0000_0000_0000
      requires base == if old(gpsLocation) == null then Empty(LOC_SCHEMA) else old(Loc.ViewOf(gpsLocation)).value
      requires WellTyped(LOC_SCHEMA, base) && Decode(LOC_SCHEMA, base, body) == Ok(x)
      requires old(Valid()) && Valid()
      requires Unmarshaled(CLOUDLET_LOCATION_SCHEMA, old(View()), View(), Wire.Chunk([0x1A], body), err)
      ensures err.Nil? && unrecognized == old(unrecognized)
      ensures gpsLocation != null && gpsLocation.View() == x
      ensures carrierName == old(carrierName)
      ensures cloudletName == old(cloudletName)
      ensures distance == old(distance)
      ensures Appinstance.Views(Elems(appinstances)) == old(Appinstance.Views(Elems(appinstances)))
    {
      hide View, Valid, Loc.View, Appinstance.View, Appinstance.Views, Appinstance.Valid, Loc.Image,
          Appinstance.Image, Vals, WellTyped, Decode, ValidSchema, Int32Word, Int64Word, Narrow;
      CloudletLocationSchemaValid();
      CloudletLocationSchemaFields();
      WasGpsLocation();
      Wire.ReadsNested(CLOUDLET_LOCATION_SCHEMA, old(View()), 2, 0x1A, LOC_SCHEMA, body, base, x);
      Became(2, Sub(Some(x)));
    }

    /** What `Unmarshal` makes of one body of `appinstances`: it is read onto a new element. */
    twostate lemma AppinstancesFromWire(new body: bytes, new x: Msg, new err: Error)
      requires |body| < 0x8000_0000_0000_0000
      requires Decode(APPINSTANCE_SCHEMA, Empty(APPINSTANCE_SCHEMA), body) == Ok(x)
      requires old(Valid()) && Valid()
      requires Unmarshaled(CLOUDLET_LOCATION_SCHEMA, old(View()), View(), Wire.Chunk([0x2A], body), err)
      ensures err.Nil? && unrecognized == old(unrecognized)
      ensures carrierName == old(carrierName)
      ensures cloudletName == old(cloudletName)
      ensures Loc.ViewOf(gpsLocation) == old(Loc.ViewOf(gpsLocation))
      ensures distance == old(distance)
      ensures Appinstance.Views(Elems(appinstances)) == old(Appinstance.Views(Elems(appinstances))) + [x]
    {
      hide View, Valid, Loc.View, Appinstance.View, Appinstance.Views, Appinstance.Valid, Loc.Image,
          Appinstance.Image, Vals, WellTyped, Decode, ValidSchema, Int32Word, Int64Word, Narrow;
      CloudletLocationSchemaValid();
      CloudletLocationSchemaFields();
      WasAppinstances();
      Wire.ReadsElement(CLOUDLET_LOCATION_SCHEMA, old(View()), 4, 0x2A, APPINSTANCE_SCHEMA, body, x);
      Became(4, Subs(old(Appinstance.Views(Elems(appinstances))) + [x]));
    }

    twostate lemma WasGpsLocation()
      requires old(Valid())
      ensures |old(View()).vals| == 5 && old(View()).vals[2] == Sub(old(Loc.ViewOf(gpsLocation)))
    {
      hide Loc.View, Appinstance.View, Appinstance.Views, Appinstance.Valid, Loc.Image, Appinstance.Image,
          Valid, WellTyped;
    }

    twostate lemma WasAppinstances()
      requires old(Valid())
      ensures old(forall x :: x in Elems(appinstances) ==> x.Valid())
      ensures |old(View()).vals| == 5 && old(View()).vals[4] == Subs(old(Appinstance.Views(Elems(appinstances))))
    {
      hide Loc.View, Appinstance.View, Appinstance.Views, Appinstance.Valid, Loc.Image, Appinstance.Image,
          WellTyped;
    }

    //
    // Copying
    //

    static ghost function Items(carrierName: bytes, cloudletName: bytes, gpsLocation: Option<Tree>,
        distance: uint64, appinstances: Forest): (items: seq<Item>)
      ensures |items| == 5
      ensures items[0] == Text(carrierName)
      ensures items[1] == Text(cloudletName)
      ensures items[2] == One(gpsLocation)
      ensures items[3] == Real(distance)
      ensures items[4] == Many(appinstances)
    {
      [Text(carrierName), Text(cloudletName), One(gpsLocation), Real(distance), Many(appinstances)]
    }

    /** The message as copying sees it. */
    ghost function Fields(): (t: Tree)
      requires Valid()
      reads this, Repr
      ensures |t.items| == 5
    {
      Tree(Items(carrierName, cloudletName, Loc.FieldsOf(gpsLocation), distance,
          Appinstance.ForestOf(appinstances)), unrecognized)
    }

    /** The objects that the fields lead to. */
    ghost function Footprint(): set<object>
      reads `gpsLocation, `appinstances, gpsLocation, Elems(appinstances)`Repr
    {
      {this} +
      (if gpsLocation == null then {} else {gpsLocation}) +
      (if gpsLocation == null || gpsLocation.timestamp == null then {} else {gpsLocation.timestamp}) +
      Appinstance.Reprs(Elems(appinstances))
    }

    lemma Footed()
      requires Repr == Footprint()
      requires forall x :: x in Elems(appinstances) ==> x.Valid()
      requires this !in Appinstance.Reprs(Elems(appinstances))
      requires gpsLocation !in Appinstance.Reprs(Elems(appinstances))
      requires gpsLocation != null ==> gpsLocation.timestamp !in Appinstance.Reprs(Elems(appinstances))
      ensures Valid()
    {
      hide Appinstance.Valid;
    }

    lemma ElementsValid()
      requires Valid()
      ensures forall x :: x in Elems(appinstances) ==> x.Valid()
    {
    }

    lemma FieldItems()
      requires Valid()
      ensures Fields().unknown == unrecognized && |Fields().items| == 5
      ensures Fields().items[0] == Text(carrierName)
      ensures Fields().items[1] == Text(cloudletName)
      ensures Fields().items[2] == One(Loc.FieldsOf(gpsLocation))
      ensures Fields().items[3] == Real(distance)
      ensures forall x :: x in Elems(appinstances) ==>
                && x.Valid() && this !in x.Repr
                && gpsLocation !in x.Repr
                && (gpsLocation != null ==> gpsLocation.timestamp !in x.Repr)
      ensures Fields().items[4] == Many(Appinstance.ForestOf(appinstances))
      ensures Footprint() <= Repr && this in Repr
      ensures gpsLocation != null ==> gpsLocation in Repr
      ensures gpsLocation != null && gpsLocation.timestamp != null ==> gpsLocation.timestamp in Repr
      ensures this !in Appinstance.Reprs(Elems(appinstances))
      ensures gpsLocation !in Appinstance.Reprs(Elems(appinstances))
      ensures gpsLocation != null ==> gpsLocation.timestamp !in Appinstance.Reprs(Elems(appinstances))
    {
      hide Appinstance.View, Appinstance.Fields, Appinstance.Views, Appinstance.Trees, Appinstance.Valid,
          Loc.Fields, Loc.View, Items;
    }

    /** A message none of whose objects has changed. */
    twostate lemma Same()
      requires old(Valid()) && unchanged(old(Repr))
      ensures Valid() && Repr == old(Repr) && Fields() == old(Fields())
    {
      hide Fields, Valid;
    }

    /** What assigning to the other fields leaves as it was. */
    twostate lemma FieldsKept()
      requires old(Valid()) && Repr == old(Repr)
      requires gpsLocation == old(gpsLocation)
      requires gpsLocation != null ==>
                 && gpsLocation.timestamp == old(gpsLocation.timestamp)
                 && gpsLocation.Fields() == old(gpsLocation.Fields())
      requires appinstances == old(appinstances)
      requires forall x :: x in Elems(appinstances) ==>
                old(x.Valid()) && x.Valid() && x.Repr == old(x.Repr) && x.Fields() == old(x.Fields())
      ensures Valid() && Appinstance.Trees(Elems(appinstances)) == old(Appinstance.Trees(Elems(appinstances)))
    {
      hide Appinstance.Fields, Appinstance.Trees;
      Appinstance.TreesKept(Elems(appinstances));
    }

    static ghost function Trees(xs: seq<CloudletLocation>): (ts: seq<Tree>)
      requires forall x :: x in xs ==> x.Valid()
      reads xs, set x, o | x in xs && o in x.Repr :: o
      ensures |ts| == |xs| && forall i :: 0 <= i < |ts| ==> ts[i] == xs[i].Fields()
    {
      seq(|xs|, i requires 0 <= i < |xs| && xs[i] in xs && xs[i].Valid()
        reads xs, set x, o | x in xs && o in x.Repr :: o => xs[i].Fields())
    }

    /** A list of these messages as copying sees it. */
    static ghost function ForestOf(xs: Option<seq<CloudletLocation>>): Forest
      requires forall x :: x in Elems(xs) ==> x.Valid()
      reads Elems(xs), set x, o | x in Elems(xs) && o in x.Repr :: o
    {
      if xs.None? then NilList else Forest(Trees(xs.value))
    }

    static twostate lemma {:induction false} TreesKept(xs: seq<CloudletLocation>)
      requires old(forall x :: x in xs ==> x.Valid()) && forall x :: x in xs ==> x.Valid()
      requires forall x :: x in xs ==> x.Fields() == old(x.Fields())
      ensures Trees(xs) == old(Trees(xs))
    {
      hide CloudletLocation.Fields, CloudletLocation.View;
      if xs != [] {
        assert xs[0] in xs;
        TreesKept(xs[1..]);
      }
    }

    lemma FieldsOnWire()
      requires Valid()
      ensures ToMsg(Fields()) == View()
    {
      hide View, Fields, Valid, Appinstance.View, Appinstance.Fields, Appinstance.Views, Appinstance.Trees,
          Appinstance.Valid, Appinstance.Reprs, Loc.Fields, Loc.View;
      ElementsApart();
      ViewVals();
      FieldItems();
      if gpsLocation != null {
        gpsLocation.FieldsOnWire();
      }
      Appinstance.TreesOnWire(Elems(appinstances));
      assert ToVal(Many(Appinstance.ForestOf(appinstances))).subs == Appinstance.Views(Elems(appinstances));
      assert ToMsg(Fields()).vals == View().vals;
    }

    static lemma TreesOnWire(xs: seq<CloudletLocation>)
      requires forall x :: x in xs ==> x.Valid()
      ensures forall i :: 0 <= i < |xs| ==> ToMsg(Trees(xs)[i]) == Views(xs)[i]
    {
      hide CloudletLocation.Fields, CloudletLocation.View, CloudletLocation.Trees, CloudletLocation.Views, ToMsg;
      forall i | 0 <= i < |xs| ensures ToMsg(xs[i].Fields()) == xs[i].View() {
        xs[i].FieldsOnWire();
      }
    }

    /** The messages have the same declared fields, at every level. A float may be either zero where the
        other is. */
    ghost predicate Equals(o: CloudletLocation)
      requires Valid() && o.Valid()
      reads this, Repr, o, o.Repr
    {
      && carrierName == o.carrierName
      && cloudletName == o.cloudletName
      && (gpsLocation == null <==> o.gpsLocation == null)
      && (gpsLocation != null && o.gpsLocation != null ==> gpsLocation.Equals(o.gpsLocation))
      && (distance == o.distance || (distance % 0x8000_0000_0000_0000 == 0
          && o.distance % 0x8000_0000_0000_0000 == 0))
      && (appinstances == None <==> o.appinstances == None)
      && Appinstance.AllEqual(Elems(appinstances), Elems(o.appinstances))
    }

    static ghost predicate AllEqual(xs: seq<CloudletLocation>, os: seq<CloudletLocation>)
      requires (forall x :: x in xs ==> x.Valid()) && forall x :: x in os ==> x.Valid()
      reads xs, os, (set x, p | x in xs && p in x.Repr :: p), (set x, p | x in os && p in x.Repr :: p)
    {
      |xs| == |os| && forall i :: 0 <= i < |xs| ==> xs[i].Equals(os[i])
    }

    static lemma AllSame(xs: seq<CloudletLocation>, os: seq<CloudletLocation>)
      requires (forall x :: x in xs ==> x.Valid()) && forall x :: x in os ==> x.Valid()
      requires |xs| == |os| && forall i :: 0 <= i < |xs| ==> SameTree(Trees(xs)[i], Trees(os)[i])
      ensures AllEqual(xs, os)
    {
      hide CloudletLocation.Fields, SameTree, CloudletLocation.Equals;
      forall i | 0 <= i < |xs| ensures xs[i].Equals(os[i]) {
        assert SameTree(Trees(xs)[i], Trees(os)[i]);
        xs[i].SameIsEqual(os[i]);
      }
    }

    /** The same to copying is the same field by field. */
    lemma SameIsEqual(o: CloudletLocation)
      requires Valid() && o.Valid()
      requires SameTree(Fields(), o.Fields())
      ensures Equals(o)
    {
      hide View, Fields, Valid, Appinstance.View, Appinstance.Fields, Appinstance.Views, Appinstance.Trees,
          Appinstance.Valid, Appinstance.Reprs, Loc.Fields, Loc.View, Loc.Equals, Appinstance.Equals,
          Appinstance.AllEqual, Items, Footprint;
      FieldItems();
      o.FieldItems();
      ghost var r, s := Fields().items, o.Fields().items;
      assert SameItem(r[0], s[0]);
      assert SameItem(r[1], s[1]);
      assert SameItem(r[2], s[2]);
      assert SameItem(r[3], s[3]);
      assert SameItem(r[4], s[4]);
      if gpsLocation != null && o.gpsLocation != null {
        gpsLocation.SameIsEqual(o.gpsLocation);
      }
      if appinstances == None {
        assert Elems(appinstances) == Elems(o.appinstances) == [];
      }
      Appinstance.AllSame(Elems(appinstances), Elems(o.appinstances));
    }

    lemma FieldsUnknown()
      requires Valid()
      ensures Fields().unknown == unrecognized
    {
      hide Appinstance.View, Appinstance.Fields, Appinstance.Views, Appinstance.Trees, Appinstance.Valid,
          Appinstance.Reprs, Loc.Fields, Loc.View, Valid, Items;
    }

    /** A copy from src, whose fields are s, onto what had the fields m is under way: k fields are done,
        which counted as changed. */
    ghost predicate Underway(src: CloudletLocation, m: Tree, s: Tree, k: nat, changed: int)
      reads this, Repr, src, src.Repr
    {
      Valid() && src.Valid() && src.Fields() == s && CopiedUpTo(Fields(), m, s, k, changed)
    }

    /** What copying the fields from `carrierName` to `cloudletName` does to the message. */
    twostate lemma CarrierNameToCloudletNameSet(new src: CloudletLocation, new m: Tree, new s: Tree,
        new before: int, new changed: int)
      requires old(Valid()) && Valid() && src.Valid() && src.Fields() == s
      requires CopiedUpTo(old(Fields()), m, s, 0, before)
      requires unrecognized == old(unrecognized)
      requires carrierName == src.carrierName
      requires cloudletName == src.cloudletName
      requires Loc.FieldsOf(gpsLocation) == old(Loc.FieldsOf(gpsLocation))
      requires distance == old(distance)
      requires appinstances.None? <==> old(appinstances.None?)
      requires Appinstance.Trees(Elems(appinstances)) == old(Appinstance.Trees(Elems(appinstances)))
      requires changed == before +
                 (if old(carrierName) == src.carrierName then 0 else 1) +
                 (if old(cloudletName) == src.cloudletName then 0 else 1)
      ensures CopiedUpTo(Fields(), m, s, 2, changed)
    {
      hide Appinstance.View, Appinstance.Fields, Appinstance.Views, Appinstance.Trees, Appinstance.Valid,
          Appinstance.Reprs, Loc.Fields, Loc.View, Loc.FieldsOf, Valid, Items, CopiedUpTo, CopyItem, Changes,
          FloatEq;
      PlainItem(old(Fields()).items[0], s.items[0]);
      PlainItem(old(Fields()).items[1], s.items[1]);
      CopySpan(old(Fields()), Fields(), m, s, 0, 2, before, changed);
    }

    /** What copying the field `distance` does to the message. */
    twostate lemma DistanceSet(new src: CloudletLocation, new m: Tree, new s: Tree, new before: int,
        new changed: int)
      requires old(Valid()) && Valid() && src.Valid() && src.Fields() == s
      requires CopiedUpTo(old(Fields()), m, s, 3, before)
      requires unrecognized == old(unrecognized)
      requires carrierName == old(carrierName)
      requires cloudletName == old(cloudletName)
      requires Loc.FieldsOf(gpsLocation) == old(Loc.FieldsOf(gpsLocation))
      requires distance == FloatCopied(old(distance), src.distance)
      requires appinstances.None? <==> old(appinstances.None?)
      requires Appinstance.Trees(Elems(appinstances)) == old(Appinstance.Trees(Elems(appinstances)))
      requires changed == before +
                 (if FloatEq(old(distance), src.distance) then 0 else 1)
      ensures CopiedUpTo(Fields(), m, s, 4, changed)
    {
      hide Appinstance.View, Appinstance.Fields, Appinstance.Views, Appinstance.Trees, Appinstance.Valid,
          Appinstance.Reprs, Loc.Fields, Loc.View, Loc.FieldsOf, Valid, Items, CopiedUpTo, CopyItem, Changes,
          FloatEq;
      RealItem(old(Fields()).items[3], s.items[3]);
      CopySpan(old(Fields()), Fields(), m, s, 3, 4, before, changed);
    }

    /** Inside `gpsLocation.timestamp`: its fields. */
    method CopyGpsLocationTimestampFields(src: CloudletLocation) returns (changed: int)
      requires gpsLocation != null && src.gpsLocation != null && gpsLocation.timestamp != null
          && src.gpsLocation.timestamp != null && gpsLocation.timestamp != src.gpsLocation.timestamp
      modifies gpsLocation.timestamp
      ensures gpsLocation.timestamp.Fields() ==
              CopyTree(old(gpsLocation.timestamp.Fields()), src.gpsLocation.timestamp.Fields())
      ensures changed == TreeChanges(old(gpsLocation.timestamp.Fields()), src.gpsLocation.timestamp.Fields())
    {
      hide Timestamp.Items, CopiedUpTo, CopyTree, TreeChanges, CopyItem, Changes, FloatEq, Timestamp.Fields;
      ghost var m := gpsLocation.timestamp.Fields();
      ghost var s := src.gpsLocation.timestamp.Fields();
      changed := 0;
      if gpsLocation.timestamp.seconds != src.gpsLocation.timestamp.seconds {
        gpsLocation.timestamp.seconds := src.gpsLocation.timestamp.seconds;
        changed := changed + 1;
      }
      if gpsLocation.timestamp.nanos != src.gpsLocation.timestamp.nanos {
        gpsLocation.timestamp.nanos := src.gpsLocation.timestamp.nanos;
        changed := changed + 1;
      }
      CopyStart(m, s);
      gpsLocation.timestamp.SecondsToNanosSet(src.gpsLocation.timestamp, m, s, 0, changed);
      CopyDone(gpsLocation.timestamp.Fields(), m, s, changed);
    }

    /** Inside `gpsLocation`: the fields from `latitude` to `verticalAccuracy`. */
    method CopyGpsLocationLatitudeToVerticalAccuracy(src: CloudletLocation, before: int, ghost m: Tree,
        ghost s: Tree) returns (changed: int)
      requires gpsLocation != null && src != this && src.gpsLocation != null && src.gpsLocation != gpsLocation
      requires gpsLocation.timestamp != null ==> gpsLocation.timestamp != src.gpsLocation.timestamp
      requires src.gpsLocation.Fields() == s && CopiedUpTo(gpsLocation.Fields(), m, s, 0, before)
      modifies gpsLocation`latitude, gpsLocation`longitude, gpsLocation`horizontalAccuracy,
          gpsLocation`verticalAccuracy
      ensures src.gpsLocation.Fields() == s && CopiedUpTo(gpsLocation.Fields(), m, s, 4, changed)
    {
      hide Loc.Items, CopiedUpTo, CopyTree, TreeChanges, CopyItem, Changes, FloatEq, Loc.Fields;
      changed := before;
      if !FloatEq(gpsLocation.latitude, src.gpsLocation.latitude) {
        gpsLocation.latitude := src.gpsLocation.latitude;
        changed := changed + 1;
      }
      if !FloatEq(gpsLocation.longitude, src.gpsLocation.longitude) {
        gpsLocation.longitude := src.gpsLocation.longitude;
        changed := changed + 1;
      }
      if !FloatEq(gpsLocation.horizontalAccuracy, src.gpsLocation.horizontalAccuracy) {
        gpsLocation.horizontalAccuracy := src.gpsLocation.horizontalAccuracy;
        changed := changed + 1;
      }
      if !FloatEq(gpsLocation.verticalAccuracy, src.gpsLocation.verticalAccuracy) {
        gpsLocation.verticalAccuracy := src.gpsLocation.verticalAccuracy;
        changed := changed + 1;
      }
      gpsLocation.LatitudeToVerticalAccuracySet(src.gpsLocation, m, s, before, changed);
    }

    /** Inside `gpsLocation`: the fields from `altitude` to `speed`. */
    method CopyGpsLocationAltitudeToSpeed(src: CloudletLocation, before: int, ghost m: Tree,
        ghost s: Tree) returns (changed: int)
      requires gpsLocation != null && src != this && src.gpsLocation != null && src.gpsLocation != gpsLocation
      requires gpsLocation.timestamp != null ==> gpsLocation.timestamp != src.gpsLocation.timestamp
      requires src.gpsLocation.Fields() == s && CopiedUpTo(gpsLocation.Fields(), m, s, 4, before)
      modifies gpsLocation`altitude, gpsLocation`course, gpsLocation`speed
      ensures src.gpsLocation.Fields() == s && CopiedUpTo(gpsLocation.Fields(), m, s, 7, changed)
    {
      hide Loc.Items, CopiedUpTo, CopyTree, TreeChanges, CopyItem, Changes, FloatEq, Loc.Fields;
      changed := before;
      if !FloatEq(gpsLocation.altitude, src.gpsLocation.altitude) {
        gpsLocation.altitude := src.gpsLocation.altitude;
        changed := changed + 1;
      }
      if !FloatEq(gpsLocation.course, src.gpsLocation.course) {
        gpsLocation.course := src.gpsLocation.course;
        changed := changed + 1;
      }
      if !FloatEq(gpsLocation.speed, src.gpsLocation.speed) {
        gpsLocation.speed := src.gpsLocation.speed;
        changed := changed + 1;
      }
      gpsLocation.AltitudeToSpeedSet(src.gpsLocation, m, s, before, changed);
    }

    /** Inside `gpsLocation`: the sub-message `timestamp`, again field by field. */
    method CopyGpsLocationTimestamp(src: CloudletLocation, before: int, ghost m: Tree, ghost s: Tree)
        returns (changed: int)
      requires gpsLocation != null && src != this && src.gpsLocation != null && src.gpsLocation != gpsLocation
      requires gpsLocation.timestamp != null ==> gpsLocation.timestamp != src.gpsLocation.timestamp
      requires src.gpsLocation.Fields() == s && CopiedUpTo(gpsLocation.Fields(), m, s, 7, before)
      modifies gpsLocation`timestamp, gpsLocation.timestamp
      ensures gpsLocation.timestamp == null || gpsLocation.timestamp == old(gpsLocation.timestamp)
          || (old(gpsLocation.timestamp) == null && fresh(gpsLocation.timestamp))
      ensures src.gpsLocation.Fields() == s && CopiedUpTo(gpsLocation.Fields(), m, s, 8, changed)
    {
      hide Loc.Items, CopiedUpTo, CopyTree, TreeChanges, CopyItem, Changes, FloatEq, Loc.Fields,
          Timestamp.Items, Timestamp.Fields, ItemsKept;
      changed := before;
      ghost var r := gpsLocation.Fields();
      ghost var was := Timestamp.FieldsOf(gpsLocation.timestamp);
      ghost var x := Timestamp.FieldsOf(src.gpsLocation.timestamp);
      gpsLocation.TimestampItem();
      src.gpsLocation.TimestampItem();
      if src.gpsLocation.timestamp != null {
        if gpsLocation.timestamp == null {
          gpsLocation.timestamp := new Timestamp();
          gpsLocation.timestamp.NewFields(src.gpsLocation.timestamp);
        }
        assert gpsLocation.timestamp.Fields() == Onto(One(was), x.value);
        var count := CopyGpsLocationTimestampFields(src);
        changed := changed + count;
      } else if gpsLocation.timestamp != null {
        gpsLocation.timestamp := null;
        changed := changed + 1;
      }
      assert OneTaken(Timestamp.FieldsOf(gpsLocation.timestamp), was, x, before, changed);
      gpsLocation.TimestampItem();
      gpsLocation.TimestampAside();
      CopyOne(r, gpsLocation.Fields(), m, s, 7, before, changed);
    }

    /** The inlined copy of `gpsLocation`: into the one that is there, or into a new one. */
    method TakeGpsLocation(src: CloudletLocation, before: int) returns (changed: int)
      requires src != this && (gpsLocation != null ==> src.gpsLocation != gpsLocation)
      requires gpsLocation != null && gpsLocation.timestamp != null && src.gpsLocation != null ==>
                 gpsLocation.timestamp != src.gpsLocation.timestamp
      modifies `gpsLocation, gpsLocation, Loc.StampOf(gpsLocation)
      ensures gpsLocation == null || gpsLocation == old(gpsLocation) || (old(gpsLocation) == null
          && fresh(gpsLocation))
      ensures gpsLocation != null ==>
                || gpsLocation.timestamp == null
                || gpsLocation.timestamp == old(Loc.StampOf(gpsLocation))
                || (old(Loc.StampOf(gpsLocation)) == null && fresh(gpsLocation.timestamp))
      ensures OneTaken(Loc.FieldsOf(gpsLocation), old(Loc.FieldsOf(gpsLocation)),
          old(Loc.FieldsOf(src.gpsLocation)), before, changed)
      ensures Loc.FieldsOf(src.gpsLocation) == old(Loc.FieldsOf(src.gpsLocation))
    {
      hide Loc.Items, CopiedUpTo, CopyTree, TreeChanges, CopyItem, Changes, FloatEq, Loc.Fields;
      changed := before;
      if src.gpsLocation != null {
        ghost var s := src.gpsLocation.Fields();
        ghost var b := Onto(One(Loc.FieldsOf(gpsLocation)), s);
        if gpsLocation == null {
          gpsLocation := new Loc();
          gpsLocation.NewFields(src.gpsLocation);
        }
        ghost var m := gpsLocation.Fields();
        assert m == b;
        CopyStart(m, s);
        var count := 0;
        count := CopyGpsLocationLatitudeToVerticalAccuracy(src, count, m, s);
        count := CopyGpsLocationAltitudeToSpeed(src, count, m, s);
        count := CopyGpsLocationTimestamp(src, count, m, s);
        CopyDone(gpsLocation.Fields(), m, s, count);
        changed := changed + count;
      } else if gpsLocation != null {
        gpsLocation := null;
        changed := changed + 1;
      }
    }

    /** The list `appinstances`, replaced by clones of the source's. */
    method ReplaceAppinstances(src: CloudletLocation, before: int) returns (changed: int)
      requires src != this && forall x :: x in Elems(src.appinstances) ==> x.Valid()
      modifies `appinstances
      ensures appinstances.None? <==> src.appinstances.None?
      ensures (forall y :: y in Elems(appinstances) ==> y.Valid()) && fresh(Appinstance.Reprs(Elems(appinstances)))
      ensures Appinstance.Trees(Elems(appinstances)) == Bares(old(Appinstance.Trees(Elems(src.appinstances))))
      ensures changed == if src.appinstances == old(appinstances) == None then before else before + 1
    {
      hide Appinstance.View, Appinstance.Fields, Appinstance.Valid;
      changed := before;
      if src.appinstances != None {
        var ys := Appinstance.CloneAll(src.appinstances.value);
        appinstances := Some(ys);
        changed := changed + 1;
      } else if appinstances != None {
        appinstances := None;
        changed := changed + 1;
      }
    }

    /** The list `appinstances` of a deep copy. */
    method CloneAppinstances(src: CloudletLocation)
      requires src != this && forall x :: x in Elems(src.appinstances) ==> x.Valid()
      modifies `appinstances
      ensures appinstances.None? <==> src.appinstances.None?
      ensures (forall y :: y in Elems(appinstances) ==> y.Valid()) && fresh(Appinstance.Reprs(Elems(appinstances)))
      ensures Appinstance.Trees(Elems(appinstances)) == Bares(old(Appinstance.Trees(Elems(src.appinstances))))
    {
      hide Appinstance.View, Appinstance.Fields, Appinstance.Valid;
      if src.appinstances != None {
        var ys := Appinstance.CloneAll(src.appinstances.value);
        appinstances := Some(ys);
      } else {
        appinstances := None;
      }
    }

    /** The sub-message `gpsLocation` of a deep copy. */
    method CloneGpsLocation(src: CloudletLocation)
      requires src != this
      modifies `gpsLocation
      ensures gpsLocation == null <==> src.gpsLocation == null
      ensures gpsLocation != null ==>
                fresh(gpsLocation) && (gpsLocation.timestamp != null ==> fresh(gpsLocation.timestamp))
      ensures gpsLocation != null ==> gpsLocation.Fields() == Bare(old(src.gpsLocation.Fields()))
    {
      hide Loc.Fields;
      if src.gpsLocation != null {
        var tmp := new Loc();
        tmp.DeepCopyIn(src.gpsLocation);
        gpsLocation := tmp;
      } else {
        gpsLocation := null;
      }
    }

    /** Messages of the same type are alike. */
    lemma FieldsAlike(src: CloudletLocation)
      requires Valid() && src.Valid()
      ensures Alike(Fields(), src.Fields())
    {
      hide Fields, View, Valid, Appinstance.View, Appinstance.Fields, Appinstance.Views, Appinstance.Trees,
          Appinstance.Valid, Appinstance.Reprs, Loc.Fields, Loc.View, Items, Footprint;
      FieldItems();
      src.FieldItems();
      if gpsLocation != null && src.gpsLocation != null {
        gpsLocation.FieldsAlike(src.gpsLocation);
      }
      assert AlikeItem(Fields().items[0], src.Fields().items[0]);
      assert AlikeItem(Fields().items[1], src.Fields().items[1]);
      assert AlikeItem(Fields().items[2], src.Fields().items[2]);
      assert AlikeItem(Fields().items[3], src.Fields().items[3]);
      assert AlikeItem(Fields().items[4], src.Fields().items[4]);
    }

    /** The fields from `carrierName` to `cloudletName`. */
    method CopyCarrierNameToCloudletName(src: CloudletLocation, before: int, ghost m: Tree,
        ghost s: Tree) returns (changed: int)
      requires Underway(src, m, s, 0, before) && Repr !! src.Repr
      modifies `carrierName, `cloudletName
      ensures Underway(src, m, s, 2, changed)
      ensures Repr == old(Repr) && src.Repr == old(src.Repr)
    {
      hide Footprint, View, Fields, Appinstance.View, Appinstance.Fields, Appinstance.Views, Appinstance.Trees,
          Appinstance.Valid, Appinstance.Reprs, Loc.Fields, Loc.View, Valid, Items, CopiedUpTo, CopyTree,
          TreeChanges, CopyItem, Changes, FloatEq;
      FieldItems();
      changed := before;
      if carrierName != src.carrierName {
        carrierName := src.carrierName;
        changed := changed + 1;
      }
      if cloudletName != src.cloudletName {
        cloudletName := src.cloudletName;
        changed := changed + 1;
      }
      FieldsKept();
      CarrierNameToCloudletNameSet(src, m, s, before, changed);
    }

    /** What a copy of `gpsLocation` does to the objects of the message. */
    twostate lemma GpsLocationTaken()
      requires old(Valid()) && Repr == Footprint()
      requires gpsLocation == null || gpsLocation == old(gpsLocation) || (old(gpsLocation) == null
          && fresh(gpsLocation))
      requires gpsLocation != null ==>
                 || gpsLocation.timestamp == null
                 || gpsLocation.timestamp == old(Loc.StampOf(gpsLocation))
                 || (old(Loc.StampOf(gpsLocation)) == null && fresh(gpsLocation.timestamp))
      requires appinstances == old(appinstances)
      requires forall x :: x in Elems(appinstances) ==> x.Valid() && x.Repr == old(x.Repr)
      ensures Valid() && fresh(Repr - old(Repr))
    {
      hide Appinstance.Valid;
      Footed();
    }

    lemma GpsLocationItem()
      requires Valid()
      ensures forall x :: x in Elems(appinstances) ==>
                && x.Valid() && this !in x.Repr
                && gpsLocation !in x.Repr
                && (gpsLocation != null ==> gpsLocation.timestamp !in x.Repr)
      ensures |Fields().items| == 5 && Fields().items[2] == One(Loc.FieldsOf(gpsLocation))
      ensures this in Repr
      ensures gpsLocation != null ==> gpsLocation in Repr
      ensures gpsLocation != null && gpsLocation.timestamp != null ==> gpsLocation.timestamp in Repr
    {
      hide Appinstance.View, Appinstance.Fields, Appinstance.Views, Appinstance.Trees, Appinstance.Valid,
          Appinstance.Reprs, Loc.Fields, Loc.View, Loc.FieldsOf, Items;
    }

    /** What a copy of `gpsLocation` leaves as it was. */
    twostate lemma GpsLocationAside()
      requires old(Valid()) && Valid() && unrecognized == old(unrecognized)
      requires carrierName == old(carrierName)
      requires cloudletName == old(cloudletName)
      requires distance == old(distance)
      requires appinstances.None? <==> old(appinstances.None?)
      requires Appinstance.Trees(Elems(appinstances)) == old(Appinstance.Trees(Elems(appinstances)))
      ensures ItemsKept(Fields(), old(Fields()), 2, 3)
    {
      hide Appinstance.View, Appinstance.Fields, Appinstance.Views, Appinstance.Trees, Appinstance.Valid,
          Appinstance.Reprs, Loc.Fields, Loc.View, Loc.FieldsOf, Valid, Items;
    }

    /** The sub-message `gpsLocation`, and what its copy leaves as it was. */
    method GraftGpsLocation(src: CloudletLocation, before: int) returns (changed: int)
      requires Valid() && src.Valid() && Repr !! src.Repr
      modifies `gpsLocation, gpsLocation, Loc.StampOf(gpsLocation), `Repr
      ensures Valid() && fresh(Repr - old(Repr))
      ensures gpsLocation == null || gpsLocation == old(gpsLocation) || (old(gpsLocation) == null
          && fresh(gpsLocation))
      ensures gpsLocation != null ==>
                || gpsLocation.timestamp == null
                || gpsLocation.timestamp == old(Loc.StampOf(gpsLocation))
                || (old(Loc.StampOf(gpsLocation)) == null && fresh(gpsLocation.timestamp))
      ensures Appinstance.Trees(Elems(appinstances)) == old(Appinstance.Trees(Elems(appinstances)))
      ensures OneTaken(Loc.FieldsOf(gpsLocation), old(Loc.FieldsOf(gpsLocation)),
          old(Loc.FieldsOf(src.gpsLocation)), before, changed)
    {
      hide View, Fields, Appinstance.View, Appinstance.Fields, Appinstance.Views, Appinstance.Trees,
          Appinstance.Valid, Appinstance.Reprs, Loc.Fields, Loc.View, Valid, Footprint, CopyTree, TreeChanges,
          Onto, OneTaken;
      GpsLocationItem();
      src.GpsLocationItem();
      changed := TakeGpsLocation(src, before);
      Repr := Footprint();
      GpsLocationTaken();
      Appinstance.TreesKept(Elems(appinstances));
    }

    /** The sub-message `gpsLocation`, as a change to the whole message. */
    method PlaceGpsLocation(src: CloudletLocation, before: int) returns (changed: int)
      requires Valid() && src.Valid() && Repr !! src.Repr
      modifies `gpsLocation, gpsLocation, Loc.StampOf(gpsLocation), `Repr
      ensures Valid() && fresh(Repr - old(Repr)) && src.Valid() && src.Repr == old(src.Repr)
      ensures gpsLocation == null || gpsLocation == old(gpsLocation) || (old(gpsLocation) == null
          && fresh(gpsLocation))
      ensures gpsLocation != null ==>
                || gpsLocation.timestamp == null
                || gpsLocation.timestamp == old(Loc.StampOf(gpsLocation))
                || (old(Loc.StampOf(gpsLocation)) == null && fresh(gpsLocation.timestamp))
      ensures src.Fields() == old(src.Fields())
      ensures OnePlaced(Fields(), old(Fields()), old(src.Fields()), 2, before, changed)
    {
      hide View, Fields, Appinstance.View, Appinstance.Fields, Appinstance.Views, Appinstance.Trees,
          Appinstance.Valid, Appinstance.Reprs, Loc.Fields, Loc.View, Loc.FieldsOf, Valid, Items, ItemsKept,
          OneTaken, CopyTree, TreeChanges, Onto, Bares, BareItem;
      GpsLocationItem();
      src.GpsLocationItem();
      changed := GraftGpsLocation(src, before);
      src.Same();
      GpsLocationItem();
      GpsLocationAside();
    }

    /** The sub-message `gpsLocation`. */
    method CopyGpsLocation(src: CloudletLocation, before: int, ghost m: Tree, ghost s: Tree) returns (changed: int)
      requires Underway(src, m, s, 2, before) && Repr !! src.Repr
      modifies `gpsLocation, gpsLocation, Loc.StampOf(gpsLocation), `Repr
      ensures Underway(src, m, s, 3, changed)
      ensures fresh(Repr - old(Repr)) && src.Repr == old(src.Repr)
      ensures gpsLocation == null || gpsLocation == old(gpsLocation) || (old(gpsLocation) == null
          && fresh(gpsLocation))
      ensures gpsLocation != null ==>
                || gpsLocation.timestamp == null
                || gpsLocation.timestamp == old(Loc.StampOf(gpsLocation))
                || (old(Loc.StampOf(gpsLocation)) == null && fresh(gpsLocation.timestamp))
    {
      hide Footprint, View, Fields, Appinstance.View, Appinstance.Fields, Appinstance.Views, Appinstance.Trees,
          Appinstance.Valid, Appinstance.Reprs, Loc.Fields, Loc.View, Valid, Items, CopiedUpTo, CopyTree,
          TreeChanges, CopyItem, Changes, FloatEq;
      ghost var r := Fields();
      changed := before;
      changed := PlaceGpsLocation(src, changed);
      CopyOne(r, Fields(), m, s, 2, before, changed);
    }

    /** The field `distance`. */
    method CopyDistance(src: CloudletLocation, before: int, ghost m: Tree, ghost s: Tree) returns (changed: int)
      requires Underway(src, m, s, 3, before) && Repr !! src.Repr
      modifies `distance
      ensures Underway(src, m, s, 4, changed)
      ensures Repr == old(Repr) && src.Repr == old(src.Repr)
    {
      hide Footprint, View, Fields, Appinstance.View, Appinstance.Fields, Appinstance.Views, Appinstance.Trees,
          Appinstance.Valid, Appinstance.Reprs, Loc.Fields, Loc.View, Valid, Items, CopiedUpTo, CopyTree,
          TreeChanges, CopyItem, Changes, FloatEq;
      FieldItems();
      changed := before;
      if !FloatEq(distance, src.distance) {
        distance := src.distance;
        changed := changed + 1;
      }
      FieldsKept();
      DistanceSet(src, m, s, before, changed);
    }

    /** What a copy of `appinstances` does to the objects of the message. */
    twostate lemma AppinstancesTaken()
      requires old(Valid()) && Repr == Footprint()
      requires gpsLocation == old(gpsLocation)
      requires gpsLocation != null ==> gpsLocation.timestamp == old(gpsLocation.timestamp)
      requires (forall y :: y in Elems(appinstances) ==> y.Valid()) && fresh(Appinstance.Reprs(Elems(appinstances)))
      ensures Valid() && fresh(Repr - old(Repr))
    {
      hide Appinstance.Valid;
      Footed();
    }

    lemma AppinstancesItem()
      requires Valid()
      ensures forall x :: x in Elems(appinstances) ==>
                && x.Valid() && this !in x.Repr
                && gpsLocation !in x.Repr
                && (gpsLocation != null ==> gpsLocation.timestamp !in x.Repr)
      ensures |Fields().items| == 5 && Fields().items[4] == Many(Appinstance.ForestOf(appinstances))
      ensures this in Repr
    {
      hide Appinstance.View, Appinstance.Fields, Appinstance.Views, Appinstance.Trees, Appinstance.Valid,
          Appinstance.Reprs, Loc.Fields, Loc.View, Loc.FieldsOf, Items;
    }

    /** What a copy of `appinstances` leaves as it was. */
    twostate lemma AppinstancesAside()
      requires old(Valid()) && Valid() && unrecognized == old(unrecognized)
      requires carrierName == old(carrierName)
      requires cloudletName == old(cloudletName)
      requires Loc.FieldsOf(gpsLocation) == old(Loc.FieldsOf(gpsLocation))
      requires distance == old(distance)
      ensures ItemsKept(Fields(), old(Fields()), 4, 5)
    {
      hide Appinstance.View, Appinstance.Fields, Appinstance.Views, Appinstance.Trees, Appinstance.Valid,
          Appinstance.Reprs, Loc.Fields, Loc.View, Loc.FieldsOf, Valid, Items;
    }

    /** The list `appinstances`, and what its copy leaves as it was. */
    method GraftAppinstances(src: CloudletLocation, before: int) returns (changed: int)
      requires Valid() && src.Valid() && Repr !! src.Repr
      modifies `appinstances, `Repr
      ensures Valid() && fresh(Repr - old(Repr)) && src.Valid() && src.Repr == old(src.Repr)
      ensures src.Fields() == old(src.Fields())
      ensures appinstances.None? <==> src.appinstances.None?
      ensures Appinstance.Trees(Elems(appinstances)) == Bares(old(Appinstance.Trees(Elems(src.appinstances))))
      ensures Loc.FieldsOf(gpsLocation) == old(Loc.FieldsOf(gpsLocation))
      ensures changed == if src.appinstances == old(appinstances) == None then before else before + 1
    {
      hide View, Fields, Appinstance.View, Appinstance.Fields, Appinstance.Views, Appinstance.Trees,
          Appinstance.Valid, Appinstance.Reprs, Loc.Fields, Loc.View, Valid, Footprint, Bares;
      AppinstancesItem();
      src.AppinstancesItem();
      changed := ReplaceAppinstances(src, before);
      src.Same();
      Repr := Footprint();
      AppinstancesTaken();
    }

    /** The list `appinstances`, as a change to the whole message. */
    method PlaceAppinstances(src: CloudletLocation, before: int) returns (changed: int)
      requires Valid() && src.Valid() && Repr !! src.Repr
      modifies `appinstances, `Repr
      ensures Valid() && fresh(Repr - old(Repr)) && src.Valid() && src.Repr == old(src.Repr)
      ensures src.Fields() == old(src.Fields())
      ensures ManyPlaced(Fields(), old(Fields()), old(src.Fields()), 4, before, changed)
    {
      hide View, Fields, Appinstance.View, Appinstance.Fields, Appinstance.Views, Appinstance.Trees,
          Appinstance.Valid, Appinstance.Reprs, Loc.Fields, Loc.View, Loc.FieldsOf, Valid, Items, ItemsKept,
          OneTaken, CopyTree, TreeChanges, Onto, Bares, BareItem, Footprint;
      AppinstancesItem();
      src.AppinstancesItem();
      changed := GraftAppinstances(src, before);
      AppinstancesItem();
      AppinstancesAside();
      if src.appinstances != None {
        BareMany(old(Appinstance.Trees(Elems(src.appinstances))));
      } else {
        BareNil();
      }
    }

    /** The list `appinstances`. */
    method CopyAppinstances(src: CloudletLocation, before: int, ghost m: Tree, ghost s: Tree) returns (changed: int)
      requires Underway(src, m, s, 4, before) && Repr !! src.Repr
      modifies `appinstances, `Repr
      ensures Underway(src, m, s, 5, changed)
      ensures fresh(Repr - old(Repr)) && src.Repr == old(src.Repr)
    {
      hide Footprint, View, Fields, Appinstance.View, Appinstance.Fields, Appinstance.Views, Appinstance.Trees,
          Appinstance.Valid, Appinstance.Reprs, Loc.Fields, Loc.View, Valid, Items, CopiedUpTo, CopyTree,
          TreeChanges, CopyItem, Changes, FloatEq;
      ghost var r := Fields();
      changed := before;
      changed := PlaceAppinstances(src, changed);
      CopyMany(r, Fields(), m, s, 4, before, changed);
    }

    method CopyInFields(src: CloudletLocation) returns (changed: int)
      requires Valid() && src.Valid() && Repr !! src.Repr
      modifies this, gpsLocation, Loc.StampOf(gpsLocation)
      ensures Valid() && fresh(Repr - old(Repr)) && src.Valid() && src.Repr == old(src.Repr) && Repr !! src.Repr
      ensures gpsLocation == null || gpsLocation == old(gpsLocation) || (old(gpsLocation) == null
          && fresh(gpsLocation))
      ensures gpsLocation != null ==>
                || gpsLocation.timestamp == null
                || gpsLocation.timestamp == old(Loc.StampOf(gpsLocation))
                || (old(Loc.StampOf(gpsLocation)) == null && fresh(gpsLocation.timestamp))
      ensures src.Fields() == old(src.Fields())
      ensures Fields() == CopyTree(old(Fields()), old(src.Fields()))
      ensures changed == TreeChanges(old(Fields()), old(src.Fields()))
      ensures SameTree(Fields(), src.Fields()) && (changed == 0 ==> Untouched(old(Fields()), Fields()))
      ensures Equals(src) && unrecognized == old(unrecognized)
    {
      hide Footprint, View, Fields, Appinstance.View, Appinstance.Fields, Appinstance.Views, Appinstance.Trees,
          Appinstance.Valid, Appinstance.Reprs, Loc.Fields, Loc.View, Valid, Items, CopiedUpTo, CopyTree,
          TreeChanges, CopyItem, Changes, FloatEq, SameTree, Untouched, Alike, Equals;
      ghost var m, s := Fields(), src.Fields();
      FieldItems();
      src.FieldItems();
      FieldsAlike(src);
      FieldsUnknown();
      changed := 0;
      CopyStart(m, s);
      changed := CopyCarrierNameToCloudletName(src, changed, m, s);
      changed := CopyGpsLocation(src, changed, m, s);
      changed := CopyDistance(src, changed, m, s);
      changed := CopyAppinstances(src, changed, m, s);
      CopyDone(Fields(), m, s, changed);
      CopyAgrees(m, s);
      SameIsEqual(src);
      FieldsUnknown();
      if changed == 0 {
        NoChanges(m, s);
      }
    }

    /** The first fields of a deep copy, up to `distance`. */
    method AssignFields(src: CloudletLocation)
      requires src != this
      modifies `carrierName, `cloudletName, `gpsLocation, `distance
      ensures carrierName == src.carrierName
      ensures cloudletName == src.cloudletName
      ensures gpsLocation != null ==>
                fresh(gpsLocation) && (gpsLocation.timestamp != null ==> fresh(gpsLocation.timestamp))
      ensures gpsLocation == null <==> src.gpsLocation == null
      ensures gpsLocation != null ==> gpsLocation.Fields() == Bare(old(src.gpsLocation.Fields()))
      ensures distance == src.distance
    {
      hide Appinstance.View, Appinstance.Fields, Appinstance.Views, Appinstance.Trees, Appinstance.Valid,
          Appinstance.Reprs, Loc.Fields, Loc.View, Bare;
      carrierName := src.carrierName;
      cloudletName := src.cloudletName;
      CloneGpsLocation(src);
      distance := src.distance;
    }

    /** The last field of a deep copy. */
    method AssignRest(src: CloudletLocation)
      requires src.Valid() && this !in src.Repr
      modifies `appinstances, `Repr
      ensures Valid() && Repr == Footprint()
      ensures appinstances.None? <==> src.appinstances.None?
      ensures fresh(Appinstance.Reprs(Elems(appinstances)))
          && Appinstance.Trees(Elems(appinstances)) == Bares(old(Appinstance.Trees(Elems(src.appinstances))))
    {
      hide View, Fields, Appinstance.View, Appinstance.Fields, Appinstance.Views, Appinstance.Trees,
          Appinstance.Valid, Appinstance.Reprs, Loc.Fields, Loc.View, Valid, Items, Bare, Bares;
      src.FieldItems();
      CloneAppinstances(src);
      Repr := Footprint();
      Footed();
    }

    /** What a deep copy makes the message consist of. */
    twostate lemma AllAssigned()
      requires Valid() && Repr == Footprint()
      requires gpsLocation != null ==>
                fresh(gpsLocation) && (gpsLocation.timestamp != null ==> fresh(gpsLocation.timestamp))
      requires fresh(Appinstance.Reprs(Elems(appinstances)))
      ensures fresh(Repr - {this})
    {
      hide Valid, Appinstance.Reprs;
    }

    /** The assignments of a deep copy. */
    method AssignAll(src: CloudletLocation)
      requires Valid() && src.Valid() && this !in src.Repr
      modifies this
      ensures Valid() && fresh(Repr - {this})
      ensures gpsLocation != null ==>
                fresh(gpsLocation) && (gpsLocation.timestamp != null ==> fresh(gpsLocation.timestamp))
      ensures carrierName == src.carrierName
      ensures cloudletName == src.cloudletName
      ensures distance == src.distance
      ensures gpsLocation == null <==> src.gpsLocation == null
      ensures gpsLocation != null ==> gpsLocation.Fields() == Bare(old(Loc.FieldsOf(src.gpsLocation)).value)
      ensures appinstances.None? <==> src.appinstances.None?
      ensures Appinstance.Trees(Elems(appinstances)) == Bares(old(Appinstance.Trees(Elems(src.appinstances))))
      ensures unrecognized == old(unrecognized)
    {
      hide View, Fields, Appinstance.View, Appinstance.Fields, Appinstance.Views, Appinstance.Trees,
          Appinstance.Valid, Appinstance.Reprs, Loc.Fields, Loc.View, Valid, Footprint, Items, Bare, Bares;
      src.ElementsValid();
      AssignFields(src);
      AssignRest(src);
      AllAssigned();
    }

    /** The fields of a deep copy. */
    lemma DeepCopied(src: CloudletLocation)
      requires Valid() && src.Valid()
      requires carrierName == src.carrierName
      requires cloudletName == src.cloudletName
      requires gpsLocation == null <==> src.gpsLocation == null
      requires gpsLocation != null ==> gpsLocation.Fields() == Bare(src.gpsLocation.Fields())
      requires distance == src.distance
      requires forall x :: x in Elems(appinstances) ==> x.Valid()
      requires forall x :: x in Elems(src.appinstances) ==> x.Valid()
      requires appinstances.None? <==> src.appinstances.None?
      requires Appinstance.Trees(Elems(appinstances)) == Bares(Appinstance.Trees(Elems(src.appinstances)))
      ensures Fields() == Bare(src.Fields()).(unknown := unrecognized)
    {
      hide Appinstance.View, Appinstance.Fields, Appinstance.Views, Appinstance.Trees, Appinstance.Valid,
          Appinstance.Reprs, Loc.Fields, Loc.View, Valid, Items, Bare, Bares;
      BareFields(Fields(), src.Fields());
    }

    method DeepCopyIn(src: CloudletLocation)
      requires Valid() && src.Valid() && this !in src.Repr
      modifies this
      ensures Valid() && fresh(Repr - {this})
      ensures gpsLocation != null ==>
                fresh(gpsLocation) && (gpsLocation.timestamp != null ==> fresh(gpsLocation.timestamp))
      ensures Fields() == Bare(old(src.Fields())).(unknown := old(unrecognized))
      ensures src.Valid() && Equals(src) && distance == src.distance && unrecognized == old(unrecognized)
    {
      hide View, Fields, Appinstance.View, Appinstance.Fields, Appinstance.Views, Appinstance.Trees,
          Appinstance.Valid, Appinstance.Reprs, Loc.Fields, Loc.View, Valid, Footprint, Items, Bare, Bares,
          SameTree, Equals;
      src.FieldItems();
      AssignAll(src);
      src.Same();
      FieldItems();
      src.FieldItems();
      DeepCopied(src);
      BareSame(Fields(), src.Fields(), unrecognized);
      SameIsEqual(src);
    }

    method Clone() returns (cp: CloudletLocation)
      requires Valid()
      ensures cp.Valid() && fresh(cp.Repr)
      ensures cp.Fields() == Bare(old(Fields())) && SameTree(cp.Fields(), old(Fields()))
      ensures Valid() && cp.Equals(this) && cp.unrecognized == []
      ensures cp.View() == Cleared(old(View()))
    {
      hide View, Fields, Valid, SameTree, Equals;
      BareAgrees(Fields());
      FieldsOnWire();
      BareOnWire(Fields());
      cp := new CloudletLocation();
      cp.DeepCopyIn(this);
      cp.FieldsOnWire();
    }

    static ghost function Reprs(xs: seq<CloudletLocation>): set<object>
      reads xs`Repr
    {
      set x, o | x in xs && o in x.Repr :: o
    }

    /** The loop of a copy that has these messages in a list. */
    static method CloneAll(xs: seq<CloudletLocation>) returns (ys: seq<CloudletLocation>)
      requires forall x :: x in xs ==> x.Valid()
      ensures |ys| == |xs| && (forall y :: y in ys ==> y.Valid()) && fresh(Reprs(ys))
      ensures Trees(ys) == Bares(old(Trees(xs)))
    {
      hide CloudletLocation.View, CloudletLocation.Trees, CloudletLocation.Fields, CloudletLocation.Valid,
          Cleared, Bare, SameTree, CloudletLocation.Equals;
      ghost var ts := Trees(xs);
      ys := [];
      for k := 0 to |xs|
        invariant |ys| == k
        invariant forall i :: 0 <= i < |xs| ==> xs[i].Valid() && xs[i].Fields() == ts[i]
        invariant forall i :: 0 <= i < k ==> ys[i].Valid() && fresh(ys[i].Repr) && ys[i].Fields() == Bare(ts[i])
      {
        var y := xs[k].Clone();
        ys := ys + [y];
      }
      assert Trees(ys) == Bares(ts);
    }
  }

  class AppInstListReply {
    var ver: uint32
    var status: int32
    var cloudlets: Option<seq<CloudletLocation>>
    var tags: TagMap?
    var unrecognized: bytes
    ghost var Repr: set<object>

    constructor ()
      ensures cloudlets == None
      ensures Valid() && Repr == {this}
      ensures ver == 0 && status == 0 && tags == null && unrecognized == []
      ensures View() == Empty(APP_INST_LIST_REPLY_SCHEMA)
    {
      ver := 0;
      status := 0;
      cloudlets := None;
      tags := null;
      unrecognized := [];
      Repr := {this};
      new;
      hide View, Valid;
      Blank();
    }

    lemma Blank()
      requires ver == 0 && status == 0 && cloudlets == None && tags == null && unrecognized == []
      requires Repr == {this}
      ensures Valid()
      ensures View() == Empty(APP_INST_LIST_REPLY_SCHEMA)
    {
      assert View().vals == Empty(APP_INST_LIST_REPLY_SCHEMA).vals;
    }

    /** The objects that the message may consist of. */
    static ghost predicate Part(o: object) {
      o is AppInstListReply || o is CloudletLocation || o is Loc || o is Timestamp || o is Appinstance
          || o is AppPort || o is TagMap
    }

    /** Repr holds the objects that the message consists of, all of them of those types. */
    ghost predicate Valid()
      reads this, Repr
      ensures Valid() ==> this in Repr && forall o :: o in Repr ==> Part(o)
    {
      && this in Repr
      && (tags != null ==> tags in Repr)
      && (forall x: CloudletLocation :: x in Elems(cloudlets) ==>
            && x in Repr && x.Repr <= Repr && this !in x.Repr
            && tags !in x.Repr
            && x.Valid())
      && (forall o :: o in Repr ==> Part(o))
    }

    /** No list of the message is empty without being nil, at any level. */
    ghost predicate ListsTight()
      reads `cloudlets, Elems(cloudlets)`appinstances,
        (set x, y | x in Elems(cloudlets) && y in x.Instances() :: y)`ports
    {
      && cloudlets != Some([])
      && forall x :: x in Elems(cloudlets) ==> x.Tight()
    }

    /** Nor is the map. */
    ghost predicate Tight()
      reads `cloudlets, Elems(cloudlets)`appinstances,
        (set x, y | x in Elems(cloudlets) && y in x.Instances() :: y)`ports, `tags, tags
    {
      ListsTight() && TagMap.Contents(tags) != Some(map[])
    }

    /** The values of the fields, in the order of the schema. */
    static ghost function Vals(ver: uint32, status: int32, cloudlets: seq<Msg>, tags: map<bytes,
        bytes>): (vals: seq<Val>)
      requires forall i :: 0 <= i < |cloudlets| ==> WellTyped(CLOUDLET_LOCATION_SCHEMA, cloudlets[i])
      ensures |vals| == 4 && forall u :: WellTyped(APP_INST_LIST_REPLY_SCHEMA, Msg(vals, u))
      ensures vals[0] == Num(ver)
      ensures vals[1] == Num(Int32Word(status))
      ensures vals[2] == Subs(cloudlets)
      ensures vals[3] == StrMap(tags)
    {
      [Num(ver), Num(Int32Word(status)), Subs(cloudlets), StrMap(tags)]
    }

    ghost function View(): (m: Msg)
      requires Valid()
      reads this, Repr
      ensures WellTyped(APP_INST_LIST_REPLY_SCHEMA, m)
    {
      CloudletLocation.ViewsTyped(Elems(cloudlets));
      Msg(Vals(ver, status, CloudletLocation.Views(Elems(cloudlets)), TagMap.Of(tags)), unrecognized)
    }

    /** The elements are valid, and share no object with what else the message points to. */
    lemma ElementsApart()
      requires Valid()
      ensures forall x :: x in Elems(cloudlets) ==> x.Valid() && this !in x.Repr && tags !in x.Repr
    {
    }

    lemma ViewVals()
      requires Valid()
      ensures View().unknown == unrecognized && |View().vals| == 4
      ensures View().vals[0] == Num(ver)
      ensures View().vals[1] == Num(Int32Word(status))
      ensures View().vals[2] == Subs(CloudletLocation.Views(Elems(cloudlets)))
      ensures View().vals[3] == StrMap(TagMap.Of(tags))
    {
      hide CloudletLocation.View, CloudletLocation.Views, CloudletLocation.Valid, Vals, WellTyped;
    }

    //
    // On the wire
    //

    /** The bytes of the message: its fields in order, each behind its tag, and the unknown bytes. The entries
        of the map are in the order es. */
    ghost function ImageWith(es: seq<(bytes, bytes)>): bytes
      requires Valid()
      reads this, Repr
    {
      Wire.Join(Parts(es))
    }

    ghost function Parts(es: seq<(bytes, bytes)>): (parts: seq<bytes>)
      requires Valid()
      reads this, Repr
    {
      [
        Wire.Number(0x08, ver),
        Wire.Number(0x10, Wire.Word64(status)),
        Wire.Chunks(0x1A, CloudletLocation.Images(Elems(cloudlets))),
        Wire.Pairs100(es),
        unrecognized
      ]
    }

    /** b is the message with the entries of the map in some order. */
    ghost predicate IsImage(b: bytes)
      requires Valid()
      reads this, Repr
    {
      exists es :: Encoding.Lists(es, TagMap.Of(tags)) && b == ImageWith(es)
    }

    lemma PartsAt(es: seq<(bytes, bytes)>)
      requires Valid()
      ensures |Parts(es)| == 5 && Parts(es)[3] == Wire.Pairs100(es) && Parts(es)[4] == unrecognized
    {
      hide View, Valid, CloudletLocation.View, CloudletLocation.Views, CloudletLocation.Valid,
          CloudletLocation.Image, CloudletLocation.Images, Vals, HasType, WellTyped, Int32Word, Int64Word,
          BoolWord, Wire.Word64, Narrow, Wire.Only, Wire.Number, Wire.Real, Wire.Text, Wire.Chunks,
          Wire.Nested, Wire.Join, Encoding.Encodes;
    }

    /** What a field is written as, but for the map. */
    lemma PartsOnly(es: seq<(bytes, bytes)>)
      requires Valid()
      ensures |APP_INST_LIST_REPLY_SCHEMA.fields| == 4
      ensures Wire.OnlyAt(APP_INST_LIST_REPLY_SCHEMA, View(), Parts(es), 0)
      ensures Wire.OnlyAt(APP_INST_LIST_REPLY_SCHEMA, View(), Parts(es), 1)
      ensures Wire.OnlyAt(APP_INST_LIST_REPLY_SCHEMA, View(), Parts(es), 2)
    {
      hide View, Valid, CloudletLocation.View, CloudletLocation.Views, CloudletLocation.Valid,
          CloudletLocation.Image, CloudletLocation.Images, Vals, HasType, WellTyped, Int32Word, Int64Word,
          BoolWord, Wire.Word64, Narrow, Wire.Only, Wire.Number, Wire.Real, Wire.Text, Wire.Chunks,
          Wire.Nested, Wire.Join, Encoding.Encodes;
      AppInstListReplySchemaFields();
      ElementsApart();
      ViewVals();
      CloudletLocation.AllImaged(Elems(cloudlets));
      Wire.Uint32Only(APP_INST_LIST_REPLY_SCHEMA.fields[0], ver, 0x08);
      Wire.Int32Only(APP_INST_LIST_REPLY_SCHEMA.fields[1], status, 0x10);
      Wire.SubsOnly(APP_INST_LIST_REPLY_SCHEMA.fields[2], CLOUDLET_LOCATION_SCHEMA,
          CloudletLocation.Views(Elems(cloudlets)), CloudletLocation.Images(Elems(cloudlets)), 0x1A);
    }

    /** The parts of an encoding are those of an image. */
    lemma PartsKnown(parts: seq<bytes>) returns (es: seq<(bytes, bytes)>)
      requires Valid()
      requires Wire.IsParts(APP_INST_LIST_REPLY_SCHEMA, View(), parts)
      ensures Encoding.Lists(es, TagMap.Of(tags)) && parts == Parts(es)
    {
      hide View, Valid, CloudletLocation.View, CloudletLocation.Views, CloudletLocation.Valid,
          CloudletLocation.Image, CloudletLocation.Images, Vals, HasType, WellTyped, Int32Word, Int64Word,
          BoolWord, Wire.Word64, Narrow, Wire.Number, Wire.Real, Wire.Text, Wire.Chunks, Wire.Nested,
          Wire.Join, Encoding.Encodes, Parts, Encoding.EncodesVal, Encoding.Lists;
      AppInstListReplySchemaFields();
      ElementsApart();
      ViewVals();
      Wire.PairsOnly(APP_INST_LIST_REPLY_SCHEMA.fields[3], TagMap.Of(tags), parts[3]);
      es :| Encoding.Lists(es, TagMap.Of(tags)) && parts[3] == Wire.Pairs100(es);
      PartsOnly(es);
      PartsAt(es);
    }

    lemma PartsEncode(es: seq<(bytes, bytes)>)
      requires Valid()
      requires Encoding.Lists(es, TagMap.Of(tags))
      ensures Wire.IsParts(APP_INST_LIST_REPLY_SCHEMA, View(), Parts(es))
    {
      hide View, Valid, CloudletLocation.View, CloudletLocation.Views, CloudletLocation.Valid,
          CloudletLocation.Image, CloudletLocation.Images, Vals, HasType, WellTyped, Int32Word, Int64Word,
          BoolWord, Wire.Word64, Narrow, Wire.Number, Wire.Real, Wire.Text, Wire.Chunks, Wire.Nested,
          Wire.Join, Encoding.Encodes, Parts, Encoding.EncodesVal, Encoding.Lists;
      AppInstListReplySchemaFields();
      ElementsApart();
      ViewVals();
      PartsOnly(es);
      PartsAt(es);
      Wire.PairsOnly(APP_INST_LIST_REPLY_SCHEMA.fields[3], TagMap.Of(tags), Parts(es)[3]);
    }

    /** Exactly the images are encodings of the message, one for every order of the map. */
    lemma Imaged(b: bytes)
      requires Valid()
      ensures Encoding.Encodes(APP_INST_LIST_REPLY_SCHEMA, View(), b) <==> IsImage(b)
    {
      hide View, Valid, CloudletLocation.View, CloudletLocation.Views, CloudletLocation.Valid,
          CloudletLocation.Image, CloudletLocation.Images, Vals, HasType, WellTyped, Int32Word, Int64Word,
          BoolWord, Wire.Word64, Narrow, Wire.Number, Wire.Real, Wire.Text, Wire.Chunks, Wire.Nested,
          Wire.Join, Encoding.Encodes, Parts, Wire.IsParts, Encoding.Lists;
      Wire.EncodesParts(APP_INST_LIST_REPLY_SCHEMA, View(), b);
      if parts :| Wire.IsParts(APP_INST_LIST_REPLY_SCHEMA, View(), parts) && b == Wire.Join(parts) {
        var es := PartsKnown(parts);
        assert Encoding.Lists(es, TagMap.Of(tags)) && b == ImageWith(es);
      }
      if es :| Encoding.Lists(es, TagMap.Of(tags)) && b == ImageWith(es) {
        PartsEncode(es);
        assert Wire.IsParts(APP_INST_LIST_REPLY_SCHEMA, View(), Parts(es)) && b == Wire.Join(Parts(es));
      }
    }

    lemma ImageSize()
      requires Valid()
      ensures forall b :: IsImage(b) ==> |b| == Encoding.Size(APP_INST_LIST_REPLY_SCHEMA, View())
    {
      hide View, Valid, IsImage, WellTyped, Encoding.Encodes, Encoding.Size;
      forall b | IsImage(b) ensures |b| == Encoding.Size(APP_INST_LIST_REPLY_SCHEMA, View()) {
        Imaged(b);
        Encoding.EncodesSize(APP_INST_LIST_REPLY_SCHEMA, View(), b);
      }
    }

    /** What has been marshaled into the buffer is an image of the message. */
    lemma ImageFilled(before: bytes, after: bytes, hi: int, n: nat)
      requires Valid()
      requires Marshaled(APP_INST_LIST_REPLY_SCHEMA, View(), before, after, hi, n)
      ensures n <= hi <= |after| && IsImage(after[hi - n..hi])
    {
      hide View, Valid, IsImage, WellTyped, Encoding.Encodes, Encoding.Size;
      var b := Wire.FilledSome(APP_INST_LIST_REPLY_SCHEMA, View(), before, after, hi, n);
      Imaged(b);
    }

    method Size() returns (n: nat)
      requires Valid()
      requires Encoding.Size(APP_INST_LIST_REPLY_SCHEMA, View()) < TWO63
      ensures n == Encoding.Size(APP_INST_LIST_REPLY_SCHEMA, View())
      ensures forall b :: IsImage(b) ==> n == |b|
    {
      hide CloudletLocation.View, CloudletLocation.Valid, CloudletLocation.Views, CloudletLocation.Image,
          Wire.IsImage, Vals, VarintSize, BoolSize, DoubleSize, StringSize, MessageSize, Varint.Enc,
          Encoding.Size, Encoding.SizeFrom, Encoding.MapSize, Encoding.SubsSize, WellTyped,
          APP_INST_LIST_REPLY_SCHEMA, CLOUDLET_LOCATION_SCHEMA;
      AppInstListReplySchemaFields();
      ghost var m := View();
      SizeAll(APP_INST_LIST_REPLY_SCHEMA, m);
      var l;
      n := 0;
      l := VarintSize(ver, APP_INST_LIST_REPLY_SCHEMA, m, 0);
      n := n + l;
      l := VarintSize(Int32Word(status), APP_INST_LIST_REPLY_SCHEMA, m, 1);
      n := n + l;
      SizeKnown(APP_INST_LIST_REPLY_SCHEMA, m, 2);
      l := CloudletLocation.SizeOfAll(Elems(cloudlets), 3);
      n := n + l;
      SizeKnown(APP_INST_LIST_REPLY_SCHEMA, m, 3);
      l := SizeTags(TagMap.Of(tags));
      n := n + l;
      n := n + |unrecognized|;
      ImageSize();
    }

    method MarshalToSizedBuffer(dAtA: array<byte>, hi: int) returns (n: nat)
      requires Valid()
      requires Encoding.Size(APP_INST_LIST_REPLY_SCHEMA, View()) <= hi <= dAtA.Length < TWO63
      modifies dAtA
      ensures Valid()
      ensures View() == old(View()) && Marshaled(APP_INST_LIST_REPLY_SCHEMA, View(), old(dAtA[..]), dAtA[..], hi, n)
      ensures n <= hi && IsImage(dAtA[hi - n..hi])
    {
      hide View, Valid, CloudletLocation.View, CloudletLocation.Views, CloudletLocation.Valid,
          CloudletLocation.Image, IsImage, Vals, Written, Marshaled, Encoding.Size, Encoding.SubsSize,
          WellTyped, APP_INST_LIST_REPLY_SCHEMA, CLOUDLET_LOCATION_SCHEMA, Elems, CloudletLocation.Reprs;
      AppInstListReplySchemaFields();
      ViewVals();
      assert dAtA !in Repr;
      ghost var m, a := View(), dAtA[..];
      var i := Writing.UnknownField(dAtA, hi, unrecognized, APP_INST_LIST_REPLY_SCHEMA, m);
      i := Writing.MapField(dAtA, i, TagMap.Of(tags), APP_INST_LIST_REPLY_SCHEMA, m, 3, a, hi);
      i := MarshalCloudlets(dAtA, i, m, a, hi);
      i := Writing.Int32Field(dAtA, i, status, 0x10, APP_INST_LIST_REPLY_SCHEMA, m, 1, a, hi);
      i := Writing.Uint32Field(dAtA, i, ver, 0x8, APP_INST_LIST_REPLY_SCHEMA, m, 0, a, hi);
      MarshalDone(APP_INST_LIST_REPLY_SCHEMA, m, a, dAtA[..], hi, i);
      n := hi - i;
      ImageFilled(a, dAtA[..], hi, n);
    }

    /** The list `cloudlets`, its last element first. */
    method MarshalCloudlets(dAtA: array<byte>, i: int, ghost m: Msg, ghost before: bytes,
        ghost hi: int) returns (j: int)
      requires Valid() && View() == m
      requires BeforeField(APP_INST_LIST_REPLY_SCHEMA, m, 2, RepeatedMessage(CLOUDLET_LOCATION_SCHEMA), 0x1a,
          before, dAtA[..], hi, i)
      modifies dAtA
      ensures Valid() && View() == m
      ensures Written(APP_INST_LIST_REPLY_SCHEMA, m, 2, before, dAtA[..], hi, j)
    {
      hide View, Valid, CloudletLocation.View, CloudletLocation.Views, CloudletLocation.Valid,
          CloudletLocation.Image, Vals, Written, Marshaled, Encoding.Size, Encoding.SubsSize, WellTyped;
      ElementsApart();
      ViewVals();
      RoomSubs(APP_INST_LIST_REPLY_SCHEMA, m, 2, CLOUDLET_LOCATION_SCHEMA, 0x1a, before, dAtA[..], hi, i);
      ghost var mid := dAtA[..];
      j := CloudletLocation.MarshalAll(Elems(cloudlets), dAtA, i, 0x1a, 3);
      SubsField(APP_INST_LIST_REPLY_SCHEMA, m, 2, CLOUDLET_LOCATION_SCHEMA, 0x1a, before, mid, dAtA[..], hi, i, j);
    }

    method Unmarshal(dAtA: bytes) returns (err: Error)
      requires |dAtA| < MAX_SLICE
      requires Valid()
      modifies this, tags
      ensures Valid() && fresh(Repr - old(Repr))
      ensures tags == old(tags) || (old(tags) == null && fresh(tags))
      ensures cloudlets == old(cloudlets) || Elems(cloudlets) != []
      ensures err.Nil? ==> TagMap.Contents(tags) == old(TagMap.Contents(tags)) || TagMap.Of(tags) != map[]
      ensures err.Nil? && old(Tight()) ==> Tight()
      ensures Unmarshaled(APP_INST_LIST_REPLY_SCHEMA, old(View()), View(), dAtA, err)
    {
      hide View, Valid, Remains, Stepped, Unmarshaled, WellTyped;
      var l, iNdEx := |dAtA|, 0;
      RemainsAll(APP_INST_LIST_REPLY_SCHEMA, View(), dAtA);
      while iNdEx < l
        invariant Valid() && fresh(Repr - old(Repr))
        invariant 0 <= iNdEx <= l && Remains(APP_INST_LIST_REPLY_SCHEMA, old(View()), View(), dAtA, iNdEx)
        invariant tags == old(tags) || (old(tags) == null && fresh(tags))
        invariant cloudlets == old(cloudlets) || Elems(cloudlets) != []
        invariant TagMap.Contents(tags) == old(TagMap.Contents(tags)) || TagMap.Of(tags) != map[]
        invariant old(Tight()) ==> Tight()
        decreases l - iNdEx
      {
        ghost var m, preIndex := View(), iNdEx;
        err, iNdEx := UnmarshalField(dAtA, iNdEx);
        RemainsStep(APP_INST_LIST_REPLY_SCHEMA, old(View()), m, View(), dAtA, preIndex, err, iNdEx);
        if !err.Nil? {
          return;
        }
      }
      assert iNdEx == l;
      RemainsNone(APP_INST_LIST_REPLY_SCHEMA, old(View()), View(), dAtA);
      err := Nil;
    }

    /** What assigning to the other fields leaves as it was. */
    twostate lemma ElementsKept()
      requires old(Valid()) && Repr == old(Repr)
      requires tags == old(tags)
      requires cloudlets == old(cloudlets)
      requires forall x :: x in Elems(cloudlets) ==>
                old(x.Valid()) && x.Valid() && x.Repr == old(x.Repr) && x.View() == old(x.View())
      ensures Valid() && CloudletLocation.Views(Elems(cloudlets)) == old(CloudletLocation.Views(Elems(cloudlets)))
    {
      hide CloudletLocation.View, CloudletLocation.Views;
      CloudletLocation.ViewsKept(Elems(cloudlets));
    }

    /** What making or filling `tags` leaves as it was. */
    twostate lemma TagsStored()
      requires old(Valid())
      requires tags == old(tags) || (tags != null && fresh(tags))
      requires Repr == if tags == old(tags) then old(Repr) else old(Repr) + {tags}
      requires cloudlets == old(cloudlets)
      requires forall x :: x in Elems(cloudlets) ==>
                old(x.Valid()) && x.Valid() && x.Repr == old(x.Repr) && x.View() == old(x.View())
      ensures Valid() && CloudletLocation.Views(Elems(cloudlets)) == old(CloudletLocation.Views(Elems(cloudlets)))
    {
      hide CloudletLocation.View, CloudletLocation.Views, CloudletLocation.Valid;
      CloudletLocation.ViewsKept(Elems(cloudlets));
    }

    /** The switch on the field number inside the loop. */
    method UnmarshalField(dAtA: bytes, preIndex: int64) returns (err: Error, iNdEx: int64)
      requires 0 <= preIndex < |dAtA| < MAX_SLICE
      requires Valid()
      modifies this, tags
      ensures Valid() && fresh(Repr - old(Repr))
      ensures tags == old(tags) || (old(tags) == null && fresh(tags))
      ensures cloudlets == old(cloudlets) || Elems(cloudlets) != []
      ensures err.Nil? ==> TagMap.Contents(tags) == old(TagMap.Contents(tags)) || TagMap.Of(tags) != map[]
      ensures err.Nil? && old(Tight()) ==> Tight()
      ensures Stepped(APP_INST_LIST_REPLY_SCHEMA, old(View()), View(), dAtA, preIndex, err, iNdEx)
      ensures err.Nil? ==> preIndex < iNdEx <= |dAtA|
    {
      hide View, Valid, CloudletLocation.View, CloudletLocation.Views, CloudletLocation.Valid, Vals, Header,
          Step, WellTyped, ValidSchema, Find, Decode, BodyStep, FieldRead, Stepped, Unmarshaled;
      ghost var m := View();
      AppInstListReplySchemaValid();
      var fieldNum, wireType;
      err, fieldNum, wireType, iNdEx := ReadTag(dAtA, preIndex);
      if !err.Nil? {
        HeaderRefused(APP_INST_LIST_REPLY_SCHEMA, m, View(), dAtA, preIndex, err, iNdEx);
        return;
      }
      match fieldNum {
        case 1 | 2 =>
          err, iNdEx := UnmarshalVerToStatus(dAtA, preIndex, iNdEx, fieldNum, wireType);
        case 3 =>
          err, iNdEx := UnmarshalCloudlets(dAtA, preIndex, iNdEx, fieldNum, wireType);
        case 100 =>
          err, iNdEx := UnmarshalTags(dAtA, preIndex, iNdEx, fieldNum, wireType);
        case _ =>
          err, iNdEx := UnmarshalUnknown(dAtA, preIndex, iNdEx, fieldNum, wireType);
      }
    }

    /** The cases of the switch from `ver` to `status`. */
    method UnmarshalVerToStatus(dAtA: bytes, preIndex: int64, start: int64, fieldNum: int32, wireType: nat)
      returns (err: Error, iNdEx: int64)
      requires Valid()
      requires 0 <= preIndex < start <= |dAtA| < MAX_SLICE
      requires fieldNum == 1 || fieldNum == 2
      requires Header(dAtA[preIndex..]) == Ok(Head(fieldNum, wireType, start - preIndex))
      modifies `ver, `status
      ensures Valid()
      ensures Stepped(APP_INST_LIST_REPLY_SCHEMA, old(View()), View(), dAtA, preIndex, err, iNdEx)
      ensures err.Nil? ==> preIndex < iNdEx <= |dAtA|
    {
      hide View, Valid, CloudletLocation.View, CloudletLocation.Views, CloudletLocation.Valid, Vals, Header,
          Step, WellTyped, ValidSchema, Find, Decode, BodyStep, FieldRead, Stepped, Unmarshaled;
      ghost var m := View();
      ElementsApart();
      ViewVals();
      AppInstListReplySchemaValid();
      iNdEx := start;
      match fieldNum {
        case 1 =>
          var v;
          err, v, iNdEx := Reading.Uint32Field(dAtA, preIndex, iNdEx, fieldNum, wireType,
              APP_INST_LIST_REPLY_SCHEMA, m, 0);
          if err.Nil? {
            ver := v;
          }
          ElementsKept();
          ViewVals();
          FieldReadSteps(APP_INST_LIST_REPLY_SCHEMA, m, 0, Num(v), View(), dAtA, preIndex, err, iNdEx);
        case _ =>
          var v;
          err, v, iNdEx := Reading.Int32Field(dAtA, preIndex, iNdEx, fieldNum, wireType,
              APP_INST_LIST_REPLY_SCHEMA, m, 1);
          if err.Nil? {
            status := v;
          }
          ElementsKept();
          ViewVals();
          FieldReadSteps(APP_INST_LIST_REPLY_SCHEMA, m, 1, Num(Int32Word(v)), View(), dAtA, preIndex, err, iNdEx);
      }
    }

    /** The default of the switch. */
    method UnmarshalUnknown(dAtA: bytes, preIndex: int64, start: int64, fieldNum: int32, wireType: nat)
      returns (err: Error, iNdEx: int64)
      requires Valid()
      requires 0 <= preIndex < start <= |dAtA| < MAX_SLICE
      requires fieldNum != 1 && fieldNum != 2 && fieldNum != 3 && fieldNum != 100
      requires Header(dAtA[preIndex..]) == Ok(Head(fieldNum, wireType, start - preIndex))
      modifies `unrecognized
      ensures Valid()
      ensures Stepped(APP_INST_LIST_REPLY_SCHEMA, old(View()), View(), dAtA, preIndex, err, iNdEx)
      ensures err.Nil? ==> preIndex < iNdEx <= |dAtA|
    {
      hide View, Valid, CloudletLocation.View, CloudletLocation.Views, CloudletLocation.Valid, Vals, Header,
          Step, WellTyped, ValidSchema, Find, Decode, BodyStep, FieldRead, Stepped, Unmarshaled;
      ghost var m := View();
      ElementsApart();
      ViewVals();
      AppInstListReplySchemaValid();
      var raw;
      err, raw, iNdEx := Reading.UnknownField(dAtA, preIndex, APP_INST_LIST_REPLY_SCHEMA, m);
      if err.Nil? {
        unrecognized := unrecognized + raw;
        ElementsKept();
        ViewVals();
        assert View() == m.(unknown := m.unknown + raw);
      } else {
        StepRefused(APP_INST_LIST_REPLY_SCHEMA, m, View(), dAtA, preIndex, err, iNdEx);
      }
    }

    /** What appending y to `cloudlets` leaves as it was. */
    twostate lemma CloudletsAppended(new y: CloudletLocation)
      requires old(Valid()) && cloudlets == Some(old(Elems(cloudlets)) + [y])
      requires Repr == old(Repr) + y.Repr && y.Valid()
      requires forall x :: x in old(Elems(cloudlets)) ==>
                old(x.Valid()) && x.Valid() && x.Repr == old(x.Repr) && x.View() == old(x.View())
      requires tags == old(tags)
      ensures Valid()
      ensures CloudletLocation.Views(Elems(cloudlets)) == old(CloudletLocation.Views(Elems(cloudlets))) + [y.View()]
    {
      hide CloudletLocation.View, CloudletLocation.Views, CloudletLocation.Valid;
      CloudletLocation.ViewsKept(old(Elems(cloudlets)));
      CloudletLocation.ViewsAppend(old(Elems(cloudlets)), y);
    }

    /** Appends a new element to `cloudlets` and reads a body onto it, and says what that leaves as it was. */
    method GrowCloudlets(body: bytes) returns (err: Error, y: CloudletLocation)
      requires |body| < MAX_SLICE && Valid()
      modifies `cloudlets, `Repr
      ensures fresh(y) && y.Valid() && fresh(y.Repr)
      ensures cloudlets == Some(old(Elems(cloudlets)) + [y]) && Repr == old(Repr) + y.Repr
      ensures forall x :: x in old(Elems(cloudlets)) ==>
                old(x.Valid()) && x.Valid() && x.Repr == old(x.Repr) && x.View() == old(x.View())
      ensures forall x :: x in old(Elems(cloudlets)) ==> x.Tight() == old(x.Tight())
      ensures err.Nil? ==> y.Tight()
      ensures Unmarshaled(CLOUDLET_LOCATION_SCHEMA, Empty(CLOUDLET_LOCATION_SCHEMA), y.View(), body, err)
    {
      hide View, Valid, CloudletLocation.View, CloudletLocation.Views, CloudletLocation.Valid, Vals, WellTyped,
          Unmarshaled;
      ElementsApart();
      ViewVals();
      y := new CloudletLocation();
      cloudlets := Some(Elems(cloudlets) + [y]);
      err := y.Unmarshal(body);
      Repr := Repr + y.Repr;
    }

    /** The new element, as a change to the whole message. */
    method AppendCloudlets(body: bytes) returns (err: Error, ghost x: Msg)
      requires |body| < MAX_SLICE
      requires Valid()
      modifies `cloudlets, `Repr
      ensures Valid() && fresh(Repr - old(Repr))
      ensures cloudlets == old(cloudlets) || Elems(cloudlets) != []
      ensures err.Nil? && old(Tight()) ==> Tight()
      ensures View().unknown == old(View().unknown)
      ensures Updated(View().vals, old(View()).vals, 2, Subs(old(View()).vals[2].subs + [x]))
      ensures Unmarshaled(CLOUDLET_LOCATION_SCHEMA, Empty(CLOUDLET_LOCATION_SCHEMA), x, body, err)
    {
      hide View, Valid, CloudletLocation.View, CloudletLocation.Views, CloudletLocation.Valid, Vals, WellTyped,
          Unmarshaled;
      ElementsApart();
      ViewVals();
      var y;
      err, y := GrowCloudlets(body);
      x := y.View();
      CloudletsAppended(y);
      ViewVals();
    }

    /** The case of the switch for an element of `cloudlets`. */
    method UnmarshalCloudlets(dAtA: bytes, preIndex: int64, start: int64, fieldNum: int32, wireType: nat)
      returns (err: Error, iNdEx: int64)
      requires Valid()
      requires AtField(APP_INST_LIST_REPLY_SCHEMA, View(), 2, dAtA, preIndex, start, fieldNum, wireType)
      modifies `cloudlets, `Repr
      ensures Valid() && fresh(Repr - old(Repr))
      ensures cloudlets == old(cloudlets) || Elems(cloudlets) != []
      ensures err.Nil? && old(Tight()) ==> Tight()
      ensures Stepped(APP_INST_LIST_REPLY_SCHEMA, old(View()), View(), dAtA, preIndex, err, iNdEx)
      ensures err.Nil? ==> preIndex < iNdEx <= |dAtA|
    {
      hide View, Valid, Vals, Step, WellTyped, ValidSchema, BodyStep, FieldRead, Stepped, Unmarshaled, Updated;
      ghost var m := View();
      var postIndex;
      err, iNdEx, postIndex := LengthField(dAtA, preIndex, start, fieldNum, wireType,
          APP_INST_LIST_REPLY_SCHEMA, m, 2);
      if !err.Nil? {
        StepRefused(APP_INST_LIST_REPLY_SCHEMA, m, View(), dAtA, preIndex, err, iNdEx);
        return;
      }
      ghost var x;
      err, x := AppendCloudlets(dAtA[iNdEx..postIndex]);
      ElementRead(APP_INST_LIST_REPLY_SCHEMA, m, 2, CLOUDLET_LOCATION_SCHEMA, x, dAtA, preIndex, err, iNdEx,
          postIndex);
      iNdEx := postIndex;
      FieldReadSteps(APP_INST_LIST_REPLY_SCHEMA, m, 2, Subs(m.vals[2].subs + [x]), View(), dAtA, preIndex, err,
          iNdEx);
    }

    /** Makes `tags` if it is nil. */
    method MakeTags()
      requires Valid()
      modifies `tags, `Repr
      ensures Valid() && fresh(Repr - old(Repr))
      ensures tags != null && (tags == old(tags) || (old(tags) == null && fresh(tags)))
      ensures View() == old(View()) && (old(ListsTight()) ==> ListsTight())
    {
      hide CloudletLocation.View, CloudletLocation.Views, CloudletLocation.Valid, WellTyped;
      if tags == null {
        tags := new TagMap();
        Repr := Repr + {tags};
        TagsStored();
      }
    }

    /** Stores an entry in `tags`. */
    method StoreTag(mapkey: bytes, mapvalue: bytes)
      requires Valid() && tags != null
      modifies tags
      ensures Valid() && (old(ListsTight()) ==> ListsTight())
      ensures View().unknown == old(View()).unknown && TagMap.Of(tags) != map[]
      ensures Updated(View().vals, old(View()).vals, 3, StrMap(old(View()).vals[3].entries[mapkey := mapvalue]))
    {
      hide View, Valid, CloudletLocation.View, CloudletLocation.Views, CloudletLocation.Valid, Vals, WellTyped;
      ElementsApart();
      ViewVals();
      tags.Put(mapkey, mapvalue);
      assert mapkey in tags.entries;
      TagsStored();
      ViewVals();
    }

    /** The case of the switch for the map `tags`. */
    method UnmarshalTags(dAtA: bytes, preIndex: int64, start: int64, fieldNum: int32, wireType: nat)
      returns (err: Error, iNdEx: int64)
      requires Valid()
      requires AtField(APP_INST_LIST_REPLY_SCHEMA, View(), 3, dAtA, preIndex, start, fieldNum, wireType)
      modifies `tags, tags, `Repr
      ensures Valid() && fresh(Repr - old(Repr))
      ensures tags == old(tags) || (old(tags) == null && fresh(tags))
      ensures err.Nil? ==> TagMap.Of(tags) != map[]
      ensures err.Nil? && old(Tight()) ==> Tight()
      ensures Stepped(APP_INST_LIST_REPLY_SCHEMA, old(View()), View(), dAtA, preIndex, err, iNdEx)
      ensures err.Nil? ==> preIndex < iNdEx <= |dAtA|
    {
      hide View, Valid, Vals, Step, WellTyped, ValidSchema, BodyStep, Entry, FieldRead, Stepped, Updated;
      ghost var m := View();
      var postIndex;
      err, iNdEx, postIndex := LengthField(dAtA, preIndex, start, fieldNum, wireType,
          APP_INST_LIST_REPLY_SCHEMA, m, 3);
      if !err.Nil? {
        StepRefused(APP_INST_LIST_REPLY_SCHEMA, m, View(), dAtA, preIndex, err, iNdEx);
        return;
      }
      assert ListsTight() == old(ListsTight());
      MakeTags();
      var mapkey, mapvalue;
      err, mapkey, mapvalue := ReadEntry(dAtA, iNdEx, postIndex);
      assert old(ListsTight()) ==> ListsTight();
      EntryRead(APP_INST_LIST_REPLY_SCHEMA, m, 3, mapkey, mapvalue, dAtA, preIndex, err, iNdEx, postIndex);
      if err.Nil? {
        StoreTag(mapkey, mapvalue);
      }
      iNdEx := postIndex;
      FieldReadSteps(APP_INST_LIST_REPLY_SCHEMA, m, 3, StrMap(m.vals[3].entries[mapkey := mapvalue]), View(),
          dAtA, preIndex, err, iNdEx);
    }

    //
    // One record read
    //

    /** What it means that the value of field k has become v. */
    twostate lemma Became(new k: nat, new v: Val)
      requires old(Valid()) && Valid() && k < 4
      requires View() == old(View()).(vals := old(View()).vals[k := v])
      ensures unrecognized == old(unrecognized)
      ensures if k == 0 then Num(ver) == v else ver == old(ver)
      ensures if k == 1 then Num(Int32Word(status)) == v else status == old(status)
      ensures if k == 2 then Subs(CloudletLocation.Views(Elems(cloudlets))) == v
              else CloudletLocation.Views(Elems(cloudlets)) == old(CloudletLocation.Views(Elems(cloudlets)))
      ensures if k == 3 then StrMap(TagMap.Of(tags)) == v else TagMap.Of(tags) == old(TagMap.Of(tags))
    {
      hide CloudletLocation.View, CloudletLocation.Views, CloudletLocation.Valid, CloudletLocation.Image,
          Valid, WellTyped, Int32Word, Int64Word;
      Wire.Int32Same(status, old(status));
      ghost var was, now := old(View()).vals, View().vals;
      assert now[0] == if k == 0 then v else was[0];
      assert now[1] == if k == 1 then v else was[1];
      assert now[2] == if k == 2 then v else was[2];
      assert now[3] == if k == 3 then v else was[3];
    }

    /** What `Unmarshal` makes of one number. */
    twostate lemma NumberFromWire(new tag: byte, new w: uint64, new err: Error)
      requires tag == 0x08 || tag == 0x10
      requires old(Valid()) && Valid()
      requires Unmarshaled(APP_INST_LIST_REPLY_SCHEMA, old(View()), View(), [tag] + Varint.Enc(w), err)
      ensures err.Nil? && unrecognized == old(unrecognized)
      ensures if tag == 0x08 then ver == w % 0x1_0000_0000 else ver == old(ver)
      ensures if tag == 0x10 then (status - w) % 0x1_0000_0000 == 0 else status == old(status)
      ensures CloudletLocation.Views(Elems(cloudlets)) == old(CloudletLocation.Views(Elems(cloudlets)))
      ensures TagMap.Of(tags) == old(TagMap.Of(tags))
    {
      hide View, Valid, CloudletLocation.View, CloudletLocation.Views, CloudletLocation.Valid,
          CloudletLocation.Image, Vals, WellTyped, Decode, ValidSchema, Int32Word, Int64Word, Narrow;
      AppInstListReplySchemaValid();
      AppInstListReplySchemaFields();
      var k := if tag == 0x08 then 0 else 1;
      Wire.ReadsNumber(APP_INST_LIST_REPLY_SCHEMA, old(View()), k, tag, w);
      Became(k, Num(Narrow(APP_INST_LIST_REPLY_SCHEMA.fields[k].kind, w)));
      Wire.Uint32Low(w);
      Wire.Int32Low(status, w);
    }

    /** What `Unmarshal` makes of one body of `cloudlets`: it is read onto a new element. */
    twostate lemma CloudletsFromWire(new body: bytes, new x: Msg, new err: Error)
      requires |body| < 0x8000_0000_0000_0000
      requires Decode(CLOUDLET_LOCATION_SCHEMA, Empty(CLOUDLET_LOCATION_SCHEMA), body) == Ok(x)
      requires old(Valid()) && Valid()
      requires Unmarshaled(APP_INST_LIST_REPLY_SCHEMA, old(View()), View(), Wire.Chunk([0x1A], body), err)
      ensures err.Nil? && unrecognized == old(unrecognized)
      ensures ver == old(ver)
      ensures status == old(status)
      ensures CloudletLocation.Views(Elems(cloudlets)) == old(CloudletLocation.Views(Elems(cloudlets))) + [x]
      ensures TagMap.Of(tags) == old(TagMap.Of(tags))
    {
      hide View, Valid, CloudletLocation.View, CloudletLocation.Views, CloudletLocation.Valid,
          CloudletLocation.Image, Vals, WellTyped, Decode, ValidSchema, Int32Word, Int64Word, Narrow;
      AppInstListReplySchemaValid();
      AppInstListReplySchemaFields();
      WasCloudlets();
      Wire.ReadsElement(APP_INST_LIST_REPLY_SCHEMA, old(View()), 2, 0x1A, CLOUDLET_LOCATION_SCHEMA, body, x);
      Became(2, Subs(old(CloudletLocation.Views(Elems(cloudlets))) + [x]));
    }

    /** What `Unmarshal` makes of one entry of `tags`. */
    twostate lemma TagsFromWire(new key: bytes, new value: bytes, new err: Error)
      requires |Wire.Chunk([0x0A], key) + Wire.Chunk([0x12], value)| < 0x8000_0000_0000_0000
      requires old(Valid()) && Valid()
      requires Unmarshaled(APP_INST_LIST_REPLY_SCHEMA, old(View()), View(), Wire.Chunk([0xA2, 0x06],
                   Wire.Chunk([0x0A], key) + Wire.Chunk([0x12], value)), err)
      ensures err.Nil? && unrecognized == old(unrecognized)
      ensures ver == old(ver)
      ensures status == old(status)
      ensures CloudletLocation.Views(Elems(cloudlets)) == old(CloudletLocation.Views(Elems(cloudlets)))
      ensures TagMap.Of(tags) == old(TagMap.Of(tags))[key := value]
    {
      hide View, Valid, CloudletLocation.View, CloudletLocation.Views, CloudletLocation.Valid,
          CloudletLocation.Image, Vals, WellTyped, Decode, ValidSchema, Int32Word, Int64Word, Narrow;
      AppInstListReplySchemaValid();
      AppInstListReplySchemaFields();
      WasTags();
      Wire.ReadsPair(APP_INST_LIST_REPLY_SCHEMA, old(View()), 3, key, value);
      Became(3, StrMap(old(TagMap.Of(tags))[key := value]));
    }

    twostate lemma WasCloudlets()
      requires old(Valid())
      ensures old(forall x :: x in Elems(cloudlets) ==> x.Valid())
      ensures |old(View()).vals| == 4 && old(View()).vals[2] == Subs(old(CloudletLocation.Views(Elems(cloudlets))))
    {
      hide CloudletLocation.View, CloudletLocation.Views, CloudletLocation.Valid, CloudletLocation.Image, WellTyped;
    }

    twostate lemma WasTags()
      requires old(Valid())
      ensures |old(View()).vals| == 4 && old(View()).vals[3] == StrMap(old(TagMap.Of(tags)))
    {
      hide CloudletLocation.View, CloudletLocation.Views, CloudletLocation.Valid, CloudletLocation.Image,
          Valid, WellTyped;
    }

    //
    // Copying
    //

    static ghost function Items(ver: uint32, status: int32, cloudlets: Forest, tags: Option<map<bytes,
        bytes>>): (items: seq<Item>)
      ensures |items| == 4
      ensures items[0] == Word(ver)
      ensures items[1] == Word(status)
      ensures items[2] == Many(cloudlets)
      ensures items[3] == Tags(tags)
    {
      [Word(ver), Word(status), Many(cloudlets), Tags(tags)]
    }

    /** The message as copying sees it. */
    ghost function Fields(): (t: Tree)
      requires Valid()
      reads this, Repr
      ensures |t.items| == 4
    {
      Tree(Items(ver, status, CloudletLocation.ForestOf(cloudlets), TagMap.Contents(tags)), unrecognized)
    }

    /** The objects that the fields lead to. */
    ghost function Footprint(): set<object>
      reads `cloudlets, `tags, Elems(cloudlets)`Repr
    {
      {this} + (if tags == null then {} else {tags}) + CloudletLocation.Reprs(Elems(cloudlets))
    }

    lemma Footed()
      requires Repr == Footprint()
      requires forall x :: x in Elems(cloudlets) ==> x.Valid()
      requires this !in CloudletLocation.Reprs(Elems(cloudlets))
      requires tags !in CloudletLocation.Reprs(Elems(cloudlets))
      ensures Valid()
    {
      hide CloudletLocation.Valid;
    }

    lemma ElementsValid()
      requires Valid()
      ensures forall x :: x in Elems(cloudlets) ==> x.Valid()
    {
    }

    lemma FieldItems()
      requires Valid()
      ensures Fields().unknown == unrecognized && |Fields().items| == 4
      ensures Fields().items[0] == Word(ver)
      ensures Fields().items[1] == Word(status)
      ensures forall x :: x in Elems(cloudlets) ==> x.Valid() && this !in x.Repr && tags !in x.Repr
      ensures Fields().items[2] == Many(CloudletLocation.ForestOf(cloudlets))
      ensures Fields().items[3] == Tags(TagMap.Contents(tags))
      ensures Footprint() <= Repr && this in Repr
      ensures this !in CloudletLocation.Reprs(Elems(cloudlets))
      ensures tags !in CloudletLocation.Reprs(Elems(cloudlets))
    {
      hide CloudletLocation.View, CloudletLocation.Fields, CloudletLocation.Views, CloudletLocation.Trees,
          CloudletLocation.Valid, Items;
    }

    /** A message none of whose objects has changed. */
    twostate lemma Same()
      requires old(Valid()) && unchanged(old(Repr))
      ensures Valid() && Repr == old(Repr) && Fields() == old(Fields())
    {
      hide Fields, Valid;
    }

    /** What assigning to the other fields leaves as it was. */
    twostate lemma FieldsKept()
      requires old(Valid()) && Repr == old(Repr)
      requires tags == old(tags)
      requires cloudlets == old(cloudlets)
      requires forall x :: x in Elems(cloudlets) ==>
                old(x.Valid()) && x.Valid() && x.Repr == old(x.Repr) && x.Fields() == old(x.Fields())
      ensures Valid() && CloudletLocation.Trees(Elems(cloudlets)) == old(CloudletLocation.Trees(Elems(cloudlets)))
    {
      hide CloudletLocation.Fields, CloudletLocation.Trees;
      CloudletLocation.TreesKept(Elems(cloudlets));
    }

    lemma FieldsOnWire()
      requires Valid()
      ensures ToMsg(Fields()) == View()
    {
      hide View, Fields, Valid, CloudletLocation.View, CloudletLocation.Fields, CloudletLocation.Views,
          CloudletLocation.Trees, CloudletLocation.Valid, CloudletLocation.Reprs;
      ElementsApart();
      ViewVals();
      FieldItems();
      CloudletLocation.TreesOnWire(Elems(cloudlets));
      assert ToVal(Many(CloudletLocation.ForestOf(cloudlets))).subs == CloudletLocation.Views(Elems(cloudlets));
      assert ToMsg(Fields()).vals == View().vals;
    }

    /** The messages have the same declared fields, at every level. A float may be either zero where the
        other is. */
    ghost predicate Equals(o: AppInstListReply)
      requires Valid() && o.Valid()
      reads this, Repr, o, o.Repr
    {
      && ver == o.ver
      && status == o.status
      && (cloudlets == None <==> o.cloudlets == None)
      && CloudletLocation.AllEqual(Elems(cloudlets), Elems(o.cloudlets))
      && TagMap.Contents(tags) == TagMap.Contents(o.tags)
    }

    /** The same to copying is the same field by field. */
    lemma SameIsEqual(o: AppInstListReply)
      requires Valid() && o.Valid()
      requires SameTree(Fields(), o.Fields())
      ensures Equals(o)
    {
      hide View, Fields, Valid, CloudletLocation.View, CloudletLocation.Fields, CloudletLocation.Views,
          CloudletLocation.Trees, CloudletLocation.Valid, CloudletLocation.Reprs, CloudletLocation.Equals,
          CloudletLocation.AllEqual, TagMap.Contents, Items, Footprint;
      FieldItems();
      o.FieldItems();
      ghost var r, s := Fields().items, o.Fields().items;
      assert SameItem(r[0], s[0]);
      assert SameItem(r[1], s[1]);
      assert SameItem(r[2], s[2]);
      assert SameItem(r[3], s[3]);
      if cloudlets == None {
        assert Elems(cloudlets) == Elems(o.cloudlets) == [];
      }
      CloudletLocation.AllSame(Elems(cloudlets), Elems(o.cloudlets));
    }

    lemma FieldsUnknown()
      requires Valid()
      ensures Fields().unknown == unrecognized
    {
      hide CloudletLocation.View, CloudletLocation.Fields, CloudletLocation.Views, CloudletLocation.Trees,
          CloudletLocation.Valid, CloudletLocation.Reprs, Valid, Items;
    }

    /** A copy from src, whose fields are s, onto what had the fields m is under way: k fields are done,
        which counted as changed. */
    ghost predicate Underway(src: AppInstListReply, m: Tree, s: Tree, k: nat, changed: int)
      reads this, Repr, src, src.Repr
    {
      Valid() && src.Valid() && src.Fields() == s && CopiedUpTo(Fields(), m, s, k, changed)
    }

    /** What copying the fields from `ver` to `status` does to the message. */
    twostate lemma VerToStatusSet(new src: AppInstListReply, new m: Tree, new s: Tree, new before: int,
        new changed: int)
      requires old(Valid()) && Valid() && src.Valid() && src.Fields() == s
      requires CopiedUpTo(old(Fields()), m, s, 0, before)
      requires unrecognized == old(unrecognized)
      requires ver == src.ver
      requires status == src.status
      requires cloudlets.None? <==> old(cloudlets.None?)
      requires CloudletLocation.Trees(Elems(cloudlets)) == old(CloudletLocation.Trees(Elems(cloudlets)))
      requires TagMap.Contents(tags) == old(TagMap.Contents(tags))
      requires changed == before +
                 (if old(ver) == src.ver then 0 else 1) +
                 (if old(status) == src.status then 0 else 1)
      ensures CopiedUpTo(Fields(), m, s, 2, changed)
    {
      hide CloudletLocation.View, CloudletLocation.Fields, CloudletLocation.Views, CloudletLocation.Trees,
          CloudletLocation.Valid, CloudletLocation.Reprs, TagMap.Contents, Valid, Items, CopiedUpTo, CopyItem,
          Changes, FloatEq;
      PlainItem(old(Fields()).items[0], s.items[0]);
      PlainItem(old(Fields()).items[1], s.items[1]);
      CopySpan(old(Fields()), Fields(), m, s, 0, 2, before, changed);
    }

    /** The list `cloudlets`, replaced by clones of the source's. */
    method ReplaceCloudlets(src: AppInstListReply, before: int) returns (changed: int)
      requires src != this && forall x :: x in Elems(src.cloudlets) ==> x.Valid()
      modifies `cloudlets
      ensures cloudlets.None? <==> src.cloudlets.None?
      ensures (forall y :: y in Elems(cloudlets) ==> y.Valid()) && fresh(CloudletLocation.Reprs(Elems(cloudlets)))
      ensures CloudletLocation.Trees(Elems(cloudlets)) == Bares(old(CloudletLocation.Trees(Elems(src.cloudlets))))
      ensures changed == if src.cloudlets == old(cloudlets) == None then before else before + 1
    {
      hide CloudletLocation.View, CloudletLocation.Fields, CloudletLocation.Valid;
      changed := before;
      if src.cloudlets != None {
        var ys := CloudletLocation.CloneAll(src.cloudlets.value);
        cloudlets := Some(ys);
        changed := changed + 1;
      } else if cloudlets != None {
        cloudlets := None;
        changed := changed + 1;
      }
    }

    /** The list `cloudlets` of a deep copy. */
    method CloneCloudlets(src: AppInstListReply)
      requires src != this && forall x :: x in Elems(src.cloudlets) ==> x.Valid()
      modifies `cloudlets
      ensures cloudlets.None? <==> src.cloudlets.None?
      ensures (forall y :: y in Elems(cloudlets) ==> y.Valid()) && fresh(CloudletLocation.Reprs(Elems(cloudlets)))
      ensures CloudletLocation.Trees(Elems(cloudlets)) == Bares(old(CloudletLocation.Trees(Elems(src.cloudlets))))
    {
      hide CloudletLocation.View, CloudletLocation.Fields, CloudletLocation.Valid;
      if src.cloudlets != None {
        var ys := CloudletLocation.CloneAll(src.cloudlets.value);
        cloudlets := Some(ys);
      } else {
        cloudlets := None;
      }
    }

    /** The map `tags`, replaced by a copy of the source's. */
    method ReplaceTags(src: AppInstListReply, before: int) returns (changed: int)
      requires src != this
      modifies `tags
      ensures tags != null ==> fresh(tags)
      ensures TagMap.Contents(tags) == old(TagMap.Contents(src.tags))
      ensures changed == if src.tags == old(tags) == null then before else before + 1
    {
      changed := before;
      if src.tags != null {
        tags := TagMap.Copied(src.tags);
        changed := changed + 1;
      } else if tags != null {
        tags := null;
        changed := changed + 1;
      }
    }

    /** The map `tags` of a deep copy. */
    method CloneTags(src: AppInstListReply)
      requires src != this
      modifies `tags
      ensures tags != null ==> fresh(tags)
      ensures TagMap.Contents(tags) == old(TagMap.Contents(src.tags))
    {
      if src.tags != null {
        tags := TagMap.Copied(src.tags);
      } else {
        tags := null;
      }
    }

    /** Messages of the same type are alike. */
    lemma FieldsAlike(src: AppInstListReply)
      requires Valid() && src.Valid()
      ensures Alike(Fields(), src.Fields())
    {
      hide Fields, View, Valid, CloudletLocation.View, CloudletLocation.Fields, CloudletLocation.Views,
          CloudletLocation.Trees, CloudletLocation.Valid, CloudletLocation.Reprs, Items, Footprint;
      FieldItems();
      src.FieldItems();
      assert AlikeItem(Fields().items[0], src.Fields().items[0]);
      assert AlikeItem(Fields().items[1], src.Fields().items[1]);
      assert AlikeItem(Fields().items[2], src.Fields().items[2]);
      assert AlikeItem(Fields().items[3], src.Fields().items[3]);
    }

    /** The fields from `ver` to `status`. */
    method CopyVerToStatus(src: AppInstListReply, before: int, ghost m: Tree, ghost s: Tree) returns (changed: int)
      requires Underway(src, m, s, 0, before) && Repr !! src.Repr
      modifies `ver, `status
      ensures Underway(src, m, s, 2, changed)
      ensures Repr == old(Repr) && src.Repr == old(src.Repr)
    {
      hide Footprint, View, Fields, CloudletLocation.View, CloudletLocation.Fields, CloudletLocation.Views,
          CloudletLocation.Trees, CloudletLocation.Valid, CloudletLocation.Reprs, Valid, Items, CopiedUpTo,
          CopyTree, TreeChanges, CopyItem, Changes, FloatEq;
      FieldItems();
      changed := before;
      if ver != src.ver {
        ver := src.ver;
        changed := changed + 1;
      }
      if status != src.status {
        status := src.status;
        changed := changed + 1;
      }
      FieldsKept();
      VerToStatusSet(src, m, s, before, changed);
    }

    /** What a copy of `cloudlets` does to the objects of the message. */
    twostate lemma CloudletsTaken()
      requires old(Valid()) && Repr == Footprint()
      requires (forall y :: y in Elems(cloudlets) ==> y.Valid()) && fresh(CloudletLocation.Reprs(Elems(cloudlets)))
      requires tags == old(tags)
      ensures Valid() && fresh(Repr - old(Repr))
    {
      hide CloudletLocation.Valid;
      Footed();
    }

    lemma CloudletsItem()
      requires Valid()
      ensures forall x :: x in Elems(cloudlets) ==> x.Valid() && this !in x.Repr && tags !in x.Repr
      ensures |Fields().items| == 4 && Fields().items[2] == Many(CloudletLocation.ForestOf(cloudlets))
      ensures this in Repr
    {
      hide CloudletLocation.View, CloudletLocation.Fields, CloudletLocation.Views, CloudletLocation.Trees,
          CloudletLocation.Valid, CloudletLocation.Reprs, TagMap.Contents, Items;
    }

    /** What a copy of `cloudlets` leaves as it was. */
    twostate lemma CloudletsAside()
      requires old(Valid()) && Valid() && unrecognized == old(unrecognized)
      requires ver == old(ver)
      requires status == old(status)
      requires TagMap.Contents(tags) == old(TagMap.Contents(tags))
      ensures ItemsKept(Fields(), old(Fields()), 2, 3)
    {
      hide CloudletLocation.View, CloudletLocation.Fields, CloudletLocation.Views, CloudletLocation.Trees,
          CloudletLocation.Valid, CloudletLocation.Reprs, TagMap.Contents, Valid, Items;
    }

    /** The list `cloudlets`, and what its copy leaves as it was. */
    method GraftCloudlets(src: AppInstListReply, before: int) returns (changed: int)
      requires Valid() && src.Valid() && Repr !! src.Repr
      modifies `cloudlets, `Repr
      ensures Valid() && fresh(Repr - old(Repr)) && src.Valid() && src.Repr == old(src.Repr)
      ensures src.Fields() == old(src.Fields())
      ensures cloudlets.None? <==> src.cloudlets.None?
      ensures CloudletLocation.Trees(Elems(cloudlets)) == Bares(old(CloudletLocation.Trees(Elems(src.cloudlets))))
      ensures TagMap.Contents(tags) == old(TagMap.Contents(tags))
      ensures changed == if src.cloudlets == old(cloudlets) == None then before else before + 1
    {
      hide View, Fields, CloudletLocation.View, CloudletLocation.Fields, CloudletLocation.Views,
          CloudletLocation.Trees, CloudletLocation.Valid, CloudletLocation.Reprs, Valid, Footprint, Bares;
      CloudletsItem();
      src.CloudletsItem();
      changed := ReplaceCloudlets(src, before);
      src.Same();
      Repr := Footprint();
      CloudletsTaken();
    }

    /** The list `cloudlets`, as a change to the whole message. */
    method PlaceCloudlets(src: AppInstListReply, before: int) returns (changed: int)
      requires Valid() && src.Valid() && Repr !! src.Repr
      modifies `cloudlets, `Repr
      ensures Valid() && fresh(Repr - old(Repr)) && src.Valid() && src.Repr == old(src.Repr)
      ensures src.Fields() == old(src.Fields())
      ensures ManyPlaced(Fields(), old(Fields()), old(src.Fields()), 2, before, changed)
    {
      hide View, Fields, CloudletLocation.View, CloudletLocation.Fields, CloudletLocation.Views,
          CloudletLocation.Trees, CloudletLocation.Valid, CloudletLocation.Reprs, TagMap.Contents, Valid,
          Items, ItemsKept, OneTaken, CopyTree, TreeChanges, Onto, Bares, BareItem, Footprint;
      CloudletsItem();
      src.CloudletsItem();
      changed := GraftCloudlets(src, before);
      CloudletsItem();
      CloudletsAside();
      if src.cloudlets != None {
        BareMany(old(CloudletLocation.Trees(Elems(src.cloudlets))));
      } else {
        BareNil();
      }
    }

    /** The list `cloudlets`. */
    method CopyCloudlets(src: AppInstListReply, before: int, ghost m: Tree, ghost s: Tree) returns (changed: int)
      requires Underway(src, m, s, 2, before) && Repr !! src.Repr
      modifies `cloudlets, `Repr
      ensures Underway(src, m, s, 3, changed)
      ensures fresh(Repr - old(Repr)) && src.Repr == old(src.Repr)
    {
      hide Footprint, View, Fields, CloudletLocation.View, CloudletLocation.Fields, CloudletLocation.Views,
          CloudletLocation.Trees, CloudletLocation.Valid, CloudletLocation.Reprs, Valid, Items, CopiedUpTo,
          CopyTree, TreeChanges, CopyItem, Changes, FloatEq;
      ghost var r := Fields();
      changed := before;
      changed := PlaceCloudlets(src, changed);
      CopyMany(r, Fields(), m, s, 2, before, changed);
    }

    /** What a copy of `tags` does to the objects of the message. */
    twostate lemma TagsTaken()
      requires old(Valid()) && Repr == Footprint()
      requires cloudlets == old(cloudlets)
      requires forall x :: x in Elems(cloudlets) ==> x.Valid() && x.Repr == old(x.Repr)
      requires tags != null ==> fresh(tags)
      ensures Valid() && fresh(Repr - old(Repr))
    {
      hide CloudletLocation.Valid;
      Footed();
    }

    lemma TagsItem()
      requires Valid()
      ensures forall x :: x in Elems(cloudlets) ==> x.Valid() && this !in x.Repr && tags !in x.Repr
      ensures |Fields().items| == 4 && Fields().items[3] == Tags(TagMap.Contents(tags))
      ensures this in Repr
    {
      hide CloudletLocation.View, CloudletLocation.Fields, CloudletLocation.Views, CloudletLocation.Trees,
          CloudletLocation.Valid, CloudletLocation.Reprs, TagMap.Contents, Items;
    }

    /** What a copy of `tags` leaves as it was. */
    twostate lemma TagsAside()
      requires old(Valid()) && Valid() && unrecognized == old(unrecognized)
      requires ver == old(ver)
      requires status == old(status)
      requires cloudlets.None? <==> old(cloudlets.None?)
      requires CloudletLocation.Trees(Elems(cloudlets)) == old(CloudletLocation.Trees(Elems(cloudlets)))
      ensures ItemsKept(Fields(), old(Fields()), 3, 4)
    {
      hide CloudletLocation.View, CloudletLocation.Fields, CloudletLocation.Views, CloudletLocation.Trees,
          CloudletLocation.Valid, CloudletLocation.Reprs, TagMap.Contents, Valid, Items;
    }

    /** The map `tags`, and what its copy leaves as it was. */
    method GraftTags(src: AppInstListReply, before: int) returns (changed: int)
      requires Valid() && src.Valid() && Repr !! src.Repr
      modifies `tags, `Repr
      ensures Valid() && fresh(Repr - old(Repr)) && src.Valid() && src.Repr == old(src.Repr)
      ensures src.Fields() == old(src.Fields())
      ensures tags != null ==> fresh(tags)
      ensures TagMap.Contents(tags) == old(TagMap.Contents(src.tags))
      ensures CloudletLocation.Trees(Elems(cloudlets)) == old(CloudletLocation.Trees(Elems(cloudlets)))
      ensures var x, r := old(TagMap.Contents(src.tags)), old(TagMap.Contents(tags));
              changed == if x == r == None then before else before + 1
    {
      hide View, Fields, CloudletLocation.View, CloudletLocation.Fields, CloudletLocation.Views,
          CloudletLocation.Trees, CloudletLocation.Valid, CloudletLocation.Reprs, Valid, Footprint;
      TagsItem();
      src.TagsItem();
      changed := ReplaceTags(src, before);
      src.Same();
      Repr := Footprint();
      TagsTaken();
      CloudletLocation.TreesKept(Elems(cloudlets));
    }

    /** The map `tags`, as a change to the whole message. */
    method PlaceTags(src: AppInstListReply, before: int) returns (changed: int)
      requires Valid() && src.Valid() && Repr !! src.Repr
      modifies `tags, `Repr
      ensures Valid() && fresh(Repr - old(Repr)) && src.Valid() && src.Repr == old(src.Repr)
      ensures src.Fields() == old(src.Fields())
      ensures tags != null ==> fresh(tags)
      ensures TagsPlaced(Fields(), old(Fields()), old(src.Fields()), 3, before, changed)
    {
      hide View, Fields, CloudletLocation.View, CloudletLocation.Fields, CloudletLocation.Views,
          CloudletLocation.Trees, CloudletLocation.Valid, CloudletLocation.Reprs, TagMap.Contents, Valid,
          Items, ItemsKept, OneTaken, CopyTree, TreeChanges, Onto, Bares, BareItem, Footprint;
      TagsItem();
      src.TagsItem();
      changed := GraftTags(src, before);
      TagsItem();
      TagsAside();
    }

    /** The map `tags`. */
    method CopyTags(src: AppInstListReply, before: int, ghost m: Tree, ghost s: Tree) returns (changed: int)
      requires Underway(src, m, s, 3, before) && Repr !! src.Repr
      modifies `tags, `Repr
      ensures Underway(src, m, s, 4, changed)
      ensures fresh(Repr - old(Repr)) && src.Repr == old(src.Repr)
      ensures tags != null ==> fresh(tags)
    {
      hide Footprint, View, Fields, CloudletLocation.View, CloudletLocation.Fields, CloudletLocation.Views,
          CloudletLocation.Trees, CloudletLocation.Valid, CloudletLocation.Reprs, Valid, Items, CopiedUpTo,
          CopyTree, TreeChanges, CopyItem, Changes, FloatEq;
      ghost var r := Fields();
      changed := before;
      changed := PlaceTags(src, changed);
      CopyMap(r, Fields(), m, s, 3, before, changed);
    }

    method CopyInFields(src: AppInstListReply) returns (changed: int)
      requires Valid() && src.Valid() && Repr !! src.Repr
      modifies this
      ensures Valid() && fresh(Repr - old(Repr)) && src.Valid() && src.Repr == old(src.Repr) && Repr !! src.Repr
      ensures tags != null ==> fresh(tags)
      ensures src.Fields() == old(src.Fields())
      ensures Fields() == CopyTree(old(Fields()), old(src.Fields()))
      ensures changed == TreeChanges(old(Fields()), old(src.Fields()))
      ensures SameTree(Fields(), src.Fields()) && (changed == 0 ==> Untouched(old(Fields()), Fields()))
      ensures Equals(src) && unrecognized == old(unrecognized)
    {
      hide Footprint, View, Fields, CloudletLocation.View, CloudletLocation.Fields, CloudletLocation.Views,
          CloudletLocation.Trees, CloudletLocation.Valid, CloudletLocation.Reprs, Valid, Items, CopiedUpTo,
          CopyTree, TreeChanges, CopyItem, Changes, FloatEq, SameTree, Untouched, Alike, Equals;
      ghost var m, s := Fields(), src.Fields();
      FieldItems();
      src.FieldItems();
      FieldsAlike(src);
      FieldsUnknown();
      changed := 0;
      CopyStart(m, s);
      changed := CopyVerToStatus(src, changed, m, s);
      changed := CopyCloudlets(src, changed, m, s);
      changed := CopyTags(src, changed, m, s);
      CopyDone(Fields(), m, s, changed);
      CopyAgrees(m, s);
      SameIsEqual(src);
      FieldsUnknown();
      if changed == 0 {
        NoChanges(m, s);
      }
    }

    /** The assignments of a deep copy. */
    method AssignFields(src: AppInstListReply)
      requires src.Valid() && this !in src.Repr
      modifies `ver, `status, `cloudlets, `tags
      ensures ver == src.ver
      ensures status == src.status
      ensures cloudlets.None? <==> src.cloudlets.None?
      ensures (forall y :: y in Elems(cloudlets) ==> y.Valid()) && fresh(CloudletLocation.Reprs(Elems(cloudlets)))
      ensures CloudletLocation.Trees(Elems(cloudlets)) == Bares(old(CloudletLocation.Trees(Elems(src.cloudlets))))
      ensures tags != null ==> fresh(tags)
      ensures TagMap.Contents(tags) == old(TagMap.Contents(src.tags))
    {
      hide View, Fields, CloudletLocation.View, CloudletLocation.Fields, CloudletLocation.Views,
          CloudletLocation.Trees, CloudletLocation.Valid, CloudletLocation.Reprs, TagMap.Contents, Valid, Bares;
      ver := src.ver;
      status := src.status;
      src.ElementsValid();
      CloneCloudlets(src);
      CloneTags(src);
    }

    /** What a deep copy makes the message consist of. */
    twostate lemma AllAssigned()
      requires Repr == Footprint()
      requires (forall y :: y in Elems(cloudlets) ==> y.Valid()) && fresh(CloudletLocation.Reprs(Elems(cloudlets)))
      requires this !in CloudletLocation.Reprs(Elems(cloudlets))
      requires tags != null ==> fresh(tags)
      ensures Valid() && fresh(Repr - {this})
    {
      hide CloudletLocation.Valid;
    }

    /** The assignments of a deep copy, and what the message consists of after them. */
    method AssignAll(src: AppInstListReply)
      requires Valid() && src.Valid() && this !in src.Repr
      modifies this
      ensures Valid() && fresh(Repr - {this})
      ensures ver == src.ver
      ensures status == src.status
      ensures cloudlets.None? <==> src.cloudlets.None?
      ensures CloudletLocation.Trees(Elems(cloudlets)) == Bares(old(CloudletLocation.Trees(Elems(src.cloudlets))))
      ensures TagMap.Contents(tags) == old(TagMap.Contents(src.tags))
      ensures unrecognized == old(unrecognized)
    {
      hide View, Fields, CloudletLocation.View, CloudletLocation.Fields, CloudletLocation.Views,
          CloudletLocation.Trees, CloudletLocation.Valid, CloudletLocation.Reprs, Valid, Footprint, Items,
          Bare, Bares, TagMap.Contents;
      src.ElementsValid();
      AssignFields(src);
      Repr := Footprint();
      AllAssigned();
    }

    /** The fields of a deep copy. */
    lemma DeepCopied(src: AppInstListReply)
      requires Valid() && src.Valid()
      requires ver == src.ver
      requires status == src.status
      requires forall x :: x in Elems(cloudlets) ==> x.Valid()
      requires forall x :: x in Elems(src.cloudlets) ==> x.Valid()
      requires cloudlets.None? <==> src.cloudlets.None?
      requires CloudletLocation.Trees(Elems(cloudlets)) == Bares(CloudletLocation.Trees(Elems(src.cloudlets)))
      requires TagMap.Contents(tags) == TagMap.Contents(src.tags)
      ensures Fields() == Bare(src.Fields()).(unknown := unrecognized)
    {
      hide CloudletLocation.View, CloudletLocation.Fields, CloudletLocation.Views, CloudletLocation.Trees,
          CloudletLocation.Valid, CloudletLocation.Reprs, Valid, Items, Bare, Bares, TagMap.Contents;
      BareFields(Fields(), src.Fields());
    }

    method DeepCopyIn(src: AppInstListReply)
      requires Valid() && src.Valid() && this !in src.Repr
      modifies this
      ensures Valid() && fresh(Repr - {this})
      ensures Fields() == Bare(old(src.Fields())).(unknown := old(unrecognized))
      ensures src.Valid() && Equals(src) && unrecognized == old(unrecognized)
    {
      hide View, Fields, CloudletLocation.View, CloudletLocation.Fields, CloudletLocation.Views,
          CloudletLocation.Trees, CloudletLocation.Valid, CloudletLocation.Reprs, Valid, Footprint, Items,
          Bare, Bares, SameTree, Equals;
      src.FieldItems();
      AssignAll(src);
      src.Same();
      FieldItems();
      src.FieldItems();
      DeepCopied(src);
      BareSame(Fields(), src.Fields(), unrecognized);
      SameIsEqual(src);
    }

    method Clone() returns (cp: AppInstListReply)
      requires Valid()
      ensures cp.Valid() && fresh(cp.Repr)
      ensures cp.Fields() == Bare(old(Fields())) && SameTree(cp.Fields(), old(Fields()))
      ensures Valid() && cp.Equals(this) && cp.unrecognized == []
      ensures cp.View() == Cleared(old(View()))
    {
      hide View, Fields, Valid, SameTree, Equals;
      BareAgrees(Fields());
      FieldsOnWire();
      BareOnWire(Fields());
      cp := new AppInstListReply();
      cp.DeepCopyIn(this);
      cp.FieldsOnWire();
    }
    //
    // Marshal and its callers
    //

    method Marshal() returns (dAtA: array<byte>, n: nat)
      requires Valid() && Encoding.Size(APP_INST_LIST_REPLY_SCHEMA, View()) < TWO63
      ensures Valid() && View() == old(View())
      ensures fresh(dAtA) && n == dAtA.Length == Encoding.Size(APP_INST_LIST_REPLY_SCHEMA, View())
      ensures Encoding.Encodes(APP_INST_LIST_REPLY_SCHEMA, View(), dAtA[..n]) && IsImage(dAtA[..n])
    {
      hide View, Valid, IsImage, Vals, WellTyped, Encoding.Size, Encoding.Encodes, Marshaled;
      var size := Size();
      dAtA := new byte[size](_ => 0);
      ghost var before := dAtA[..];
      n := MarshalToSizedBuffer(dAtA, size);
      MarshaledLength(APP_INST_LIST_REPLY_SCHEMA, View(), before, dAtA[..], size, n);
      FilledExactly(APP_INST_LIST_REPLY_SCHEMA, View(), before, dAtA[..], size, n);
      Imaged(dAtA[..n]);
    }

    /** b is the whole capacity of the slice that the caller passes; the result is b[..n]. */
    method XXXMarshal(b: array<byte>) returns (n: nat)
      requires Valid() && Encoding.Size(APP_INST_LIST_REPLY_SCHEMA, View()) <= b.Length < TWO63
      modifies b
      ensures Valid() && View() == old(View()) && n <= b.Length
      ensures b.Length == Encoding.Size(APP_INST_LIST_REPLY_SCHEMA, View()) ==>
                Encoding.Encodes(APP_INST_LIST_REPLY_SCHEMA, View(), b[..n])
      ensures Clean(APP_INST_LIST_REPLY_SCHEMA, View()) && (forall i :: 0 <= i < b.Length ==> old(b[i]) == 0) ==>
                (Encoding.Encodes(APP_INST_LIST_REPLY_SCHEMA, View(), b[..n]) <==> b.Length == n || n == 0)
    {
      hide View, Valid, IsImage, Vals, WellTyped, Encoding.Size, Encoding.Encodes, Marshaled, Clean;
      ghost var before := b[..];
      n := MarshalToSizedBuffer(b, b.Length);
      MarshaledLength(APP_INST_LIST_REPLY_SCHEMA, View(), before, b[..], b.Length, n);
      FilledExactly(APP_INST_LIST_REPLY_SCHEMA, View(), before, b[..], b.Length, n);
      AppInstListReplySchemaValid();
      if Clean(APP_INST_LIST_REPLY_SCHEMA, View()) && forall i :: 0 <= i < b.Length ==> before[i] == 0 {
        ExactCapacity(APP_INST_LIST_REPLY_SCHEMA, View(), before, b[..], n);
      }
    }

    /** What was empty arrives as nil. */
    lemma NilIfEmpty(m: Msg)
      requires Valid() && Tight() && WellTyped(APP_INST_LIST_REPLY_SCHEMA, m)
          && View() == Merging.Canonical(APP_INST_LIST_REPLY_SCHEMA, m)
      ensures m.vals[2].Subs? && (cloudlets == None <==> m.vals[2].subs == [])
      ensures m.vals[3].StrMap? && (tags == null <==> m.vals[3].entries == map[])
    {
      hide View, Valid, Vals, WellTyped, Merging.Canonical, CloudletLocation.Valid, CloudletLocation.View,
          CloudletLocation.Views;
      EmptyStaysEmpty(APP_INST_LIST_REPLY_SCHEMA, m, 2);
      EmptyStaysEmpty(APP_INST_LIST_REPLY_SCHEMA, m, 3);
      ElementsApart();
      ViewVals();
    }

    /** Sending a reply and receiving it into a new message: what was empty arrives as nil. */
    method Transfer() returns (err: Error, received: AppInstListReply)
      requires Valid() && Encoding.Size(APP_INST_LIST_REPLY_SCHEMA, View()) < MAX_SLICE
          && Clean(APP_INST_LIST_REPLY_SCHEMA, View())
      ensures err.Nil? && fresh(received) && received.Valid() && fresh(received.Repr)
      ensures received.View() == Merging.Canonical(APP_INST_LIST_REPLY_SCHEMA, old(View()))
      ensures received.Tight()
      ensures received.cloudlets == None <==> old(Elems(cloudlets)) == []
      ensures received.tags == null <==> old(TagMap.Of(tags)) == map[]
    {
      hide View, Valid, IsImage, Vals, WellTyped, Encoding.Size, Encoding.Encodes, Unmarshaled, Clean,
          Merging.Canonical, CloudletLocation.Valid, CloudletLocation.View, CloudletLocation.Views;
      ElementsApart();
      ViewVals();
      ghost var m := View();
      var dAtA, n := Marshal();
      received := new AppInstListReply();
      AppInstListReplySchemaValid();
      err := received.Unmarshal(dAtA[..n]);
      Received(APP_INST_LIST_REPLY_SCHEMA, m, received.View(), dAtA[..n], err);
      received.NilIfEmpty(m);
    }
  }
}
