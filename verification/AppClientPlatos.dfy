/** The messages of app-client-platos.pb.go: AppFqdn and FqdnListReply. */
module AppClientPlatos {
  import opened GoInts
  import opened Errors
  import opened Schemas
  import opened Decoding
  import opened Reading
  import opened Writing
  import opened Copying
  import opened StringLists
  import opened TagMaps
  import opened Transfers
  import opened Unknowns
  import Merging
  import Encoding
  import Records
  import Varint
  import Wire

  const APP_FQDN_SCHEMA := Schema([
    Field(1, String), Field(2, String), Field(3, String), Field(4, RepeatedString), Field(5, String)
  ])

  lemma AppFqdnSchemaValid()
    ensures ValidSchema(APP_FQDN_SCHEMA)
  {
    IncreasingValid(APP_FQDN_SCHEMA);
  }

  const FQDN_LIST_REPLY_SCHEMA := Schema([
    Field(1, Uint32), Field(3, RepeatedMessage(APP_FQDN_SCHEMA)), Field(4, Int32),
    Field(100, StringMap)
  ])

  lemma FqdnListReplySchemaValid()
    ensures ValidSchema(FQDN_LIST_REPLY_SCHEMA)
  {
    AppFqdnSchemaValid();
    IncreasingValid(FQDN_LIST_REPLY_SCHEMA);
  }

  lemma FqdnListReplySchemaFields()
    ensures |FQDN_LIST_REPLY_SCHEMA.fields| == 4
    ensures FQDN_LIST_REPLY_SCHEMA.fields[0] == Field(1, Uint32)
    ensures FQDN_LIST_REPLY_SCHEMA.fields[1] == Field(3, RepeatedMessage(APP_FQDN_SCHEMA))
    ensures FQDN_LIST_REPLY_SCHEMA.fields[2] == Field(4, Int32)
    ensures FQDN_LIST_REPLY_SCHEMA.fields[3] == Field(100, StringMap)
  {
  }

  class AppFqdn {
    var appName: bytes
    var appVers: bytes
    var orgName: bytes
    var fqdns: Option<seq<bytes>>
    var androidPackageName: bytes
    var unrecognized: bytes

    constructor ()
      ensures appName == [] && appVers == [] && orgName == [] && fqdns == None && androidPackageName == []
          && unrecognized == []
      ensures View() == Empty(APP_FQDN_SCHEMA)
    {
      appName := [];
      appVers := [];
      orgName := [];
      fqdns := None;
      androidPackageName := [];
      unrecognized := [];
      new;
      hide View;
      Blank();
    }

    lemma Blank()
      requires appName == [] && appVers == [] && orgName == [] && fqdns == None
          && androidPackageName == [] && unrecognized == []
      ensures View() == Empty(APP_FQDN_SCHEMA)
    {
      assert View().vals == Empty(APP_FQDN_SCHEMA).vals;
    }

    /** No list of the message is empty without being nil, at any level. */
    ghost predicate Tight()
      reads `fqdns
    {
      && fqdns != Some([])
    }

    /** The values of the fields, in the order of the schema. */
    static ghost function Vals(appName: bytes, appVers: bytes, orgName: bytes, fqdns: seq<bytes>,
        androidPackageName: bytes): (vals: seq<Val>)
      ensures |vals| == 5 && forall u :: WellTyped(APP_FQDN_SCHEMA, Msg(vals, u))
      ensures vals[0] == Str(appName)
      ensures vals[1] == Str(appVers)
      ensures vals[2] == Str(orgName)
      ensures vals[3] == Strs(fqdns)
      ensures vals[4] == Str(androidPackageName)
    {
      [Str(appName), Str(appVers), Str(orgName), Strs(fqdns), Str(androidPackageName)]
    }

    ghost function View(): (m: Msg)
      reads this
      ensures WellTyped(APP_FQDN_SCHEMA, m)
    {
      Msg(Vals(appName, appVers, orgName, Elems(fqdns), androidPackageName), unrecognized)
    }

    static ghost function Views(xs: seq<AppFqdn>): (ms: seq<Msg>)
      reads xs
      ensures |ms| == |xs| && forall i :: 0 <= i < |ms| ==> ms[i] == xs[i].View()
    {
      seq(|xs|, i requires 0 <= i < |xs| reads xs => xs[i].View())
    }

    static lemma ViewsTyped(xs: seq<AppFqdn>)
      ensures forall i :: 0 <= i < |xs| ==> WellTyped(APP_FQDN_SCHEMA, Views(xs)[i])
    {
      hide AppFqdn.View, AppFqdn.Views, WellTyped;
    }

    static twostate lemma {:induction false} ViewsKept(xs: seq<AppFqdn>)
      requires forall x :: x in xs ==> x.View() == old(x.View())
      ensures Views(xs) == old(Views(xs))
    {
      hide AppFqdn.View, AppFqdn.Vals;
      if xs != [] {
        assert xs[0] in xs;
        ViewsKept(xs[1..]);
      }
    }

    static lemma ViewsAppend(xs: seq<AppFqdn>, x: AppFqdn)
      ensures Views(xs + [x]) == Views(xs) + [x.View()]
    {
    }

    //
    // On the wire
    //

    /** The bytes of the message: its fields in order, each behind its tag, and the unknown bytes. */
    ghost function Image(): bytes
      reads this
    {
      Wire.Join(Parts())
    }

    ghost function Parts(): (parts: seq<bytes>)
      reads this
    {
      [
        Wire.Text(0x0A, appName),
        Wire.Text(0x12, appVers),
        Wire.Text(0x1A, orgName),
        Wire.Chunks(0x22, Elems(fqdns)),
        Wire.Text(0x2A, androidPackageName),
        unrecognized
      ]
    }

    static ghost function Images(xs: seq<AppFqdn>): (bs: seq<bytes>)
      reads xs
      ensures |bs| == |xs| && forall i :: 0 <= i < |bs| ==> bs[i] == xs[i].Image()
    {
      seq(|xs|, i requires 0 <= i < |xs| reads xs => xs[i].Image())
    }

    /** Each element is written as its image. */
    static lemma AllImaged(xs: seq<AppFqdn>)
      ensures forall i :: 0 <= i < |xs| ==>
                WellTyped(APP_FQDN_SCHEMA, Views(xs)[i]) && Wire.IsImage(APP_FQDN_SCHEMA, Views(xs)[i],
                    Images(xs)[i])
    {
      hide AppFqdn.View, AppFqdn.Image, Wire.IsImage, WellTyped;
      ViewsTyped(xs);
      forall i | 0 <= i < |xs| ensures Wire.IsImage(APP_FQDN_SCHEMA, Views(xs)[i], Images(xs)[i]) {
        xs[i].Imaged();
      }
    }

    /** The message is written as its image, and as nothing else. */
    lemma Imaged()
      ensures Wire.IsImage(APP_FQDN_SCHEMA, View(), Image())
    {
      hide Vals, HasType, WellTyped, Int32Word, Int64Word, BoolWord, Wire.Word64, Narrow, Wire.Only,
          Wire.Number, Wire.Real, Wire.Text, Wire.Chunks, Wire.Nested, Wire.Join, Encoding.Encodes;
      Wire.TextOnly(APP_FQDN_SCHEMA.fields[0], appName, 0x0A);
      Wire.TextOnly(APP_FQDN_SCHEMA.fields[1], appVers, 0x12);
      Wire.TextOnly(APP_FQDN_SCHEMA.fields[2], orgName, 0x1A);
      Wire.TextsOnly(APP_FQDN_SCHEMA.fields[3], Elems(fqdns), 0x22);
      Wire.TextOnly(APP_FQDN_SCHEMA.fields[4], androidPackageName, 0x2A);
      Wire.OnlyImage(APP_FQDN_SCHEMA, View(), Parts());
    }

    lemma ImageSize()
      ensures |Image()| == Encoding.Size(APP_FQDN_SCHEMA, View())
    {
      hide View, Image, Wire.IsImage, WellTyped, Encoding.Encodes, Encoding.Size;
      Imaged();
      Wire.ImageSize(APP_FQDN_SCHEMA, View(), Image());
    }

    /** What has been marshaled into the buffer is the image of the message. */
    lemma ImageFilled(before: bytes, after: bytes, hi: int, n: nat)
      requires Marshaled(APP_FQDN_SCHEMA, View(), before, after, hi, n)
      ensures n <= hi <= |after| && after[hi - n..hi] == Image()
    {
      hide View, Image, Wire.IsImage, WellTyped, Encoding.Encodes, Encoding.Size;
      Imaged();
      Wire.Filled(APP_FQDN_SCHEMA, View(), Image(), before, after, hi, n);
    }

    method Size() returns (n: nat)
      requires Encoding.Size(APP_FQDN_SCHEMA, View()) < TWO63
      ensures n == Encoding.Size(APP_FQDN_SCHEMA, View())
      ensures n == |Image()|
    {
      hide Image, Wire.IsImage, Vals, VarintSize, BoolSize, DoubleSize, StringSize, MessageSize, Varint.Enc,
          Encoding.Size, Encoding.SizeFrom, Encoding.MapSize, Encoding.SubsSize, WellTyped;
      ghost var m := View();
      SizeAll(APP_FQDN_SCHEMA, m);
      var l;
      n := 0;
      l := StringSize(appName, APP_FQDN_SCHEMA, m, 0);
      n := n + l;
      l := StringSize(appVers, APP_FQDN_SCHEMA, m, 1);
      n := n + l;
      l := StringSize(orgName, APP_FQDN_SCHEMA, m, 2);
      n := n + l;
      SizeKnown(APP_FQDN_SCHEMA, m, 3);
      l := SizeStrings(Elems(fqdns), 4);
      n := n + l;
      l := StringSize(androidPackageName, APP_FQDN_SCHEMA, m, 4);
      n := n + l;
      n := n + |unrecognized|;
      ImageSize();
    }

    /** The loop of a `Size` that has these messages in a list. */
    static method SizeOfAll(xs: seq<AppFqdn>, ghost num: nat) returns (n: nat)
      requires 1 <= num < 16 && Encoding.SubsSize(num, APP_FQDN_SCHEMA, Views(xs)) < TWO63
      ensures n == Encoding.SubsSize(num, APP_FQDN_SCHEMA, Views(xs))
    {
      hide AppFqdn.View, AppFqdn.Views, AppFqdn.Image, Varint.Enc, Encoding.Size, Encoding.DelimitedSize,
          Encoding.SubsSize, WellTyped;
      ghost var ms := Views(xs);
      n := 0;
      assert ms[0..] == ms;
      for k := 0 to |xs|
        invariant forall i :: 0 <= i < |xs| ==> xs[i].View() == ms[i]
        invariant n + Encoding.SubsSize(num, APP_FQDN_SCHEMA, ms[k..]) == Encoding.SubsSize(num,
            APP_FQDN_SCHEMA, ms)
      {
        Encoding.SubsSizeStep(num, APP_FQDN_SCHEMA, ms, k);
        Encoding.DelimitedCovers(num, Encoding.Size(APP_FQDN_SCHEMA, ms[k]));
        var l := xs[k].Size();
        l := MessageSize(l, num);
        n := n + l;
      }
      Encoding.SubsSizeNone(num, APP_FQDN_SCHEMA);
      assert ms[|xs|..] == [];
      assert Views(xs) == ms;
    }

    method MarshalToSizedBuffer(dAtA: array<byte>, hi: int) returns (n: nat)
      requires Encoding.Size(APP_FQDN_SCHEMA, View()) <= hi <= dAtA.Length < TWO63
      modifies dAtA
      ensures View() == old(View()) && Marshaled(APP_FQDN_SCHEMA, View(), old(dAtA[..]), dAtA[..], hi, n)
      ensures n <= hi && dAtA[hi - n..hi] == Image()
    {
      hide Image, Wire.IsImage, Vals, Written, Marshaled, Encoding.Size, Encoding.SubsSize, WellTyped;
      ghost var m, a := View(), dAtA[..];
      var i := Writing.UnknownField(dAtA, hi, unrecognized, APP_FQDN_SCHEMA, m);
      i := Writing.StringField(dAtA, i, androidPackageName, 0x2a, APP_FQDN_SCHEMA, m, 4, a, hi);
      i := Writing.StringsField(dAtA, i, Elems(fqdns), 0x22, APP_FQDN_SCHEMA, m, 3, a, hi);
      i := Writing.StringField(dAtA, i, orgName, 0x1a, APP_FQDN_SCHEMA, m, 2, a, hi);
      i := Writing.StringField(dAtA, i, appVers, 0x12, APP_FQDN_SCHEMA, m, 1, a, hi);
      i := Writing.StringField(dAtA, i, appName, 0xa, APP_FQDN_SCHEMA, m, 0, a, hi);
      MarshalDone(APP_FQDN_SCHEMA, m, a, dAtA[..], hi, i);
      n := hi - i;
      ImageFilled(a, dAtA[..], hi, n);
    }

    /** The loop of a `MarshalToSizedBuffer` that has these messages in a list. */
    static method MarshalAll(xs: seq<AppFqdn>, dAtA: array<byte>, j: int, tag: byte, ghost num: nat)
        returns (i: int)
      requires tag == num * 8 + 2 < 128
      requires Encoding.SubsSize(num, APP_FQDN_SCHEMA, Views(xs)) <= j <= dAtA.Length < TWO63
      modifies dAtA
      ensures Views(xs) == old(Views(xs))
      ensures SubsWritten(num, APP_FQDN_SCHEMA, Views(xs), 0, old(dAtA[..]), dAtA[..], j, i)
    {
      hide AppFqdn.View, AppFqdn.Views, AppFqdn.Image, Varint.Enc, Wrote, Marshaled, SubsWritten,
          Encoding.Size, Encoding.SubsSize, WellTyped, Encoding.Tag;
      ghost var ms, a := Views(xs), dAtA[..];
      i := j;
      SubsWrittenNone(num, APP_FQDN_SCHEMA, ms, a, j);
      var k := |xs|;
      while k > 0
        invariant 0 <= k <= |xs|
        invariant forall i :: 0 <= i < |xs| ==> xs[i].View() == ms[i]
        invariant SubsWritten(num, APP_FQDN_SCHEMA, ms, k, a, dAtA[..], j, i)
      {
        ghost var s, from := dAtA[..], i;
        RoomSub(num, APP_FQDN_SCHEMA, ms, k, a, s, j, i);
        k := k - 1;
        TagByte(num, 2);
        var size := xs[k].MarshalToSizedBuffer(dAtA, i);
        ghost var t := dAtA[..];
        MarshaledLength(APP_FQDN_SCHEMA, ms[k], s, t, i, size);
        i := i - size;
        i := PutPrefix(dAtA, i, size, tag, num);
        ExtendSub(num, APP_FQDN_SCHEMA, ms, k, a, s, t, dAtA[..], j, from, size, i);
      }
      assert Views(xs) == ms;
    }

    method Unmarshal(dAtA: bytes) returns (err: Error)
      requires |dAtA| < MAX_SLICE
      modifies this
      ensures fqdns == old(fqdns) || Elems(fqdns) != []
      ensures err.Nil? && old(Tight()) ==> Tight()
      ensures Unmarshaled(APP_FQDN_SCHEMA, old(View()), View(), dAtA, err)
    {
      hide View, Remains, Stepped, Unmarshaled, WellTyped;
      var l, iNdEx := |dAtA|, 0;
      RemainsAll(APP_FQDN_SCHEMA, View(), dAtA);
      while iNdEx < l
        invariant 0 <= iNdEx <= l && Remains(APP_FQDN_SCHEMA, old(View()), View(), dAtA, iNdEx)
        invariant fqdns == old(fqdns) || Elems(fqdns) != []
        invariant old(Tight()) ==> Tight()
        decreases l - iNdEx
      {
        ghost var m, preIndex := View(), iNdEx;
        err, iNdEx := UnmarshalField(dAtA, iNdEx);
        RemainsStep(APP_FQDN_SCHEMA, old(View()), m, View(), dAtA, preIndex, err, iNdEx);
        if !err.Nil? {
          return;
        }
      }
      assert iNdEx == l;
      RemainsNone(APP_FQDN_SCHEMA, old(View()), View(), dAtA);
      err := Nil;
    }

    /** The switch on the field number inside the loop. */
    method UnmarshalField(dAtA: bytes, preIndex: int64) returns (err: Error, iNdEx: int64)
      requires 0 <= preIndex < |dAtA| < MAX_SLICE
      modifies this
      ensures fqdns == old(fqdns) || Elems(fqdns) != []
      ensures err.Nil? && old(Tight()) ==> Tight()
      ensures Stepped(APP_FQDN_SCHEMA, old(View()), View(), dAtA, preIndex, err, iNdEx)
      ensures err.Nil? ==> preIndex < iNdEx <= |dAtA|
    {
      hide View, Vals, Header, Step, WellTyped, ValidSchema, Find, Decode, BodyStep, FieldRead, Stepped,
          Unmarshaled;
      ghost var m := View();
      AppFqdnSchemaValid();
      var fieldNum, wireType;
      err, fieldNum, wireType, iNdEx := ReadTag(dAtA, preIndex);
      if !err.Nil? {
        HeaderRefused(APP_FQDN_SCHEMA, m, View(), dAtA, preIndex, err, iNdEx);
        return;
      }
      match fieldNum {
        case 1 | 2 =>
          err, iNdEx := UnmarshalAppNameToAppVers(dAtA, preIndex, iNdEx, fieldNum, wireType);
        case 3 | 4 =>
          err, iNdEx := UnmarshalOrgNameToFqdns(dAtA, preIndex, iNdEx, fieldNum, wireType);
        case 5 =>
          err, iNdEx := UnmarshalAndroidPackageName(dAtA, preIndex, iNdEx, fieldNum, wireType);
        case _ =>
          err, iNdEx := UnmarshalUnknown(dAtA, preIndex, iNdEx, fieldNum, wireType);
      }
    }

    /** The cases of the switch from `appName` to `appVers`. */
    method UnmarshalAppNameToAppVers(dAtA: bytes, preIndex: int64, start: int64, fieldNum: int32, wireType: nat)
      returns (err: Error, iNdEx: int64)
      requires 0 <= preIndex < start <= |dAtA| < MAX_SLICE
      requires fieldNum == 1 || fieldNum == 2
      requires Header(dAtA[preIndex..]) == Ok(Head(fieldNum, wireType, start - preIndex))
      modifies `appName, `appVers
      ensures Stepped(APP_FQDN_SCHEMA, old(View()), View(), dAtA, preIndex, err, iNdEx)
      ensures err.Nil? ==> preIndex < iNdEx <= |dAtA|
    {
      hide Vals, Header, Step, WellTyped, ValidSchema, Find, Decode, BodyStep, FieldRead, Stepped, Unmarshaled;
      ghost var m := View();
      AppFqdnSchemaValid();
      iNdEx := start;
      match fieldNum {
        case 1 =>
          var v;
          err, v, iNdEx := Reading.StringField(dAtA, preIndex, iNdEx, fieldNum, wireType, APP_FQDN_SCHEMA, m, 0);
          if err.Nil? {
            appName := v;
          }
          FieldReadSteps(APP_FQDN_SCHEMA, m, 0, Str(v), View(), dAtA, preIndex, err, iNdEx);
        case _ =>
          var v;
          err, v, iNdEx := Reading.StringField(dAtA, preIndex, iNdEx, fieldNum, wireType, APP_FQDN_SCHEMA, m, 1);
          if err.Nil? {
            appVers := v;
          }
          FieldReadSteps(APP_FQDN_SCHEMA, m, 1, Str(v), View(), dAtA, preIndex, err, iNdEx);
      }
    }

    /** The cases of the switch from `orgName` to `fqdns`. */
    method UnmarshalOrgNameToFqdns(dAtA: bytes, preIndex: int64, start: int64, fieldNum: int32, wireType: nat)
      returns (err: Error, iNdEx: int64)
      requires 0 <= preIndex < start <= |dAtA| < MAX_SLICE
      requires fieldNum == 3 || fieldNum == 4
      requires Header(dAtA[preIndex..]) == Ok(Head(fieldNum, wireType, start - preIndex))
      modifies `orgName, `fqdns
      ensures fqdns == old(fqdns) || Elems(fqdns) != []
      ensures err.Nil? && old(Tight()) ==> Tight()
      ensures Stepped(APP_FQDN_SCHEMA, old(View()), View(), dAtA, preIndex, err, iNdEx)
      ensures err.Nil? ==> preIndex < iNdEx <= |dAtA|
    {
      hide Vals, Header, Step, WellTyped, ValidSchema, Find, Decode, BodyStep, FieldRead, Stepped, Unmarshaled;
      ghost var m := View();
      AppFqdnSchemaValid();
      iNdEx := start;
      match fieldNum {
        case 3 =>
          var v;
          err, v, iNdEx := Reading.StringField(dAtA, preIndex, iNdEx, fieldNum, wireType, APP_FQDN_SCHEMA, m, 2);
          if err.Nil? {
            orgName := v;
          }
          FieldReadSteps(APP_FQDN_SCHEMA, m, 2, Str(v), View(), dAtA, preIndex, err, iNdEx);
        case _ =>
          var v;
          err, v, iNdEx := Reading.StringsField(dAtA, preIndex, iNdEx, fieldNum, wireType, APP_FQDN_SCHEMA, m, 3);
          if err.Nil? {
            fqdns := Some(Elems(fqdns) + [v]);
          }
          FieldReadSteps(APP_FQDN_SCHEMA, m, 3, Strs(m.vals[3].strs + [v]), View(), dAtA, preIndex, err, iNdEx);
      }
    }

    /** The case of the switch for `androidPackageName`. */
    method UnmarshalAndroidPackageName(dAtA: bytes, preIndex: int64, start: int64, fieldNum: int32, wireType: nat)
      returns (err: Error, iNdEx: int64)
      requires 0 <= preIndex < start <= |dAtA| < MAX_SLICE
      requires fieldNum == 5
      requires Header(dAtA[preIndex..]) == Ok(Head(fieldNum, wireType, start - preIndex))
      modifies `androidPackageName
      ensures Stepped(APP_FQDN_SCHEMA, old(View()), View(), dAtA, preIndex, err, iNdEx)
      ensures err.Nil? ==> preIndex < iNdEx <= |dAtA|
    {
      hide Vals, Header, Step, WellTyped, ValidSchema, Find, Decode, BodyStep, FieldRead, Stepped, Unmarshaled;
      ghost var m := View();
      AppFqdnSchemaValid();
      iNdEx := start;
      var v;
      err, v, iNdEx := Reading.StringField(dAtA, preIndex, iNdEx, fieldNum, wireType, APP_FQDN_SCHEMA, m, 4);
      if err.Nil? {
        androidPackageName := v;
      }
      FieldReadSteps(APP_FQDN_SCHEMA, m, 4, Str(v), View(), dAtA, preIndex, err, iNdEx);
    }

    /** The default of the switch. */
    method UnmarshalUnknown(dAtA: bytes, preIndex: int64, start: int64, fieldNum: int32, wireType: nat)
      returns (err: Error, iNdEx: int64)
      requires 0 <= preIndex < start <= |dAtA| < MAX_SLICE
      requires fieldNum != 1 && fieldNum != 2 && fieldNum != 3 && fieldNum != 4 && fieldNum != 5
      requires Header(dAtA[preIndex..]) == Ok(Head(fieldNum, wireType, start - preIndex))
      modifies `unrecognized
      ensures Stepped(APP_FQDN_SCHEMA, old(View()), View(), dAtA, preIndex, err, iNdEx)
      ensures err.Nil? ==> preIndex < iNdEx <= |dAtA|
    {
      hide Vals, Header, Step, WellTyped, ValidSchema, Find, Decode, BodyStep, FieldRead, Stepped, Unmarshaled;
      ghost var m := View();
      AppFqdnSchemaValid();
      var raw;
      err, raw, iNdEx := Reading.UnknownField(dAtA, preIndex, APP_FQDN_SCHEMA, m);
      if err.Nil? {
        unrecognized := unrecognized + raw;
        assert View() == m.(unknown := m.unknown + raw);
      } else {
        StepRefused(APP_FQDN_SCHEMA, m, View(), dAtA, preIndex, err, iNdEx);
      }
    }

    //
    // One record read
    //

    /** What it means that the value of field k has become v. */
    twostate lemma Became(new k: nat, new v: Val)
      requires k < 5
      requires View() == old(View()).(vals := old(View()).vals[k := v])
      ensures unrecognized == old(unrecognized)
      ensures if k == 0 then Str(appName) == v else appName == old(appName)
      ensures if k == 1 then Str(appVers) == v else appVers == old(appVers)
      ensures if k == 2 then Str(orgName) == v else orgName == old(orgName)
      ensures if k == 3 then Strs(Elems(fqdns)) == v else Elems(fqdns) == old(Elems(fqdns))
      ensures if k == 4 then Str(androidPackageName) == v else androidPackageName == old(androidPackageName)
    {
      hide WellTyped, Int32Word, Int64Word;
      ghost var was, now := old(View()).vals, View().vals;
      assert now[0] == if k == 0 then v else was[0];
      assert now[1] == if k == 1 then v else was[1];
      assert now[2] == if k == 2 then v else was[2];
      assert now[3] == if k == 3 then v else was[3];
      assert now[4] == if k == 4 then v else was[4];
    }

    twostate lemma WasList()
      ensures |old(View()).vals| == 5 && old(View()).vals[3] == Strs(old(Elems(fqdns)))
    {
    }

    /** What `Unmarshal` makes of one string. */
    twostate lemma TextFromWire(new tag: byte, new s: bytes, new err: Error)
      requires tag == 0x0A || tag == 0x12 || tag == 0x1A || tag == 0x22 || tag == 0x2A
      requires |s| < 0x8000_0000_0000_0000
      requires Unmarshaled(APP_FQDN_SCHEMA, old(View()), View(), Wire.Chunk([tag], s), err)
      ensures err.Nil? && unrecognized == old(unrecognized)
      ensures if tag == 0x0A then appName == s else appName == old(appName)
      ensures if tag == 0x12 then appVers == s else appVers == old(appVers)
      ensures if tag == 0x1A then orgName == s else orgName == old(orgName)
      ensures if tag == 0x22 then Elems(fqdns) == old(Elems(fqdns)) + [s] else Elems(fqdns) == old(Elems(fqdns))
      ensures if tag == 0x2A then androidPackageName == s else androidPackageName == old(androidPackageName)
    {
      hide View, Vals, WellTyped, Decode, ValidSchema, Int32Word, Int64Word, Narrow;
      AppFqdnSchemaValid();
      var k := if tag == 0x0A then 0 else if tag == 0x12 then 1 else if tag == 0x1A then 2
               else if tag == 0x22 then 3 else 4;
      WasList();
      Wire.ReadsText(APP_FQDN_SCHEMA, old(View()), k, tag, s);
      Became(k, if k == 3 then Strs(old(Elems(fqdns)) + [s]) else Str(s));
    }

    //
    // Copying
    //

    static ghost function Items(appName: bytes, appVers: bytes, orgName: bytes, fqdns: Option<seq<bytes>>,
        androidPackageName: bytes): (items: seq<Item>)
      ensures |items| == 5
      ensures items[0] == Text(appName)
      ensures items[1] == Text(appVers)
      ensures items[2] == Text(orgName)
      ensures items[3] == Texts(fqdns)
      ensures items[4] == Text(androidPackageName)
    {
      [Text(appName), Text(appVers), Text(orgName), Texts(fqdns), Text(androidPackageName)]
    }

    /** The message as copying sees it. */
    ghost function Fields(): (t: Tree)
      reads this
      ensures |t.items| == 5
    {
      Tree(Items(appName, appVers, orgName, fqdns, androidPackageName), unrecognized)
    }

    static ghost function Trees(xs: seq<AppFqdn>): (ts: seq<Tree>)
      reads xs
      ensures |ts| == |xs| && forall i :: 0 <= i < |ts| ==> ts[i] == xs[i].Fields()
    {
      seq(|xs|, i requires 0 <= i < |xs| reads xs => xs[i].Fields())
    }

    /** A list of these messages as copying sees it. */
    static ghost function ForestOf(xs: Option<seq<AppFqdn>>): Forest
      reads Elems(xs)
    {
      if xs.None? then NilList else Forest(Trees(xs.value))
    }

    static twostate lemma {:induction false} TreesKept(xs: seq<AppFqdn>)
      requires forall x :: x in xs ==> x.Fields() == old(x.Fields())
      ensures Trees(xs) == old(Trees(xs))
    {
      hide AppFqdn.Fields, AppFqdn.View;
      if xs != [] {
        assert xs[0] in xs;
        TreesKept(xs[1..]);
      }
    }

    lemma FieldsOnWire()
      ensures ToMsg(Fields()) == View()
    {
      hide Items, Vals, ToMsg, WellTyped;
      ghost var items, vals := Fields().items, View().vals;
      assert ToVal(items[0]) == vals[0];
      assert ToVal(items[1]) == vals[1];
      assert ToVal(items[2]) == vals[2];
      assert ToVal(items[3]) == vals[3];
      assert ToVal(items[4]) == vals[4];
      assert ToMsg(Fields()).vals == View().vals;
    }

    static lemma TreesOnWire(xs: seq<AppFqdn>)
      ensures forall i :: 0 <= i < |xs| ==> ToMsg(Trees(xs)[i]) == Views(xs)[i]
    {
      hide AppFqdn.Fields, AppFqdn.View, AppFqdn.Trees, AppFqdn.Views, ToMsg;
      forall i | 0 <= i < |xs| ensures ToMsg(xs[i].Fields()) == xs[i].View() {
        xs[i].FieldsOnWire();
      }
    }

    /** The messages have the same declared fields, at every level. A float may be either zero where the
        other is. */
    ghost predicate Equals(o: AppFqdn)
      reads this, o
    {
      && appName == o.appName
      && appVers == o.appVers
      && orgName == o.orgName
      && fqdns == o.fqdns
      && androidPackageName == o.androidPackageName
    }

    static ghost predicate AllEqual(xs: seq<AppFqdn>, os: seq<AppFqdn>)
      reads xs, os
    {
      |xs| == |os| && forall i :: 0 <= i < |xs| ==> xs[i].Equals(os[i])
    }

    static lemma AllSame(xs: seq<AppFqdn>, os: seq<AppFqdn>)
      requires |xs| == |os| && forall i :: 0 <= i < |xs| ==> SameTree(Trees(xs)[i], Trees(os)[i])
      ensures AllEqual(xs, os)
    {
      hide AppFqdn.Fields, SameTree, AppFqdn.Equals;
      forall i | 0 <= i < |xs| ensures xs[i].Equals(os[i]) {
        assert SameTree(Trees(xs)[i], Trees(os)[i]);
        xs[i].SameIsEqual(os[i]);
      }
    }

    /** The same to copying is the same field by field. */
    lemma SameIsEqual(o: AppFqdn)
      requires SameTree(Fields(), o.Fields())
      ensures Equals(o)
    {
      hide Items;
      ghost var r, s := Fields().items, o.Fields().items;
      assert SameItem(r[0], s[0]);
      assert SameItem(r[1], s[1]);
      assert SameItem(r[2], s[2]);
      assert SameItem(r[3], s[3]);
      assert SameItem(r[4], s[4]);
    }

    /** The fields of a deep copy. */
    lemma DeepCopied(src: AppFqdn)
      requires appName == src.appName
      requires appVers == src.appVers
      requires orgName == src.orgName
      requires fqdns == src.fqdns
      requires androidPackageName == src.androidPackageName
      ensures Fields() == Bare(src.Fields()).(unknown := unrecognized)
    {
      hide Items, Bare, Bares;
      BareFields(Fields(), src.Fields());
    }

    method DeepCopyIn(src: AppFqdn)
      requires src != this
      modifies this
      ensures Fields() == Bare(old(src.Fields())).(unknown := old(unrecognized))
      ensures Equals(src) && unrecognized == old(unrecognized)
    {
      hide Fields, Items, Bare, Bares, SameTree, Equals;
      appName := src.appName;
      appVers := src.appVers;
      orgName := src.orgName;
      fqdns := src.fqdns;
      androidPackageName := src.androidPackageName;
      DeepCopied(src);
      BareSame(Fields(), src.Fields(), unrecognized);
      SameIsEqual(src);
    }

    method Clone() returns (cp: AppFqdn)
      ensures fresh(cp)
      ensures cp.Fields() == Bare(old(Fields())) && SameTree(cp.Fields(), old(Fields()))
      ensures cp.Equals(this) && cp.unrecognized == []
      ensures cp.View() == Cleared(old(View()))
    {
      hide SameTree, Equals;
      BareAgrees(Fields());
      FieldsOnWire();
      BareOnWire(Fields());
      cp := new AppFqdn();
      cp.DeepCopyIn(this);
      cp.FieldsOnWire();
    }

    /** The loop of a copy that has these messages in a list. */
    static method CloneAll(xs: seq<AppFqdn>) returns (ys: seq<AppFqdn>)
      ensures |ys| == |xs| && forall y :: y in ys ==> fresh(y)
      ensures Trees(ys) == Bares(old(Trees(xs)))
    {
      hide AppFqdn.View, AppFqdn.Trees, AppFqdn.Fields, Cleared, Bare, SameTree, AppFqdn.Equals;
      ghost var ts := Trees(xs);
      ys := [];
      for k := 0 to |xs|
        invariant |ys| == k
        invariant forall i :: 0 <= i < |xs| ==> xs[i].Fields() == ts[i]
        invariant forall i :: 0 <= i < k ==> fresh(ys[i]) && ys[i].Fields() == Bare(ts[i])
      {
        var y := xs[k].Clone();
        ys := ys + [y];
      }
      assert Trees(ys) == Bares(ts);
    }

    method AddFqdns(vals: seq<bytes>) returns (changes: nat)
      modifies `fqdns
      ensures fqdns == Added(old(fqdns), vals) && changes == |Absent(vals, Elems(old(fqdns)))|
    {
      fqdns, changes := AddStrings(fqdns, vals);
    }
  }

  class FqdnListReply {
    var ver: uint32
    var appFqdns: Option<seq<AppFqdn>>
    var status: int32
    var tags: TagMap?
    var unrecognized: bytes
    ghost var Repr: set<object>

    constructor ()
      ensures appFqdns == None
      ensures Valid() && Repr == {this}
      ensures ver == 0 && status == 0 && tags == null && unrecognized == []
      ensures View() == Empty(FQDN_LIST_REPLY_SCHEMA)
    {
      ver := 0;
      appFqdns := None;
      status := 0;
      tags := null;
      unrecognized := [];
      Repr := {this};
      new;
      hide View, Valid;
      Blank();
    }

    lemma Blank()
      requires ver == 0 && appFqdns == None && status == 0 && tags == null && unrecognized == []
      requires Repr == {this}
      ensures Valid()
      ensures View() == Empty(FQDN_LIST_REPLY_SCHEMA)
    {
      assert View().vals == Empty(FQDN_LIST_REPLY_SCHEMA).vals;
    }

    /** The objects that the message may consist of. */
    static ghost predicate Part(o: object) {
      o is FqdnListReply || o is AppFqdn || o is TagMap
    }

    /** Repr holds the objects that the message consists of, all of them of those types. */
    ghost predicate Valid()
      reads this, Repr
      ensures Valid() ==> this in Repr && forall o :: o in Repr ==> Part(o)
    {
      && this in Repr
      && (tags != null ==> tags in Repr)
      && (forall x: AppFqdn :: x in Elems(appFqdns) ==> x in Repr)
      && (forall o :: o in Repr ==> Part(o))
    }

    /** No list of the message is empty without being nil, at any level. */
    ghost predicate ListsTight()
      reads `appFqdns, Elems(appFqdns)`fqdns
    {
      && appFqdns != Some([])
      && forall x :: x in Elems(appFqdns) ==> x.Tight()
    }

    /** Nor is the map. */
    ghost predicate Tight()
      reads `appFqdns, Elems(appFqdns)`fqdns, `tags, tags
    {
      ListsTight() && TagMap.Contents(tags) != Some(map[])
    }

    /** The values of the fields, in the order of the schema. */
    static ghost function Vals(ver: uint32, appFqdns: seq<Msg>, status: int32, tags: map<bytes,
        bytes>): (vals: seq<Val>)
      requires forall i :: 0 <= i < |appFqdns| ==> WellTyped(APP_FQDN_SCHEMA, appFqdns[i])
      ensures |vals| == 4 && forall u :: WellTyped(FQDN_LIST_REPLY_SCHEMA, Msg(vals, u))
      ensures vals[0] == Num(ver)
      ensures vals[1] == Subs(appFqdns)
      ensures vals[2] == Num(Int32Word(status))
      ensures vals[3] == StrMap(tags)
    {
      [Num(ver), Subs(appFqdns), Num(Int32Word(status)), StrMap(tags)]
    }

    ghost function View(): (m: Msg)
      requires Valid()
      reads this, Repr
      ensures WellTyped(FQDN_LIST_REPLY_SCHEMA, m)
    {
      AppFqdn.ViewsTyped(Elems(appFqdns));
      Msg(Vals(ver, AppFqdn.Views(Elems(appFqdns)), status, TagMap.Of(tags)), unrecognized)
    }

    lemma ViewVals()
      requires Valid()
      ensures View().unknown == unrecognized && |View().vals| == 4
      ensures View().vals[0] == Num(ver)
      ensures View().vals[1] == Subs(AppFqdn.Views(Elems(appFqdns)))
      ensures View().vals[2] == Num(Int32Word(status))
      ensures View().vals[3] == StrMap(TagMap.Of(tags))
    {
      hide AppFqdn.View, AppFqdn.Views, Vals, WellTyped;
    }

    //
    // On the wire
    //

    /** The bytes of the message: its fields in order, each behind its tag, and the unknown bytes. The entries
        of the map are in the order es. */
    ghost function ImageWith(es: seq<(bytes, bytes)>): bytes
      requires Valid()
      reads this, Repr
    {
      Wire.Join(Parts(es))
    }

    ghost function Parts(es: seq<(bytes, bytes)>): (parts: seq<bytes>)
      requires Valid()
      reads this, Repr
    {
      [
        Wire.Number(0x08, ver),
        Wire.Chunks(0x1A, AppFqdn.Images(Elems(appFqdns))),
        Wire.Number(0x20, Wire.Word64(status)),
        Wire.Pairs100(es),
        unrecognized
      ]
    }

    /** b is the message with the entries of the map in some order. */
    ghost predicate IsImage(b: bytes)
      requires Valid()
      reads this, Repr
    {
      exists es :: Encoding.Lists(es, TagMap.Of(tags)) && b == ImageWith(es)
    }

    lemma PartsAt(es: seq<(bytes, bytes)>)
      requires Valid()
      ensures |Parts(es)| == 5 && Parts(es)[3] == Wire.Pairs100(es) && Parts(es)[4] == unrecognized
    {
      hide View, Valid, AppFqdn.View, AppFqdn.Views, AppFqdn.Image, AppFqdn.Images, Vals, HasType, WellTyped,
          Int32Word, Int64Word, BoolWord, Wire.Word64, Narrow, Wire.Only, Wire.Number, Wire.Real, Wire.Text,
          Wire.Chunks, Wire.Nested, Wire.Join, Encoding.Encodes;
    }

    /** What a field is written as, but for the map. */
    lemma PartsOnly(es: seq<(bytes, bytes)>)
      requires Valid()
      ensures |FQDN_LIST_REPLY_SCHEMA.fields| == 4
      ensures Wire.OnlyAt(FQDN_LIST_REPLY_SCHEMA, View(), Parts(es), 0)
      ensures Wire.OnlyAt(FQDN_LIST_REPLY_SCHEMA, View(), Parts(es), 1)
      ensures Wire.OnlyAt(FQDN_LIST_REPLY_SCHEMA, View(), Parts(es), 2)
    {
      hide View, Valid, AppFqdn.View, AppFqdn.Views, AppFqdn.Image, AppFqdn.Images, Vals, HasType, WellTyped,
          Int32Word, Int64Word, BoolWord, Wire.Word64, Narrow, Wire.Only, Wire.Number, Wire.Real, Wire.Text,
          Wire.Chunks, Wire.Nested, Wire.Join, Encoding.Encodes;
      FqdnListReplySchemaFields();
      ViewVals();
      AppFqdn.AllImaged(Elems(appFqdns));
      Wire.Uint32Only(FQDN_LIST_REPLY_SCHEMA.fields[0], ver, 0x08);
      Wire.SubsOnly(FQDN_LIST_REPLY_SCHEMA.fields[1], APP_FQDN_SCHEMA, AppFqdn.Views(Elems(appFqdns)),
          AppFqdn.Images(Elems(appFqdns)), 0x1A);
      Wire.Int32Only(FQDN_LIST_REPLY_SCHEMA.fields[2], status, 0x20);
    }

    /** The parts of an encoding are those of an image. */
    lemma PartsKnown(parts: seq<bytes>) returns (es: seq<(bytes, bytes)>)
      requires Valid()
      requires Wire.IsParts(FQDN_LIST_REPLY_SCHEMA, View(), parts)
      ensures Encoding.Lists(es, TagMap.Of(tags)) && parts == Parts(es)
    {
      hide View, Valid, AppFqdn.View, AppFqdn.Views, AppFqdn.Image, AppFqdn.Images, Vals, HasType, WellTyped,
          Int32Word, Int64Word, BoolWord, Wire.Word64, Narrow, Wire.Number, Wire.Real, Wire.Text, Wire.Chunks,
          Wire.Nested, Wire.Join, Encoding.Encodes, Parts, Encoding.EncodesVal, Encoding.Lists;
      FqdnListReplySchemaFields();
      ViewVals();
      Wire.PairsOnly(FQDN_LIST_REPLY_SCHEMA.fields[3], TagMap.Of(tags), parts[3]);
      es :| Encoding.Lists(es, TagMap.Of(tags)) && parts[3] == Wire.Pairs100(es);
      PartsOnly(es);
      PartsAt(es);
    }

    lemma PartsEncode(es: seq<(bytes, bytes)>)
      requires Valid()
      requires Encoding.Lists(es, TagMap.Of(tags))
      ensures Wire.IsParts(FQDN_LIST_REPLY_SCHEMA, View(), Parts(es))
    {
      hide View, Valid, AppFqdn.View, AppFqdn.Views, AppFqdn.Image, AppFqdn.Images, Vals, HasType, WellTyped,
          Int32Word, Int64Word, BoolWord, Wire.Word64, Narrow, Wire.Number, Wire.Real, Wire.Text, Wire.Chunks,
          Wire.Nested, Wire.Join, Encoding.Encodes, Parts, Encoding.EncodesVal, Encoding.Lists;
      FqdnListReplySchemaFields();
      ViewVals();
      PartsOnly(es);
      PartsAt(es);
      Wire.PairsOnly(FQDN_LIST_REPLY_SCHEMA.fields[3], TagMap.Of(tags), Parts(es)[3]);
    }

    /** Exactly the images are encodings of the message, one for every order of the map. */
    lemma Imaged(b: bytes)
      requires Valid()
      ensures Encoding.Encodes(FQDN_LIST_REPLY_SCHEMA, View(), b) <==> IsImage(b)
    {
      hide View, Valid, AppFqdn.View, AppFqdn.Views, AppFqdn.Image, AppFqdn.Images, Vals, HasType, WellTyped,
          Int32Word, Int64Word, BoolWord, Wire.Word64, Narrow, Wire.Number, Wire.Real, Wire.Text, Wire.Chunks,
          Wire.Nested, Wire.Join, Encoding.Encodes, Parts, Wire.IsParts, Encoding.Lists;
      Wire.EncodesParts(FQDN_LIST_REPLY_SCHEMA, View(), b);
      if parts :| Wire.IsParts(FQDN_LIST_REPLY_SCHEMA, View(), parts) && b == Wire.Join(parts) {
        var es := PartsKnown(parts);
        assert Encoding.Lists(es, TagMap.Of(tags)) && b == ImageWith(es);
      }
      if es :| Encoding.Lists(es, TagMap.Of(tags)) && b == ImageWith(es) {
        PartsEncode(es);
        assert Wire.IsParts(FQDN_LIST_REPLY_SCHEMA, View(), Parts(es)) && b == Wire.Join(Parts(es));
      }
    }

    lemma ImageSize()
      requires Valid()
      ensures forall b :: IsImage(b) ==> |b| == Encoding.Size(FQDN_LIST_REPLY_SCHEMA, View())
    {
      hide View, Valid, IsImage, WellTyped, Encoding.Encodes, Encoding.Size;
      forall b | IsImage(b) ensures |b| == Encoding.Size(FQDN_LIST_REPLY_SCHEMA, View()) {
        Imaged(b);
        Encoding.EncodesSize(FQDN_LIST_REPLY_SCHEMA, View(), b);
      }
    }

    /** What has been marshaled into the buffer is an image of the message. */
    lemma ImageFilled(before: bytes, after: bytes, hi: int, n: nat)
      requires Valid()
      requires Marshaled(FQDN_LIST_REPLY_SCHEMA, View(), before, after, hi, n)
      ensures n <= hi <= |after| && IsImage(after[hi - n..hi])
    {
      hide View, Valid, IsImage, WellTyped, Encoding.Encodes, Encoding.Size;
      var b := Wire.FilledSome(FQDN_LIST_REPLY_SCHEMA, View(), before, after, hi, n);
      Imaged(b);
    }

    method Size() returns (n: nat)
      requires Valid()
      requires Encoding.Size(FQDN_LIST_REPLY_SCHEMA, View()) < TWO63
      ensures n == Encoding.Size(FQDN_LIST_REPLY_SCHEMA, View())
      ensures forall b :: IsImage(b) ==> n == |b|
    {
      hide AppFqdn.View, Valid, AppFqdn.Views, AppFqdn.Image, Wire.IsImage, Vals, VarintSize, BoolSize,
          DoubleSize, StringSize, MessageSize, Varint.Enc, Encoding.Size, Encoding.SizeFrom, Encoding.MapSize,
          Encoding.SubsSize, WellTyped, FQDN_LIST_REPLY_SCHEMA, APP_FQDN_SCHEMA;
      FqdnListReplySchemaFields();
      ghost var m := View();
      SizeAll(FQDN_LIST_REPLY_SCHEMA, m);
      var l;
      n := 0;
      l := VarintSize(ver, FQDN_LIST_REPLY_SCHEMA, m, 0);
      n := n + l;
      SizeKnown(FQDN_LIST_REPLY_SCHEMA, m, 1);
      l := AppFqdn.SizeOfAll(Elems(appFqdns), 3);
      n := n + l;
      l := VarintSize(Int32Word(status), FQDN_LIST_REPLY_SCHEMA, m, 2);
      n := n + l;
      SizeKnown(FQDN_LIST_REPLY_SCHEMA, m, 3);
      l := SizeTags(TagMap.Of(tags));
      n := n + l;
      n := n + |unrecognized|;
      ImageSize();
    }

    method MarshalToSizedBuffer(dAtA: array<byte>, hi: int) returns (n: nat)
      requires Valid()
      requires Encoding.Size(FQDN_LIST_REPLY_SCHEMA, View()) <= hi <= dAtA.Length < TWO63
      modifies dAtA
      ensures Valid()
      ensures View() == old(View()) && Marshaled(FQDN_LIST_REPLY_SCHEMA, View(), old(dAtA[..]), dAtA[..], hi, n)
      ensures n <= hi && IsImage(dAtA[hi - n..hi])
    {
      hide View, Valid, AppFqdn.View, AppFqdn.Views, AppFqdn.Image, IsImage, Vals, Written, Marshaled,
          Encoding.Size, Encoding.SubsSize, WellTyped, FQDN_LIST_REPLY_SCHEMA, APP_FQDN_SCHEMA;
      FqdnListReplySchemaFields();
      ViewVals();
      assert dAtA !in Repr;
      ghost var m, a := View(), dAtA[..];
      var i := Writing.UnknownField(dAtA, hi, unrecognized, FQDN_LIST_REPLY_SCHEMA, m);
      i := Writing.MapField(dAtA, i, TagMap.Of(tags), FQDN_LIST_REPLY_SCHEMA, m, 3, a, hi);
      i := Writing.Int32Field(dAtA, i, status, 0x20, FQDN_LIST_REPLY_SCHEMA, m, 2, a, hi);
      i := MarshalAppFqdns(dAtA, i, m, a, hi);
      i := Writing.Uint32Field(dAtA, i, ver, 0x8, FQDN_LIST_REPLY_SCHEMA, m, 0, a, hi);
      MarshalDone(FQDN_LIST_REPLY_SCHEMA, m, a, dAtA[..], hi, i);
      n := hi - i;
      ImageFilled(a, dAtA[..], hi, n);
    }

    /** The list `appFqdns`, its last element first. */
    method MarshalAppFqdns(dAtA: array<byte>, i: int, ghost m: Msg, ghost before: bytes,
        ghost hi: int) returns (j: int)
      requires Valid() && View() == m
      requires BeforeField(FQDN_LIST_REPLY_SCHEMA, m, 1, RepeatedMessage(APP_FQDN_SCHEMA), 0x1a, before,
          dAtA[..], hi, i)
      modifies dAtA
      ensures Valid() && View() == m
      ensures Written(FQDN_LIST_REPLY_SCHEMA, m, 1, before, dAtA[..], hi, j)
    {
      hide View, Valid, AppFqdn.View, AppFqdn.Views, AppFqdn.Image, Vals, Written, Marshaled, Encoding.Size,
          Encoding.SubsSize, WellTyped;
      ViewVals();
      RoomSubs(FQDN_LIST_REPLY_SCHEMA, m, 1, APP_FQDN_SCHEMA, 0x1a, before, dAtA[..], hi, i);
      ghost var mid := dAtA[..];
      j := AppFqdn.MarshalAll(Elems(appFqdns), dAtA, i, 0x1a, 3);
      SubsField(FQDN_LIST_REPLY_SCHEMA, m, 1, APP_FQDN_SCHEMA, 0x1a, before, mid, dAtA[..], hi, i, j);
    }

    method Unmarshal(dAtA: bytes) returns (err: Error)
      requires |dAtA| < MAX_SLICE
      requires Valid()
      modifies this, tags
      ensures Valid() && fresh(Repr - old(Repr))
      ensures tags == old(tags) || (old(tags) == null && fresh(tags))
      ensures appFqdns == old(appFqdns) || Elems(appFqdns) != []
      ensures err.Nil? ==> TagMap.Contents(tags) == old(TagMap.Contents(tags)) || TagMap.Of(tags) != map[]
      ensures err.Nil? && old(Tight()) ==> Tight()
      ensures Unmarshaled(FQDN_LIST_REPLY_SCHEMA, old(View()), View(), dAtA, err)
    {
      hide View, Valid, Remains, Stepped, Unmarshaled, WellTyped;
      var l, iNdEx := |dAtA|, 0;
      RemainsAll(FQDN_LIST_REPLY_SCHEMA, View(), dAtA);
      while iNdEx < l
        invariant Valid() && fresh(Repr - old(Repr))
        invariant 0 <= iNdEx <= l && Remains(FQDN_LIST_REPLY_SCHEMA, old(View()), View(), dAtA, iNdEx)
        invariant tags == old(tags) || (old(tags) == null && fresh(tags))
        invariant appFqdns == old(appFqdns) || Elems(appFqdns) != []
        invariant TagMap.Contents(tags) == old(TagMap.Contents(tags)) || TagMap.Of(tags) != map[]
        invariant old(Tight()) ==> Tight()
        decreases l - iNdEx
      {
        ghost var m, preIndex := View(), iNdEx;
        err, iNdEx := UnmarshalField(dAtA, iNdEx);
        RemainsStep(FQDN_LIST_REPLY_SCHEMA, old(View()), m, View(), dAtA, preIndex, err, iNdEx);
        if !err.Nil? {
          return;
        }
      }
      assert iNdEx == l;
      RemainsNone(FQDN_LIST_REPLY_SCHEMA, old(View()), View(), dAtA);
      err := Nil;
    }

    /** What assigning to the other fields leaves as it was. */
    twostate lemma ElementsKept()
      requires old(Valid()) && Repr == old(Repr)
      requires tags == old(tags)
      requires appFqdns == old(appFqdns)
      requires forall x :: x in Elems(appFqdns) ==> x.View() == old(x.View())
      ensures Valid() && AppFqdn.Views(Elems(appFqdns)) == old(AppFqdn.Views(Elems(appFqdns)))
    {
      hide AppFqdn.View, AppFqdn.Views;
      AppFqdn.ViewsKept(Elems(appFqdns));
    }

    /** What making or filling `tags` leaves as it was. */
    twostate lemma TagsStored()
      requires old(Valid())
      requires tags == old(tags) || (tags != null && fresh(tags))
      requires Repr == if tags == old(tags) then old(Repr) else old(Repr) + {tags}
      requires appFqdns == old(appFqdns)
      requires forall x :: x in Elems(appFqdns) ==> x.View() == old(x.View())
      ensures Valid() && AppFqdn.Views(Elems(appFqdns)) == old(AppFqdn.Views(Elems(appFqdns)))
    {
      hide AppFqdn.View, AppFqdn.Views;
      AppFqdn.ViewsKept(Elems(appFqdns));
    }

    /** The switch on the field number inside the loop. */
    method UnmarshalField(dAtA: bytes, preIndex: int64) returns (err: Error, iNdEx: int64)
      requires 0 <= preIndex < |dAtA| < MAX_SLICE
      requires Valid()
      modifies this, tags
      ensures Valid() && fresh(Repr - old(Repr))
      ensures tags == old(tags) || (old(tags) == null && fresh(tags))
      ensures appFqdns == old(appFqdns) || Elems(appFqdns) != []
      ensures err.Nil? ==> TagMap.Contents(tags) == old(TagMap.Contents(tags)) || TagMap.Of(tags) != map[]
      ensures err.Nil? && old(Tight()) ==> Tight()
      ensures Stepped(FQDN_LIST_REPLY_SCHEMA, old(View()), View(), dAtA, preIndex, err, iNdEx)
      ensures err.Nil? ==> preIndex < iNdEx <= |dAtA|
    {
      hide View, Valid, AppFqdn.View, AppFqdn.Views, Vals, Header, Step, WellTyped, ValidSchema, Find, Decode,
          BodyStep, FieldRead, Stepped, Unmarshaled;
      ghost var m := View();
      FqdnListReplySchemaValid();
      var fieldNum, wireType;
      err, fieldNum, wireType, iNdEx := ReadTag(dAtA, preIndex);
      if !err.Nil? {
        HeaderRefused(FQDN_LIST_REPLY_SCHEMA, m, View(), dAtA, preIndex, err, iNdEx);
        return;
      }
      match fieldNum {
        case 1 =>
          err, iNdEx := UnmarshalVer(dAtA, preIndex, iNdEx, fieldNum, wireType);
        case 3 =>
          err, iNdEx := UnmarshalAppFqdns(dAtA, preIndex, iNdEx, fieldNum, wireType);
        case 4 =>
          err, iNdEx := UnmarshalStatus(dAtA, preIndex, iNdEx, fieldNum, wireType);
        case 100 =>
          err, iNdEx := UnmarshalTags(dAtA, preIndex, iNdEx, fieldNum, wireType);
        case _ =>
          err, iNdEx := UnmarshalUnknown(dAtA, preIndex, iNdEx, fieldNum, wireType);
      }
    }

    /** The case of the switch for `ver`. */
    method UnmarshalVer(dAtA: bytes, preIndex: int64, start: int64, fieldNum: int32, wireType: nat)
      returns (err: Error, iNdEx: int64)
      requires Valid()
      requires 0 <= preIndex < start <= |dAtA| < MAX_SLICE
      requires fieldNum == 1
      requires Header(dAtA[preIndex..]) == Ok(Head(fieldNum, wireType, start - preIndex))
      modifies `ver
      ensures Valid()
      ensures Stepped(FQDN_LIST_REPLY_SCHEMA, old(View()), View(), dAtA, preIndex, err, iNdEx)
      ensures err.Nil? ==> preIndex < iNdEx <= |dAtA|
    {
      hide View, Valid, AppFqdn.View, AppFqdn.Views, Vals, Header, Step, WellTyped, ValidSchema, Find, Decode,
          BodyStep, FieldRead, Stepped, Unmarshaled;
      ghost var m := View();
      ViewVals();
      FqdnListReplySchemaValid();
      iNdEx := start;
      var v;
      err, v, iNdEx := Reading.Uint32Field(dAtA, preIndex, iNdEx, fieldNum, wireType, FQDN_LIST_REPLY_SCHEMA, m, 0);
      if err.Nil? {
        ver := v;
      }
      ElementsKept();
      ViewVals();
      FieldReadSteps(FQDN_LIST_REPLY_SCHEMA, m, 0, Num(v), View(), dAtA, preIndex, err, iNdEx);
    }

    /** The case of the switch for `status`. */
    method UnmarshalStatus(dAtA: bytes, preIndex: int64, start: int64, fieldNum: int32, wireType: nat)
      returns (err: Error, iNdEx: int64)
      requires Valid()
      requires 0 <= preIndex < start <= |dAtA| < MAX_SLICE
      requires fieldNum == 4
      requires Header(dAtA[preIndex..]) == Ok(Head(fieldNum, wireType, start - preIndex))
      modifies `status
      ensures Valid()
      ensures Stepped(FQDN_LIST_REPLY_SCHEMA, old(View()), View(), dAtA, preIndex, err, iNdEx)
      ensures err.Nil? ==> preIndex < iNdEx <= |dAtA|
    {
      hide View, Valid, AppFqdn.View, AppFqdn.Views, Vals, Header, Step, WellTyped, ValidSchema, Find, Decode,
          BodyStep, FieldRead, Stepped, Unmarshaled;
      ghost var m := View();
      ViewVals();
      FqdnListReplySchemaValid();
      iNdEx := start;
      var v;
      err, v, iNdEx := Reading.Int32Field(dAtA, preIndex, iNdEx, fieldNum, wireType, FQDN_LIST_REPLY_SCHEMA, m, 2);
      if err.Nil? {
        status := v;
      }
      ElementsKept();
      ViewVals();
      FieldReadSteps(FQDN_LIST_REPLY_SCHEMA, m, 2, Num(Int32Word(v)), View(), dAtA, preIndex, err, iNdEx);
    }

    /** The default of the switch. */
    method UnmarshalUnknown(dAtA: bytes, preIndex: int64, start: int64, fieldNum: int32, wireType: nat)
      returns (err: Error, iNdEx: int64)
      requires Valid()
      requires 0 <= preIndex < start <= |dAtA| < MAX_SLICE
      requires fieldNum != 1 && fieldNum != 3 && fieldNum != 4 && fieldNum != 100
      requires Header(dAtA[preIndex..]) == Ok(Head(fieldNum, wireType, start - preIndex))
      modifies `unrecognized
      ensures Valid()
      ensures Stepped(FQDN_LIST_REPLY_SCHEMA, old(View()), View(), dAtA, preIndex, err, iNdEx)
      ensures err.Nil? ==> preIndex < iNdEx <= |dAtA|
    {
      hide View, Valid, AppFqdn.View, AppFqdn.Views, Vals, Header, Step, WellTyped, ValidSchema, Find, Decode,
          BodyStep, FieldRead, Stepped, Unmarshaled;
      ghost var m := View();
      ViewVals();
      FqdnListReplySchemaValid();
      var raw;
      err, raw, iNdEx := Reading.UnknownField(dAtA, preIndex, FQDN_LIST_REPLY_SCHEMA, m);
      if err.Nil? {
        unrecognized := unrecognized + raw;
        ElementsKept();
        ViewVals();
        assert View() == m.(unknown := m.unknown + raw);
      } else {
        StepRefused(FQDN_LIST_REPLY_SCHEMA, m, View(), dAtA, preIndex, err, iNdEx);
      }
    }

    /** What appending y to `appFqdns` leaves as it was. */
    twostate lemma AppFqdnsAppended(new y: AppFqdn)
      requires old(Valid()) && appFqdns == Some(old(Elems(appFqdns)) + [y])
      requires Repr == old(Repr) + {y}
      requires forall x :: x in old(Elems(appFqdns)) ==> x.View() == old(x.View())
      requires tags == old(tags)
      ensures Valid()
      ensures AppFqdn.Views(Elems(appFqdns)) == old(AppFqdn.Views(Elems(appFqdns))) + [y.View()]
    {
      hide AppFqdn.View, AppFqdn.Views;
      AppFqdn.ViewsKept(old(Elems(appFqdns)));
      AppFqdn.ViewsAppend(old(Elems(appFqdns)), y);
    }

    /** Appends a new element to `appFqdns` and reads a body onto it, and says what that leaves as it was. */
    method GrowAppFqdns(body: bytes) returns (err: Error, y: AppFqdn)
      requires |body| < MAX_SLICE && Valid()
      modifies `appFqdns, `Repr
      ensures fresh(y)
      ensures appFqdns == Some(old(Elems(appFqdns)) + [y]) && Repr == old(Repr) + {y}
      ensures forall x :: x in old(Elems(appFqdns)) ==> x.View() == old(x.View())
      ensures forall x :: x in old(Elems(appFqdns)) ==> x.Tight() == old(x.Tight())
      ensures err.Nil? ==> y.Tight()
      ensures Unmarshaled(APP_FQDN_SCHEMA, Empty(APP_FQDN_SCHEMA), y.View(), body, err)
    {
      hide View, Valid, AppFqdn.View, AppFqdn.Views, Vals, WellTyped, Unmarshaled;
      ViewVals();
      y := new AppFqdn();
      appFqdns := Some(Elems(appFqdns) + [y]);
      err := y.Unmarshal(body);
      Repr := Repr + {y};
    }

    /** The new element, as a change to the whole message. */
    method AppendAppFqdns(body: bytes) returns (err: Error, ghost x: Msg)
      requires |body| < MAX_SLICE
      requires Valid()
      modifies `appFqdns, `Repr
      ensures Valid() && fresh(Repr - old(Repr))
      ensures appFqdns == old(appFqdns) || Elems(appFqdns) != []
      ensures err.Nil? && old(Tight()) ==> Tight()
      ensures View().unknown == old(View().unknown)
      ensures Updated(View().vals, old(View()).vals, 1, Subs(old(View()).vals[1].subs + [x]))
      ensures Unmarshaled(APP_FQDN_SCHEMA, Empty(APP_FQDN_SCHEMA), x, body, err)
    {
      hide View, Valid, AppFqdn.View, AppFqdn.Views, Vals, WellTyped, Unmarshaled;
      ViewVals();
      var y;
      err, y := GrowAppFqdns(body);
      x := y.View();
      AppFqdnsAppended(y);
      ViewVals();
    }

    /** The case of the switch for an element of `appFqdns`. */
    method UnmarshalAppFqdns(dAtA: bytes, preIndex: int64, start: int64, fieldNum: int32, wireType: nat)
      returns (err: Error, iNdEx: int64)
      requires Valid()
      requires AtField(FQDN_LIST_REPLY_SCHEMA, View(), 1, dAtA, preIndex, start, fieldNum, wireType)
      modifies `appFqdns, `Repr
      ensures Valid() && fresh(Repr - old(Repr))
      ensures appFqdns == old(appFqdns) || Elems(appFqdns) != []
      ensures err.Nil? && old(Tight()) ==> Tight()
      ensures Stepped(FQDN_LIST_REPLY_SCHEMA, old(View()), View(), dAtA, preIndex, err, iNdEx)
      ensures err.Nil? ==> preIndex < iNdEx <= |dAtA|
    {
      hide View, Valid, Vals, Step, WellTyped, ValidSchema, BodyStep, FieldRead, Stepped, Unmarshaled, Updated;
      ghost var m := View();
      var postIndex;
      err, iNdEx, postIndex := LengthField(dAtA, preIndex, start, fieldNum, wireType, FQDN_LIST_REPLY_SCHEMA, m, 1);
      if !err.Nil? {
        StepRefused(FQDN_LIST_REPLY_SCHEMA, m, View(), dAtA, preIndex, err, iNdEx);
        return;
      }
      ghost var x;
      err, x := AppendAppFqdns(dAtA[iNdEx..postIndex]);
      ElementRead(FQDN_LIST_REPLY_SCHEMA, m, 1, APP_FQDN_SCHEMA, x, dAtA, preIndex, err, iNdEx, postIndex);
      iNdEx := postIndex;
      FieldReadSteps(FQDN_LIST_REPLY_SCHEMA, m, 1, Subs(m.vals[1].subs + [x]), View(), dAtA, preIndex, err, iNdEx);
    }

    /** Makes `tags` if it is nil. */
    method MakeTags()
      requires Valid()
      modifies `tags, `Repr
      ensures Valid() && fresh(Repr - old(Repr))
      ensures tags != null && (tags == old(tags) || (old(tags) == null && fresh(tags)))
      ensures View() == old(View()) && (old(ListsTight()) ==> ListsTight())
    {
      hide AppFqdn.View, AppFqdn.Views, WellTyped;
      if tags == null {
        tags := new TagMap();
        Repr := Repr + {tags};
        TagsStored();
      }
    }

    /** Stores an entry in `tags`. */
    method StoreTag(mapkey: bytes, mapvalue: bytes)
      requires Valid() && tags != null
      modifies tags
      ensures Valid() && (old(ListsTight()) ==> ListsTight())
      ensures View().unknown == old(View()).unknown && TagMap.Of(tags) != map[]
      ensures Updated(View().vals, old(View()).vals, 3, StrMap(old(View()).vals[3].entries[mapkey := mapvalue]))
    {
      hide View, Valid, AppFqdn.View, AppFqdn.Views, Vals, WellTyped;
      ViewVals();
      tags.Put(mapkey, mapvalue);
      assert mapkey in tags.entries;
      TagsStored();
      ViewVals();
    }

    /** The case of the switch for the map `tags`. */
    method UnmarshalTags(dAtA: bytes, preIndex: int64, start: int64, fieldNum: int32, wireType: nat)
      returns (err: Error, iNdEx: int64)
      requires Valid()
      requires AtField(FQDN_LIST_REPLY_SCHEMA, View(), 3, dAtA, preIndex, start, fieldNum, wireType)
      modifies `tags, tags, `Repr
      ensures Valid() && fresh(Repr - old(Repr))
      ensures tags == old(tags) || (old(tags) == null && fresh(tags))
      ensures err.Nil? ==> TagMap.Of(tags) != map[]
      ensures err.Nil? && old(Tight()) ==> Tight()
      ensures Stepped(FQDN_LIST_REPLY_SCHEMA, old(View()), View(), dAtA, preIndex, err, iNdEx)
      ensures err.Nil? ==> preIndex < iNdEx <= |dAtA|
    {
      hide View, Valid, Vals, Step, WellTyped, ValidSchema, BodyStep, Entry, FieldRead, Stepped, Updated;
      ghost var m := View();
      var postIndex;
      err, iNdEx, postIndex := LengthField(dAtA, preIndex, start, fieldNum, wireType, FQDN_LIST_REPLY_SCHEMA, m, 3);
      if !err.Nil? {
        StepRefused(FQDN_LIST_REPLY_SCHEMA, m, View(), dAtA, preIndex, err, iNdEx);
        return;
      }
      assert ListsTight() == old(ListsTight());
      MakeTags();
      var mapkey, mapvalue;
      err, mapkey, mapvalue := ReadEntry(dAtA, iNdEx, postIndex);
      assert old(ListsTight()) ==> ListsTight();
      EntryRead(FQDN_LIST_REPLY_SCHEMA, m, 3, mapkey, mapvalue, dAtA, preIndex, err, iNdEx, postIndex);
      if err.Nil? {
        StoreTag(mapkey, mapvalue);
      }
      iNdEx := postIndex;
      FieldReadSteps(FQDN_LIST_REPLY_SCHEMA, m, 3, StrMap(m.vals[3].entries[mapkey := mapvalue]), View(), dAtA,
          preIndex, err, iNdEx);
    }

    //
    // One record read
    //

    /** What it means that the value of field k has become v. */
    twostate lemma Became(new k: nat, new v: Val)
      requires old(Valid()) && Valid() && k < 4
      requires View() == old(View()).(vals := old(View()).vals[k := v])
      ensures unrecognized == old(unrecognized)
      ensures if k == 0 then Num(ver) == v else ver == old(ver)
      ensures if k == 1 then Subs(AppFqdn.Views(Elems(appFqdns))) == v
              else AppFqdn.Views(Elems(appFqdns)) == old(AppFqdn.Views(Elems(appFqdns)))
      ensures if k == 2 then Num(Int32Word(status)) == v else status == old(status)
      ensures if k == 3 then StrMap(TagMap.Of(tags)) == v else TagMap.Of(tags) == old(TagMap.Of(tags))
    {
      hide AppFqdn.View, AppFqdn.Views, AppFqdn.Image, Valid, WellTyped, Int32Word, Int64Word;
      Wire.Int32Same(status, old(status));
      ghost var was, now := old(View()).vals, View().vals;
      assert now[0] == if k == 0 then v else was[0];
      assert now[1] == if k == 1 then v else was[1];
      assert now[2] == if k == 2 then v else was[2];
      assert now[3] == if k == 3 then v else was[3];
    }

    /** What `Unmarshal` makes of one number. */
    twostate lemma NumberFromWire(new tag: byte, new w: uint64, new err: Error)
      requires tag == 0x08 || tag == 0x20
      requires old(Valid()) && Valid()
      requires Unmarshaled(FQDN_LIST_REPLY_SCHEMA, old(View()), View(), [tag] + Varint.Enc(w), err)
      ensures err.Nil? && unrecognized == old(unrecognized)
      ensures if tag == 0x08 then ver == w % 0x1_0000_0000 else ver == old(ver)
      ensures AppFqdn.Views(Elems(appFqdns)) == old(AppFqdn.Views(Elems(appFqdns)))
      ensures if tag == 0x20 then (status - w) % 0x1_0000_0000 == 0 else status == old(status)
      ensures TagMap.Of(tags) == old(TagMap.Of(tags))
    {
      hide View, Valid, AppFqdn.View, AppFqdn.Views, AppFqdn.Image, Vals, WellTyped, Decode, ValidSchema,
          Int32Word, Int64Word, Narrow;
      FqdnListReplySchemaValid();
      FqdnListReplySchemaFields();
      var k := if tag == 0x08 then 0 else 2;
      Wire.ReadsNumber(FQDN_LIST_REPLY_SCHEMA, old(View()), k, tag, w);
      Became(k, Num(Narrow(FQDN_LIST_REPLY_SCHEMA.fields[k].kind, w)));
      Wire.Uint32Low(w);
      Wire.Int32Low(status, w);
    }

    /** What `Unmarshal` makes of one body of `appFqdns`: it is read onto a new element. */
    twostate lemma AppFqdnsFromWire(new body: bytes, new x: Msg, new err: Error)
      requires |body| < 0x8000_0000_0000_0000
      requires Decode(APP_FQDN_SCHEMA, Empty(APP_FQDN_SCHEMA), body) == Ok(x)
      requires old(Valid()) && Valid()
      requires Unmarshaled(FQDN_LIST_REPLY_SCHEMA, old(View()), View(), Wire.Chunk([0x1A], body), err)
      ensures err.Nil? && unrecognized == old(unrecognized)
      ensures ver == old(ver)
      ensures AppFqdn.Views(Elems(appFqdns)) == old(AppFqdn.Views(Elems(appFqdns))) + [x]
      ensures status == old(status)
      ensures TagMap.Of(tags) == old(TagMap.Of(tags))
    {
      hide View, Valid, AppFqdn.View, AppFqdn.Views, AppFqdn.Image, Vals, WellTyped, Decode, ValidSchema,
          Int32Word, Int64Word, Narrow;
      FqdnListReplySchemaValid();
      FqdnListReplySchemaFields();
      WasAppFqdns();
      Wire.ReadsElement(FQDN_LIST_REPLY_SCHEMA, old(View()), 1, 0x1A, APP_FQDN_SCHEMA, body, x);
      Became(1, Subs(old(AppFqdn.Views(Elems(appFqdns))) + [x]));
    }

    /** What `Unmarshal` makes of one entry of `tags`. */
    twostate lemma TagsFromWire(new key: bytes, new value: bytes, new err: Error)
      requires |Wire.Chunk([0x0A], key) + Wire.Chunk([0x12], value)| < 0x8000_0000_0000_0000
      requires old(Valid()) && Valid()
      requires Unmarshaled(FQDN_LIST_REPLY_SCHEMA, old(View()), View(), Wire.Chunk([0xA2, 0x06],
                   Wire.Chunk([0x0A], key) + Wire.Chunk([0x12], value)), err)
      ensures err.Nil? && unrecognized == old(unrecognized)
      ensures ver == old(ver)
      ensures AppFqdn.Views(Elems(appFqdns)) == old(AppFqdn.Views(Elems(appFqdns)))
      ensures status == old(status)
      ensures TagMap.Of(tags) == old(TagMap.Of(tags))[key := value]
    {
      hide View, Valid, AppFqdn.View, AppFqdn.Views, AppFqdn.Image, Vals, WellTyped, Decode, ValidSchema,
          Int32Word, Int64Word, Narrow;
      FqdnListReplySchemaValid();
      FqdnListReplySchemaFields();
      WasTags();
      Wire.ReadsPair(FQDN_LIST_REPLY_SCHEMA, old(View()), 3, key, value);
      Became(3, StrMap(old(TagMap.Of(tags))[key := value]));
    }

    twostate lemma WasAppFqdns()
      requires old(Valid())
      ensures |old(View()).vals| == 4 && old(View()).vals[1] == Subs(old(AppFqdn.Views(Elems(appFqdns))))
    {
      hide AppFqdn.View, AppFqdn.Views, AppFqdn.Image, Valid, WellTyped;
    }

    twostate lemma WasTags()
      requires old(Valid())
      ensures |old(View()).vals| == 4 && old(View()).vals[3] == StrMap(old(TagMap.Of(tags)))
    {
      hide AppFqdn.View, AppFqdn.Views, AppFqdn.Image, Valid, WellTyped;
    }

    //
    // Copying
    //

    static ghost function Items(ver: uint32, appFqdns: Forest, status: int32, tags: Option<map<bytes,
        bytes>>): (items: seq<Item>)
      ensures |items| == 4
      ensures items[0] == Word(ver)
      ensures items[1] == Many(appFqdns)
      ensures items[2] == Word(status)
      ensures items[3] == Tags(tags)
    {
      [Word(ver), Many(appFqdns), Word(status), Tags(tags)]
    }

    /** The message as copying sees it. */
    ghost function Fields(): (t: Tree)
      requires Valid()
      reads this, Repr
      ensures |t.items| == 4
    {
      Tree(Items(ver, AppFqdn.ForestOf(appFqdns), status, TagMap.Contents(tags)), unrecognized)
    }

    /** The objects that the fields lead to. */
    ghost function Footprint(): set<object>
      reads `appFqdns, `tags
    {
      {this} + (if tags == null then {} else {tags}) + (set x: AppFqdn | x in Elems(appFqdns))
    }

    lemma FieldItems()
      requires Valid()
      ensures Fields().unknown == unrecognized && |Fields().items| == 4
      ensures Fields().items[0] == Word(ver)
      ensures Fields().items[1] == Many(AppFqdn.ForestOf(appFqdns))
      ensures Fields().items[2] == Word(status)
      ensures Fields().items[3] == Tags(TagMap.Contents(tags))
      ensures Footprint() <= Repr && this in Repr
    {
      hide AppFqdn.View, AppFqdn.Fields, AppFqdn.Views, AppFqdn.Trees, Items;
    }

    /** A message none of whose objects has changed. */
    twostate lemma Same()
      requires old(Valid()) && unchanged(old(Repr))
      ensures Valid() && Repr == old(Repr) && Fields() == old(Fields())
    {
      hide Fields, Valid;
    }

    /** What assigning to the other fields leaves as it was. */
    twostate lemma FieldsKept()
      requires old(Valid()) && Repr == old(Repr)
      requires tags == old(tags)
      requires appFqdns == old(appFqdns)
      requires forall x :: x in Elems(appFqdns) ==> x.Fields() == old(x.Fields())
      ensures Valid() && AppFqdn.Trees(Elems(appFqdns)) == old(AppFqdn.Trees(Elems(appFqdns)))
    {
      hide AppFqdn.Fields, AppFqdn.Trees;
      AppFqdn.TreesKept(Elems(appFqdns));
    }

    lemma FieldsOnWire()
      requires Valid()
      ensures ToMsg(Fields()) == View()
    {
      hide View, Fields, Valid, AppFqdn.View, AppFqdn.Fields, AppFqdn.Views, AppFqdn.Trees;
      ViewVals();
      FieldItems();
      AppFqdn.TreesOnWire(Elems(appFqdns));
      assert ToVal(Many(AppFqdn.ForestOf(appFqdns))).subs == AppFqdn.Views(Elems(appFqdns));
      assert ToMsg(Fields()).vals == View().vals;
    }

    /** The messages have the same declared fields, at every level. A float may be either zero where the
        other is. */
    ghost predicate Equals(o: FqdnListReply)
      requires Valid() && o.Valid()
      reads this, Repr, o, o.Repr
    {
      && ver == o.ver
      && (appFqdns == None <==> o.appFqdns == None)
      && AppFqdn.AllEqual(Elems(appFqdns), Elems(o.appFqdns))
      && status == o.status
      && TagMap.Contents(tags) == TagMap.Contents(o.tags)
    }

    /** The same to copying is the same field by field. */
    lemma SameIsEqual(o: FqdnListReply)
      requires Valid() && o.Valid()
      requires SameTree(Fields(), o.Fields())
      ensures Equals(o)
    {
      hide View, Fields, Valid, AppFqdn.View, AppFqdn.Fields, AppFqdn.Views, AppFqdn.Trees, AppFqdn.Equals,
          AppFqdn.AllEqual, TagMap.Contents, Items, Footprint;
      FieldItems();
      o.FieldItems();
      ghost var r, s := Fields().items, o.Fields().items;
      assert SameItem(r[0], s[0]);
      assert SameItem(r[1], s[1]);
      assert SameItem(r[2], s[2]);
      assert SameItem(r[3], s[3]);
      if appFqdns == None {
        assert Elems(appFqdns) == Elems(o.appFqdns) == [];
      }
      AppFqdn.AllSame(Elems(appFqdns), Elems(o.appFqdns));
    }

    lemma FieldsUnknown()
      requires Valid()
      ensures Fields().unknown == unrecognized
    {
      hide AppFqdn.View, AppFqdn.Fields, AppFqdn.Views, AppFqdn.Trees, Valid, Items;
    }

    /** A copy from src, whose fields are s, onto what had the fields m is under way: k fields are done,
        which counted as changed. */
    ghost predicate Underway(src: FqdnListReply, m: Tree, s: Tree, k: nat, changed: int)
      reads this, Repr, src, src.Repr
    {
      Valid() && src.Valid() && src.Fields() == s && CopiedUpTo(Fields(), m, s, k, changed)
    }

    /** What copying the field `ver` does to the message. */
    twostate lemma VerSet(new src: FqdnListReply, new m: Tree, new s: Tree, new before: int, new changed: int)
      requires old(Valid()) && Valid() && src.Valid() && src.Fields() == s
      requires CopiedUpTo(old(Fields()), m, s, 0, before)
      requires unrecognized == old(unrecognized)
      requires ver == src.ver
      requires appFqdns.None? <==> old(appFqdns.None?)
      requires AppFqdn.Trees(Elems(appFqdns)) == old(AppFqdn.Trees(Elems(appFqdns)))
      requires status == old(status)
      requires TagMap.Contents(tags) == old(TagMap.Contents(tags))
      requires changed == before +
                 (if old(ver) == src.ver then 0 else 1)
      ensures CopiedUpTo(Fields(), m, s, 1, changed)
    {
      hide AppFqdn.View, AppFqdn.Fields, AppFqdn.Views, AppFqdn.Trees, TagMap.Contents, Valid, Items,
          CopiedUpTo, CopyItem, Changes, FloatEq;
      PlainItem(old(Fields()).items[0], s.items[0]);
      CopySpan(old(Fields()), Fields(), m, s, 0, 1, before, changed);
    }

    /** What copying the field `status` does to the message. */
    twostate lemma StatusSet(new src: FqdnListReply, new m: Tree, new s: Tree, new before: int, new changed: int)
      requires old(Valid()) && Valid() && src.Valid() && src.Fields() == s
      requires CopiedUpTo(old(Fields()), m, s, 2, before)
      requires unrecognized == old(unrecognized)
      requires ver == old(ver)
      requires appFqdns.None? <==> old(appFqdns.None?)
      requires AppFqdn.Trees(Elems(appFqdns)) == old(AppFqdn.Trees(Elems(appFqdns)))
      requires status == src.status
      requires TagMap.Contents(tags) == old(TagMap.Contents(tags))
      requires changed == before +
                 (if old(status) == src.status then 0 else 1)
      ensures CopiedUpTo(Fields(), m, s, 3, changed)
    {
      hide AppFqdn.View, AppFqdn.Fields, AppFqdn.Views, AppFqdn.Trees, TagMap.Contents, Valid, Items,
          CopiedUpTo, CopyItem, Changes, FloatEq;
      PlainItem(old(Fields()).items[2], s.items[2]);
      CopySpan(old(Fields()), Fields(), m, s, 2, 3, before, changed);
    }

    /** The list `appFqdns`, replaced by clones of the source's. */
    method ReplaceAppFqdns(src: FqdnListReply, before: int) returns (changed: int)
      requires src != this
      modifies `appFqdns
      ensures appFqdns.None? <==> src.appFqdns.None?
      ensures forall y :: y in Elems(appFqdns) ==> fresh(y)
      ensures AppFqdn.Trees(Elems(appFqdns)) == Bares(old(AppFqdn.Trees(Elems(src.appFqdns))))
      ensures changed == if src.appFqdns == old(appFqdns) == None then before else before + 1
    {
      hide AppFqdn.View, AppFqdn.Fields;
      changed := before;
      if src.appFqdns != None {
        var ys := AppFqdn.CloneAll(src.appFqdns.value);
        appFqdns := Some(ys);
        changed := changed + 1;
      } else if appFqdns != None {
        appFqdns := None;
        changed := changed + 1;
      }
    }

    /** The list `appFqdns` of a deep copy. */
    method CloneAppFqdns(src: FqdnListReply)
      requires src != this
      modifies `appFqdns
      ensures appFqdns.None? <==> src.appFqdns.None?
      ensures forall y :: y in Elems(appFqdns) ==> fresh(y)
      ensures AppFqdn.Trees(Elems(appFqdns)) == Bares(old(AppFqdn.Trees(Elems(src.appFqdns))))
    {
      hide AppFqdn.View, AppFqdn.Fields;
      if src.appFqdns != None {
        var ys := AppFqdn.CloneAll(src.appFqdns.value);
        appFqdns := Some(ys);
      } else {
        appFqdns := None;
      }
    }

    /** The map `tags`, replaced by a copy of the source's. */
    method ReplaceTags(src: FqdnListReply, before: int) returns (changed: int)
      requires src != this
      modifies `tags
      ensures tags != null ==> fresh(tags)
      ensures TagMap.Contents(tags) == old(TagMap.Contents(src.tags))
      ensures changed == if src.tags == old(tags) == null then before else before + 1
    {
      changed := before;
      if src.tags != null {
        tags := TagMap.Copied(src.tags);
        changed := changed + 1;
      } else if tags != null {
        tags := null;
        changed := changed + 1;
      }
    }

    /** The map `tags` of a deep copy. */
    method CloneTags(src: FqdnListReply)
      requires src != this
      modifies `tags
      ensures tags != null ==> fresh(tags)
      ensures TagMap.Contents(tags) == old(TagMap.Contents(src.tags))
    {
      if src.tags != null {
        tags := TagMap.Copied(src.tags);
      } else {
        tags := null;
      }
    }

    /** Messages of the same type are alike. */
    lemma FieldsAlike(src: FqdnListReply)
      requires Valid() && src.Valid()
      ensures Alike(Fields(), src.Fields())
    {
      hide Fields, View, Valid, AppFqdn.View, AppFqdn.Fields, AppFqdn.Views, AppFqdn.Trees, Items, Footprint;
      FieldItems();
      src.FieldItems();
      assert AlikeItem(Fields().items[0], src.Fields().items[0]);
      assert AlikeItem(Fields().items[1], src.Fields().items[1]);
      assert AlikeItem(Fields().items[2], src.Fields().items[2]);
      assert AlikeItem(Fields().items[3], src.Fields().items[3]);
    }

    /** The field `ver`. */
    method CopyVer(src: FqdnListReply, before: int, ghost m: Tree, ghost s: Tree) returns (changed: int)
      requires Underway(src, m, s, 0, before) && Repr !! src.Repr
      modifies `ver
      ensures Underway(src, m, s, 1, changed)
      ensures Repr == old(Repr) && src.Repr == old(src.Repr)
    {
      hide Footprint, View, Fields, AppFqdn.View, AppFqdn.Fields, AppFqdn.Views, AppFqdn.Trees, Valid, Items,
          CopiedUpTo, CopyTree, TreeChanges, CopyItem, Changes, FloatEq;
      changed := before;
      if ver != src.ver {
        ver := src.ver;
        changed := changed + 1;
      }
      FieldsKept();
      VerSet(src, m, s, before, changed);
    }

    /** What a copy of `appFqdns` does to the objects of the message. */
    twostate lemma AppFqdnsTaken()
      requires old(Valid()) && Repr == Footprint()
      requires forall y :: y in Elems(appFqdns) ==> fresh(y)
      requires tags == old(tags)
      ensures Valid() && fresh(Repr - old(Repr))
    {
    }

    lemma AppFqdnsItem()
      requires Valid()
      ensures |Fields().items| == 4 && Fields().items[1] == Many(AppFqdn.ForestOf(appFqdns))
      ensures this in Repr
    {
      hide AppFqdn.View, AppFqdn.Fields, AppFqdn.Views, AppFqdn.Trees, TagMap.Contents, Items;
    }

    /** What a copy of `appFqdns` leaves as it was. */
    twostate lemma AppFqdnsAside()
      requires old(Valid()) && Valid() && unrecognized == old(unrecognized)
      requires ver == old(ver)
      requires status == old(status)
      requires TagMap.Contents(tags) == old(TagMap.Contents(tags))
      ensures ItemsKept(Fields(), old(Fields()), 1, 2)
    {
      hide AppFqdn.View, AppFqdn.Fields, AppFqdn.Views, AppFqdn.Trees, TagMap.Contents, Valid, Items;
    }

    /** The list `appFqdns`, and what its copy leaves as it was. */
    method GraftAppFqdns(src: FqdnListReply, before: int) returns (changed: int)
      requires Valid() && src.Valid() && Repr !! src.Repr
      modifies `appFqdns, `Repr
      ensures Valid() && fresh(Repr - old(Repr)) && src.Valid() && src.Repr == old(src.Repr)
      ensures src.Fields() == old(src.Fields())
      ensures appFqdns.None? <==> src.appFqdns.None?
      ensures AppFqdn.Trees(Elems(appFqdns)) == Bares(old(AppFqdn.Trees(Elems(src.appFqdns))))
      ensures TagMap.Contents(tags) == old(TagMap.Contents(tags))
      ensures changed == if src.appFqdns == old(appFqdns) == None then before else before + 1
    {
      hide View, Fields, AppFqdn.View, AppFqdn.Fields, AppFqdn.Views, AppFqdn.Trees, Valid, Footprint, Bares;
      AppFqdnsItem();
      src.AppFqdnsItem();
      changed := ReplaceAppFqdns(src, before);
      src.Same();
      Repr := Footprint();
      AppFqdnsTaken();
    }

    /** The list `appFqdns`, as a change to the whole message. */
    method PlaceAppFqdns(src: FqdnListReply, before: int) returns (changed: int)
      requires Valid() && src.Valid() && Repr !! src.Repr
      modifies `appFqdns, `Repr
      ensures Valid() && fresh(Repr - old(Repr)) && src.Valid() && src.Repr == old(src.Repr)
      ensures src.Fields() == old(src.Fields())
      ensures ManyPlaced(Fields(), old(Fields()), old(src.Fields()), 1, before, changed)
    {
      hide View, Fields, AppFqdn.View, AppFqdn.Fields, AppFqdn.Views, AppFqdn.Trees, TagMap.Contents, Valid,
          Items, ItemsKept, OneTaken, CopyTree, TreeChanges, Onto, Bares, BareItem, Footprint;
      AppFqdnsItem();
      src.AppFqdnsItem();
      changed := GraftAppFqdns(src, before);
      AppFqdnsItem();
      AppFqdnsAside();
      if src.appFqdns != None {
        BareMany(old(AppFqdn.Trees(Elems(src.appFqdns))));
      } else {
        BareNil();
      }
    }

    /** The list `appFqdns`. */
    method CopyAppFqdns(src: FqdnListReply, before: int, ghost m: Tree, ghost s: Tree) returns (changed: int)
      requires Underway(src, m, s, 1, before) && Repr !! src.Repr
      modifies `appFqdns, `Repr
      ensures Underway(src, m, s, 2, changed)
      ensures fresh(Repr - old(Repr)) && src.Repr == old(src.Repr)
    {
      hide Footprint, View, Fields, AppFqdn.View, AppFqdn.Fields, AppFqdn.Views, AppFqdn.Trees, Valid, Items,
          CopiedUpTo, CopyTree, TreeChanges, CopyItem, Changes, FloatEq;
      ghost var r := Fields();
      changed := before;
      changed := PlaceAppFqdns(src, changed);
      CopyMany(r, Fields(), m, s, 1, before, changed);
    }

    /** The field `status`. */
    method CopyStatus(src: FqdnListReply, before: int, ghost m: Tree, ghost s: Tree) returns (changed: int)
      requires Underway(src, m, s, 2, before) && Repr !! src.Repr
      modifies `status
      ensures Underway(src, m, s, 3, changed)
      ensures Repr == old(Repr) && src.Repr == old(src.Repr)
    {
      hide Footprint, View, Fields, AppFqdn.View, AppFqdn.Fields, AppFqdn.Views, AppFqdn.Trees, Valid, Items,
          CopiedUpTo, CopyTree, TreeChanges, CopyItem, Changes, FloatEq;
      changed := before;
      if status != src.status {
        status := src.status;
        changed := changed + 1;
      }
      FieldsKept();
      StatusSet(src, m, s, before, changed);
    }

    /** What a copy of `tags` does to the objects of the message. */
    twostate lemma TagsTaken()
      requires old(Valid()) && Repr == Footprint()
      requires appFqdns == old(appFqdns)
      requires tags != null ==> fresh(tags)
      ensures Valid() && fresh(Repr - old(Repr))
    {
    }

    lemma TagsItem()
      requires Valid()
      ensures |Fields().items| == 4 && Fields().items[3] == Tags(TagMap.Contents(tags))
      ensures this in Repr
    {
      hide AppFqdn.View, AppFqdn.Fields, AppFqdn.Views, AppFqdn.Trees, TagMap.Contents, Items;
    }

    /** What a copy of `tags` leaves as it was. */
    twostate lemma TagsAside()
      requires old(Valid()) && Valid() && unrecognized == old(unrecognized)
      requires ver == old(ver)
      requires appFqdns.None? <==> old(appFqdns.None?)
      requires AppFqdn.Trees(Elems(appFqdns)) == old(AppFqdn.Trees(Elems(appFqdns)))
      requires status == old(status)
      ensures ItemsKept(Fields(), old(Fields()), 3, 4)
    {
      hide AppFqdn.View, AppFqdn.Fields, AppFqdn.Views, AppFqdn.Trees, TagMap.Contents, Valid, Items;
    }

    /** The map `tags`, and what its copy leaves as it was. */
    method GraftTags(src: FqdnListReply, before: int) returns (changed: int)
      requires Valid() && src.Valid() && Repr !! src.Repr
      modifies `tags, `Repr
      ensures Valid() && fresh(Repr - old(Repr)) && src.Valid() && src.Repr == old(src.Repr)
      ensures src.Fields() == old(src.Fields())
      ensures tags != null ==> fresh(tags)
      ensures TagMap.Contents(tags) == old(TagMap.Contents(src.tags))
      ensures AppFqdn.Trees(Elems(appFqdns)) == old(AppFqdn.Trees(Elems(appFqdns)))
      ensures var x, r := old(TagMap.Contents(src.tags)), old(TagMap.Contents(tags));
              changed == if x == r == None then before else before + 1
    {
      hide View, Fields, AppFqdn.View, AppFqdn.Fields, AppFqdn.Views, AppFqdn.Trees, Valid, Footprint;
      TagsItem();
      src.TagsItem();
      changed := ReplaceTags(src, before);
      src.Same();
      Repr := Footprint();
      TagsTaken();
    }

    /** The map `tags`, as a change to the whole message. */
    method PlaceTags(src: FqdnListReply, before: int) returns (changed: int)
      requires Valid() && src.Valid() && Repr !! src.Repr
      modifies `tags, `Repr
      ensures Valid() && fresh(Repr - old(Repr)) && src.Valid() && src.Repr == old(src.Repr)
      ensures src.Fields() == old(src.Fields())
      ensures tags != null ==> fresh(tags)
      ensures TagsPlaced(Fields(), old(Fields()), old(src.Fields()), 3, before, changed)
    {
      hide View, Fields, AppFqdn.View, AppFqdn.Fields, AppFqdn.Views, AppFqdn.Trees, TagMap.Contents, Valid,
          Items, ItemsKept, OneTaken, CopyTree, TreeChanges, Onto, Bares, BareItem, Footprint;
      TagsItem();
      src.TagsItem();
      changed := GraftTags(src, before);
      TagsItem();
      TagsAside();
    }

    /** The map `tags`. */
    method CopyTags(src: FqdnListReply, before: int, ghost m: Tree, ghost s: Tree) returns (changed: int)
      requires Underway(src, m, s, 3, before) && Repr !! src.Repr
      modifies `tags, `Repr
      ensures Underway(src, m, s, 4, changed)
      ensures fresh(Repr - old(Repr)) && src.Repr == old(src.Repr)
      ensures tags != null ==> fresh(tags)
    {
      hide Footprint, View, Fields, AppFqdn.View, AppFqdn.Fields, AppFqdn.Views, AppFqdn.Trees, Valid, Items,
          CopiedUpTo, CopyTree, TreeChanges, CopyItem, Changes, FloatEq;
      ghost var r := Fields();
      changed := before;
      changed := PlaceTags(src, changed);
      CopyMap(r, Fields(), m, s, 3, before, changed);
    }

    method CopyInFields(src: FqdnListReply) returns (changed: int)
      requires Valid() && src.Valid() && Repr !! src.Repr
      modifies this
      ensures Valid() && fresh(Repr - old(Repr)) && src.Valid() && src.Repr == old(src.Repr) && Repr !! src.Repr
      ensures tags != null ==> fresh(tags)
      ensures src.Fields() == old(src.Fields())
      ensures Fields() == CopyTree(old(Fields()), old(src.Fields()))
      ensures changed == TreeChanges(old(Fields()), old(src.Fields()))
      ensures SameTree(Fields(), src.Fields()) && (changed == 0 ==> Untouched(old(Fields()), Fields()))
      ensures Equals(src) && unrecognized == old(unrecognized)
    {
      hide Footprint, View, Fields, AppFqdn.View, AppFqdn.Fields, AppFqdn.Views, AppFqdn.Trees, Valid, Items,
          CopiedUpTo, CopyTree, TreeChanges, CopyItem, Changes, FloatEq, SameTree, Untouched, Alike, Equals;
      ghost var m, s := Fields(), src.Fields();
      FieldItems();
      src.FieldItems();
      FieldsAlike(src);
      FieldsUnknown();
      changed := 0;
      CopyStart(m, s);
      changed := CopyVer(src, changed, m, s);
      changed := CopyAppFqdns(src, changed, m, s);
      changed := CopyStatus(src, changed, m, s);
      changed := CopyTags(src, changed, m, s);
      CopyDone(Fields(), m, s, changed);
      CopyAgrees(m, s);
      SameIsEqual(src);
      FieldsUnknown();
      if changed == 0 {
        NoChanges(m, s);
      }
    }

    /** The assignments of a deep copy. */
    method AssignFields(src: FqdnListReply)
      requires src.Valid() && this !in src.Repr
      modifies `ver, `appFqdns, `status, `tags
      ensures ver == src.ver
      ensures appFqdns.None? <==> src.appFqdns.None?
      ensures forall y :: y in Elems(appFqdns) ==> fresh(y)
      ensures AppFqdn.Trees(Elems(appFqdns)) == Bares(old(AppFqdn.Trees(Elems(src.appFqdns))))
      ensures status == src.status
      ensures tags != null ==> fresh(tags)
      ensures TagMap.Contents(tags) == old(TagMap.Contents(src.tags))
    {
      hide View, Fields, AppFqdn.View, AppFqdn.Fields, AppFqdn.Views, AppFqdn.Trees, TagMap.Contents, Valid, Bares;
      ver := src.ver;
      CloneAppFqdns(src);
      status := src.status;
      CloneTags(src);
    }

    /** What a deep copy makes the message consist of. */
    twostate lemma AllAssigned()
      requires Repr == Footprint()
      requires forall y :: y in Elems(appFqdns) ==> fresh(y)
      requires tags != null ==> fresh(tags)
      ensures Valid() && fresh(Repr - {this})
    {
    }

    /** The assignments of a deep copy, and what the message consists of after them. */
    method AssignAll(src: FqdnListReply)
      requires Valid() && src.Valid() && this !in src.Repr
      modifies this
      ensures Valid() && fresh(Repr - {this})
      ensures ver == src.ver
      ensures appFqdns.None? <==> src.appFqdns.None?
      ensures AppFqdn.Trees(Elems(appFqdns)) == Bares(old(AppFqdn.Trees(Elems(src.appFqdns))))
      ensures status == src.status
      ensures TagMap.Contents(tags) == old(TagMap.Contents(src.tags))
      ensures unrecognized == old(unrecognized)
    {
      hide View, Fields, AppFqdn.View, AppFqdn.Fields, AppFqdn.Views, AppFqdn.Trees, Valid, Footprint, Items,
          Bare, Bares, TagMap.Contents;
      AssignFields(src);
      Repr := Footprint();
      AllAssigned();
    }

    /** The fields of a deep copy. */
    lemma DeepCopied(src: FqdnListReply)
      requires Valid() && src.Valid()
      requires ver == src.ver
      requires appFqdns.None? <==> src.appFqdns.None?
      requires AppFqdn.Trees(Elems(appFqdns)) == Bares(AppFqdn.Trees(Elems(src.appFqdns)))
      requires status == src.status
      requires TagMap.Contents(tags) == TagMap.Contents(src.tags)
      ensures Fields() == Bare(src.Fields()).(unknown := unrecognized)
    {
      hide AppFqdn.View, AppFqdn.Fields, AppFqdn.Views, AppFqdn.Trees, Valid, Items, Bare, Bares, TagMap.Contents;
      BareFields(Fields(), src.Fields());
    }

    method DeepCopyIn(src: FqdnListReply)
      requires Valid() && src.Valid() && this !in src.Repr
      modifies this
      ensures Valid() && fresh(Repr - {this})
      ensures Fields() == Bare(old(src.Fields())).(unknown := old(unrecognized))
      ensures src.Valid() && Equals(src) && unrecognized == old(unrecognized)
    {
      hide View, Fields, AppFqdn.View, AppFqdn.Fields, AppFqdn.Views, AppFqdn.Trees, Valid, Footprint, Items,
          Bare, Bares, SameTree, Equals;
      src.FieldItems();
      AssignAll(src);
      src.Same();
      FieldItems();
      src.FieldItems();
      DeepCopied(src);
      BareSame(Fields(), src.Fields(), unrecognized);
      SameIsEqual(src);
    }

    method Clone() returns (cp: FqdnListReply)
      requires Valid()
      ensures cp.Valid() && fresh(cp.Repr)
      ensures cp.Fields() == Bare(old(Fields())) && SameTree(cp.Fields(), old(Fields()))
      ensures Valid() && cp.Equals(this) && cp.unrecognized == []
      ensures cp.View() == Cleared(old(View()))
    {
      hide View, Fields, Valid, SameTree, Equals;
      BareAgrees(Fields());
      FieldsOnWire();
      BareOnWire(Fields());
      cp := new FqdnListReply();
      cp.DeepCopyIn(this);
      cp.FieldsOnWire();
    }
    //
    // Marshal and its callers
    //

    method Marshal() returns (dAtA: array<byte>, n: nat)
      requires Valid() && Encoding.Size(FQDN_LIST_REPLY_SCHEMA, View()) < TWO63
      ensures Valid() && View() == old(View())
      ensures fresh(dAtA) && n == dAtA.Length == Encoding.Size(FQDN_LIST_REPLY_SCHEMA, View())
      ensures Encoding.Encodes(FQDN_LIST_REPLY_SCHEMA, View(), dAtA[..n]) && IsImage(dAtA[..n])
    {
      hide View, Valid, IsImage, Vals, WellTyped, Encoding.Size, Encoding.Encodes, Marshaled;
      var size := Size();
      dAtA := new byte[size](_ => 0);
      ghost var before := dAtA[..];
      n := MarshalToSizedBuffer(dAtA, size);
      MarshaledLength(FQDN_LIST_REPLY_SCHEMA, View(), before, dAtA[..], size, n);
      FilledExactly(FQDN_LIST_REPLY_SCHEMA, View(), before, dAtA[..], size, n);
      Imaged(dAtA[..n]);
    }

    /** b is the whole capacity of the slice that the caller passes; the result is b[..n]. */
    method XXXMarshal(b: array<byte>) returns (n: nat)
      requires Valid() && Encoding.Size(FQDN_LIST_REPLY_SCHEMA, View()) <= b.Length < TWO63
      modifies b
      ensures Valid() && View() == old(View()) && n <= b.Length
      ensures b.Length == Encoding.Size(FQDN_LIST_REPLY_SCHEMA, View()) ==>
                Encoding.Encodes(FQDN_LIST_REPLY_SCHEMA, View(), b[..n])
      ensures Clean(FQDN_LIST_REPLY_SCHEMA, View()) && (forall i :: 0 <= i < b.Length ==> old(b[i]) == 0) ==>
                (Encoding.Encodes(FQDN_LIST_REPLY_SCHEMA, View(), b[..n]) <==> b.Length == n || n == 0)
    {
      hide View, Valid, IsImage, Vals, WellTyped, Encoding.Size, Encoding.Encodes, Marshaled, Clean;
      ghost var before := b[..];
      n := MarshalToSizedBuffer(b, b.Length);
      MarshaledLength(FQDN_LIST_REPLY_SCHEMA, View(), before, b[..], b.Length, n);
      FilledExactly(FQDN_LIST_REPLY_SCHEMA, View(), before, b[..], b.Length, n);
      FqdnListReplySchemaValid();
      if Clean(FQDN_LIST_REPLY_SCHEMA, View()) && forall i :: 0 <= i < b.Length ==> before[i] == 0 {
        ExactCapacity(FQDN_LIST_REPLY_SCHEMA, View(), before, b[..], n);
      }
    }

    /** What was empty arrives as nil. */
    lemma NilIfEmpty(m: Msg)
      requires Valid() && Tight() && WellTyped(FQDN_LIST_REPLY_SCHEMA, m)
          && View() == Merging.Canonical(FQDN_LIST_REPLY_SCHEMA, m)
      ensures m.vals[1].Subs? && (appFqdns == None <==> m.vals[1].subs == [])
      ensures m.vals[3].StrMap? && (tags == null <==> m.vals[3].entries == map[])
    {
      hide View, Valid, Vals, WellTyped, Merging.Canonical, AppFqdn.View, AppFqdn.Views;
      EmptyStaysEmpty(FQDN_LIST_REPLY_SCHEMA, m, 1);
      EmptyStaysEmpty(FQDN_LIST_REPLY_SCHEMA, m, 3);
      ViewVals();
    }

    /** Sending a reply and receiving it into a new message: what was empty arrives as nil. */
    method Transfer() returns (err: Error, received: FqdnListReply)
      requires Valid() && Encoding.Size(FQDN_LIST_REPLY_SCHEMA, View()) < MAX_SLICE
          && Clean(FQDN_LIST_REPLY_SCHEMA, View())
      ensures err.Nil? && fresh(received) && received.Valid() && fresh(received.Repr)
      ensures received.View() == Merging.Canonical(FQDN_LIST_REPLY_SCHEMA, old(View()))
      ensures received.Tight()
      ensures received.appFqdns == None <==> old(Elems(appFqdns)) == []
      ensures received.tags == null <==> old(TagMap.Of(tags)) == map[]
    {
      hide View, Valid, IsImage, Vals, WellTyped, Encoding.Size, Encoding.Encodes, Unmarshaled, Clean,
          Merging.Canonical, AppFqdn.View, AppFqdn.Views;
      ViewVals();
      ghost var m := View();
      var dAtA, n := Marshal();
      received := new FqdnListReply();
      FqdnListReplySchemaValid();
      err := received.Unmarshal(dAtA[..n]);
      Received(FQDN_LIST_REPLY_SCHEMA, m, received.View(), dAtA[..n], err);
      received.NilIfEmpty(m);
    }
  }
}
