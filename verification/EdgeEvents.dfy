/** The deepest inlined copy of app-client.pb.go: the field NewCloudlet of ServerEdgeEvent, of which
    only that field is modelled, beside the `CopyInFields` of its message, FindCloudletReply. */
module EdgeEvents {
  import opened GoInts
  import opened Schemas
  import opened Copying
  import opened TagMaps
  import opened AppCommon
  import opened LocMessages

  class FindCloudletReply {
    var ver: uint32
    var status: int32
    var fqdn: bytes
    var ports: Option<seq<AppPort>>
    var cloudletLocation: Loc?
    var edgeEventsCookie: bytes
    var qosResult: int32
    var qosErrorMsg: bytes
    var tags: TagMap?
    var unrecognized: bytes
    ghost var Repr: set<object>

    constructor ()
      ensures Valid() && Repr == {this}
      ensures ver == 0 && status == 0 && fqdn == [] && ports == None && cloudletLocation == null
      ensures edgeEventsCookie == [] && qosResult == 0 && qosErrorMsg == [] && tags == null && unrecognized == []
    {
      ver := 0;
      status := 0;
      fqdn := [];
      ports := None;
      cloudletLocation := null;
      edgeEventsCookie := [];
      qosResult := 0;
      qosErrorMsg := [];
      tags := null;
      unrecognized := [];
      Repr := {this};
    }

    /** The objects that the message may consist of. */
    static ghost predicate Part(o: object) {
      o is FindCloudletReply || o is Loc || o is Timestamp || o is AppPort || o is TagMap
    }

    ghost predicate Valid()
      reads this, Repr
      ensures Valid() ==> this in Repr && forall o :: o in Repr ==> Part(o)
    {
      && this in Repr
      && (cloudletLocation != null ==> cloudletLocation in Repr)
      && (cloudletLocation != null && cloudletLocation.timestamp != null ==> cloudletLocation.timestamp in Repr)
      && (tags != null ==> tags in Repr)
      && (forall x: AppPort :: x in Elems(ports) ==> x in Repr)
      && (forall o :: o in Repr ==> Part(o))
    }

    //
    // Copying
    //

    static ghost function Items(ver: uint32, status: int32, fqdn: bytes, ports: Forest,
        cloudletLocation: Option<Tree>, edgeEventsCookie: bytes, qosResult: int32, qosErrorMsg: bytes,
        tags: Option<map<bytes, bytes>>): (items: seq<Item>)
      ensures |items| == 9
      ensures items[0] == Word(ver)
      ensures items[1] == Word(status)
      ensures items[2] == Text(fqdn)
      ensures items[3] == Many(ports)
      ensures items[4] == One(cloudletLocation)
      ensures items[5] == Text(edgeEventsCookie)
      ensures items[6] == Word(qosResult)
      ensures items[7] == Text(qosErrorMsg)
      ensures items[8] == Tags(tags)
    {
      [Word(ver), Word(status), Text(fqdn), Many(ports), One(cloudletLocation), Text(edgeEventsCookie),
       Word(qosResult), Text(qosErrorMsg), Tags(tags)]
    }

    /** The message as copying sees it. */
    ghost function Fields(): (t: Tree)
      requires Valid()
      reads this, Repr
      ensures |t.items| == 9
    {
      Tree(Items(ver, status, fqdn, AppPort.ForestOf(ports), Loc.FieldsOf(cloudletLocation), edgeEventsCookie,
          qosResult, qosErrorMsg, TagMap.Contents(tags)), unrecognized)
    }

    /** The objects and values behind a message that may be nil. */
    static ghost function LocationOf(x: FindCloudletReply?): Loc?
      reads x
    {
      if x == null then null else x.cloudletLocation
    }

    static ghost function StampOf(x: FindCloudletReply?): Timestamp?
      reads x, LocationOf(x)
    {
      Loc.StampOf(LocationOf(x))
    }

    static ghost function ReprOf(x: FindCloudletReply?): set<object>
      reads x
    {
      if x == null then {} else x.Repr
    }

    static ghost function FieldsOf(x: FindCloudletReply?): Option<Tree>
      requires x != null ==> x.Valid()
      reads x, if x == null then {} else x.Repr
    {
      if x != null then Some(x.Fields()) else None
    }

    /** The objects that the fields lead to. */
    ghost function Footprint(): set<object>
      reads `cloudletLocation, `ports, `tags, cloudletLocation
    {
      {this} +
      (if cloudletLocation == null then {} else {cloudletLocation}) +
      (if cloudletLocation == null || cloudletLocation.timestamp == null then {} else {cloudletLocation.timestamp}) +
      (if tags == null then {} else {tags}) +
      (set x: AppPort | x in Elems(ports))
    }

    lemma FieldItems()
      requires Valid()
      ensures Fields().unknown == unrecognized && |Fields().items| == 9
      ensures Fields().items[0] == Word(ver)
      ensures Fields().items[1] == Word(status)
      ensures Fields().items[2] == Text(fqdn)
      ensures Fields().items[3] == Many(AppPort.ForestOf(ports))
      ensures Fields().items[4] == One(Loc.FieldsOf(cloudletLocation))
      ensures Fields().items[5] == Text(edgeEventsCookie)
      ensures Fields().items[6] == Word(qosResult)
      ensures Fields().items[7] == Text(qosErrorMsg)
      ensures Fields().items[8] == Tags(TagMap.Contents(tags))
      ensures Footprint() <= Repr && this in Repr
      ensures cloudletLocation != null ==> cloudletLocation in Repr
      ensures cloudletLocation != null && cloudletLocation.timestamp != null ==> cloudletLocation.timestamp in Repr
    {
      hide AppPort.View, AppPort.Fields, AppPort.Views, AppPort.Trees, Loc.Fields, Loc.View, Items;
    }

    /** A message none of whose objects has changed. */
    twostate lemma Same()
      requires old(Valid()) && unchanged(old(Repr))
      ensures Valid() && Repr == old(Repr) && Fields() == old(Fields())
    {
      hide Fields, Valid;
    }

    /** A new message is the zero of its type. */
    lemma NewFields(src: FindCloudletReply)
      requires Valid() && src.Valid()
      requires ver == 0 && status == 0 && fqdn == [] && ports == None && cloudletLocation == null
      requires edgeEventsCookie == [] && qosResult == 0 && qosErrorMsg == [] && tags == null && unrecognized == []
      ensures Fields() == Zero(src.Fields())
    {
      hide Fields, Valid, Items, Footprint, AppPort.Fields, AppPort.Trees, Loc.Fields;
      FieldItems();
      src.FieldItems();
      assert Fields().items == Zero(src.Fields()).items;
    }

    /** What assigning to the other fields leaves as it was. */
    twostate lemma FieldsKept()
      requires old(Valid()) && Repr == old(Repr)
      requires cloudletLocation == old(cloudletLocation)
      requires cloudletLocation != null ==>
                 && cloudletLocation.timestamp == old(cloudletLocation.timestamp)
                 && cloudletLocation.Fields() == old(cloudletLocation.Fields())
      requires tags == old(tags)
      requires ports == old(ports)
      requires forall x :: x in Elems(ports) ==> x.Fields() == old(x.Fields())
      ensures Valid() && AppPort.Trees(Elems(ports)) == old(AppPort.Trees(Elems(ports)))
    {
      hide AppPort.Fields, AppPort.Trees;
      AppPort.TreesKept(Elems(ports));
    }

    /** The messages have the same declared fields, at every level. A float may be either zero where the
        other is. */
    ghost predicate Equals(o: FindCloudletReply)
      requires Valid() && o.Valid()
      reads this, Repr, o, o.Repr
    {
      && ver == o.ver
      && status == o.status
      && fqdn == o.fqdn
      && (ports == None <==> o.ports == None)
      && AppPort.AllEqual(Elems(ports), Elems(o.ports))
      && (cloudletLocation == null <==> o.cloudletLocation == null)
      && (cloudletLocation != null && o.cloudletLocation != null ==> cloudletLocation.Equals(o.cloudletLocation))
      && edgeEventsCookie == o.edgeEventsCookie
      && qosResult == o.qosResult
      && qosErrorMsg == o.qosErrorMsg
      && TagMap.Contents(tags) == TagMap.Contents(o.tags)
    }

    /** The same to copying is the same field by field. */
    lemma SameIsEqual(o: FindCloudletReply)
      requires Valid() && o.Valid()
      requires SameTree(Fields(), o.Fields())
      ensures Equals(o)
    {
      hide Fields, Valid, AppPort.View, AppPort.Fields, AppPort.Views, AppPort.Trees, Loc.Fields, Loc.View,
          Loc.Equals, AppPort.Equals, AppPort.AllEqual, TagMap.Contents, Items, Footprint;
      FieldItems();
      o.FieldItems();
      ghost var r, s := Fields().items, o.Fields().items;
      assert SameItem(r[0], s[0]);
      assert SameItem(r[1], s[1]);
      assert SameItem(r[2], s[2]);
      assert SameItem(r[3], s[3]);
      assert SameItem(r[4], s[4]);
      assert SameItem(r[5], s[5]);
      assert SameItem(r[6], s[6]);
      assert SameItem(r[7], s[7]);
      assert SameItem(r[8], s[8]);
      if cloudletLocation != null && o.cloudletLocation != null {
        cloudletLocation.SameIsEqual(o.cloudletLocation);
      }
      if ports == None {
        assert Elems(ports) == Elems(o.ports) == [];
      }
      AppPort.AllSame(Elems(ports), Elems(o.ports));
    }

    lemma FieldsUnknown()
      requires Valid()
      ensures Fields().unknown == unrecognized
    {
      hide AppPort.View, AppPort.Fields, AppPort.Views, AppPort.Trees, Loc.Fields, Loc.View, Valid, Items;
    }

    /** A copy from src, whose fields are s, onto what had the fields m is under way: k fields are done,
        which counted as changed. */
    ghost predicate Underway(src: FindCloudletReply, m: Tree, s: Tree, k: nat, changed: int)
      reads this, Repr, src, src.Repr
    {
      Valid() && src.Valid() && src.Fields() == s && CopiedUpTo(Fields(), m, s, k, changed)
    }

    /** What copying the fields from `ver` to `status` does to the message. */
    twostate lemma VerToStatusSet(new src: FindCloudletReply, new m: Tree, new s: Tree, new before: int,
        new changed: int)
      requires old(Valid()) && Valid() && src.Valid() && src.Fields() == s
      requires CopiedUpTo(old(Fields()), m, s, 0, before)
      requires unrecognized == old(unrecognized)
      requires ver == src.ver
      requires status == src.status
      requires fqdn == old(fqdn)
      requires ports.None? <==> old(ports.None?)
      requires AppPort.Trees(Elems(ports)) == old(AppPort.Trees(Elems(ports)))
      requires Loc.FieldsOf(cloudletLocation) == old(Loc.FieldsOf(cloudletLocation))
      requires edgeEventsCookie == old(edgeEventsCookie)
      requires qosResult == old(qosResult)
      requires qosErrorMsg == old(qosErrorMsg)
      requires TagMap.Contents(tags) == old(TagMap.Contents(tags))
      requires changed == before +
                 (if old(ver) == src.ver then 0 else 1) +
                 (if old(status) == src.status then 0 else 1)
      ensures CopiedUpTo(Fields(), m, s, 2, changed)
    {
      hide AppPort.View, AppPort.Fields, AppPort.Views, AppPort.Trees, Loc.Fields, Loc.View, Loc.FieldsOf,
          TagMap.Contents, Valid, Items, CopiedUpTo, CopyItem, Changes, FloatEq;
      PlainItem(old(Fields()).items[0], s.items[0]);
      PlainItem(old(Fields()).items[1], s.items[1]);
      CopySpan(old(Fields()), Fields(), m, s, 0, 2, before, changed);
    }

    /** What copying the field `fqdn` does to the message. */
    twostate lemma FqdnSet(new src: FindCloudletReply, new m: Tree, new s: Tree, new before: int, new changed: int)
      requires old(Valid()) && Valid() && src.Valid() && src.Fields() == s
      requires CopiedUpTo(old(Fields()), m, s, 2, before)
      requires unrecognized == old(unrecognized)
      requires ver == old(ver)
      requires status == old(status)
      requires fqdn == src.fqdn
      requires ports.None? <==> old(ports.None?)
      requires AppPort.Trees(Elems(ports)) == old(AppPort.Trees(Elems(ports)))
      requires Loc.FieldsOf(cloudletLocation) == old(Loc.FieldsOf(cloudletLocation))
      requires edgeEventsCookie == old(edgeEventsCookie)
      requires qosResult == old(qosResult)
      requires qosErrorMsg == old(qosErrorMsg)
      requires TagMap.Contents(tags) == old(TagMap.Contents(tags))
      requires changed == before +
                 (if old(fqdn) == src.fqdn then 0 else 1)
      ensures CopiedUpTo(Fields(), m, s, 3, changed)
    {
      hide AppPort.View, AppPort.Fields, AppPort.Views, AppPort.Trees, Loc.Fields, Loc.View, Loc.FieldsOf,
          TagMap.Contents, Valid, Items, CopiedUpTo, CopyItem, Changes, FloatEq;
      PlainItem(old(Fields()).items[2], s.items[2]);
      CopySpan(old(Fields()), Fields(), m, s, 2, 3, before, changed);
    }

    /** What copying the fields from `edgeEventsCookie` to `qosResult` does to the message. */
    twostate lemma EdgeEventsCookieToQosResultSet(new src: FindCloudletReply, new m: Tree, new s: Tree,
        new before: int, new changed: int)
      requires old(Valid()) && Valid() && src.Valid() && src.Fields() == s
      requires CopiedUpTo(old(Fields()), m, s, 5, before)
      requires unrecognized == old(unrecognized)
      requires ver == old(ver)
      requires status == old(status)
      requires fqdn == old(fqdn)
      requires ports.None? <==> old(ports.None?)
      requires AppPort.Trees(Elems(ports)) == old(AppPort.Trees(Elems(ports)))
      requires Loc.FieldsOf(cloudletLocation) == old(Loc.FieldsOf(cloudletLocation))
      requires edgeEventsCookie == src.edgeEventsCookie
      requires qosResult == src.qosResult
      requires qosErrorMsg == old(qosErrorMsg)
      requires TagMap.Contents(tags) == old(TagMap.Contents(tags))
      requires changed == before +
                 (if old(edgeEventsCookie) == src.edgeEventsCookie then 0 else 1) +
                 (if old(qosResult) == src.qosResult then 0 else 1)
      ensures CopiedUpTo(Fields(), m, s, 7, changed)
    {
      hide AppPort.View, AppPort.Fields, AppPort.Views, AppPort.Trees, Loc.Fields, Loc.View, Loc.FieldsOf,
          TagMap.Contents, Valid, Items, CopiedUpTo, CopyItem, Changes, FloatEq;
      PlainItem(old(Fields()).items[5], s.items[5]);
      PlainItem(old(Fields()).items[6], s.items[6]);
      CopySpan(old(Fields()), Fields(), m, s, 5, 7, before, changed);
    }

    /** What copying the field `qosErrorMsg` does to the message. */
    twostate lemma QosErrorMsgSet(new src: FindCloudletReply, new m: Tree, new s: Tree, new before: int,
        new changed: int)
      requires old(Valid()) && Valid() && src.Valid() && src.Fields() == s
      requires CopiedUpTo(old(Fields()), m, s, 7, before)
      requires unrecognized == old(unrecognized)
      requires ver == old(ver)
      requires status == old(status)
      requires fqdn == old(fqdn)
      requires ports.None? <==> old(ports.None?)
      requires AppPort.Trees(Elems(ports)) == old(AppPort.Trees(Elems(ports)))
      requires Loc.FieldsOf(cloudletLocation) == old(Loc.FieldsOf(cloudletLocation))
      requires edgeEventsCookie == old(edgeEventsCookie)
      requires qosResult == old(qosResult)
      requires qosErrorMsg == src.qosErrorMsg
      requires TagMap.Contents(tags) == old(TagMap.Contents(tags))
      requires changed == before +
                 (if old(qosErrorMsg) == src.qosErrorMsg then 0 else 1)
      ensures CopiedUpTo(Fields(), m, s, 8, changed)
    {
      hide AppPort.View, AppPort.Fields, AppPort.Views, AppPort.Trees, Loc.Fields, Loc.View, Loc.FieldsOf,
          TagMap.Contents, Valid, Items, CopiedUpTo, CopyItem, Changes, FloatEq;
      PlainItem(old(Fields()).items[7], s.items[7]);
      CopySpan(old(Fields()), Fields(), m, s, 7, 8, before, changed);
    }

    /** Inside `cloudletLocation.timestamp`: its fields. */
    method CopyCloudletLocationTimestampFields(src: FindCloudletReply) returns (changed: int)
      requires cloudletLocation != null && src.cloudletLocation != null
          && cloudletLocation.timestamp != null && src.cloudletLocation.timestamp != null
          && cloudletLocation.timestamp != src.cloudletLocation.timestamp
      modifies cloudletLocation.timestamp
      ensures cloudletLocation.timestamp.Fields() ==
              CopyTree(old(cloudletLocation.timestamp.Fields()), src.cloudletLocation.timestamp.Fields())
      ensures changed == TreeChanges(old(cloudletLocation.timestamp.Fields()),
          src.cloudletLocation.timestamp.Fields())
    {
      hide Timestamp.Items, CopiedUpTo, CopyTree, TreeChanges, CopyItem, Changes, FloatEq, Timestamp.Fields;
      ghost var m := cloudletLocation.timestamp.Fields();
      ghost var s := src.cloudletLocation.timestamp.Fields();
      changed := 0;
      if cloudletLocation.timestamp.seconds != src.cloudletLocation.timestamp.seconds {
        cloudletLocation.timestamp.seconds := src.cloudletLocation.timestamp.seconds;
        changed := changed + 1;
      }
      if cloudletLocation.timestamp.nanos != src.cloudletLocation.timestamp.nanos {
        cloudletLocation.timestamp.nanos := src.cloudletLocation.timestamp.nanos;
        changed := changed + 1;
      }
      CopyStart(m, s);
      cloudletLocation.timestamp.SecondsToNanosSet(src.cloudletLocation.timestamp, m, s, 0, changed);
      CopyDone(cloudletLocation.timestamp.Fields(), m, s, changed);
    }

    /** Inside `cloudletLocation`: the fields from `latitude` to `verticalAccuracy`. */
    method CopyCloudletLocationLatitudeToVerticalAccuracy(src: FindCloudletReply, before: int, ghost m: Tree,
        ghost s: Tree) returns (changed: int)
      requires cloudletLocation != null && src != this && src.cloudletLocation != null
          && src.cloudletLocation != cloudletLocation
      requires cloudletLocation.timestamp != null ==> cloudletLocation.timestamp != src.cloudletLocation.timestamp
      requires src.cloudletLocation.Fields() == s && CopiedUpTo(cloudletLocation.Fields(), m, s, 0, before)
      modifies cloudletLocation`latitude, cloudletLocation`longitude, cloudletLocation`horizontalAccuracy,
          cloudletLocation`verticalAccuracy
      ensures src.cloudletLocation.Fields() == s && CopiedUpTo(cloudletLocation.Fields(), m, s, 4, changed)
    {
      hide Loc.Items, CopiedUpTo, CopyTree, TreeChanges, CopyItem, Changes, FloatEq, Loc.Fields;
      changed := before;
      if !FloatEq(cloudletLocation.latitude, src.cloudletLocation.latitude) {
        cloudletLocation.latitude := src.cloudletLocation.latitude;
        changed := changed + 1;
      }
      if !FloatEq(cloudletLocation.longitude, src.cloudletLocation.longitude) {
        cloudletLocation.longitude := src.cloudletLocation.longitude;
        changed := changed + 1;
      }
      if !FloatEq(cloudletLocation.horizontalAccuracy, src.cloudletLocation.horizontalAccuracy) {
        cloudletLocation.horizontalAccuracy := src.cloudletLocation.horizontalAccuracy;
        changed := changed + 1;
      }
      if !FloatEq(cloudletLocation.verticalAccuracy, src.cloudletLocation.verticalAccuracy) {
        cloudletLocation.verticalAccuracy := src.cloudletLocation.verticalAccuracy;
        changed := changed + 1;
      }
      cloudletLocation.LatitudeToVerticalAccuracySet(src.cloudletLocation, m, s, before, changed);
    }

    /** Inside `cloudletLocation`: the fields from `altitude` to `speed`. */
    method CopyCloudletLocationAltitudeToSpeed(src: FindCloudletReply, before: int, ghost m: Tree,
        ghost s: Tree) returns (changed: int)
      requires cloudletLocation != null && src != this && src.cloudletLocation != null
          && src.cloudletLocation != cloudletLocation
      requires cloudletLocation.timestamp != null ==> cloudletLocation.timestamp != src.cloudletLocation.timestamp
      requires src.cloudletLocation.Fields() == s && CopiedUpTo(cloudletLocation.Fields(), m, s, 4, before)
      modifies cloudletLocation`altitude, cloudletLocation`course, cloudletLocation`speed
      ensures src.cloudletLocation.Fields() == s && CopiedUpTo(cloudletLocation.Fields(), m, s, 7, changed)
    {
      hide Loc.Items, CopiedUpTo, CopyTree, TreeChanges, CopyItem, Changes, FloatEq, Loc.Fields;
      changed := before;
      if !FloatEq(cloudletLocation.altitude, src.cloudletLocation.altitude) {
        cloudletLocation.altitude := src.cloudletLocation.altitude;
        changed := changed + 1;
      }
      if !FloatEq(cloudletLocation.course, src.cloudletLocation.course) {
        cloudletLocation.course := src.cloudletLocation.course;
        changed := changed + 1;
      }
      if !FloatEq(cloudletLocation.speed, src.cloudletLocation.speed) {
        cloudletLocation.speed := src.cloudletLocation.speed;
        changed := changed + 1;
      }
      cloudletLocation.AltitudeToSpeedSet(src.cloudletLocation, m, s, before, changed);
    }

    /** Inside `cloudletLocation`: the sub-message `timestamp`, again field by field. */
    method CopyCloudletLocationTimestamp(src: FindCloudletReply, before: int, ghost m: Tree,
        ghost s: Tree) returns (changed: int)
      requires cloudletLocation != null && src != this && src.cloudletLocation != null
          && src.cloudletLocation != cloudletLocation
      requires cloudletLocation.timestamp != null ==> cloudletLocation.timestamp != src.cloudletLocation.timestamp
      requires src.cloudletLocation.Fields() == s && CopiedUpTo(cloudletLocation.Fields(), m, s, 7, before)
      modifies cloudletLocation`timestamp, cloudletLocation.timestamp
      ensures cloudletLocation.timestamp == null
          || cloudletLocation.timestamp == old(cloudletLocation.timestamp)
          || (old(cloudletLocation.timestamp) == null && fresh(cloudletLocation.timestamp))
      ensures src.cloudletLocation.Fields() == s && CopiedUpTo(cloudletLocation.Fields(), m, s, 8, changed)
    {
      hide Loc.Items, CopiedUpTo, CopyTree, TreeChanges, CopyItem, Changes, FloatEq, Loc.Fields,
          Timestamp.Items, Timestamp.Fields, ItemsKept;
      changed := before;
      ghost var r := cloudletLocation.Fields();
      ghost var was := Timestamp.FieldsOf(cloudletLocation.timestamp);
      ghost var x := Timestamp.FieldsOf(src.cloudletLocation.timestamp);
      cloudletLocation.TimestampItem();
      src.cloudletLocation.TimestampItem();
      if src.cloudletLocation.timestamp != null {
        if cloudletLocation.timestamp == null {
          cloudletLocation.timestamp := new Timestamp();
          cloudletLocation.timestamp.NewFields(src.cloudletLocation.timestamp);
        }
        assert cloudletLocation.timestamp.Fields() == Onto(One(was), x.value);
        var count := CopyCloudletLocationTimestampFields(src);
        changed := changed + count;
      } else if cloudletLocation.timestamp != null {
        cloudletLocation.timestamp := null;
        changed := changed + 1;
      }
      assert OneTaken(Timestamp.FieldsOf(cloudletLocation.timestamp), was, x, before, changed);
      cloudletLocation.TimestampItem();
      cloudletLocation.TimestampAside();
      CopyOne(r, cloudletLocation.Fields(), m, s, 7, before, changed);
    }

    /** The inlined copy of `cloudletLocation`: into the one that is there, or into a new one. */
    method TakeCloudletLocation(src: FindCloudletReply, before: int) returns (changed: int)
      requires src != this && (cloudletLocation != null ==> src.cloudletLocation != cloudletLocation)
      requires cloudletLocation != null && cloudletLocation.timestamp != null && src.cloudletLocation != null ==>
                 cloudletLocation.timestamp != src.cloudletLocation.timestamp
      modifies `cloudletLocation, cloudletLocation, Loc.StampOf(cloudletLocation)
      ensures cloudletLocation == null || cloudletLocation == old(cloudletLocation)
          || (old(cloudletLocation) == null && fresh(cloudletLocation))
      ensures cloudletLocation != null ==>
                || cloudletLocation.timestamp == null
                || cloudletLocation.timestamp == old(Loc.StampOf(cloudletLocation))
                || (old(Loc.StampOf(cloudletLocation)) == null && fresh(cloudletLocation.timestamp))
      ensures OneTaken(Loc.FieldsOf(cloudletLocation), old(Loc.FieldsOf(cloudletLocation)),
          old(Loc.FieldsOf(src.cloudletLocation)), before, changed)
      ensures Loc.FieldsOf(src.cloudletLocation) == old(Loc.FieldsOf(src.cloudletLocation))
    {
      hide Loc.Items, CopiedUpTo, CopyTree, TreeChanges, CopyItem, Changes, FloatEq, Loc.Fields;
      changed := before;
      if src.cloudletLocation != null {
        ghost var s := src.cloudletLocation.Fields();
        ghost var b := Onto(One(Loc.FieldsOf(cloudletLocation)), s);
        if cloudletLocation == null {
          cloudletLocation := new Loc();
          cloudletLocation.NewFields(src.cloudletLocation);
        }
        ghost var m := cloudletLocation.Fields();
        assert m == b;
        CopyStart(m, s);
        var count := 0;
        count := CopyCloudletLocationLatitudeToVerticalAccuracy(src, count, m, s);
        count := CopyCloudletLocationAltitudeToSpeed(src, count, m, s);
        count := CopyCloudletLocationTimestamp(src, count, m, s);
        CopyDone(cloudletLocation.Fields(), m, s, count);
        changed := changed + count;
      } else if cloudletLocation != null {
        cloudletLocation := null;
        changed := changed + 1;
      }
    }

    /** The list `ports`, replaced by clones of the source's. */
    method ReplacePorts(src: FindCloudletReply, before: int) returns (changed: int)
      requires src != this
      modifies `ports
      ensures ports.None? <==> src.ports.None?
      ensures forall y :: y in Elems(ports) ==> fresh(y)
      ensures AppPort.Trees(Elems(ports)) == Bares(old(AppPort.Trees(Elems(src.ports))))
      ensures changed == if src.ports == old(ports) == None then before else before + 1
    {
      hide AppPort.View, AppPort.Fields;
      changed := before;
      if src.ports != None {
        var ys := AppPort.CloneAll(src.ports.value);
        ports := Some(ys);
        changed := changed + 1;
      } else if ports != None {
        ports := None;
        changed := changed + 1;
      }
    }

    /** The map `tags`, replaced by a copy of the source's. */
    method ReplaceTags(src: FindCloudletReply, before: int) returns (changed: int)
      requires src != this
      modifies `tags
      ensures tags != null ==> fresh(tags)
      ensures TagMap.Contents(tags) == old(TagMap.Contents(src.tags))
      ensures changed == if src.tags == old(tags) == null then before else before + 1
    {
      changed := before;
      if src.tags != null {
        tags := TagMap.Copied(src.tags);
        changed := changed + 1;
      } else if tags != null {
        tags := null;
        changed := changed + 1;
      }
    }

    /** Messages of the same type are alike. */
    lemma FieldsAlike(src: FindCloudletReply)
      requires Valid() && src.Valid()
      ensures Alike(Fields(), src.Fields())
    {
      hide Fields, Valid, AppPort.View, AppPort.Fields, AppPort.Views, AppPort.Trees, Loc.Fields, Loc.View,
          Items, Footprint;
      FieldItems();
      src.FieldItems();
      if cloudletLocation != null && src.cloudletLocation != null {
        cloudletLocation.FieldsAlike(src.cloudletLocation);
      }
      assert AlikeItem(Fields().items[0], src.Fields().items[0]);
      assert AlikeItem(Fields().items[1], src.Fields().items[1]);
      assert AlikeItem(Fields().items[2], src.Fields().items[2]);
      assert AlikeItem(Fields().items[3], src.Fields().items[3]);
      assert AlikeItem(Fields().items[4], src.Fields().items[4]);
      assert AlikeItem(Fields().items[5], src.Fields().items[5]);
      assert AlikeItem(Fields().items[6], src.Fields().items[6]);
      assert AlikeItem(Fields().items[7], src.Fields().items[7]);
      assert AlikeItem(Fields().items[8], src.Fields().items[8]);
    }

    /** The fields from `ver` to `status`. */
    method CopyVerToStatus(src: FindCloudletReply, before: int, ghost m: Tree, ghost s: Tree) returns (changed: int)
      requires Underway(src, m, s, 0, before) && Repr !! src.Repr
      modifies `ver, `status
      ensures Underway(src, m, s, 2, changed)
      ensures Repr == old(Repr) && src.Repr == old(src.Repr)
    {
      hide Footprint, Fields, AppPort.View, AppPort.Fields, AppPort.Views, AppPort.Trees, Loc.Fields, Loc.View,
          Valid, Items, CopiedUpTo, CopyTree, TreeChanges, CopyItem, Changes, FloatEq;
      changed := before;
      if ver != src.ver {
        ver := src.ver;
        changed := changed + 1;
      }
      if status != src.status {
        status := src.status;
        changed := changed + 1;
      }
      FieldsKept();
      VerToStatusSet(src, m, s, before, changed);
    }

    /** The field `fqdn`. */
    method CopyFqdn(src: FindCloudletReply, before: int, ghost m: Tree, ghost s: Tree) returns (changed: int)
      requires Underway(src, m, s, 2, before) && Repr !! src.Repr
      modifies `fqdn
      ensures Underway(src, m, s, 3, changed)
      ensures Repr == old(Repr) && src.Repr == old(src.Repr)
    {
      hide Footprint, Fields, AppPort.View, AppPort.Fields, AppPort.Views, AppPort.Trees, Loc.Fields, Loc.View,
          Valid, Items, CopiedUpTo, CopyTree, TreeChanges, CopyItem, Changes, FloatEq;
      changed := before;
      if fqdn != src.fqdn {
        fqdn := src.fqdn;
        changed := changed + 1;
      }
      FieldsKept();
      FqdnSet(src, m, s, before, changed);
    }

    /** What a copy of `ports` does to the objects of the message. */
    twostate lemma PortsTaken()
      requires old(Valid()) && Repr == Footprint()
      requires forall y :: y in Elems(ports) ==> fresh(y)
      requires cloudletLocation == old(cloudletLocation)
      requires cloudletLocation != null ==> cloudletLocation.timestamp == old(cloudletLocation.timestamp)
      requires tags == old(tags)
      ensures Valid() && fresh(Repr - old(Repr))
    {
    }

    lemma PortsItem()
      requires Valid()
      ensures |Fields().items| == 9 && Fields().items[3] == Many(AppPort.ForestOf(ports))
      ensures this in Repr
    {
      hide AppPort.View, AppPort.Fields, AppPort.Views, AppPort.Trees, Loc.Fields, Loc.View, Loc.FieldsOf,
          TagMap.Contents, Items;
    }

    /** What a copy of `ports` leaves as it was. */
    twostate lemma PortsAside()
      requires old(Valid()) && Valid() && unrecognized == old(unrecognized)
      requires ver == old(ver)
      requires status == old(status)
      requires fqdn == old(fqdn)
      requires Loc.FieldsOf(cloudletLocation) == old(Loc.FieldsOf(cloudletLocation))
      requires edgeEventsCookie == old(edgeEventsCookie)
      requires qosResult == old(qosResult)
      requires qosErrorMsg == old(qosErrorMsg)
      requires TagMap.Contents(tags) == old(TagMap.Contents(tags))
      ensures ItemsKept(Fields(), old(Fields()), 3, 4)
    {
      hide AppPort.View, AppPort.Fields, AppPort.Views, AppPort.Trees, Loc.Fields, Loc.View, Loc.FieldsOf,
          TagMap.Contents, Valid, Items;
    }

    /** The list `ports`, and what its copy leaves as it was. */
    method GraftPorts(src: FindCloudletReply, before: int) returns (changed: int)
      requires Valid() && src.Valid() && Repr !! src.Repr
      modifies `ports, `Repr
      ensures Valid() && fresh(Repr - old(Repr)) && src.Valid() && src.Repr == old(src.Repr)
      ensures src.Fields() == old(src.Fields())
      ensures ports.None? <==> src.ports.None?
      ensures AppPort.Trees(Elems(ports)) == Bares(old(AppPort.Trees(Elems(src.ports))))
      ensures Loc.FieldsOf(cloudletLocation) == old(Loc.FieldsOf(cloudletLocation))
      ensures TagMap.Contents(tags) == old(TagMap.Contents(tags))
      ensures changed == if src.ports == old(ports) == None then before else before + 1
    {
      hide Fields, AppPort.View, AppPort.Fields, AppPort.Views, AppPort.Trees, Loc.Fields, Loc.View, Valid,
          Footprint, Bares;
      PortsItem();
      src.PortsItem();
      changed := ReplacePorts(src, before);
      src.Same();
      Repr := Footprint();
      PortsTaken();
    }

    /** The list `ports`, as a change to the whole message. */
    method PlacePorts(src: FindCloudletReply, before: int) returns (changed: int)
      requires Valid() && src.Valid() && Repr !! src.Repr
      modifies `ports, `Repr
      ensures Valid() && fresh(Repr - old(Repr)) && src.Valid() && src.Repr == old(src.Repr)
      ensures src.Fields() == old(src.Fields())
      ensures ManyPlaced(Fields(), old(Fields()), old(src.Fields()), 3, before, changed)
    {
      hide Fields, AppPort.View, AppPort.Fields, AppPort.Views, AppPort.Trees, Loc.Fields, Loc.View,
          Loc.FieldsOf, TagMap.Contents, Valid, Items, ItemsKept, OneTaken, CopyTree, TreeChanges, Onto, Bares,
          BareItem, Footprint;
      PortsItem();
      src.PortsItem();
      changed := GraftPorts(src, before);
      PortsItem();
      PortsAside();
      if src.ports != None {
        BareMany(old(AppPort.Trees(Elems(src.ports))));
      } else {
        BareNil();
      }
    }

    /** The list `ports`. */
    method CopyPorts(src: FindCloudletReply, before: int, ghost m: Tree, ghost s: Tree) returns (changed: int)
      requires Underway(src, m, s, 3, before) && Repr !! src.Repr
      modifies `ports, `Repr
      ensures Underway(src, m, s, 4, changed)
      ensures fresh(Repr - old(Repr)) && src.Repr == old(src.Repr)
    {
      hide Footprint, Fields, AppPort.View, AppPort.Fields, AppPort.Views, AppPort.Trees, Loc.Fields, Loc.View,
          Valid, Items, CopiedUpTo, CopyTree, TreeChanges, CopyItem, Changes, FloatEq;
      ghost var r := Fields();
      changed := before;
      changed := PlacePorts(src, changed);
      CopyMany(r, Fields(), m, s, 3, before, changed);
    }

    /** What a copy of `cloudletLocation` does to the objects of the message. */
    twostate lemma CloudletLocationTaken()
      requires old(Valid()) && Repr == Footprint()
      requires ports == old(ports)
      requires cloudletLocation == null || cloudletLocation == old(cloudletLocation)
          || (old(cloudletLocation) == null && fresh(cloudletLocation))
      requires cloudletLocation != null ==>
                 || cloudletLocation.timestamp == null
                 || cloudletLocation.timestamp == old(Loc.StampOf(cloudletLocation))
                 || (old(Loc.StampOf(cloudletLocation)) == null && fresh(cloudletLocation.timestamp))
      requires tags == old(tags)
      ensures Valid() && fresh(Repr - old(Repr))
    {
    }

    lemma CloudletLocationItem()
      requires Valid()
      ensures |Fields().items| == 9 && Fields().items[4] == One(Loc.FieldsOf(cloudletLocation))
      ensures this in Repr
      ensures cloudletLocation != null ==> cloudletLocation in Repr
      ensures cloudletLocation != null && cloudletLocation.timestamp != null ==> cloudletLocation.timestamp in Repr
    {
      hide AppPort.View, AppPort.Fields, AppPort.Views, AppPort.Trees, Loc.Fields, Loc.View, Loc.FieldsOf,
          TagMap.Contents, Items;
    }

    /** What a copy of `cloudletLocation` leaves as it was. */
    twostate lemma CloudletLocationAside()
      requires old(Valid()) && Valid() && unrecognized == old(unrecognized)
      requires ver == old(ver)
      requires status == old(status)
      requires fqdn == old(fqdn)
      requires ports.None? <==> old(ports.None?)
      requires AppPort.Trees(Elems(ports)) == old(AppPort.Trees(Elems(ports)))
      requires edgeEventsCookie == old(edgeEventsCookie)
      requires qosResult == old(qosResult)
      requires qosErrorMsg == old(qosErrorMsg)
      requires TagMap.Contents(tags) == old(TagMap.Contents(tags))
      ensures ItemsKept(Fields(), old(Fields()), 4, 5)
    {
      hide AppPort.View, AppPort.Fields, AppPort.Views, AppPort.Trees, Loc.Fields, Loc.View, Loc.FieldsOf,
          TagMap.Contents, Valid, Items;
    }

    /** The sub-message `cloudletLocation`, and what its copy leaves as it was. */
    method GraftCloudletLocation(src: FindCloudletReply, before: int) returns (changed: int)
      requires Valid() && src.Valid() && Repr !! src.Repr
      modifies `cloudletLocation, cloudletLocation, Loc.StampOf(cloudletLocation), `Repr
      ensures Valid() && fresh(Repr - old(Repr))
      ensures cloudletLocation == null || cloudletLocation == old(cloudletLocation)
          || (old(cloudletLocation) == null && fresh(cloudletLocation))
      ensures cloudletLocation != null ==>
                || cloudletLocation.timestamp == null
                || cloudletLocation.timestamp == old(Loc.StampOf(cloudletLocation))
                || (old(Loc.StampOf(cloudletLocation)) == null && fresh(cloudletLocation.timestamp))
      ensures AppPort.Trees(Elems(ports)) == old(AppPort.Trees(Elems(ports)))
      ensures TagMap.Contents(tags) == old(TagMap.Contents(tags))
      ensures OneTaken(Loc.FieldsOf(cloudletLocation), old(Loc.FieldsOf(cloudletLocation)),
          old(Loc.FieldsOf(src.cloudletLocation)), before, changed)
    {
      hide Fields, AppPort.View, AppPort.Fields, AppPort.Views, AppPort.Trees, Loc.Fields, Loc.View, Valid,
          Footprint, CopyTree, TreeChanges, Onto, OneTaken;
      CloudletLocationItem();
      src.CloudletLocationItem();
      changed := TakeCloudletLocation(src, before);
      Repr := Footprint();
      CloudletLocationTaken();
    }

    /** The sub-message `cloudletLocation`, as a change to the whole message. */
    method PlaceCloudletLocation(src: FindCloudletReply, before: int) returns (changed: int)
      requires Valid() && src.Valid() && Repr !! src.Repr
      modifies `cloudletLocation, cloudletLocation, Loc.StampOf(cloudletLocation), `Repr
      ensures Valid() && fresh(Repr - old(Repr)) && src.Valid() && src.Repr == old(src.Repr)
      ensures cloudletLocation == null || cloudletLocation == old(cloudletLocation)
          || (old(cloudletLocation) == null && fresh(cloudletLocation))
      ensures cloudletLocation != null ==>
                || cloudletLocation.timestamp == null
                || cloudletLocation.timestamp == old(Loc.StampOf(cloudletLocation))
                || (old(Loc.StampOf(cloudletLocation)) == null && fresh(cloudletLocation.timestamp))
      ensures src.Fields() == old(src.Fields())
      ensures OnePlaced(Fields(), old(Fields()), old(src.Fields()), 4, before, changed)
    {
      hide Fields, AppPort.View, AppPort.Fields, AppPort.Views, AppPort.Trees, Loc.Fields, Loc.View,
          Loc.FieldsOf, TagMap.Contents, Valid, Items, ItemsKept, OneTaken, CopyTree, TreeChanges, Onto, Bares,
          BareItem;
      CloudletLocationItem();
      src.CloudletLocationItem();
      changed := GraftCloudletLocation(src, before);
      src.Same();
      CloudletLocationItem();
      CloudletLocationAside();
    }

    /** The sub-message `cloudletLocation`. */
    method CopyCloudletLocation(src: FindCloudletReply, before: int, ghost m: Tree, ghost s: Tree)
        returns (changed: int)
      requires Underway(src, m, s, 4, before) && Repr !! src.Repr
      modifies `cloudletLocation, cloudletLocation, Loc.StampOf(cloudletLocation), `Repr
      ensures Underway(src, m, s, 5, changed)
      ensures fresh(Repr - old(Repr)) && src.Repr == old(src.Repr)
      ensures cloudletLocation == null || cloudletLocation == old(cloudletLocation)
          || (old(cloudletLocation) == null && fresh(cloudletLocation))
      ensures cloudletLocation != null ==>
                || cloudletLocation.timestamp == null
                || cloudletLocation.timestamp == old(Loc.StampOf(cloudletLocation))
                || (old(Loc.StampOf(cloudletLocation)) == null && fresh(cloudletLocation.timestamp))
    {
      hide Footprint, Fields, AppPort.View, AppPort.Fields, AppPort.Views, AppPort.Trees, Loc.Fields, Loc.View,
          Valid, Items, CopiedUpTo, CopyTree, TreeChanges, CopyItem, Changes, FloatEq;
      ghost var r := Fields();
      changed := before;
      changed := PlaceCloudletLocation(src, changed);
      CopyOne(r, Fields(), m, s, 4, before, changed);
    }

    /** The fields from `edgeEventsCookie` to `qosResult`. */
    method CopyEdgeEventsCookieToQosResult(src: FindCloudletReply, before: int, ghost m: Tree,
        ghost s: Tree) returns (changed: int)
      requires Underway(src, m, s, 5, before) && Repr !! src.Repr
      modifies `edgeEventsCookie, `qosResult
      ensures Underway(src, m, s, 7, changed)
      ensures Repr == old(Repr) && src.Repr == old(src.Repr)
    {
      hide Footprint, Fields, AppPort.View, AppPort.Fields, AppPort.Views, AppPort.Trees, Loc.Fields, Loc.View,
          Valid, Items, CopiedUpTo, CopyTree, TreeChanges, CopyItem, Changes, FloatEq;
      changed := before;
      if edgeEventsCookie != src.edgeEventsCookie {
        edgeEventsCookie := src.edgeEventsCookie;
        changed := changed + 1;
      }
      if qosResult != src.qosResult {
        qosResult := src.qosResult;
        changed := changed + 1;
      }
      FieldsKept();
      EdgeEventsCookieToQosResultSet(src, m, s, before, changed);
    }

    /** The field `qosErrorMsg`. */
    method CopyQosErrorMsg(src: FindCloudletReply, before: int, ghost m: Tree, ghost s: Tree) returns (changed: int)
      requires Underway(src, m, s, 7, before) && Repr !! src.Repr
      modifies `qosErrorMsg
      ensures Underway(src, m, s, 8, changed)
      ensures Repr == old(Repr) && src.Repr == old(src.Repr)
    {
      hide Footprint, Fields, AppPort.View, AppPort.Fields, AppPort.Views, AppPort.Trees, Loc.Fields, Loc.View,
          Valid, Items, CopiedUpTo, CopyTree, TreeChanges, CopyItem, Changes, FloatEq;
      changed := before;
      if qosErrorMsg != src.qosErrorMsg {
        qosErrorMsg := src.qosErrorMsg;
        changed := changed + 1;
      }
      FieldsKept();
      QosErrorMsgSet(src, m, s, before, changed);
    }

    /** What a copy of `tags` does to the objects of the message. */
    twostate lemma TagsTaken()
      requires old(Valid()) && Repr == Footprint()
      requires ports == old(ports)
      requires cloudletLocation == old(cloudletLocation)
      requires cloudletLocation != null ==> cloudletLocation.timestamp == old(cloudletLocation.timestamp)
      requires tags != null ==> fresh(tags)
      ensures Valid() && fresh(Repr - old(Repr))
    {
    }

    lemma TagsItem()
      requires Valid()
      ensures |Fields().items| == 9 && Fields().items[8] == Tags(TagMap.Contents(tags))
      ensures this in Repr
    {
      hide AppPort.View, AppPort.Fields, AppPort.Views, AppPort.Trees, Loc.Fields, Loc.View, Loc.FieldsOf,
          TagMap.Contents, Items;
    }

    /** What a copy of `tags` leaves as it was. */
    twostate lemma TagsAside()
      requires old(Valid()) && Valid() && unrecognized == old(unrecognized)
      requires ver == old(ver)
      requires status == old(status)
      requires fqdn == old(fqdn)
      requires ports.None? <==> old(ports.None?)
      requires AppPort.Trees(Elems(ports)) == old(AppPort.Trees(Elems(ports)))
      requires Loc.FieldsOf(cloudletLocation) == old(Loc.FieldsOf(cloudletLocation))
      requires edgeEventsCookie == old(edgeEventsCookie)
      requires qosResult == old(qosResult)
      requires qosErrorMsg == old(qosErrorMsg)
      ensures ItemsKept(Fields(), old(Fields()), 8, 9)
    {
      hide AppPort.View, AppPort.Fields, AppPort.Views, AppPort.Trees, Loc.Fields, Loc.View, Loc.FieldsOf,
          TagMap.Contents, Valid, Items;
    }

    /** The map `tags`, and what its copy leaves as it was. */
    method GraftTags(src: FindCloudletReply, before: int) returns (changed: int)
      requires Valid() && src.Valid() && Repr !! src.Repr
      modifies `tags, `Repr
      ensures Valid() && fresh(Repr - old(Repr)) && src.Valid() && src.Repr == old(src.Repr)
      ensures src.Fields() == old(src.Fields())
      ensures tags != null ==> fresh(tags)
      ensures TagMap.Contents(tags) == old(TagMap.Contents(src.tags))
      ensures Loc.FieldsOf(cloudletLocation) == old(Loc.FieldsOf(cloudletLocation))
      ensures AppPort.Trees(Elems(ports)) == old(AppPort.Trees(Elems(ports)))
      ensures var x, r := old(TagMap.Contents(src.tags)), old(TagMap.Contents(tags));
              changed == if x == r == None then before else before + 1
    {
      hide Fields, AppPort.View, AppPort.Fields, AppPort.Views, AppPort.Trees, Loc.Fields, Loc.View, Valid,
          Footprint;
      TagsItem();
      src.TagsItem();
      changed := ReplaceTags(src, before);
      src.Same();
      Repr := Footprint();
      TagsTaken();
    }

    /** The map `tags`, as a change to the whole message. */
    method PlaceTags(src: FindCloudletReply, before: int) returns (changed: int)
      requires Valid() && src.Valid() && Repr !! src.Repr
      modifies `tags, `Repr
      ensures Valid() && fresh(Repr - old(Repr)) && src.Valid() && src.Repr == old(src.Repr)
      ensures src.Fields() == old(src.Fields())
      ensures tags != null ==> fresh(tags)
      ensures TagsPlaced(Fields(), old(Fields()), old(src.Fields()), 8, before, changed)
    {
      hide Fields, AppPort.View, AppPort.Fields, AppPort.Views, AppPort.Trees, Loc.Fields, Loc.View,
          Loc.FieldsOf, TagMap.Contents, Valid, Items, ItemsKept, OneTaken, CopyTree, TreeChanges, Onto, Bares,
          BareItem, Footprint;
      TagsItem();
      src.TagsItem();
      changed := GraftTags(src, before);
      TagsItem();
      TagsAside();
    }

    /** The map `tags`. */
    method CopyTags(src: FindCloudletReply, before: int, ghost m: Tree, ghost s: Tree) returns (changed: int)
      requires Underway(src, m, s, 8, before) && Repr !! src.Repr
      modifies `tags, `Repr
      ensures Underway(src, m, s, 9, changed)
      ensures fresh(Repr - old(Repr)) && src.Repr == old(src.Repr)
      ensures tags != null ==> fresh(tags)
    {
      hide Footprint, Fields, AppPort.View, AppPort.Fields, AppPort.Views, AppPort.Trees, Loc.Fields, Loc.View,
          Valid, Items, CopiedUpTo, CopyTree, TreeChanges, CopyItem, Changes, FloatEq;
      ghost var r := Fields();
      changed := before;
      changed := PlaceTags(src, changed);
      CopyMap(r, Fields(), m, s, 8, before, changed);
    }

    method CopyInFields(src: FindCloudletReply) returns (changed: int)
      requires Valid() && src.Valid() && Repr !! src.Repr
      modifies this, cloudletLocation, Loc.StampOf(cloudletLocation)
      ensures Valid() && fresh(Repr - old(Repr)) && src.Valid() && src.Repr == old(src.Repr) && Repr !! src.Repr
      ensures cloudletLocation == null || cloudletLocation == old(cloudletLocation)
          || (old(cloudletLocation) == null && fresh(cloudletLocation))
      ensures cloudletLocation != null ==>
                || cloudletLocation.timestamp == null
                || cloudletLocation.timestamp == old(Loc.StampOf(cloudletLocation))
                || (old(Loc.StampOf(cloudletLocation)) == null && fresh(cloudletLocation.timestamp))
      ensures tags != null ==> fresh(tags)
      ensures src.Fields() == old(src.Fields())
      ensures Fields() == CopyTree(old(Fields()), old(src.Fields()))
      ensures changed == TreeChanges(old(Fields()), old(src.Fields()))
      ensures SameTree(Fields(), src.Fields()) && (changed == 0 ==> Untouched(old(Fields()), Fields()))
      ensures Equals(src) && unrecognized == old(unrecognized)
    {
      hide Footprint, Fields, AppPort.View, AppPort.Fields, AppPort.Views, AppPort.Trees, Loc.Fields, Loc.View,
          Valid, Items, CopiedUpTo, CopyTree, TreeChanges, CopyItem, Changes, FloatEq, SameTree, Untouched,
          Alike, Equals;
      ghost var m, s := Fields(), src.Fields();
      FieldsAlike(src);
      FieldsUnknown();
      changed := 0;
      CopyStart(m, s);
      changed := CopyVerToStatus(src, changed, m, s);
      changed := CopyFqdn(src, changed, m, s);
      changed := CopyPorts(src, changed, m, s);
      changed := CopyCloudletLocation(src, changed, m, s);
      changed := CopyEdgeEventsCookieToQosResult(src, changed, m, s);
      changed := CopyQosErrorMsg(src, changed, m, s);
      changed := CopyTags(src, changed, m, s);
      CopyDone(Fields(), m, s, changed);
      CopyAgrees(m, s);
      SameIsEqual(src);
      FieldsUnknown();
      if changed == 0 {
        NoChanges(m, s);
      }
    }
  }

  /** The message that a server pushes to a client. */
  class ServerEdgeEvent {
    var newCloudlet: FindCloudletReply?

    constructor ()
      ensures newCloudlet == null
    {
      newCloudlet := null;
    }

    /** Inside `cloudletLocation.timestamp`: its fields. */
    method CopyNewCloudletCloudletLocationTimestampFields(src: ServerEdgeEvent) returns (changed: int)
      requires newCloudlet != null && src.newCloudlet != null
      requires newCloudlet.cloudletLocation != null && src.newCloudlet.cloudletLocation != null
          && newCloudlet.cloudletLocation.timestamp != null
          && src.newCloudlet.cloudletLocation.timestamp != null
          && newCloudlet.cloudletLocation.timestamp != src.newCloudlet.cloudletLocation.timestamp
      modifies newCloudlet.cloudletLocation.timestamp
      ensures newCloudlet.cloudletLocation.timestamp.Fields() ==
              CopyTree(old(newCloudlet.cloudletLocation.timestamp.Fields()),
                  src.newCloudlet.cloudletLocation.timestamp.Fields())
      ensures changed == TreeChanges(old(newCloudlet.cloudletLocation.timestamp.Fields()),
          src.newCloudlet.cloudletLocation.timestamp.Fields())
    {
      hide Timestamp.Items, CopiedUpTo, CopyTree, TreeChanges, CopyItem, Changes, FloatEq, Timestamp.Fields;
      ghost var m := newCloudlet.cloudletLocation.timestamp.Fields();
      ghost var s := src.newCloudlet.cloudletLocation.timestamp.Fields();
      changed := 0;
      if newCloudlet.cloudletLocation.timestamp.seconds != src.newCloudlet.cloudletLocation.timestamp.seconds {
        newCloudlet.cloudletLocation.timestamp.seconds := src.newCloudlet.cloudletLocation.timestamp.seconds;
        changed := changed + 1;
      }
      if newCloudlet.cloudletLocation.timestamp.nanos != src.newCloudlet.cloudletLocation.timestamp.nanos {
        newCloudlet.cloudletLocation.timestamp.nanos := src.newCloudlet.cloudletLocation.timestamp.nanos;
        changed := changed + 1;
      }
      CopyStart(m, s);
      newCloudlet.cloudletLocation.timestamp.SecondsToNanosSet(src.newCloudlet.cloudletLocation.timestamp, m,
          s, 0, changed);
      CopyDone(newCloudlet.cloudletLocation.timestamp.Fields(), m, s, changed);
    }

    /** Inside `newCloudlet.cloudletLocation`: the fields from `latitude` to `verticalAccuracy`. */
    method CopyNewCloudletCloudletLocationLatitudeToVerticalAccuracy(src: ServerEdgeEvent, before: int,
        ghost m: Tree, ghost s: Tree) returns (changed: int)
      requires newCloudlet != null && src.newCloudlet != null
      requires newCloudlet.cloudletLocation != null && src.newCloudlet != newCloudlet
          && src.newCloudlet.cloudletLocation != null
          && src.newCloudlet.cloudletLocation != newCloudlet.cloudletLocation
      requires newCloudlet.cloudletLocation.timestamp != null ==>
                newCloudlet.cloudletLocation.timestamp != src.newCloudlet.cloudletLocation.timestamp
      requires src.newCloudlet.cloudletLocation.Fields() == s
          && CopiedUpTo(newCloudlet.cloudletLocation.Fields(), m, s, 0, before)
      modifies newCloudlet.cloudletLocation`latitude, newCloudlet.cloudletLocation`longitude,
          newCloudlet.cloudletLocation`horizontalAccuracy, newCloudlet.cloudletLocation`verticalAccuracy
      ensures src.newCloudlet.cloudletLocation.Fields() == s
          && CopiedUpTo(newCloudlet.cloudletLocation.Fields(), m, s, 4, changed)
    {
      hide Loc.Items, CopiedUpTo, CopyTree, TreeChanges, CopyItem, Changes, FloatEq, Loc.Fields;
      changed := before;
      if !FloatEq(newCloudlet.cloudletLocation.latitude, src.newCloudlet.cloudletLocation.latitude) {
        newCloudlet.cloudletLocation.latitude := src.newCloudlet.cloudletLocation.latitude;
        changed := changed + 1;
      }
      if !FloatEq(newCloudlet.cloudletLocation.longitude, src.newCloudlet.cloudletLocation.longitude) {
        newCloudlet.cloudletLocation.longitude := src.newCloudlet.cloudletLocation.longitude;
        changed := changed + 1;
      }
      if !FloatEq(newCloudlet.cloudletLocation.horizontalAccuracy,
          src.newCloudlet.cloudletLocation.horizontalAccuracy) {
        newCloudlet.cloudletLocation.horizontalAccuracy := src.newCloudlet.cloudletLocation.horizontalAccuracy;
        changed := changed + 1;
      }
      if !FloatEq(newCloudlet.cloudletLocation.verticalAccuracy, src.newCloudlet.cloudletLocation.verticalAccuracy) {
        newCloudlet.cloudletLocation.verticalAccuracy := src.newCloudlet.cloudletLocation.verticalAccuracy;
        changed := changed + 1;
      }
      newCloudlet.cloudletLocation.LatitudeToVerticalAccuracySet(src.newCloudlet.cloudletLocation, m, s,
          before, changed);
    }

    /** Inside `newCloudlet.cloudletLocation`: the fields from `altitude` to `speed`. */
    method CopyNewCloudletCloudletLocationAltitudeToSpeed(src: ServerEdgeEvent, before: int, ghost m: Tree,
        ghost s: Tree) returns (changed: int)
      requires newCloudlet != null && src.newCloudlet != null
      requires newCloudlet.cloudletLocation != null && src.newCloudlet != newCloudlet
          && src.newCloudlet.cloudletLocation != null
          && src.newCloudlet.cloudletLocation != newCloudlet.cloudletLocation
      requires newCloudlet.cloudletLocation.timestamp != null ==>
                newCloudlet.cloudletLocation.timestamp != src.newCloudlet.cloudletLocation.timestamp
      requires src.newCloudlet.cloudletLocation.Fields() == s
          && CopiedUpTo(newCloudlet.cloudletLocation.Fields(), m, s, 4, before)
      modifies newCloudlet.cloudletLocation`altitude, newCloudlet.cloudletLocation`course,
          newCloudlet.cloudletLocation`speed
      ensures src.newCloudlet.cloudletLocation.Fields() == s
          && CopiedUpTo(newCloudlet.cloudletLocation.Fields(), m, s, 7, changed)
    {
      hide Loc.Items, CopiedUpTo, CopyTree, TreeChanges, CopyItem, Changes, FloatEq, Loc.Fields;
      changed := before;
      if !FloatEq(newCloudlet.cloudletLocation.altitude, src.newCloudlet.cloudletLocation.altitude) {
        newCloudlet.cloudletLocation.altitude := src.newCloudlet.cloudletLocation.altitude;
        changed := changed + 1;
      }
      if !FloatEq(newCloudlet.cloudletLocation.course, src.newCloudlet.cloudletLocation.course) {
        newCloudlet.cloudletLocation.course := src.newCloudlet.cloudletLocation.course;
        changed := changed + 1;
      }
      if !FloatEq(newCloudlet.cloudletLocation.speed, src.newCloudlet.cloudletLocation.speed) {
        newCloudlet.cloudletLocation.speed := src.newCloudlet.cloudletLocation.speed;
        changed := changed + 1;
      }
      newCloudlet.cloudletLocation.AltitudeToSpeedSet(src.newCloudlet.cloudletLocation, m, s, before, changed);
    }

    /** Inside `newCloudlet.cloudletLocation`: the sub-message `timestamp`, again field by field. */
    method CopyNewCloudletCloudletLocationTimestamp(src: ServerEdgeEvent, before: int, ghost m: Tree,
        ghost s: Tree) returns (changed: int)
      requires newCloudlet != null && src.newCloudlet != null
      requires newCloudlet.cloudletLocation != null && src.newCloudlet != newCloudlet
          && src.newCloudlet.cloudletLocation != null
          && src.newCloudlet.cloudletLocation != newCloudlet.cloudletLocation
      requires newCloudlet.cloudletLocation.timestamp != null ==>
                newCloudlet.cloudletLocation.timestamp != src.newCloudlet.cloudletLocation.timestamp
      requires src.newCloudlet.cloudletLocation.Fields() == s
          && CopiedUpTo(newCloudlet.cloudletLocation.Fields(), m, s, 7, before)
      modifies newCloudlet.cloudletLocation`timestamp, newCloudlet.cloudletLocation.timestamp
      ensures newCloudlet.cloudletLocation.timestamp == null
          || newCloudlet.cloudletLocation.timestamp == old(newCloudlet.cloudletLocation.timestamp)
          || (old(newCloudlet.cloudletLocation.timestamp) == null && fresh(newCloudlet.cloudletLocation.timestamp))
      ensures src.newCloudlet.cloudletLocation.Fields() == s
          && CopiedUpTo(newCloudlet.cloudletLocation.Fields(), m, s, 8, changed)
    {
      hide Loc.Items, CopiedUpTo, CopyTree, TreeChanges, CopyItem, Changes, FloatEq, Loc.Fields,
          Timestamp.Items, Timestamp.Fields, ItemsKept;
      changed := before;
      ghost var r := newCloudlet.cloudletLocation.Fields();
      ghost var was := Timestamp.FieldsOf(newCloudlet.cloudletLocation.timestamp);
      ghost var x := Timestamp.FieldsOf(src.newCloudlet.cloudletLocation.timestamp);
      newCloudlet.cloudletLocation.TimestampItem();
      src.newCloudlet.cloudletLocation.TimestampItem();
      if src.newCloudlet.cloudletLocation.timestamp != null {
        if newCloudlet.cloudletLocation.timestamp == null {
          newCloudlet.cloudletLocation.timestamp := new Timestamp();
          newCloudlet.cloudletLocation.timestamp.NewFields(src.newCloudlet.cloudletLocation.timestamp);
        }
        assert newCloudlet.cloudletLocation.timestamp.Fields() == Onto(One(was), x.value);
        var count := CopyNewCloudletCloudletLocationTimestampFields(src);
        changed := changed + count;
      } else if newCloudlet.cloudletLocation.timestamp != null {
        newCloudlet.cloudletLocation.timestamp := null;
        changed := changed + 1;
      }
      assert OneTaken(Timestamp.FieldsOf(newCloudlet.cloudletLocation.timestamp), was, x, before, changed);
      newCloudlet.cloudletLocation.TimestampItem();
      newCloudlet.cloudletLocation.TimestampAside();
      CopyOne(r, newCloudlet.cloudletLocation.Fields(), m, s, 7, before, changed);
    }

    /** The inlined copy of `newCloudlet.cloudletLocation`: into the one that is there, or into a new one. */
    method TakeNewCloudletCloudletLocation(src: ServerEdgeEvent, before: int) returns (changed: int)
      requires newCloudlet != null && src.newCloudlet != null
      requires src.newCloudlet != newCloudlet && (newCloudlet.cloudletLocation != null ==>
                src.newCloudlet.cloudletLocation != newCloudlet.cloudletLocation)
      requires newCloudlet.cloudletLocation != null && newCloudlet.cloudletLocation.timestamp != null ==>
                 src.newCloudlet.cloudletLocation != null ==>
                 newCloudlet.cloudletLocation.timestamp != src.newCloudlet.cloudletLocation.timestamp
      modifies newCloudlet`cloudletLocation, newCloudlet.cloudletLocation, Loc.StampOf(newCloudlet.cloudletLocation)
      ensures newCloudlet.cloudletLocation == null
          || newCloudlet.cloudletLocation == old(newCloudlet.cloudletLocation)
          || (old(newCloudlet.cloudletLocation) == null && fresh(newCloudlet.cloudletLocation))
      ensures newCloudlet.cloudletLocation != null ==>
                || newCloudlet.cloudletLocation.timestamp == null
                || newCloudlet.cloudletLocation.timestamp == old(Loc.StampOf(newCloudlet.cloudletLocation))
                || (old(Loc.StampOf(newCloudlet.cloudletLocation)) == null
                    && fresh(newCloudlet.cloudletLocation.timestamp))
      ensures OneTaken(Loc.FieldsOf(newCloudlet.cloudletLocation),
          old(Loc.FieldsOf(newCloudlet.cloudletLocation)), old(Loc.FieldsOf(src.newCloudlet.cloudletLocation)),
          before, changed)
      ensures Loc.FieldsOf(src.newCloudlet.cloudletLocation) == old(Loc.FieldsOf(src.newCloudlet.cloudletLocation))
    {
      hide Loc.Items, CopiedUpTo, CopyTree, TreeChanges, CopyItem, Changes, FloatEq, Loc.Fields;
      changed := before;
      if src.newCloudlet.cloudletLocation != null {
        ghost var s := src.newCloudlet.cloudletLocation.Fields();
        ghost var b := Onto(One(Loc.FieldsOf(newCloudlet.cloudletLocation)), s);
        if newCloudlet.cloudletLocation == null {
          newCloudlet.cloudletLocation := new Loc();
          newCloudlet.cloudletLocation.NewFields(src.newCloudlet.cloudletLocation);
        }
        ghost var m := newCloudlet.cloudletLocation.Fields();
        assert m == b;
        CopyStart(m, s);
        var count := 0;
        count := CopyNewCloudletCloudletLocationLatitudeToVerticalAccuracy(src, count, m, s);
        count := CopyNewCloudletCloudletLocationAltitudeToSpeed(src, count, m, s);
        count := CopyNewCloudletCloudletLocationTimestamp(src, count, m, s);
        CopyDone(newCloudlet.cloudletLocation.Fields(), m, s, count);
        changed := changed + count;
      } else if newCloudlet.cloudletLocation != null {
        newCloudlet.cloudletLocation := null;
        changed := changed + 1;
      }
    }

    /** The list `newCloudlet.ports`, replaced by clones of the source's. */
    method ReplaceNewCloudletPorts(src: ServerEdgeEvent, before: int) returns (changed: int)
      requires newCloudlet != null && src.newCloudlet != null
      requires src.newCloudlet != newCloudlet
      modifies newCloudlet`ports
      ensures newCloudlet.ports.None? <==> src.newCloudlet.ports.None?
      ensures forall y :: y in Elems(newCloudlet.ports) ==> fresh(y)
      ensures AppPort.Trees(Elems(newCloudlet.ports)) == Bares(old(AppPort.Trees(Elems(src.newCloudlet.ports))))
      ensures changed == if src.newCloudlet.ports == old(newCloudlet.ports) == None then before else before + 1
    {
      hide AppPort.View, AppPort.Fields;
      changed := before;
      if src.newCloudlet.ports != None {
        var ys := AppPort.CloneAll(src.newCloudlet.ports.value);
        newCloudlet.ports := Some(ys);
        changed := changed + 1;
      } else if newCloudlet.ports != None {
        newCloudlet.ports := None;
        changed := changed + 1;
      }
    }

    /** The map `newCloudlet.tags`, replaced by a copy of the source's. */
    method ReplaceNewCloudletTags(src: ServerEdgeEvent, before: int) returns (changed: int)
      requires newCloudlet != null && src.newCloudlet != null
      requires src.newCloudlet != newCloudlet
      modifies newCloudlet`tags
      ensures newCloudlet.tags != null ==> fresh(newCloudlet.tags)
      ensures TagMap.Contents(newCloudlet.tags) == old(TagMap.Contents(src.newCloudlet.tags))
      ensures changed == if src.newCloudlet.tags == old(newCloudlet.tags) == null then before else before + 1
    {
      changed := before;
      if src.newCloudlet.tags != null {
        newCloudlet.tags := TagMap.Copied(src.newCloudlet.tags);
        changed := changed + 1;
      } else if newCloudlet.tags != null {
        newCloudlet.tags := null;
        changed := changed + 1;
      }
    }

    /** The fields from `newCloudlet.ver` to `newCloudlet.status`. */
    method CopyNewCloudletVerToStatus(src: ServerEdgeEvent, before: int, ghost m: Tree, ghost s: Tree)
        returns (changed: int)
      requires newCloudlet != null && src.newCloudlet != null
      requires newCloudlet.Underway(src.newCloudlet, m, s, 0, before) && newCloudlet.Repr !! src.newCloudlet.Repr
      modifies newCloudlet`ver, newCloudlet`status
      ensures newCloudlet.Underway(src.newCloudlet, m, s, 2, changed)
      ensures newCloudlet.Repr == old(newCloudlet.Repr) && src.newCloudlet.Repr == old(src.newCloudlet.Repr)
    {
      hide FindCloudletReply.Footprint, FindCloudletReply.Fields, AppPort.View, AppPort.Fields, AppPort.Views,
          AppPort.Trees, Loc.Fields, Loc.View, FindCloudletReply.Valid, FindCloudletReply.Items, CopiedUpTo,
          CopyTree, TreeChanges, CopyItem, Changes, FloatEq;
      changed := before;
      if newCloudlet.ver != src.newCloudlet.ver {
        newCloudlet.ver := src.newCloudlet.ver;
        changed := changed + 1;
      }
      if newCloudlet.status != src.newCloudlet.status {
        newCloudlet.status := src.newCloudlet.status;
        changed := changed + 1;
      }
      newCloudlet.FieldsKept();
      newCloudlet.VerToStatusSet(src.newCloudlet, m, s, before, changed);
    }

    /** The field `newCloudlet.fqdn`. */
    method CopyNewCloudletFqdn(src: ServerEdgeEvent, before: int, ghost m: Tree, ghost s: Tree)
        returns (changed: int)
      requires newCloudlet != null && src.newCloudlet != null
      requires newCloudlet.Underway(src.newCloudlet, m, s, 2, before) && newCloudlet.Repr !! src.newCloudlet.Repr
      modifies newCloudlet`fqdn
      ensures newCloudlet.Underway(src.newCloudlet, m, s, 3, changed)
      ensures newCloudlet.Repr == old(newCloudlet.Repr) && src.newCloudlet.Repr == old(src.newCloudlet.Repr)
    {
      hide FindCloudletReply.Footprint, FindCloudletReply.Fields, AppPort.View, AppPort.Fields, AppPort.Views,
          AppPort.Trees, Loc.Fields, Loc.View, FindCloudletReply.Valid, FindCloudletReply.Items, CopiedUpTo,
          CopyTree, TreeChanges, CopyItem, Changes, FloatEq;
      changed := before;
      if newCloudlet.fqdn != src.newCloudlet.fqdn {
        newCloudlet.fqdn := src.newCloudlet.fqdn;
        changed := changed + 1;
      }
      newCloudlet.FieldsKept();
      newCloudlet.FqdnSet(src.newCloudlet, m, s, before, changed);
    }

    /** The list `newCloudlet.ports`, and what its copy leaves as it was. */
    method GraftNewCloudletPorts(src: ServerEdgeEvent, before: int) returns (changed: int)
      requires newCloudlet != null && src.newCloudlet != null
      requires newCloudlet.Valid() && src.newCloudlet.Valid() && newCloudlet.Repr !! src.newCloudlet.Repr
      modifies newCloudlet`ports, newCloudlet`Repr
      ensures newCloudlet.Valid() && fresh(newCloudlet.Repr - old(newCloudlet.Repr))
          && src.newCloudlet.Valid() && src.newCloudlet.Repr == old(src.newCloudlet.Repr)
      ensures src.newCloudlet.Fields() == old(src.newCloudlet.Fields())
      ensures newCloudlet.ports.None? <==> src.newCloudlet.ports.None?
      ensures AppPort.Trees(Elems(newCloudlet.ports)) == Bares(old(AppPort.Trees(Elems(src.newCloudlet.ports))))
      ensures Loc.FieldsOf(newCloudlet.cloudletLocation) == old(Loc.FieldsOf(newCloudlet.cloudletLocation))
      ensures TagMap.Contents(newCloudlet.tags) == old(TagMap.Contents(newCloudlet.tags))
      ensures changed == if src.newCloudlet.ports == old(newCloudlet.ports) == None then before else before + 1
    {
      hide FindCloudletReply.Fields, AppPort.View, AppPort.Fields, AppPort.Views, AppPort.Trees, Loc.Fields,
          Loc.View, FindCloudletReply.Valid, FindCloudletReply.Footprint, Bares;
      newCloudlet.PortsItem();
      src.newCloudlet.PortsItem();
      changed := ReplaceNewCloudletPorts(src, before);
      src.newCloudlet.Same();
      newCloudlet.Repr := newCloudlet.Footprint();
      newCloudlet.PortsTaken();
    }

    /** The list `newCloudlet.ports`, as a change to the whole message. */
    method PlaceNewCloudletPorts(src: ServerEdgeEvent, before: int) returns (changed: int)
      requires newCloudlet != null && src.newCloudlet != null
      requires newCloudlet.Valid() && src.newCloudlet.Valid() && newCloudlet.Repr !! src.newCloudlet.Repr
      modifies newCloudlet`ports, newCloudlet`Repr
      ensures newCloudlet.Valid() && fresh(newCloudlet.Repr - old(newCloudlet.Repr))
          && src.newCloudlet.Valid() && src.newCloudlet.Repr == old(src.newCloudlet.Repr)
      ensures src.newCloudlet.Fields() == old(src.newCloudlet.Fields())
      ensures ManyPlaced(newCloudlet.Fields(), old(newCloudlet.Fields()), old(src.newCloudlet.Fields()), 3,
          before, changed)
    {
      hide FindCloudletReply.Fields, AppPort.View, AppPort.Fields, AppPort.Views, AppPort.Trees, Loc.Fields,
          Loc.View, Loc.FieldsOf, TagMap.Contents, FindCloudletReply.Valid, FindCloudletReply.Items, ItemsKept,
          OneTaken, CopyTree, TreeChanges, Onto, Bares, BareItem, FindCloudletReply.Footprint;
      newCloudlet.PortsItem();
      src.newCloudlet.PortsItem();
      changed := GraftNewCloudletPorts(src, before);
      newCloudlet.PortsItem();
      newCloudlet.PortsAside();
      if src.newCloudlet.ports != None {
        BareMany(old(AppPort.Trees(Elems(src.newCloudlet.ports))));
      } else {
        BareNil();
      }
    }

    /** The list `newCloudlet.ports`. */
    method CopyNewCloudletPorts(src: ServerEdgeEvent, before: int, ghost m: Tree, ghost s: Tree)
        returns (changed: int)
      requires newCloudlet != null && src.newCloudlet != null
      requires newCloudlet.Underway(src.newCloudlet, m, s, 3, before) && newCloudlet.Repr !! src.newCloudlet.Repr
      modifies newCloudlet`ports, newCloudlet`Repr
      ensures newCloudlet.Underway(src.newCloudlet, m, s, 4, changed)
      ensures fresh(newCloudlet.Repr - old(newCloudlet.Repr)) && src.newCloudlet.Repr == old(src.newCloudlet.Repr)
    {
      hide FindCloudletReply.Footprint, FindCloudletReply.Fields, AppPort.View, AppPort.Fields, AppPort.Views,
          AppPort.Trees, Loc.Fields, Loc.View, FindCloudletReply.Valid, FindCloudletReply.Items, CopiedUpTo,
          CopyTree, TreeChanges, CopyItem, Changes, FloatEq;
      ghost var r := newCloudlet.Fields();
      changed := before;
      changed := PlaceNewCloudletPorts(src, changed);
      CopyMany(r, newCloudlet.Fields(), m, s, 3, before, changed);
    }

    /** The sub-message `newCloudlet.cloudletLocation`, and what its copy leaves as it was. */
    method GraftNewCloudletCloudletLocation(src: ServerEdgeEvent, before: int) returns (changed: int)
      requires newCloudlet != null && src.newCloudlet != null
      requires newCloudlet.Valid() && src.newCloudlet.Valid() && newCloudlet.Repr !! src.newCloudlet.Repr
      modifies newCloudlet`cloudletLocation, newCloudlet.cloudletLocation,
          Loc.StampOf(newCloudlet.cloudletLocation), newCloudlet`Repr
      ensures newCloudlet.Valid() && fresh(newCloudlet.Repr - old(newCloudlet.Repr))
      ensures newCloudlet.cloudletLocation == null
          || newCloudlet.cloudletLocation == old(newCloudlet.cloudletLocation)
          || (old(newCloudlet.cloudletLocation) == null && fresh(newCloudlet.cloudletLocation))
      ensures newCloudlet.cloudletLocation != null ==>
                || newCloudlet.cloudletLocation.timestamp == null
                || newCloudlet.cloudletLocation.timestamp == old(Loc.StampOf(newCloudlet.cloudletLocation))
                || (old(Loc.StampOf(newCloudlet.cloudletLocation)) == null
                    && fresh(newCloudlet.cloudletLocation.timestamp))
      ensures AppPort.Trees(Elems(newCloudlet.ports)) == old(AppPort.Trees(Elems(newCloudlet.ports)))
      ensures TagMap.Contents(newCloudlet.tags) == old(TagMap.Contents(newCloudlet.tags))
      ensures OneTaken(Loc.FieldsOf(newCloudlet.cloudletLocation),
          old(Loc.FieldsOf(newCloudlet.cloudletLocation)), old(Loc.FieldsOf(src.newCloudlet.cloudletLocation)),
          before, changed)
    {
      hide FindCloudletReply.Fields, AppPort.View, AppPort.Fields, AppPort.Views, AppPort.Trees, Loc.Fields,
          Loc.View, FindCloudletReply.Valid, FindCloudletReply.Footprint, CopyTree, TreeChanges, Onto, OneTaken;
      newCloudlet.CloudletLocationItem();
      src.newCloudlet.CloudletLocationItem();
      changed := TakeNewCloudletCloudletLocation(src, before);
      newCloudlet.Repr := newCloudlet.Footprint();
      newCloudlet.CloudletLocationTaken();
    }

    /** The sub-message `newCloudlet.cloudletLocation`, as a change to the whole message. */
    method PlaceNewCloudletCloudletLocation(src: ServerEdgeEvent, before: int) returns (changed: int)
      requires newCloudlet != null && src.newCloudlet != null
      requires newCloudlet.Valid() && src.newCloudlet.Valid() && newCloudlet.Repr !! src.newCloudlet.Repr
      modifies newCloudlet`cloudletLocation, newCloudlet.cloudletLocation,
          Loc.StampOf(newCloudlet.cloudletLocation), newCloudlet`Repr
      ensures newCloudlet.Valid() && fresh(newCloudlet.Repr - old(newCloudlet.Repr))
          && src.newCloudlet.Valid() && src.newCloudlet.Repr == old(src.newCloudlet.Repr)
      ensures newCloudlet.cloudletLocation == null
          || newCloudlet.cloudletLocation == old(newCloudlet.cloudletLocation)
          || (old(newCloudlet.cloudletLocation) == null && fresh(newCloudlet.cloudletLocation))
      ensures newCloudlet.cloudletLocation != null ==>
                || newCloudlet.cloudletLocation.timestamp == null
                || newCloudlet.cloudletLocation.timestamp == old(Loc.StampOf(newCloudlet.cloudletLocation))
                || (old(Loc.StampOf(newCloudlet.cloudletLocation)) == null
                    && fresh(newCloudlet.cloudletLocation.timestamp))
      ensures src.newCloudlet.Fields() == old(src.newCloudlet.Fields())
      ensures OnePlaced(newCloudlet.Fields(), old(newCloudlet.Fields()), old(src.newCloudlet.Fields()), 4,
          before, changed)
    {
      hide FindCloudletReply.Fields, AppPort.View, AppPort.Fields, AppPort.Views, AppPort.Trees, Loc.Fields,
          Loc.View, Loc.FieldsOf, TagMap.Contents, FindCloudletReply.Valid, FindCloudletReply.Items, ItemsKept,
          OneTaken, CopyTree, TreeChanges, Onto, Bares, BareItem;
      newCloudlet.CloudletLocationItem();
      src.newCloudlet.CloudletLocationItem();
      changed := GraftNewCloudletCloudletLocation(src, before);
      src.newCloudlet.Same();
      newCloudlet.CloudletLocationItem();
      newCloudlet.CloudletLocationAside();
    }

    /** The sub-message `newCloudlet.cloudletLocation`. */
    method CopyNewCloudletCloudletLocation(src: ServerEdgeEvent, before: int, ghost m: Tree,
        ghost s: Tree) returns (changed: int)
      requires newCloudlet != null && src.newCloudlet != null
      requires newCloudlet.Underway(src.newCloudlet, m, s, 4, before) && newCloudlet.Repr !! src.newCloudlet.Repr
      modifies newCloudlet`cloudletLocation, newCloudlet.cloudletLocation,
          Loc.StampOf(newCloudlet.cloudletLocation), newCloudlet`Repr
      ensures newCloudlet.Underway(src.newCloudlet, m, s, 5, changed)
      ensures fresh(newCloudlet.Repr - old(newCloudlet.Repr)) && src.newCloudlet.Repr == old(src.newCloudlet.Repr)
      ensures newCloudlet.cloudletLocation == null
          || newCloudlet.cloudletLocation == old(newCloudlet.cloudletLocation)
          || (old(newCloudlet.cloudletLocation) == null && fresh(newCloudlet.cloudletLocation))
      ensures newCloudlet.cloudletLocation != null ==>
                || newCloudlet.cloudletLocation.timestamp == null
                || newCloudlet.cloudletLocation.timestamp == old(Loc.StampOf(newCloudlet.cloudletLocation))
                || (old(Loc.StampOf(newCloudlet.cloudletLocation)) == null
                    && fresh(newCloudlet.cloudletLocation.timestamp))
    {
      hide FindCloudletReply.Footprint, FindCloudletReply.Fields, AppPort.View, AppPort.Fields, AppPort.Views,
          AppPort.Trees, Loc.Fields, Loc.View, FindCloudletReply.Valid, FindCloudletReply.Items, CopiedUpTo,
          CopyTree, TreeChanges, CopyItem, Changes, FloatEq;
      ghost var r := newCloudlet.Fields();
      changed := before;
      changed := PlaceNewCloudletCloudletLocation(src, changed);
      CopyOne(r, newCloudlet.Fields(), m, s, 4, before, changed);
    }

    /** The fields from `newCloudlet.edgeEventsCookie` to `newCloudlet.qosResult`. */
    method CopyNewCloudletEdgeEventsCookieToQosResult(src: ServerEdgeEvent, before: int, ghost m: Tree,
        ghost s: Tree) returns (changed: int)
      requires newCloudlet != null && src.newCloudlet != null
      requires newCloudlet.Underway(src.newCloudlet, m, s, 5, before) && newCloudlet.Repr !! src.newCloudlet.Repr
      modifies newCloudlet`edgeEventsCookie, newCloudlet`qosResult
      ensures newCloudlet.Underway(src.newCloudlet, m, s, 7, changed)
      ensures newCloudlet.Repr == old(newCloudlet.Repr) && src.newCloudlet.Repr == old(src.newCloudlet.Repr)
    {
      hide FindCloudletReply.Footprint, FindCloudletReply.Fields, AppPort.View, AppPort.Fields, AppPort.Views,
          AppPort.Trees, Loc.Fields, Loc.View, FindCloudletReply.Valid, FindCloudletReply.Items, CopiedUpTo,
          CopyTree, TreeChanges, CopyItem, Changes, FloatEq;
      changed := before;
      if newCloudlet.edgeEventsCookie != src.newCloudlet.edgeEventsCookie {
        newCloudlet.edgeEventsCookie := src.newCloudlet.edgeEventsCookie;
        changed := changed + 1;
      }
      if newCloudlet.qosResult != src.newCloudlet.qosResult {
        newCloudlet.qosResult := src.newCloudlet.qosResult;
        changed := changed + 1;
      }
      newCloudlet.FieldsKept();
      newCloudlet.EdgeEventsCookieToQosResultSet(src.newCloudlet, m, s, before, changed);
    }

    /** The field `newCloudlet.qosErrorMsg`. */
    method CopyNewCloudletQosErrorMsg(src: ServerEdgeEvent, before: int, ghost m: Tree, ghost s: Tree)
        returns (changed: int)
      requires newCloudlet != null && src.newCloudlet != null
      requires newCloudlet.Underway(src.newCloudlet, m, s, 7, before) && newCloudlet.Repr !! src.newCloudlet.Repr
      modifies newCloudlet`qosErrorMsg
      ensures newCloudlet.Underway(src.newCloudlet, m, s, 8, changed)
      ensures newCloudlet.Repr == old(newCloudlet.Repr) && src.newCloudlet.Repr == old(src.newCloudlet.Repr)
    {
      hide FindCloudletReply.Footprint, FindCloudletReply.Fields, AppPort.View, AppPort.Fields, AppPort.Views,
          AppPort.Trees, Loc.Fields, Loc.View, FindCloudletReply.Valid, FindCloudletReply.Items, CopiedUpTo,
          CopyTree, TreeChanges, CopyItem, Changes, FloatEq;
      changed := before;
      if newCloudlet.qosErrorMsg != src.newCloudlet.qosErrorMsg {
        newCloudlet.qosErrorMsg := src.newCloudlet.qosErrorMsg;
        changed := changed + 1;
      }
      newCloudlet.FieldsKept();
      newCloudlet.QosErrorMsgSet(src.newCloudlet, m, s, before, changed);
    }

    /** The map `newCloudlet.tags`, and what its copy leaves as it was. */
    method GraftNewCloudletTags(src: ServerEdgeEvent, before: int) returns (changed: int)
      requires newCloudlet != null && src.newCloudlet != null
      requires newCloudlet.Valid() && src.newCloudlet.Valid() && newCloudlet.Repr !! src.newCloudlet.Repr
      modifies newCloudlet`tags, newCloudlet`Repr
      ensures newCloudlet.Valid() && fresh(newCloudlet.Repr - old(newCloudlet.Repr))
          && src.newCloudlet.Valid() && src.newCloudlet.Repr == old(src.newCloudlet.Repr)
      ensures src.newCloudlet.Fields() == old(src.newCloudlet.Fields())
      ensures newCloudlet.tags != null ==> fresh(newCloudlet.tags)
      ensures TagMap.Contents(newCloudlet.tags) == old(TagMap.Contents(src.newCloudlet.tags))
      ensures Loc.FieldsOf(newCloudlet.cloudletLocation) == old(Loc.FieldsOf(newCloudlet.cloudletLocation))
      ensures AppPort.Trees(Elems(newCloudlet.ports)) == old(AppPort.Trees(Elems(newCloudlet.ports)))
      ensures var x, r := old(TagMap.Contents(src.newCloudlet.tags)), old(TagMap.Contents(newCloudlet.tags));
              changed == if x == r == None then before else before + 1
    {
      hide FindCloudletReply.Fields, AppPort.View, AppPort.Fields, AppPort.Views, AppPort.Trees, Loc.Fields,
          Loc.View, FindCloudletReply.Valid, FindCloudletReply.Footprint;
      newCloudlet.TagsItem();
      src.newCloudlet.TagsItem();
      changed := ReplaceNewCloudletTags(src, before);
      src.newCloudlet.Same();
      newCloudlet.Repr := newCloudlet.Footprint();
      newCloudlet.TagsTaken();
    }

    /** The map `newCloudlet.tags`, as a change to the whole message. */
    method PlaceNewCloudletTags(src: ServerEdgeEvent, before: int) returns (changed: int)
      requires newCloudlet != null && src.newCloudlet != null
      requires newCloudlet.Valid() && src.newCloudlet.Valid() && newCloudlet.Repr !! src.newCloudlet.Repr
      modifies newCloudlet`tags, newCloudlet`Repr
      ensures newCloudlet.Valid() && fresh(newCloudlet.Repr - old(newCloudlet.Repr))
          && src.newCloudlet.Valid() && src.newCloudlet.Repr == old(src.newCloudlet.Repr)
      ensures src.newCloudlet.Fields() == old(src.newCloudlet.Fields())
      ensures newCloudlet.tags != null ==> fresh(newCloudlet.tags)
      ensures TagsPlaced(newCloudlet.Fields(), old(newCloudlet.Fields()), old(src.newCloudlet.Fields()), 8,
          before, changed)
    {
      hide FindCloudletReply.Fields, AppPort.View, AppPort.Fields, AppPort.Views, AppPort.Trees, Loc.Fields,
          Loc.View, Loc.FieldsOf, TagMap.Contents, FindCloudletReply.Valid, FindCloudletReply.Items, ItemsKept,
          OneTaken, CopyTree, TreeChanges, Onto, Bares, BareItem, FindCloudletReply.Footprint;
      newCloudlet.TagsItem();
      src.newCloudlet.TagsItem();
      changed := GraftNewCloudletTags(src, before);
      newCloudlet.TagsItem();
      newCloudlet.TagsAside();
    }

    /** The map `newCloudlet.tags`. */
    method CopyNewCloudletTags(src: ServerEdgeEvent, before: int, ghost m: Tree, ghost s: Tree)
        returns (changed: int)
      requires newCloudlet != null && src.newCloudlet != null
      requires newCloudlet.Underway(src.newCloudlet, m, s, 8, before) && newCloudlet.Repr !! src.newCloudlet.Repr
      modifies newCloudlet`tags, newCloudlet`Repr
      ensures newCloudlet.Underway(src.newCloudlet, m, s, 9, changed)
      ensures fresh(newCloudlet.Repr - old(newCloudlet.Repr)) && src.newCloudlet.Repr == old(src.newCloudlet.Repr)
      ensures newCloudlet.tags != null ==> fresh(newCloudlet.tags)
    {
      hide FindCloudletReply.Footprint, FindCloudletReply.Fields, AppPort.View, AppPort.Fields, AppPort.Views,
          AppPort.Trees, Loc.Fields, Loc.View, FindCloudletReply.Valid, FindCloudletReply.Items, CopiedUpTo,
          CopyTree, TreeChanges, CopyItem, Changes, FloatEq;
      ghost var r := newCloudlet.Fields();
      changed := before;
      changed := PlaceNewCloudletTags(src, changed);
      CopyMap(r, newCloudlet.Fields(), m, s, 8, before, changed);
    }

    /** All fields of `newCloudlet`. */
    method CopyNewCloudletFields(src: ServerEdgeEvent, ghost m: Tree, ghost s: Tree) returns (changed: int)
      requires newCloudlet != null && src.newCloudlet != null
      requires newCloudlet.Underway(src.newCloudlet, m, s, 0, 0) && newCloudlet.Repr !! src.newCloudlet.Repr
      modifies newCloudlet
      modifies FindCloudletReply.LocationOf(newCloudlet), FindCloudletReply.StampOf(newCloudlet)
      ensures newCloudlet.Underway(src.newCloudlet, m, s, 9, changed)
      ensures fresh(newCloudlet.Repr - old(newCloudlet.Repr)) && src.newCloudlet.Repr == old(src.newCloudlet.Repr)
    {
      hide FindCloudletReply.Underway, FindCloudletReply.Fields, FindCloudletReply.Valid,
          FindCloudletReply.Footprint, FindCloudletReply.Items, CopyTree,
          TreeChanges, CopiedUpTo;
      changed := 0;
      changed := CopyNewCloudletVerToStatus(src, changed, m, s);
      changed := CopyNewCloudletFqdn(src, changed, m, s);
      changed := CopyNewCloudletPorts(src, changed, m, s);
      changed := CopyNewCloudletCloudletLocation(src, changed, m, s);
      changed := CopyNewCloudletEdgeEventsCookieToQosResult(src, changed, m, s);
      changed := CopyNewCloudletQosErrorMsg(src, changed, m, s);
      changed := CopyNewCloudletTags(src, changed, m, s);
    }

    /** The fields of `newCloudlet`, into the message that is there or into a new one. */
    method FillNewCloudlet(src: ServerEdgeEvent) returns (changed: int)
      requires src.newCloudlet != null && src.newCloudlet.Valid()
      requires src != this
      requires newCloudlet != null ==> newCloudlet.Valid()
      requires newCloudlet != null && src.newCloudlet != null ==> newCloudlet.Repr !! src.newCloudlet.Repr
      modifies `newCloudlet, newCloudlet
      modifies FindCloudletReply.LocationOf(newCloudlet), FindCloudletReply.StampOf(newCloudlet)
      ensures newCloudlet != null && (newCloudlet == old(newCloudlet) || (old(newCloudlet) == null
          && fresh(newCloudlet)))
      ensures newCloudlet.Valid() && fresh(newCloudlet.Repr - old(FindCloudletReply.ReprOf(newCloudlet)))
      ensures src.newCloudlet == old(src.newCloudlet)
      ensures src.newCloudlet.Valid() && src.newCloudlet.Repr == old(src.newCloudlet.Repr)
      ensures src.newCloudlet.Fields() == old(src.newCloudlet.Fields())
      ensures OneTaken(Some(newCloudlet.Fields()), old(FindCloudletReply.FieldsOf(newCloudlet)),
                  old(Some(src.newCloudlet.Fields())), 0, changed)
    {
      hide FindCloudletReply.Fields, FindCloudletReply.Valid, FindCloudletReply.Footprint,
          FindCloudletReply.Items, CopyTree,
          TreeChanges, CopiedUpTo;
      ghost var s := src.newCloudlet.Fields();
      ghost var b := Onto(One(FindCloudletReply.FieldsOf(newCloudlet)), s);
      if newCloudlet == null {
        newCloudlet := new FindCloudletReply();
        newCloudlet.NewFields(src.newCloudlet);
      }
      assert newCloudlet.Fields() == b;
      CopyStart(b, s);
      changed := CopyNewCloudletFields(src, b, s);
      CopyDone(newCloudlet.Fields(), b, s, changed);
    }

    /** The inlined copy of `newCloudlet`: the same state and count as its own `CopyInFields`. */
    method TakeNewCloudlet(src: ServerEdgeEvent, before: int) returns (changed: int)
      requires src.newCloudlet != null ==> src.newCloudlet.Valid()
      requires src != this
      requires newCloudlet != null ==> newCloudlet.Valid()
      requires newCloudlet != null && src.newCloudlet != null ==> newCloudlet.Repr !! src.newCloudlet.Repr
      modifies `newCloudlet, newCloudlet
      modifies FindCloudletReply.LocationOf(newCloudlet), FindCloudletReply.StampOf(newCloudlet)
      ensures newCloudlet == null || newCloudlet == old(newCloudlet) || (old(newCloudlet) == null
          && fresh(newCloudlet))
      ensures newCloudlet != null ==>
                newCloudlet.Valid() && fresh(newCloudlet.Repr - old(FindCloudletReply.ReprOf(newCloudlet)))
      ensures OneTaken(FindCloudletReply.FieldsOf(newCloudlet), old(FindCloudletReply.FieldsOf(newCloudlet)),
                  old(FindCloudletReply.FieldsOf(src.newCloudlet)), before, changed)
      ensures src.newCloudlet != null ==> src.newCloudlet.Valid()
      ensures FindCloudletReply.FieldsOf(src.newCloudlet) == old(FindCloudletReply.FieldsOf(src.newCloudlet))
    {
      hide FindCloudletReply.Fields, FindCloudletReply.Valid, FindCloudletReply.Footprint,
          FindCloudletReply.Items, CopyTree,
          TreeChanges, CopiedUpTo, Onto;
      changed := before;
      if src.newCloudlet != null {
        var count := FillNewCloudlet(src);
        changed := changed + count;
      } else if newCloudlet != null {
        newCloudlet := null;
        changed := changed + 1;
      }
    }
  }
}
