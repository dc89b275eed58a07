/** The list-valued message of qos-position.pb.go, BandSelection, and its inlined copy inside
    QosPositionRequest, of which only that field is modelled. */
module QosPosition {
  import opened GoInts
  import opened Schemas
  import opened Copying
  import opened StringLists

  class BandSelection {
    var rat2G: Option<seq<bytes>>
    var rat3G: Option<seq<bytes>>
    var rat4G: Option<seq<bytes>>
    var rat5G: Option<seq<bytes>>
    var unrecognized: bytes

    constructor ()
      ensures rat2G == None && rat3G == None && rat4G == None && rat5G == None && unrecognized == []
    {
      rat2G := None;
      rat3G := None;
      rat4G := None;
      rat5G := None;
      unrecognized := [];
    }

    method AddRat2G(vals: seq<bytes>) returns (changes: nat)
      modifies `rat2G
      ensures rat2G == Added(old(rat2G), vals) && changes == |Absent(vals, Elems(old(rat2G)))|
    {
      rat2G, changes := AddStrings(rat2G, vals);
    }

    method AddRat3G(vals: seq<bytes>) returns (changes: nat)
      modifies `rat3G
      ensures rat3G == Added(old(rat3G), vals) && changes == |Absent(vals, Elems(old(rat3G)))|
    {
      rat3G, changes := AddStrings(rat3G, vals);
    }

    method AddRat4G(vals: seq<bytes>) returns (changes: nat)
      modifies `rat4G
      ensures rat4G == Added(old(rat4G), vals) && changes == |Absent(vals, Elems(old(rat4G)))|
    {
      rat4G, changes := AddStrings(rat4G, vals);
    }

    method AddRat5G(vals: seq<bytes>) returns (changes: nat)
      modifies `rat5G
      ensures rat5G == Added(old(rat5G), vals) && changes == |Absent(vals, Elems(old(rat5G)))|
    {
      rat5G, changes := AddStrings(rat5G, vals);
    }

    //
    // Copying
    //

    static ghost function Items(rat2G: Option<seq<bytes>>, rat3G: Option<seq<bytes>>,
        rat4G: Option<seq<bytes>>, rat5G: Option<seq<bytes>>): (items: seq<Item>)
      ensures |items| == 4
      ensures items[0] == Texts(rat2G)
      ensures items[1] == Texts(rat3G)
      ensures items[2] == Texts(rat4G)
      ensures items[3] == Texts(rat5G)
    {
      [Texts(rat2G), Texts(rat3G), Texts(rat4G), Texts(rat5G)]
    }

    /** The message as copying sees it. */
    ghost function Fields(): (t: Tree)
      reads this
      ensures |t.items| == 4
    {
      Tree(Items(rat2G, rat3G, rat4G, rat5G), unrecognized)
    }

    /** A message that may be nil, as copying sees it. */
    static ghost function FieldsOf(x: BandSelection?): Option<Tree>
      reads x
    {
      if x != null then Some(x.Fields()) else None
    }

    /** A new message is the zero of its type. */
    lemma NewFields(src: BandSelection)
      requires rat2G == None && rat3G == None && rat4G == None && rat5G == None && unrecognized == []
      ensures Fields() == Zero(src.Fields())
    {
      hide Items;
      assert Fields().items == Zero(src.Fields()).items;
    }

    /** The messages have the same declared fields, at every level. A float may be either zero where the
        other is. */
    ghost predicate Equals(o: BandSelection)
      reads this, o
    {
      && rat2G == o.rat2G
      && rat3G == o.rat3G
      && rat4G == o.rat4G
      && rat5G == o.rat5G
    }

    /** The same to copying is the same field by field. */
    lemma SameIsEqual(o: BandSelection)
      requires SameTree(Fields(), o.Fields())
      ensures Equals(o)
    {
      hide Items;
      ghost var r, s := Fields().items, o.Fields().items;
      assert SameItem(r[0], s[0]);
      assert SameItem(r[1], s[1]);
      assert SameItem(r[2], s[2]);
      assert SameItem(r[3], s[3]);
    }

    lemma FieldsUnknown()
      ensures Fields().unknown == unrecognized
    {
    }

    /** What copying the fields from `rat2G` to `rat3G` does to the message. */
    twostate lemma Rat2GToRat3GSet(new src: BandSelection, new m: Tree, new s: Tree, new before: int,
        new changed: int)
      requires src.Fields() == s
      requires CopiedUpTo(old(Fields()), m, s, 0, before)
      requires unrecognized == old(unrecognized)
      requires rat2G == src.rat2G
      requires rat3G == src.rat3G
      requires rat4G == old(rat4G)
      requires rat5G == old(rat5G)
      requires changed == before +
                 (if src.rat2G == old(rat2G) == None then 0 else 1) +
                 (if src.rat3G == old(rat3G) == None then 0 else 1)
      ensures CopiedUpTo(Fields(), m, s, 2, changed)
    {
      hide Items, CopiedUpTo, CopyItem, Changes, FloatEq;
      ListItem(old(Fields()).items[0], s.items[0]);
      ListItem(old(Fields()).items[1], s.items[1]);
      CopySpan(old(Fields()), Fields(), m, s, 0, 2, before, changed);
    }

    /** What copying the fields from `rat4G` to `rat5G` does to the message. */
    twostate lemma Rat4GToRat5GSet(new src: BandSelection, new m: Tree, new s: Tree, new before: int,
        new changed: int)
      requires src.Fields() == s
      requires CopiedUpTo(old(Fields()), m, s, 2, before)
      requires unrecognized == old(unrecognized)
      requires rat2G == old(rat2G)
      requires rat3G == old(rat3G)
      requires rat4G == src.rat4G
      requires rat5G == src.rat5G
      requires changed == before +
                 (if src.rat4G == old(rat4G) == None then 0 else 1) +
                 (if src.rat5G == old(rat5G) == None then 0 else 1)
      ensures CopiedUpTo(Fields(), m, s, 4, changed)
    {
      hide Items, CopiedUpTo, CopyItem, Changes, FloatEq;
      ListItem(old(Fields()).items[2], s.items[2]);
      ListItem(old(Fields()).items[3], s.items[3]);
      CopySpan(old(Fields()), Fields(), m, s, 2, 4, before, changed);
    }

    /** Messages of the same type are alike. */
    lemma FieldsAlike(src: BandSelection)
      ensures Alike(Fields(), src.Fields())
    {
      hide Items;
      assert AlikeItem(Fields().items[0], src.Fields().items[0]);
      assert AlikeItem(Fields().items[1], src.Fields().items[1]);
      assert AlikeItem(Fields().items[2], src.Fields().items[2]);
      assert AlikeItem(Fields().items[3], src.Fields().items[3]);
    }

    /** The fields from `rat2G` to `rat3G`. */
    method CopyRat2GToRat3G(src: BandSelection, before: int, ghost m: Tree, ghost s: Tree) returns (changed: int)
      requires src != this
      requires src.Fields() == s && CopiedUpTo(Fields(), m, s, 0, before)
      modifies `rat2G, `rat3G
      ensures src.Fields() == s && CopiedUpTo(Fields(), m, s, 2, changed)
    {
      hide Fields, Items, CopiedUpTo, CopyTree, TreeChanges, CopyItem, Changes, FloatEq;
      changed := before;
      if src.rat2G != None {
        rat2G := Some(src.rat2G.value);
        changed := changed + 1;
      } else if rat2G != None {
        rat2G := None;
        changed := changed + 1;
      }
      if src.rat3G != None {
        rat3G := Some(src.rat3G.value);
        changed := changed + 1;
      } else if rat3G != None {
        rat3G := None;
        changed := changed + 1;
      }
      Rat2GToRat3GSet(src, m, s, before, changed);
    }

    /** The fields from `rat4G` to `rat5G`. */
    method CopyRat4GToRat5G(src: BandSelection, before: int, ghost m: Tree, ghost s: Tree) returns (changed: int)
      requires src != this
      requires src.Fields() == s && CopiedUpTo(Fields(), m, s, 2, before)
      modifies `rat4G, `rat5G
      ensures src.Fields() == s && CopiedUpTo(Fields(), m, s, 4, changed)
    {
      hide Fields, Items, CopiedUpTo, CopyTree, TreeChanges, CopyItem, Changes, FloatEq;
      changed := before;
      if src.rat4G != None {
        rat4G := Some(src.rat4G.value);
        changed := changed + 1;
      } else if rat4G != None {
        rat4G := None;
        changed := changed + 1;
      }
      if src.rat5G != None {
        rat5G := Some(src.rat5G.value);
        changed := changed + 1;
      } else if rat5G != None {
        rat5G := None;
        changed := changed + 1;
      }
      Rat4GToRat5GSet(src, m, s, before, changed);
    }

    method CopyInFields(src: BandSelection) returns (changed: int)
      requires src != this
      modifies this
      ensures src.Fields() == old(src.Fields())
      ensures Fields() == CopyTree(old(Fields()), old(src.Fields()))
      ensures changed == TreeChanges(old(Fields()), old(src.Fields()))
      ensures SameTree(Fields(), src.Fields()) && (changed == 0 ==> Untouched(old(Fields()), Fields()))
      ensures Equals(src) && unrecognized == old(unrecognized)
    {
      hide Fields, Items, CopiedUpTo, CopyTree, TreeChanges, CopyItem, Changes, FloatEq, SameTree, Untouched,
          Alike, Equals;
      ghost var m, s := Fields(), src.Fields();
      FieldsAlike(src);
      FieldsUnknown();
      changed := 0;
      CopyStart(m, s);
      changed := CopyRat2GToRat3G(src, changed, m, s);
      changed := CopyRat4GToRat5G(src, changed, m, s);
      CopyDone(Fields(), m, s, changed);
      CopyAgrees(m, s);
      SameIsEqual(src);
      FieldsUnknown();
      if changed == 0 {
        NoChanges(m, s);
      }
    }

    /** The fields of a deep copy. */
    lemma DeepCopied(src: BandSelection)
      requires rat2G == src.rat2G
      requires rat3G == src.rat3G
      requires rat4G == src.rat4G
      requires rat5G == src.rat5G
      ensures Fields() == Bare(src.Fields()).(unknown := unrecognized)
    {
      hide Items, Bare, Bares;
      BareFields(Fields(), src.Fields());
    }

    method DeepCopyIn(src: BandSelection)
      requires src != this
      modifies this
      ensures Fields() == Bare(old(src.Fields())).(unknown := old(unrecognized))
      ensures Equals(src) && unrecognized == old(unrecognized)
    {
      hide Fields, Items, Bare, Bares, SameTree, Equals;
      rat2G := src.rat2G;
      rat3G := src.rat3G;
      rat4G := src.rat4G;
      rat5G := src.rat5G;
      DeepCopied(src);
      BareSame(Fields(), src.Fields(), unrecognized);
      SameIsEqual(src);
    }

    method Clone() returns (cp: BandSelection)
      ensures fresh(cp)
      ensures cp.Fields() == Bare(old(Fields())) && SameTree(cp.Fields(), old(Fields()))
      ensures cp.Equals(this) && cp.unrecognized == []
    {
      hide SameTree, Equals;
      BareAgrees(Fields());
      cp := new BandSelection();
      cp.DeepCopyIn(this);
    }
  }

  class QosPositionRequest {
    var bandSelection: BandSelection?
    var unrecognized: bytes

    constructor ()
      ensures bandSelection == null && unrecognized == []
    {
      bandSelection := null;
      unrecognized := [];
    }

    /** Inside `bandSelection`: the fields from `rat2G` to `rat3G`. */
    method CopyBandSelectionRat2GToRat3G(src: QosPositionRequest, before: int, ghost m: Tree,
        ghost s: Tree) returns (changed: int)
      requires bandSelection != null && src != this && src.bandSelection != null
          && src.bandSelection != bandSelection
      requires src.bandSelection.Fields() == s && CopiedUpTo(bandSelection.Fields(), m, s, 0, before)
      modifies bandSelection`rat2G, bandSelection`rat3G
      ensures src.bandSelection.Fields() == s && CopiedUpTo(bandSelection.Fields(), m, s, 2, changed)
    {
      hide BandSelection.Items, CopiedUpTo, CopyTree, TreeChanges, CopyItem, Changes, FloatEq, BandSelection.Fields;
      changed := before;
      if src.bandSelection.rat2G != None {
        bandSelection.rat2G := Some(src.bandSelection.rat2G.value);
        changed := changed + 1;
      } else if bandSelection.rat2G != None {
        bandSelection.rat2G := None;
        changed := changed + 1;
      }
      if src.bandSelection.rat3G != None {
        bandSelection.rat3G := Some(src.bandSelection.rat3G.value);
        changed := changed + 1;
      } else if bandSelection.rat3G != None {
        bandSelection.rat3G := None;
        changed := changed + 1;
      }
      bandSelection.Rat2GToRat3GSet(src.bandSelection, m, s, before, changed);
    }

    /** Inside `bandSelection`: the fields from `rat4G` to `rat5G`. */
    method CopyBandSelectionRat4GToRat5G(src: QosPositionRequest, before: int, ghost m: Tree,
        ghost s: Tree) returns (changed: int)
      requires bandSelection != null && src != this && src.bandSelection != null
          && src.bandSelection != bandSelection
      requires src.bandSelection.Fields() == s && CopiedUpTo(bandSelection.Fields(), m, s, 2, before)
      modifies bandSelection`rat4G, bandSelection`rat5G
      ensures src.bandSelection.Fields() == s && CopiedUpTo(bandSelection.Fields(), m, s, 4, changed)
    {
      hide BandSelection.Items, CopiedUpTo, CopyTree, TreeChanges, CopyItem, Changes, FloatEq, BandSelection.Fields;
      changed := before;
      if src.bandSelection.rat4G != None {
        bandSelection.rat4G := Some(src.bandSelection.rat4G.value);
        changed := changed + 1;
      } else if bandSelection.rat4G != None {
        bandSelection.rat4G := None;
        changed := changed + 1;
      }
      if src.bandSelection.rat5G != None {
        bandSelection.rat5G := Some(src.bandSelection.rat5G.value);
        changed := changed + 1;
      } else if bandSelection.rat5G != None {
        bandSelection.rat5G := None;
        changed := changed + 1;
      }
      bandSelection.Rat4GToRat5GSet(src.bandSelection, m, s, before, changed);
    }

    /** The inlined copy of `bandSelection`: into the one that is there, or into a new one. */
    method TakeBandSelection(src: QosPositionRequest, before: int) returns (changed: int)
      requires src != this && (bandSelection != null ==> src.bandSelection != bandSelection)
      modifies `bandSelection, bandSelection
      ensures bandSelection == null || bandSelection == old(bandSelection) || (old(bandSelection) == null
          && fresh(bandSelection))
      ensures OneTaken(BandSelection.FieldsOf(bandSelection), old(BandSelection.FieldsOf(bandSelection)),
          old(BandSelection.FieldsOf(src.bandSelection)), before, changed)
      ensures BandSelection.FieldsOf(src.bandSelection) == old(BandSelection.FieldsOf(src.bandSelection))
    {
      hide BandSelection.Items, CopiedUpTo, CopyTree, TreeChanges, CopyItem, Changes, FloatEq, BandSelection.Fields;
      changed := before;
      if src.bandSelection != null {
        ghost var s := src.bandSelection.Fields();
        ghost var b := Onto(One(BandSelection.FieldsOf(bandSelection)), s);
        if bandSelection == null {
          bandSelection := new BandSelection();
          bandSelection.NewFields(src.bandSelection);
        }
        ghost var m := bandSelection.Fields();
        assert m == b;
        CopyStart(m, s);
        var count := 0;
        count := CopyBandSelectionRat2GToRat3G(src, count, m, s);
        count := CopyBandSelectionRat4GToRat5G(src, count, m, s);
        CopyDone(bandSelection.Fields(), m, s, count);
        changed := changed + count;
      } else if bandSelection != null {
        bandSelection := null;
        changed := changed + 1;
      }
    }
  }
}
