/** What `CopyInFields`, `DeepCopyIn` and `Clone` do to messages, as functions on values.
    Unlike the codec, copying tells a nil list or map from an empty one, and leaves the
    unknown bytes alone. */
module Copying {
  import opened GoInts
  import opened Errors
  import opened Schemas
  import opened Decoding
  import opened Unknowns
  import Encoding
  import Merging
  import RoundTrip

  /** A field as copying sees it. A float is its bits; a list, map or sub-message may be nil,
      in the messages of a list as well. */
  datatype Item =
    | Word(value: int)
    | Real(bits: uint64)
    | Text(text: bytes)
    | Texts(texts: Option<seq<bytes>>)
    | Tags(tags: Option<map<bytes, bytes>>)
    | One(one: Option<Tree>)
    | Many(many: Forest)

  datatype Tree = Tree(items: seq<Item>, unknown: bytes)

  /** The messages of a list. */
  datatype Forest = NilList | Forest(trees: seq<Tree>)

  //
  // Unknown bytes cleared at every level
  //

  function Cleared(m: Msg): (r: Msg)
    ensures r.unknown == [] && |r.vals| == |m.vals|
    ensures forall i :: 0 <= i < |m.vals| ==> r.vals[i] == ClearedVal(m.vals[i])
  {
    Msg(seq(|m.vals|, i requires 0 <= i < |m.vals| => ClearedVal(m.vals[i])), [])
  }

  function ClearedVal(v: Val): Val {
    match v
    case Sub(Some(x)) => Sub(Some(Cleared(x)))
    case Subs(xs) => Subs(seq(|xs|, i requires 0 <= i < |xs| => Cleared(xs[i])))
    case _ => v
  }

  /** A cleared message is one of the same type, and clean. */
  lemma {:induction false} ClearedIsClean(sc: Schema, m: Msg)
    requires WellTyped(sc, m)
    ensures WellTyped(sc, Cleared(m)) && Clean(sc, Cleared(m))
    decreases sc, 1
  {
    hide Cleared, ClearedVal, HasType, CleanVal, AllUnknown;
    AllUnknownNone(sc);
    forall i | 0 <= i < |sc.fields|
      ensures HasType(sc.fields[i].kind, ClearedVal(m.vals[i])) && CleanVal(sc.fields[i].kind, ClearedVal(m.vals[i]))
    {
      ClearedValIsClean(sc.fields[i].kind, m.vals[i]);
    }
  }

  lemma {:induction false} ClearedValIsClean(kind: Kind, v: Val)
    requires HasType(kind, v)
    ensures HasType(kind, ClearedVal(v)) && CleanVal(kind, ClearedVal(v))
    decreases kind, 0
  {
    hide Cleared, Clean, WellTyped;
    if kind.Message? && v.sub.Some? {
      ClearedIsClean(kind.schema, v.sub.value);
    } else if kind.RepeatedMessage? {
      forall i | 0 <= i < |v.subs|
        ensures WellTyped(kind.schema, Cleared(v.subs[i])) && Clean(kind.schema, Cleared(v.subs[i]))
      {
        ClearedIsClean(kind.schema, v.subs[i]);
      }
    }
  }

  //
  // Copying
  //

  predicate IsNaN(x: uint64) {
    x % TWO63 > 0x7FF0_0000_0000_0000
  }

  /** `==` on `float64`. */
  predicate FloatEq(x: uint64, y: uint64) {
    !IsNaN(x) && !IsNaN(y) && (x == y || (IsZero(Double, x) && IsZero(Double, y)))
  }

  function FloatCopied(m: uint64, s: uint64): uint64 {
    if FloatEq(m, s) then m else s
  }

  /** A new message of the type of x. */
  function Zero(x: Tree): (z: Tree)
    ensures |z.items| == |x.items|
  {
    Tree(seq(|x.items|, i requires 0 <= i < |x.items| => ZeroItem(x.items[i])), [])
  }

  function ZeroItem(x: Item): Item {
    match x
    case Word(_) => Word(0)
    case Real(_) => Real(0)
    case Text(_) => Text([])
    case Texts(_) => Texts(None)
    case Tags(_) => Tags(None)
    case One(_) => One(None)
    case Many(_) => Many(NilList)
  }

  /** The sub-message that x is copied into: a new one, if m holds none. */
  function Onto(m: Item, x: Tree): (b: Tree)
    ensures |b.items| == |x.items|
  {
    if m.One? && m.one.Some? && |m.one.value.items| == |x.items| then m.one.value else Zero(x)
  }

  /** What `Clone` makes of x. */
  function Bare(x: Tree): (r: Tree)
    ensures r.unknown == [] && |r.items| == |x.items|
    ensures forall i :: 0 <= i < |x.items| ==> r.items[i] == BareItem(x.items[i])
  {
    Tree(seq(|x.items|, i requires 0 <= i < |x.items| => BareItem(x.items[i])), [])
  }

  function BareItem(x: Item): Item {
    match x
    case One(Some(t)) => One(Some(Bare(t)))
    case Many(Forest(xs)) => Many(Forest(seq(|xs|, i requires 0 <= i < |xs| => Bare(xs[i]))))
    case _ => x
  }

  function Bares(xs: seq<Tree>): (ys: seq<Tree>)
    ensures |ys| == |xs| && forall i :: 0 <= i < |xs| ==> ys[i] == Bare(xs[i])
  {
    seq(|xs|, i requires 0 <= i < |xs| => Bare(xs[i]))
  }

  lemma BareMany(xs: seq<Tree>)
    ensures BareItem(Many(Forest(xs))) == Many(Forest(Bares(xs)))
  {
    assert BareItem(Many(Forest(xs))).many.trees == Bares(xs);
  }

  lemma BareNil()
    ensures BareItem(Many(NilList)) == Many(NilList)
  {
  }

  /** The field m after `CopyInFields` from a message whose field is s: sub-messages are copied
      into field by field, lists are replaced by clones. */
  function CopyItem(m: Item, s: Item): Item
    decreases s, 0
  {
    match s
    case Real(bits) => if m.Real? && FloatEq(m.bits, bits) then m else s
    case One(Some(x)) => One(Some(CopyTree(Onto(m, x), x)))
    case Many(_) => BareItem(s)
    case _ => s
  }

  function CopyTree(m: Tree, s: Tree): (r: Tree)
    requires |m.items| == |s.items|
    ensures r.unknown == m.unknown && |r.items| == |s.items|
    ensures forall i :: 0 <= i < |s.items| ==> r.items[i] == CopyItem(m.items[i], s.items[i])
    decreases s, 1
  {
    Tree(seq(|s.items|, i requires 0 <= i < |s.items| => CopyItem(m.items[i], s.items[i])), m.unknown)
  }

  /** What `CopyInFields` adds to its count for a field. A float counts unless both values have the
      same bits, or are zeros, and none is above the bits of an infinity, which makes it a NaN. */
  function Changes(m: Item, s: Item): nat
    decreases s, 0
  {
    match s
    case Real(bits) =>
      if m.Real?
         && (m.bits == bits || (m.bits % 0x8000_0000_0000_0000 == 0 && bits % 0x8000_0000_0000_0000 == 0))
         && m.bits % 0x8000_0000_0000_0000 <= 0x7FF0_0000_0000_0000
         && bits % 0x8000_0000_0000_0000 <= 0x7FF0_0000_0000_0000
      then 0 else 1
    case Texts(t) => if t.None? && m == s then 0 else 1
    case Tags(t) => if t.None? && m == s then 0 else 1
    case Many(t) => if t.NilList? && m == s then 0 else 1
    case One(Some(x)) => TreeChanges(Onto(m, x), x)
    case _ => if m == s then 0 else 1
  }

  function TreeChanges(m: Tree, s: Tree): nat
    requires |m.items| == |s.items|
    decreases s, |s.items| + 1
  {
    ChangesUpTo(m, s, |s.items|)
  }

  function ChangesUpTo(m: Tree, s: Tree, n: nat): nat
    requires |m.items| == |s.items| >= n
    decreases s, n
  {
    if n == 0 then 0 else ChangesUpTo(m, s, n - 1) + Changes(m.items[n - 1], s.items[n - 1])
  }

  //
  // What a copy agrees with
  //

  /** The two fields are the same value; floats have the same bits, or are both zeros. Unknown
      bytes do not count. */
  ghost predicate SameItem(r: Item, s: Item) {
    match s
    case Real(bits) =>
      r.Real? && (r.bits == bits || (r.bits % 0x8000_0000_0000_0000 == 0 && bits % 0x8000_0000_0000_0000 == 0))
    case One(Some(x)) => r.One? && r.one.Some? && SameTree(r.one.value, x)
    case Many(Forest(xs)) =>
      && r.Many? && r.many.Forest? && |r.many.trees| == |xs|
      && forall i :: 0 <= i < |xs| ==> SameTree(r.many.trees[i], xs[i])
    case _ => r == s
  }

  ghost predicate SameTree(r: Tree, s: Tree) {
    |r.items| == |s.items| && forall i :: 0 <= i < |s.items| ==> SameItem(r.items[i], s.items[i])
  }

  /** A clone has the same fields, at every level. */
  lemma {:induction false} BareAgrees(s: Tree)
    ensures SameTree(Bare(s), s)
    decreases s
  {
    forall i | 0 <= i < |s.items| ensures SameItem(BareItem(s.items[i]), s.items[i]) {
      match s.items[i]
      case One(Some(x)) => BareAgrees(x);
      case Many(Forest(xs)) => forall j | 0 <= j < |xs| ensures SameTree(Bare(xs[j]), xs[j]) {
          BareAgrees(xs[j]);
        }
      case _ =>
    }
  }

  lemma BareSame(r: Tree, s: Tree, unknown: bytes)
    requires r == Bare(s).(unknown := unknown)
    ensures SameTree(r, s)
  {
    hide Bare, SameItem;
    BareAgrees(s);
  }

  /** After `CopyInFields`, every declared field equals the source's. */
  lemma {:induction false} CopyAgrees(m: Tree, s: Tree)
    requires |m.items| == |s.items|
    ensures SameTree(CopyTree(m, s), s)
    decreases s
  {
    forall i | 0 <= i < |s.items| ensures SameItem(CopyItem(m.items[i], s.items[i]), s.items[i]) {
      match s.items[i]
      case One(Some(x)) => CopyAgrees(Onto(m.items[i], x), x);
      case Many(Forest(xs)) => forall j | 0 <= j < |xs| ensures SameTree(Bare(xs[j]), xs[j]) {
          BareAgrees(xs[j]);
        }
      case _ =>
    }
  }

  //
  // What a result of 0 means
  //

  /** A message with no field set, in which sub-messages may have been allocated. */
  ghost predicate Blank(z: Tree) {
    z.unknown == [] && forall i :: 0 <= i < |z.items| ==> BlankItem(z.items[i])
  }

  ghost predicate BlankItem(z: Item) {
    match z
    case One(Some(x)) => Blank(x)
    case _ => z == ZeroItem(z)
  }

  /** r is m, except that a nil sub-message may have become a blank one. */
  ghost predicate Untouched(m: Tree, r: Tree) {
    |m.items| == |r.items| && m.unknown == r.unknown && forall i :: 0 <= i < |m.items| ==>
        UntouchedItem(m.items[i], r.items[i])
  }

  ghost predicate UntouchedItem(m: Item, r: Item) {
    match m
    case One(None) => r.One? && (r.one.Some? ==> Blank(r.one.value))
    case One(Some(x)) => r.One? && r.one.Some? && Untouched(x, r.one.value)
    case _ => r == m
  }

  /** The messages have the same type, at every level that both have. */
  ghost predicate Alike(m: Tree, s: Tree) {
    |m.items| == |s.items| && forall i :: 0 <= i < |s.items| ==> AlikeItem(m.items[i], s.items[i])
  }

  ghost predicate AlikeItem(m: Item, s: Item) {
    && ZeroItem(m) == ZeroItem(s)
    && (m.One? && m.one.Some? && s.One? && s.one.Some? ==> Alike(m.one.value, s.one.value))
  }

  lemma {:induction false} ChangesSum(m: Tree, s: Tree, n: nat, i: nat)
    requires i < n <= |m.items| == |s.items|
    ensures Changes(m.items[i], s.items[i]) <= ChangesUpTo(m, s, n)
  {
    if i < n - 1 {
      ChangesSum(m, s, n - 1, i);
    }
  }

  lemma ZeroAlike(x: Tree)
    ensures Alike(Zero(x), x)
  {
    forall i | 0 <= i < |x.items| ensures AlikeItem(ZeroItem(x.items[i]), x.items[i]) {
    }
  }

  lemma NoChange(a: Item, b: Item)
    requires AlikeItem(a, b) && !(b.One? && b.one.Some?) && Changes(a, b) == 0
    ensures UntouchedItem(a, CopyItem(a, b))
  {
  }

  /** A result of 0 means that the message has not changed, except that a nil sub-message may
      have been allocated. */
  lemma {:induction false} NoChanges(m: Tree, s: Tree)
    requires Alike(m, s) && TreeChanges(m, s) == 0
    ensures Untouched(m, CopyTree(m, s))
    decreases s
  {
    forall i | 0 <= i < |s.items| ensures UntouchedItem(m.items[i], CopyItem(m.items[i], s.items[i])) {
      ChangesSum(m, s, |s.items|, i);
      var a, b := m.items[i], s.items[i];
      assert AlikeItem(a, b);
      if b.One? && b.one.Some? {
        var x := b.one.value;
        if a.one.Some? {
          NoChanges(a.one.value, x);
        } else {
          ZeroAlike(x);
          NoChanges(Zero(x), x);
          UntouchedZero(x, CopyTree(Zero(x), x));
        }
      } else {
        NoChange(a, b);
      }
    }
  }

  lemma {:induction false} UntouchedZero(x: Tree, r: Tree)
    requires Untouched(Zero(x), r)
    ensures Blank(r)
  {
    forall i | 0 <= i < |r.items| ensures BlankItem(r.items[i]) {
      assert UntouchedItem(Zero(x).items[i], r.items[i]);
    }
  }

  //
  // Copying again
  //

  /** What copying from s counts even when nothing differs: a list or map that is not nil,
      and a float that is not a number. */
  function Recount(s: Item): nat
    decreases s, 0
  {
    match s
    case Real(bits) => if bits % 0x8000_0000_0000_0000 > 0x7FF0_0000_0000_0000 then 1 else 0
    case Texts(Some(_)) => 1
    case Tags(Some(_)) => 1
    case Many(Forest(_)) => 1
    case One(Some(x)) => RecountUpTo(x, |x.items|)
    case _ => 0
  }

  function RecountUpTo(s: Tree, n: nat): nat
    requires n <= |s.items|
    decreases s, n
  {
    if n == 0 then 0 else RecountUpTo(s, n - 1) + Recount(s.items[n - 1])
  }

  /** Copying a second time leaves the message as the first copy left it, and counts only
      what can never be settled. */
  lemma {:induction false} CopyTwice(m: Tree, s: Tree)
    requires |m.items| == |s.items|
    ensures CopyTree(CopyTree(m, s), s) == CopyTree(m, s)
    ensures TreeChanges(CopyTree(m, s), s) == RecountUpTo(s, |s.items|)
    decreases s, 2
  {
    var r := CopyTree(m, s);
    forall i | 0 <= i < |s.items|
      ensures CopyItem(r.items[i], s.items[i]) == r.items[i] && Changes(r.items[i], s.items[i]) == Recount(s.items[i])
    {
      CopyItemTwice(m.items[i], s.items[i]);
    }
    assert CopyTree(r, s).items == r.items;
    CountTwice(r, s, |s.items|);
  }

  lemma {:induction false} CopyItemTwice(m: Item, s: Item)
    ensures CopyItem(CopyItem(m, s), s) == CopyItem(m, s)
    ensures Changes(CopyItem(m, s), s) == Recount(s)
    decreases s, 0
  {
    hide CopyTree, TreeChanges, RecountUpTo, Zero;
    if s.One? && s.one.Some? {
      CopyTwice(Onto(m, s.one.value), s.one.value);
    }
  }

  lemma {:induction false} CountTwice(r: Tree, s: Tree, n: nat)
    requires |r.items| == |s.items| >= n
    requires forall i :: 0 <= i < |s.items| ==> Changes(r.items[i], s.items[i]) == Recount(s.items[i])
    ensures ChangesUpTo(r, s, n) == RecountUpTo(s, n)
    decreases n
  {
    if n > 0 {
      CountTwice(r, s, n - 1);
    }
  }

  //
  // The steps of CopyInFields, field by field
  //

  /** t is m with the first k fields of s copied in, which counted as changed. */
  ghost predicate CopiedUpTo(t: Tree, m: Tree, s: Tree, k: nat, changed: int) {
    && |t.items| == |m.items| == |s.items| >= k && t.unknown == m.unknown
    && (forall i :: 0 <= i < k ==> t.items[i] == CopyItem(m.items[i], s.items[i]))
    && (forall i :: k <= i < |s.items| ==> t.items[i] == m.items[i])
    && changed == ChangesUpTo(m, s, k)
  }

  /** t is r except for the items from k to n, spelled out for messages of at most nine fields. */
  ghost predicate ItemsKept(t: Tree, r: Tree, k: nat, n: nat) {
    && |t.items| == |r.items| <= 9 && k < n <= |t.items| && t.unknown == r.unknown
    && (|t.items| > 0 && !(k <= 0 < n) ==> t.items[0] == r.items[0])
    && (|t.items| > 1 && !(k <= 1 < n) ==> t.items[1] == r.items[1])
    && (|t.items| > 2 && !(k <= 2 < n) ==> t.items[2] == r.items[2])
    && (|t.items| > 3 && !(k <= 3 < n) ==> t.items[3] == r.items[3])
    && (|t.items| > 4 && !(k <= 4 < n) ==> t.items[4] == r.items[4])
    && (|t.items| > 5 && !(k <= 5 < n) ==> t.items[5] == r.items[5])
    && (|t.items| > 6 && !(k <= 6 < n) ==> t.items[6] == r.items[6])
    && (|t.items| > 7 && !(k <= 7 < n) ==> t.items[7] == r.items[7])
    && (|t.items| > 8 && !(k <= 8 < n) ==> t.items[8] == r.items[8])
  }

  /** t is r with item k replaced. */
  ghost predicate ItemSet(t: Tree, r: Tree, k: nat, x: Item) {
    ItemsKept(t, r, k, k + 1) && t.items[k] == x
  }

  lemma CopyStart(m: Tree, s: Tree)
    requires |m.items| == |s.items|
    ensures CopiedUpTo(m, m, s, 0, 0)
  {
  }

  lemma CopyStep(r: Tree, t: Tree, m: Tree, s: Tree, k: nat, before: int, changed: int)
    requires CopiedUpTo(r, m, s, k, before) && k < |s.items| == |r.items|
    requires ItemSet(t, r, k, CopyItem(r.items[k], s.items[k]))
    requires changed == before + Changes(r.items[k], s.items[k])
    ensures CopiedUpTo(t, m, s, k + 1, changed)
  {
    hide CopyItem, Changes, ItemsKept;
    KeptElsewhere(t, r, k, k + 1);
  }

  lemma KeptElsewhere(t: Tree, r: Tree, k: nat, n: nat)
    requires ItemsKept(t, r, k, n)
    ensures |t.items| == |r.items| && k < n <= |t.items| && t.unknown == r.unknown
    ensures forall i :: 0 <= i < |t.items| && !(k <= i < n) ==> t.items[i] == r.items[i]
  {
  }

  /** A number, bool, enum or string is copied if it differs. */
  lemma PlainItem(m: Item, s: Item)
    requires s.Word? || s.Text?
    ensures CopyItem(m, s) == s && Changes(m, s) == if m == s then 0 else 1
  {
  }

  /** A float, if it differs under `==`. */
  lemma RealItem(m: Item, s: Item)
    requires m.Real? && s.Real?
    ensures CopyItem(m, s) == Real(FloatCopied(m.bits, s.bits))
    ensures Changes(m, s) == if FloatEq(m.bits, s.bits) then 0 else 1
  {
  }

  /** A list of strings is replaced whenever the source's is not nil. */
  lemma ListItem(m: Item, s: Item)
    requires s.Texts?
    ensures CopyItem(m, s) == s && Changes(m, s) == if s == m == Texts(None) then 0 else 1
  {
  }

  /** If i is below n, item i of t is that of r with that of s copied in. */
  ghost predicate ItemCopied(t: Tree, r: Tree, s: Tree, i: nat, n: nat) {
    i < n ==> i < |t.items| == |r.items| == |s.items| && t.items[i] == CopyItem(r.items[i], s.items[i])
  }

  function Count(r: Tree, s: Tree, i: nat, n: nat): nat {
    if i < n && i < |r.items| && i < |s.items| then Changes(r.items[i], s.items[i]) else 0
  }

  /** What the fields from k to n, four at most, count. */
  function Counts(r: Tree, s: Tree, k: nat, n: nat): nat {
    Count(r, s, k, n) + Count(r, s, k + 1, n) + Count(r, s, k + 2, n) + Count(r, s, k + 3, n)
  }

  /** Up to four fields at once. */
  lemma CopySpan(r: Tree, t: Tree, m: Tree, s: Tree, k: nat, n: nat, before: int, changed: int)
    requires CopiedUpTo(r, m, s, k, before) && ItemsKept(t, r, k, n) && n <= k + 4
    requires ItemCopied(t, r, s, k, n) && ItemCopied(t, r, s, k + 1, n)
    requires ItemCopied(t, r, s, k + 2, n) && ItemCopied(t, r, s, k + 3, n)
    requires changed == before + Counts(r, s, k, n)
    ensures CopiedUpTo(t, m, s, n, changed)
  {
    hide CopyItem, Changes, ItemsKept;
    KeptElsewhere(t, r, k, n);
    CountSpan(r, m, s, k, n, n);
  }

  lemma {:induction false} CountSpan(r: Tree, m: Tree, s: Tree, k: nat, n: nat, i: nat)
    requires |r.items| == |m.items| == |s.items| && k <= i <= n <= |s.items| && n <= k + 4
    requires forall j :: k <= j < |s.items| ==> r.items[j] == m.items[j]
    ensures ChangesUpTo(m, s, i) == ChangesUpTo(m, s, k) + Counts(r, s, k, i)
    decreases i
  {
    hide Changes;
    if i > k {
      CountSpan(r, m, s, k, n, i - 1);
    }
  }

  /** A map: replaced whenever the source's is not nil. */
  ghost predicate TagsPlaced(t: Tree, r: Tree, s: Tree, k: nat, before: int, changed: int) {
    && k < |s.items| == |r.items|
    && s.items[k].Tags?
    && ItemSet(t, r, k, s.items[k])
    && changed == if r.items[k] == s.items[k] == Tags(None) then before else before + 1
  }

  lemma CopyMap(r: Tree, t: Tree, m: Tree, s: Tree, k: nat, before: int, changed: int)
    requires CopiedUpTo(r, m, s, k, before) && TagsPlaced(t, r, s, k, before, changed)
    ensures CopiedUpTo(t, m, s, k + 1, changed)
  {
    hide CopiedUpTo, ItemSet;
    CopyStep(r, t, m, s, k, before, changed);
  }

  /** A sub-message that was r has become t: x copied into it (or into a new one) field by field,
      or nil like x. */
  ghost predicate OneTaken(t: Option<Tree>, r: Option<Tree>, x: Option<Tree>, before: int, changed: int) {
    match x
    case None => t == None && changed == if r == None then before else before + 1
    case Some(s) =>
      var b := Onto(One(r), s);
      t == Some(CopyTree(b, s)) && changed == before + TreeChanges(b, s)
  }

  ghost predicate OnePlaced(t: Tree, r: Tree, s: Tree, k: nat, before: int, changed: int) {
    && k < |s.items| == |r.items|
    && s.items[k].One? && r.items[k].One?
    && ItemsKept(t, r, k, k + 1)
    && t.items[k].One?
    && OneTaken(t.items[k].one, r.items[k].one, s.items[k].one, before, changed)
  }

  lemma CopyOne(r: Tree, t: Tree, m: Tree, s: Tree, k: nat, before: int, changed: int)
    requires CopiedUpTo(r, m, s, k, before) && OnePlaced(t, r, s, k, before, changed)
    ensures CopiedUpTo(t, m, s, k + 1, changed)
  {
    hide CopiedUpTo, ItemsKept, CopyTree, TreeChanges, Onto;
    CopyStep(r, t, m, s, k, before, changed);
  }

  /** A list of messages: replaced by clones whenever the source's is not nil. */
  ghost predicate ManyPlaced(t: Tree, r: Tree, s: Tree, k: nat, before: int, changed: int) {
    && k < |s.items| == |r.items|
    && s.items[k].Many?
    && ItemSet(t, r, k, BareItem(s.items[k]))
    && changed == if r.items[k] == s.items[k] == Many(NilList) then before else before + 1
  }

  lemma CopyMany(r: Tree, t: Tree, m: Tree, s: Tree, k: nat, before: int, changed: int)
    requires CopiedUpTo(r, m, s, k, before) && ManyPlaced(t, r, s, k, before, changed)
    ensures CopiedUpTo(t, m, s, k + 1, changed)
  {
    hide CopiedUpTo, ItemSet, Bares;
    CopyStep(r, t, m, s, k, before, changed);
  }

  lemma CopyDone(t: Tree, m: Tree, s: Tree, changed: int)
    requires |m.items| == |s.items| && CopiedUpTo(t, m, s, |s.items|, changed)
    ensures t == CopyTree(m, s) && changed == TreeChanges(m, s)
  {
    hide CopyItem, Changes;
    assert t.items == CopyTree(m, s).items;
  }

  /** The field i of t is that of s, copied deeply. */
  ghost predicate BareAt(t: Tree, s: Tree, i: nat)
    requires |t.items| == |s.items|
  {
    i < |s.items| ==>
      match s.items[i]
      case One(Some(x)) => t.items[i] == One(Some(Bare(x)))
      case Many(Forest(xs)) => t.items[i] == Many(Forest(Bares(xs)))
      case _ => t.items[i] == s.items[i]
  }

  lemma BareAtItem(t: Tree, s: Tree, i: nat)
    requires |t.items| == |s.items| && BareAt(t, s, i) && i < |s.items|
    ensures t.items[i] == BareItem(s.items[i])
  {
    hide Bare, Bares;
    match s.items[i]
    case Many(Forest(xs)) => BareMany(xs);
    case _ =>
  }

  lemma BareFields(t: Tree, s: Tree)
    requires |t.items| == |s.items| <= 9
    requires BareAt(t, s, 0) && BareAt(t, s, 1) && BareAt(t, s, 2) && BareAt(t, s, 3) && BareAt(t, s, 4)
    requires BareAt(t, s, 5) && BareAt(t, s, 6) && BareAt(t, s, 7) && BareAt(t, s, 8)
    ensures t == Bare(s).(unknown := t.unknown)
  {
    hide BareItem, BareAt;
    forall i | 0 <= i < |s.items| ensures t.items[i] == BareItem(s.items[i]) {
      BareAtItem(t, s, i);
    }
    assert t.items == Bare(s).items;
  }

  //
  // Copies on the wire
  //

  /** The message that goes on the wire for a tree. */
  function ToMsg(t: Tree): (m: Msg)
    ensures m.unknown == t.unknown && |m.vals| == |t.items|
    ensures forall i :: 0 <= i < |t.items| ==> m.vals[i] == ToVal(t.items[i])
  {
    Msg(seq(|t.items|, i requires 0 <= i < |t.items| => ToVal(t.items[i])), t.unknown)
  }

  function ToVal(x: Item): Val {
    match x
    case Word(n) => Num(Unsigned64(n))
    case Real(bits) => Num(bits)
    case Text(t) => Str(t)
    case Texts(ts) => Strs(Elems(ts))
    case Tags(ts) => StrMap(Pairs(ts))
    case One(None) => Sub(None)
    case One(Some(t)) => Sub(Some(ToMsg(t)))
    case Many(NilList) => Subs([])
    case Many(Forest(xs)) => Subs(seq(|xs|, i requires 0 <= i < |xs| => ToMsg(xs[i])))
  }

  lemma BitsOnWire()
    ensures Unsigned64(0) == 0 && Unsigned64(1) == 1
  {
  }

  lemma ManyOnWire(xs: seq<Tree>)
    requires forall i :: 0 <= i < |xs| ==> ToMsg(Bare(xs[i])) == Cleared(ToMsg(xs[i]))
    ensures ToVal(BareItem(Many(Forest(xs)))) == ClearedVal(ToVal(Many(Forest(xs))))
  {
    hide Bare, Cleared, ToMsg;
    BareMany(xs);
    assert ToVal(Many(Forest(Bares(xs)))).subs == ClearedVal(ToVal(Many(Forest(xs)))).subs;
  }

  /** What a clone puts on the wire is what the original puts there without its unknown bytes. */
  lemma {:induction false} BareOnWire(t: Tree)
    ensures ToMsg(Bare(t)) == Cleared(ToMsg(t))
    decreases t, 1
  {
    hide BareItem, ClearedVal, ToVal;
    forall i | 0 <= i < |t.items| ensures ToVal(BareItem(t.items[i])) == ClearedVal(ToVal(t.items[i])) {
      BareItemOnWire(t.items[i]);
    }
  }

  lemma {:induction false} BareItemOnWire(x: Item)
    ensures ToVal(BareItem(x)) == ClearedVal(ToVal(x))
    decreases x, 0
  {
    hide Bare, Cleared, ToMsg;
    match x
    case One(Some(t)) => BareOnWire(t);
    case Many(Forest(xs)) => forall j | 0 <= j < |xs| ensures ToMsg(Bare(xs[j])) == Cleared(ToMsg(xs[j])) {
        BareOnWire(xs[j]);
      }
      ManyOnWire(xs);
    case Many(NilList) => assert ClearedVal(Subs([])) == Subs([]);
    case _ =>
  }

  /** Whatever its unknown bytes were, the clone of a message is read back from any of
      its encodings. */
  lemma ClonesReadBack(sc: Schema, m: Msg, b: bytes)
    requires ValidSchema(sc) && WellTyped(sc, m) && WellTyped(sc, Cleared(m))
    requires Encoding.Encodes(sc, Cleared(m), b) && |b| < TWO63
    ensures Decode(sc, Empty(sc), b) == Ok(Merging.Canonical(sc, Cleared(m)))
  {
    ClearedIsClean(sc, m);
    RoundTrip.DecodeEncoding(sc, Empty(sc), Cleared(m), b);
  }
}
