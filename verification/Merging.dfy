/** Merging one message into another, as `proto.Merge` does: the algebra that the
    decoder implements. */
module Merging {
  import opened GoInts
  import opened Schemas

  /** The value of a field holding v after a message in which it holds w is merged in. */
  function MergeVal(kind: Kind, v: Val, w: Val): (r: Val)
    requires HasType(kind, v) && HasType(kind, w)
    ensures HasType(kind, r)
    decreases kind, 0
  {
    match kind
    case String => if w.str == [] then v else w
    case RepeatedString => Strs(v.strs + w.strs)
    case Message(sc) =>
      if w.sub.None? then v
      else Sub(Some(Merge(sc, if v.sub.Some? then v.sub.value else Empty(sc), w.sub.value)))
    case RepeatedMessage(sc) => Subs(v.subs + Copies(sc, w.subs))
    case StringMap => StrMap(v.entries + w.entries)
    case _ => if IsZero(kind, w.word) then v else w
  }

  function Copies(sc: Schema, ms: seq<Msg>): (r: seq<Msg>)
    requires forall i :: 0 <= i < |ms| ==> WellTyped(sc, ms[i])
    ensures |r| == |ms| && forall i :: 0 <= i < |r| ==> WellTyped(sc, r[i]) && r[i] == Canonical(sc, ms[i])
    decreases sc, |sc.fields| + 3, |ms|
  {
    if ms == [] then [] else [Canonical(sc, ms[0])] + Copies(sc, ms[1..])
  }

  /** Merges the fields of w from position i on, and the unknown bytes. */
  function MergeFrom(sc: Schema, m: Msg, w: Msg, i: nat): (r: Msg)
    requires WellTyped(sc, m) && WellTyped(sc, w) && i <= |sc.fields|
    ensures WellTyped(sc, r)
    ensures r.unknown == m.unknown + w.unknown
    ensures forall j :: 0 <= j < i ==> r.vals[j] == m.vals[j]
    ensures forall j :: i <= j < |sc.fields| ==> r.vals[j] == MergeVal(sc.fields[j].kind, m.vals[j], w.vals[j])
    decreases sc, |sc.fields| - i
  {
    if i == |sc.fields| then m.(unknown := m.unknown + w.unknown)
    else
      var v := MergeVal(sc.fields[i].kind, m.vals[i], w.vals[i]);
      MergeFrom(sc, m.(vals := m.vals[i := v]), w, i + 1)
  }

  /** m after w is merged into it: scalars set in w win, lists are appended, maps are
      overwritten key by key, sub-messages are merged, unknown bytes are appended. */
  function Merge(sc: Schema, m: Msg, w: Msg): (r: Msg)
    requires WellTyped(sc, m) && WellTyped(sc, w)
    ensures WellTyped(sc, r)
    ensures r.unknown == m.unknown + w.unknown
    ensures forall j :: 0 <= j < |sc.fields| ==> r.vals[j] == MergeVal(sc.fields[j].kind, m.vals[j], w.vals[j])
    decreases sc, |sc.fields| + 1
  {
    MergeFrom(sc, m, w, 0)
  }

  /** The message that m becomes when it is written and read back. */
  function Canonical(sc: Schema, m: Msg): (r: Msg)
    requires WellTyped(sc, m)
    ensures WellTyped(sc, r)
    decreases sc, |sc.fields| + 2
  {
    Merge(sc, Empty(sc), m)
  }

  //
  // What Canonical changes: a negative zero becomes a positive one, nothing else
  //

  /** The two values agree, bit by bit, except that each float may be either zero where the other is. */
  ghost predicate AgreeVal(kind: Kind, v: Val, w: Val)
    requires HasType(kind, v) && HasType(kind, w)
    decreases kind, 0
  {
    match kind
    case Message(sc) =>
      && (v.sub.Some? <==> w.sub.Some?)
      && (v.sub.Some? ==> Agree(sc, v.sub.value, w.sub.value))
    case RepeatedMessage(sc) =>
      && |v.subs| == |w.subs|
      && forall i :: 0 <= i < |v.subs| ==> Agree(sc, v.subs[i], w.subs[i])
    case Double =>
      || v.word == w.word
      || ((v.word == 0 || v.word == 0x8000_0000_0000_0000) && (w.word == 0 || w.word == 0x8000_0000_0000_0000))
    case Float =>
      || v.word == w.word
      || ((v.word == 0 || v.word == 0x8000_0000) && (w.word == 0 || w.word == 0x8000_0000))
    case _ => v == w
  }

  ghost predicate Agree(sc: Schema, m: Msg, w: Msg)
    requires WellTyped(sc, m) && WellTyped(sc, w)
  {
    && m.unknown == w.unknown
    && forall i :: 0 <= i < |sc.fields| ==> AgreeVal(sc.fields[i].kind, m.vals[i], w.vals[i])
  }

  /** No number in the message is a negative zero. */
  ghost predicate PositiveZeros(sc: Schema, m: Msg)
    requires WellTyped(sc, m)
  {
    forall i :: 0 <= i < |sc.fields| ==> PositiveZerosVal(sc.fields[i].kind, m.vals[i])
  }

  ghost predicate PositiveZerosVal(kind: Kind, v: Val)
    requires HasType(kind, v)
    decreases kind, 0
  {
    match kind
    case Message(sc) => v.sub.Some? ==> PositiveZeros(sc, v.sub.value)
    case RepeatedMessage(sc) => forall i :: 0 <= i < |v.subs| ==> PositiveZeros(sc, v.subs[i])
    case Double => v.word != 0x8000_0000_0000_0000
    case Float => v.word != 0x8000_0000
    case _ => true
  }

  lemma {:induction false} CanonicalAgrees(sc: Schema, m: Msg)
    requires WellTyped(sc, m)
    ensures Agree(sc, m, Canonical(sc, m))
    ensures PositiveZeros(sc, Canonical(sc, m))
    decreases sc, |sc.fields|
  {
    forall i | 0 <= i < |sc.fields|
      ensures AgreeVal(sc.fields[i].kind, m.vals[i], Canonical(sc, m).vals[i])
      ensures PositiveZerosVal(sc.fields[i].kind, Canonical(sc, m).vals[i])
    {
      CanonicalValAgrees(sc.fields[i].kind, m.vals[i]);
    }
  }

  lemma {:induction false} CanonicalValAgrees(kind: Kind, v: Val)
    requires HasType(kind, v)
    ensures AgreeVal(kind, v, MergeVal(kind, Default(kind), v))
    ensures PositiveZerosVal(kind, MergeVal(kind, Default(kind), v))
    decreases kind, 1
  {
    hide WellTyped, Merge, Agree, PositiveZeros, Empty, Narrow, Copies;
    if kind.Message? && v.sub.Some? {
      CanonicalAgrees(kind.schema, v.sub.value);
    } else if kind.RepeatedMessage? {
      CopiesAgree(kind.schema, v.subs);
      assert [] + Copies(kind.schema, v.subs) == Copies(kind.schema, v.subs);
    }
  }

  lemma {:induction false} CopiesAgree(sc: Schema, subs: seq<Msg>)
    requires forall i :: 0 <= i < |subs| ==> WellTyped(sc, subs[i])
    ensures forall i :: 0 <= i < |subs| ==> Agree(sc, subs[i], Copies(sc, subs)[i])
    ensures forall i :: 0 <= i < |subs| ==> PositiveZeros(sc, Copies(sc, subs)[i])
    decreases sc, |sc.fields| + 1
  {
    hide WellTyped, Agree, PositiveZeros, Canonical;
    forall i | 0 <= i < |subs|
      ensures Agree(sc, subs[i], Copies(sc, subs)[i])
      ensures PositiveZeros(sc, Copies(sc, subs)[i])
    {
      CanonicalAgrees(sc, subs[i]);
    }
  }

  /** A message without negative zeros is its own canonical form, so Canonical
      is idempotent. */
  lemma {:induction false} CanonicalFixed(sc: Schema, m: Msg)
    requires WellTyped(sc, m) && PositiveZeros(sc, m)
    ensures Canonical(sc, m) == m
  {
    CanonicalAgrees(sc, m);
    AgreeingIsEqual(sc, m, Canonical(sc, m));
  }

  lemma {:induction false} AgreeingIsEqual(sc: Schema, m: Msg, w: Msg)
    requires WellTyped(sc, m) && WellTyped(sc, w) && Agree(sc, m, w)
    requires PositiveZeros(sc, m) && PositiveZeros(sc, w)
    ensures m == w
    decreases sc, 1
  {
    forall i | 0 <= i < |sc.fields|
      ensures m.vals[i] == w.vals[i]
    {
      AgreeingValsAreEqual(sc.fields[i].kind, m.vals[i], w.vals[i]);
    }
    assert m.vals == w.vals;
  }

  lemma {:induction false} AgreeingValsAreEqual(kind: Kind, v: Val, w: Val)
    requires HasType(kind, v) && HasType(kind, w) && AgreeVal(kind, v, w)
    requires PositiveZerosVal(kind, v) && PositiveZerosVal(kind, w)
    ensures v == w
    decreases kind, 0
  {
    match kind
    case Message(sc) =>
      if v.sub.Some? {
        AgreeingIsEqual(sc, v.sub.value, w.sub.value);
      }
    case RepeatedMessage(sc) =>
      forall i | 0 <= i < |v.subs|
        ensures v.subs[i] == w.subs[i]
      {
        AgreeingIsEqual(sc, v.subs[i], w.subs[i]);
      }
      assert v.subs == w.subs;
    case _ =>
  }

  //
  // Merging is associative
  //

  lemma {:induction false} MergeAssociative(sc: Schema, a: Msg, b: Msg, c: Msg)
    requires WellTyped(sc, a) && WellTyped(sc, b) && WellTyped(sc, c)
    ensures Merge(sc, Merge(sc, a, b), c) == Merge(sc, a, Merge(sc, b, c))
    decreases sc, 1
  {
    var l, r := Merge(sc, Merge(sc, a, b), c), Merge(sc, a, Merge(sc, b, c));
    forall i | 0 <= i < |sc.fields|
      ensures l.vals[i] == r.vals[i]
    {
      MergeValAssociative(sc.fields[i].kind, a.vals[i], b.vals[i], c.vals[i]);
    }
    assert l.vals == r.vals;
    assert l.unknown == r.unknown;
  }

  lemma CopiesTwice(sc: Schema, ms: seq<Msg>, ns: seq<Msg>)
    requires forall i :: 0 <= i < |ms| ==> WellTyped(sc, ms[i])
    requires forall i :: 0 <= i < |ns| ==> WellTyped(sc, ns[i])
    ensures Copies(sc, ms + Copies(sc, ns)) == Copies(sc, ms) + Copies(sc, ns)
  {
    hide WellTyped, Canonical, PositiveZeros, Agree;
    var left, right := Copies(sc, ms) + Copies(sc, ns), Copies(sc, ms + Copies(sc, ns));
    forall i | 0 <= i < |left|
      ensures left[i] == right[i]
    {
      if i >= |ms| {
        var x := ns[i - |ms|];
        CanonicalAgrees(sc, x);
        CanonicalFixed(sc, Canonical(sc, x));
      }
    }
    assert left == right;
  }

  lemma ListsAssociate<T>(a: seq<T>, b: seq<T>, c: seq<T>)
    ensures a + b + c == a + (b + c)
  {
  }

  lemma MapsAssociate(a: map<bytes, bytes>, b: map<bytes, bytes>, c: map<bytes, bytes>)
    ensures a + b + c == a + (b + c)
  {
  }

  lemma {:induction false} MergeValAssociative(kind: Kind, a: Val, b: Val, c: Val)
    requires HasType(kind, a) && HasType(kind, b) && HasType(kind, c)
    ensures MergeVal(kind, MergeVal(kind, a, b), c) == MergeVal(kind, a, MergeVal(kind, b, c))
    decreases kind, 1
  {
    hide Merge, WellTyped, Empty, Canonical, Narrow, Copies;
    if kind.RepeatedString? {
      ListsAssociate(a.strs, b.strs, c.strs);
    } else if kind.Message? {
      MergeSubAssociative(kind, a, b, c);
    } else if kind.RepeatedMessage? {
      CopiesTwice(kind.schema, b.subs, c.subs);
      ListsAssociate(a.subs, Copies(kind.schema, b.subs), Copies(kind.schema, c.subs));
    } else if kind.StringMap? {
      MapsAssociate(a.entries, b.entries, c.entries);
    } else if kind.IsNumber() {
      hide HasType;
      MergeNumberAssociative(kind, a, b, c);
    }
  }

  lemma MergeNumberAssociative(kind: Kind, a: Val, b: Val, c: Val)
    requires kind.IsNumber() && HasType(kind, a) && HasType(kind, b) && HasType(kind, c)
    ensures MergeVal(kind, MergeVal(kind, a, b), c) == MergeVal(kind, a, MergeVal(kind, b, c))
  {
    hide Merge, Narrow, IsZero;
  }

  lemma {:induction false} MergeSubAssociative(kind: Kind, a: Val, b: Val, c: Val)
    requires kind.Message? && HasType(kind, a) && HasType(kind, b) && HasType(kind, c)
    ensures MergeVal(kind, MergeVal(kind, a, b), c) == MergeVal(kind, a, MergeVal(kind, b, c))
    decreases kind, 0
  {
    hide Merge, WellTyped, Empty;
    var sc := kind.schema;
    var base := if a.sub.Some? then a.sub.value else Empty(sc);
    if b.sub.Some? && c.sub.Some? {
      MergeAssociative(sc, base, b.sub.value, c.sub.value);
    } else if c.sub.Some? {
      MergeAssociative(sc, base, Empty(sc), c.sub.value);
      MergeEmpty(sc, base);
    }
  }

  /** Merging an empty message in changes nothing. */
  lemma MergeEmpty(sc: Schema, m: Msg)
    requires WellTyped(sc, m)
    ensures Merge(sc, m, Empty(sc)) == m
  {
    var r := Merge(sc, m, Empty(sc));
    forall i | 0 <= i < |sc.fields|
      ensures r.vals[i] == m.vals[i]
    {
      var kind := sc.fields[i].kind;
      if kind.StringMap? {
        assert m.vals[i].entries + map[] == m.vals[i].entries;
      }
    }
    assert r.vals == m.vals;
  }
}
