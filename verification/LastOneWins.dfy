/** Last One Wins, second half: what any accepted bytes do to a message, in terms of which
    fields they contain and what they are on their own. */
module LastOneWins {
  import opened GoInts
  import opened Errors
  import opened Schemas
  import opened Decoding
  import FieldOrder
  import Records
  import Theorems
  import Varint

  //
  // What occurs in a sequence of records
  //

  /** Some record of s is for field i (or for no field, if i is their number). */
  predicate Occurs(sc: Schema, s: bytes, i: nat)
    decreases |s|
  {
    s != [] &&
    match Records.Length(s)
    case Err(_) => false
    case Ok(n) => FieldOrder.Target(sc, s) == i || Occurs(sc, s[n..], i)
  }

  /** The body of the length-delimited record at the start of s. */
  function Body(s: bytes): bytes {
    if Header(s).Err? || Header(s).value.wireType != 2 then []
    else
      match LenPrefix(s[Header(s).value.len..])
      case Err(_) => []
      case Ok((i, j)) => s[Header(s).value.len..][i..j]
  }

  /** The bodies of all the records of s for field i, one after the other. */
  function Bodies(sc: Schema, s: bytes, i: nat): bytes
    decreases |s|
  {
    if s == [] then []
    else
      match Records.Length(s)
      case Err(_) => []
      case Ok(n) => (if FieldOrder.Target(sc, s) == i then Body(s) else []) + Bodies(sc, s[n..], i)
  }

  /** s is a sequence of complete records. */
  predicate Complete(s: bytes)
    decreases |s|
  {
    s == [] || (Records.Length(s).Ok? && Complete(s[Records.Length(s).value..]))
  }

  lemma {:induction false} OneMoreRecord(sc: Schema, done: bytes, r: bytes, i: nat)
    requires Complete(done) && r != [] && Records.Length(r) == Ok(|r|)
    ensures Complete(done + r)
    ensures Occurs(sc, done + r, i) <==> Occurs(sc, done, i) || FieldOrder.Target(sc, r) == i
    ensures Bodies(sc, done + r, i) == Bodies(sc, done, i) + if FieldOrder.Target(sc, r) == i then Body(r) else []
    decreases |done|
  {
    hide Records.Length, FieldOrder.Target, Body;
    if done == [] {
      assert done + r == r;
      assert r[|r|..] == [];
    } else {
      var n := Records.Length(done).value;
      Records.LengthStable(done, done + r);
      assert (done + r)[n..] == done[n..] + r;
      OneMoreRecord(sc, done[n..], r, i);
      SameStart(sc, done, done + r);
    }
  }

  /** The target and the body of the first record do not depend on what follows it. */
  lemma SameStart(sc: Schema, s: bytes, t: bytes)
    requires s <= t && s != [] && Records.Length(s).Ok?
    ensures FieldOrder.Target(sc, t) == FieldOrder.Target(sc, s) && Body(t) == Body(s)
  {
    TagStable(s, t);
    hide Header, LenPrefix, Records.Length;
    if Header(s).Ok? {
      var k := Header(s).value.len;
      PrefixStable(s, t, k);
      if Header(s).value.wireType == 2 {
        SameSlice(s[k..], t[k..], LenPrefix(s[k..]).value.0, LenPrefix(s[k..]).value.1);
      }
    }
  }

  lemma SameSlice(s: bytes, t: bytes, i: nat, j: nat)
    requires s <= t && i <= j <= |s|
    ensures s[i..j] == t[i..j]
  {
  }

  lemma TagStable(s: bytes, t: bytes)
    requires s <= t && Records.Length(s).Ok?
    ensures Header(t) == Header(s)
  {
    hide Varint.Dec, Records.Payload;
    Records.RestOfToken(s, 0);
    Varint.DecStable(s, t);
  }

  lemma PrefixStable(s: bytes, t: bytes, k: nat)
    requires s <= t && Records.Length(s).Ok? && Header(s).Ok? && k == Header(s).value.len
    ensures Header(s).value.wireType == 2 ==> LenPrefix(s[k..]).Ok? && LenPrefix(t[k..]) == LenPrefix(s[k..])
  {
    hide Varint.Dec;
    Records.RestOfToken(s, 0);
    if Header(s).value.wireType == 2 {
      LenPrefixStable(s[k..], t[k..]);
    }
  }

  //
  // Overlaying
  //

  /** r is the field m onto which records have been read whose value on their own is e: a
      scalar that occurs wins, and one that does not stays; lists are appended, maps
      are overwritten key by key, and the bodies of a sub-message are overlaid in turn. */
  ghost predicate OverlaysVal(kind: Kind, occurs: bool, body: bytes, m: Val, e: Val, r: Val)
    requires HasType(kind, m) && HasType(kind, e) && HasType(kind, r)
    decreases kind, 0
  {
    match kind
    case RepeatedString => r.strs == m.strs + e.strs
    case Message(sc) =>
      if !occurs then body == [] && e.sub.None? && r == m
      else
        && e.sub.Some? && r.sub.Some? && Decode(sc, Empty(sc), body) == Ok(e.sub.value)
        && Overlays(sc, if m.sub.Some? then m.sub.value else Empty(sc), body, e.sub.value, r.sub.value)
    case RepeatedMessage(sc) => r.subs == m.subs + e.subs
    case StringMap => r.entries == m.entries + e.entries
    case _ => r == if occurs then e else m
  }

  ghost predicate Overlays(sc: Schema, m: Msg, s: bytes, e: Msg, r: Msg)
    requires WellTyped(sc, m) && WellTyped(sc, e) && WellTyped(sc, r)
    decreases sc, 1
  {
    && Complete(s)
    && r.unknown == m.unknown + e.unknown
    && forall i :: 0 <= i < |sc.fields| ==>
         OverlaysVal(sc.fields[i].kind, Occurs(sc, s, i), Bodies(sc, s, i), m.vals[i], e.vals[i], r.vals[i])
  }

  /** Overlaying leaves no choice: m, the bytes and their own value fix the result. */
  lemma {:induction false} OverlaysDetermine(sc: Schema, m: Msg, s: bytes, e: Msg, r: Msg, q: Msg)
    requires WellTyped(sc, m) && WellTyped(sc, e) && WellTyped(sc, r) && WellTyped(sc, q)
    requires Overlays(sc, m, s, e, r) && Overlays(sc, m, s, e, q)
    ensures r == q
    decreases sc, 1
  {
    hide HasType, Occurs, Bodies, Complete, OverlaysVal;
    forall i | 0 <= i < |sc.fields| ensures r.vals[i] == q.vals[i] {
      OverlaysValDetermine(sc.fields[i].kind, Occurs(sc, s, i), Bodies(sc, s, i), m.vals[i], e.vals[i], r.vals[i],
        q.vals[i]);
    }
    assert r.vals == q.vals;
  }

  lemma {:induction false} OverlaysValDetermine(kind: Kind, occurs: bool, body: bytes, m: Val, e: Val, r: Val, q: Val)
    requires HasType(kind, m) && HasType(kind, e) && HasType(kind, r) && HasType(kind, q)
    requires OverlaysVal(kind, occurs, body, m, e, r) && OverlaysVal(kind, occurs, body, m, e, q)
    ensures r == q
    decreases kind, 0
  {
    hide Overlays, WellTyped, Decode, Empty;
    if kind.Message? && occurs {
      OverlaysDetermine(kind.schema, if m.sub.Some? then m.sub.value else Empty(kind.schema), body, e.sub.value,
        r.sub.value, q.sub.value);
    }
  }

  lemma OverlaysNothing(sc: Schema, m: Msg)
    requires WellTyped(sc, m)
    ensures Overlays(sc, m, [], Empty(sc), m)
  {
    hide HasType;
    forall i | 0 <= i < |sc.fields|
      ensures OverlaysVal(sc.fields[i].kind, false, [], m.vals[i], Empty(sc).vals[i], m.vals[i])
    {
      assert HasType(sc.fields[i].kind, Empty(sc).vals[i]);
      assert Empty(sc).vals[i] == Default(sc.fields[i].kind);
      OverlaysDefault(sc.fields[i].kind, m.vals[i]);
    }
  }

  lemma OverlaysDefault(kind: Kind, v: Val)
    requires HasType(kind, v) && HasType(kind, Default(kind))
    ensures OverlaysVal(kind, false, [], v, Default(kind), v)
  {
    hide Overlays, WellTyped;
  }

  /** Reading any accepted bytes onto m overlays m with what they are on their own. */
  lemma ReadingOverlays(sc: Schema, m: Msg, s: bytes)
    requires WellTyped(sc, m) && Decode(sc, Empty(sc), s).Ok?
    ensures Decode(sc, m, s).Ok?
    ensures Overlays(sc, m, s, Decode(sc, Empty(sc), s).value, Decode(sc, m, s).value)
  {
    OverlaysNothing(sc, m);
    DecodeOverlays(sc, m, [], Empty(sc), m, s);
    assert [] + s == s;
  }

  /** A scalar has the value that the bytes have on their own if it occurs in them, be it the
      default, and keeps its value if it does not. */
  lemma ScalarWins(sc: Schema, m: Msg, s: bytes, i: nat)
    requires WellTyped(sc, m) && Decode(sc, Empty(sc), s).Ok?
    requires i < |sc.fields| && (sc.fields[i].kind.IsNumber() || sc.fields[i].kind.String?)
    ensures Decode(sc, m, s).Ok?
    ensures Decode(sc, m, s).value.vals[i] ==
            if Occurs(sc, s, i) then Decode(sc, Empty(sc), s).value.vals[i] else m.vals[i]
  {
    hide Decode, Occurs, Bodies, Complete, HasType, Empty;
    ReadingOverlays(sc, m, s);
    var e, r := Decode(sc, Empty(sc), s).value, Decode(sc, m, s).value;
    assert OverlaysVal(sc.fields[i].kind, Occurs(sc, s, i), Bodies(sc, s, i), m.vals[i], e.vals[i], r.vals[i]);
  }

  /** If a and b are each accepted, so is a followed by b, and each overlays what was there. */
  lemma OneAfterTheOther(sc: Schema, m: Msg, a: bytes, b: bytes)
    requires WellTyped(sc, m) && Decode(sc, Empty(sc), a).Ok? && Decode(sc, Empty(sc), b).Ok?
    ensures Decode(sc, m, a).Ok? && Decode(sc, m, a + b).Ok?
    ensures Overlays(sc, m, a, Decode(sc, Empty(sc), a).value, Decode(sc, m, a).value)
    ensures Overlays(sc, Decode(sc, m, a).value, b, Decode(sc, Empty(sc), b).value, Decode(sc, m, a + b).value)
  {
    hide Decode, Overlays, WellTyped, Empty;
    ReadingOverlays(sc, m, a);
    ReadingOverlays(sc, Decode(sc, m, a).value, b);
    DecodeConcat(sc, m, a, b);
  }

  lemma {:induction false} DecodeOverlays(sc: Schema, m: Msg, done: bytes, e: Msg, r: Msg, s: bytes)
    requires WellTyped(sc, m) && WellTyped(sc, e) && WellTyped(sc, r)
    requires Overlays(sc, m, done, e, r) && Decode(sc, e, s).Ok?
    ensures Decode(sc, r, s).Ok?
    ensures Overlays(sc, m, done + s, Decode(sc, e, s).value, Decode(sc, r, s).value)
    decreases |s|, 2
  {
    hide Decode, Step, Overlays, WellTyped;
    if s == [] {
      DecodeNone(sc, e);
      DecodeNone(sc, r);
      assert done + s == done;
    } else {
      DecodeStep(sc, e, s);
      DecodeStep(sc, r, s);
      StepOverlays(sc, m, done, e, r, s);
      var n := Step(sc, e, s).value.1;
      assert done + s == done + s[..n] + s[n..];
      DecodeOverlays(sc, m, done + s[..n], Step(sc, e, s).value.0, Step(sc, r, s).value.0, s[n..]);
    }
  }

  lemma {:induction false} StepOverlays(sc: Schema, m: Msg, done: bytes, e: Msg, r: Msg, s: bytes)
    requires WellTyped(sc, m) && WellTyped(sc, e) && WellTyped(sc, r)
    requires Overlays(sc, m, done, e, r) && Step(sc, e, s).Ok?
    ensures Step(sc, r, s).Ok? && Step(sc, r, s).value.1 == Step(sc, e, s).value.1
    ensures Overlays(sc, m, done + s[..Step(sc, e, s).value.1], Step(sc, e, s).value.0, Step(sc, r, s).value.0)
    decreases |s|, 1
  {
    hide Header, FieldStep, HasType, Records.Length, OverlaysVal, FieldOrder.Target, Occurs, Bodies, Complete, Body;
    var n := Step(sc, e, s).value.1;
    var rec := s[..n];
    FirstRecord(sc, e, s);
    var head := Header(s).value;
    var i := Find(sc.fields, head.num);
    forall j | 0 <= j <= |sc.fields|
      ensures Complete(done + rec)
      ensures Occurs(sc, done + rec, j) == (Occurs(sc, done, j) || i == j)
      ensures Bodies(sc, done + rec, j) == if i == j then Bodies(sc, done, j) + Body(s) else Bodies(sc, done, j)
    {
      OneMoreRecord(sc, done, rec, j);
      assert Bodies(sc, done, j) + [] == Bodies(sc, done, j);
    }
    assert Occurs(sc, done + rec, 0) == (Occurs(sc, done, 0) || i == 0);
    if i < |sc.fields| {
      if head.wireType == 2 && LenPrefix(s[head.len..]).Ok? {
        BodyIs(s);
      }
      FieldStepOverlays(sc.fields[i].kind, head.num, head.wireType, Occurs(sc, done, i), Bodies(sc, done, i),
          m.vals[i], e.vals[i], r.vals[i], s[head.len..], Body(s));
    } else {
      var raw := s[..Records.Length(s).value];
      assert m.unknown + (e.unknown + raw) == m.unknown + e.unknown + raw;
    }
  }

  lemma BodyIs(s: bytes)
    requires Header(s).Ok? && Header(s).value.wireType == 2 && LenPrefix(s[Header(s).value.len..]).Ok?
    ensures var p := s[Header(s).value.len..];
            Body(s) == p[LenPrefix(p).value.0..LenPrefix(p).value.1]
  {
    hide Header, LenPrefix;
  }

  lemma FirstRecord(sc: Schema, m: Msg, s: bytes)
    requires WellTyped(sc, m) && Step(sc, m, s).Ok?
    ensures var rec := s[..Step(sc, m, s).value.1];
            && rec != [] && Records.Length(rec) == Ok(|rec|)
            && Header(s).Ok? && FieldOrder.Target(sc, rec) == Find(sc.fields, Header(s).value.num)
            && Body(rec) == Body(s)
  {
    hide Records.Length, Header, Body;
    Theorems.StepIsRecord(sc, m, s);
    Theorems.AcceptsHeader(sc, m, s);
    hide Step;
    Records.LengthStable(s, s);
    SameStart(sc, s[..Step(sc, m, s).value.1], s);
  }

  lemma {:induction false} FieldStepOverlays(kind: Kind, num: int, wireType: nat, occurs: bool, before: bytes,
      m: Val, e: Val, r: Val, p: bytes, body: bytes)
    requires HasType(kind, m) && HasType(kind, e) && HasType(kind, r)
    requires OverlaysVal(kind, occurs, before, m, e, r) && FieldStep(kind, num, wireType, e, p).Ok?
    requires wireType == 2 && LenPrefix(p).Ok? ==> body == p[LenPrefix(p).value.0..LenPrefix(p).value.1]
    ensures FieldStep(kind, num, wireType, r, p).Ok?
    ensures FieldStep(kind, num, wireType, r, p).value.1 == FieldStep(kind, num, wireType, e, p).value.1
    ensures OverlaysVal(kind, true, before + body, m, FieldStep(kind, num, wireType, e, p).value.0,
              FieldStep(kind, num, wireType, r, p).value.0)
    decreases |p|, 0
  {
    hide NumberStep, LenPrefix, Decode, Entry, WellTyped, Empty, Overlays;
    if kind.IsNumber() {
    } else {
      var (i, j) := LenPrefix(p).value;
      match kind
      case String =>
      case RepeatedString => assert m.strs + (e.strs + [body]) == m.strs + e.strs + [body];
      case Message(sc) =>
        var base := if m.sub.Some? then m.sub.value else Empty(sc);
        if !occurs {
          OverlaysNothing(sc, base);
          DecodeOverlays(sc, base, [], Empty(sc), base, body);
          assert before + body == [] + body == body;
        } else {
          DecodeOverlays(sc, base, before, e.sub.value, r.sub.value, body);
          DecodeConcat(sc, Empty(sc), before, body);
        }
      case RepeatedMessage(sc) =>
        var x := Decode(sc, Empty(sc), body).value;
        assert m.subs + (e.subs + [x]) == m.subs + e.subs + [x];
      case StringMap =>
        var (key, value) := Entry(p[i..], j - i, [], []).value;
        assert (m.entries + e.entries)[key := value] == m.entries + e.entries[key := value];
    }
  }
}
