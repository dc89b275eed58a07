/** The bytes a message keeps for records it has no field for (`XXX_unrecognized`). */
module Unknowns {
  import opened GoInts
  import opened Errors
  import opened Schemas
  import opened Decoding
  import Records
  import Varint

  /** r is one complete record that no field of sc claims: its field number is positive,
      as an `int32`, and not in sc, and it does not begin with an end-group tag. */
  ghost predicate IsUnknownRecord(sc: Schema, r: bytes) {
    && Records.IsRecord(r)
    && Header(r).Ok?
    && Find(sc.fields, Header(r).value.num) == |sc.fields|
  }

  function Concat(rs: seq<bytes>): bytes {
    if rs == [] then [] else rs[0] + Concat(rs[1..])
  }

  /** u is a sequence of complete unknown records. */
  ghost predicate AllUnknown(sc: Schema, u: bytes) {
    exists rs :: u == Concat(rs) && forall r <- rs :: IsUnknownRecord(sc, r)
  }

  /** At every level of m, the unknown bytes are complete unknown records. */
  ghost predicate Clean(sc: Schema, m: Msg)
    requires WellTyped(sc, m)
  {
    && AllUnknown(sc, m.unknown)
    && forall i :: 0 <= i < |sc.fields| ==> CleanVal(sc.fields[i].kind, m.vals[i])
  }

  ghost predicate CleanVal(kind: Kind, v: Val)
    requires HasType(kind, v)
  {
    match kind
    case Message(sc) => v.sub.Some? ==> Clean(sc, v.sub.value)
    case RepeatedMessage(sc) => forall i :: 0 <= i < |v.subs| ==> Clean(sc, v.subs[i])
    case _ => true
  }

  lemma {:induction false} ConcatAppend(rs: seq<bytes>, r: bytes)
    ensures Concat(rs + [r]) == Concat(rs) + r
  {
    if rs == [] {
      assert [] + [r] == [r];
      assert Concat([r]) == r + Concat([]);
    } else {
      ConcatAppend(rs[1..], r);
      assert (rs + [r])[1..] == rs[1..] + [r];
    }
  }

  lemma AllUnknownNone(sc: Schema)
    ensures AllUnknown(sc, [])
  {
    assert Concat([]) == [];
  }

  lemma AllUnknownAppend(sc: Schema, u: bytes, r: bytes)
    requires AllUnknown(sc, u) && IsUnknownRecord(sc, r)
    ensures AllUnknown(sc, u + r)
  {
    hide IsUnknownRecord;
    var rs :| u == Concat(rs) && forall r <- rs :: IsUnknownRecord(sc, r);
    ConcatAppend(rs, r);
    assert u + r == Concat(rs + [r]);
  }

  lemma EmptyIsClean(sc: Schema)
    ensures Clean(sc, Empty(sc))
  {
    AllUnknownNone(sc);
  }

  //
  // Unmarshal keeps the invariant
  //

  lemma HeaderLocal(s: bytes, n: nat)
    requires Header(s).Ok? && Header(s).value.len <= n <= |s|
    ensures Header(s[..n]) == Header(s)
  {
    hide Varint.Dec;
    Varint.DecLocal(s);
    var k := Varint.Dec(s).value.1;
    assert s[..n][..k] == s[..k];
    Varint.DecStable(s[..k], s[..n]);
  }

  /** A record that Step puts among the unknown ones is a complete unknown record. */
  lemma StepUnknown(sc: Schema, s: bytes)
    requires Header(s).Ok? && Find(sc.fields, Header(s).value.num) == |sc.fields|
    requires Records.Length(s).Ok?
    ensures IsUnknownRecord(sc, s[..Records.Length(s).value])
  {
    hide Varint.Dec, Records.Rest, Records.IsRecord, Records.Payload;
    var n := Records.Length(s).value;
    Records.LengthIsRecord(s, n);
    LengthCoversTag(s);
    HeaderLocal(s, n);
  }

  lemma LengthCoversTag(s: bytes)
    requires Records.Length(s).Ok?
    ensures Varint.Dec(s).Ok? && Varint.Dec(s).value.1 <= Records.Length(s).value
    ensures Header(s).Ok? ==> Header(s).value.len <= Records.Length(s).value
  {
    hide Varint.Dec, Records.Payload;
    Records.RestOfToken(s, 0);
  }

  /** After a successful `Unmarshal` the unknown bytes at every level are
      complete unknown records, if they were before. */
  lemma {:induction false} DecodeClean(sc: Schema, m: Msg, s: bytes)
    requires WellTyped(sc, m) && Clean(sc, m) && Decode(sc, m, s).Ok?
    ensures Clean(sc, Decode(sc, m, s).value)
    decreases |s|, 2
  {
    if s != [] {
      DecodeStep(sc, m, s);
      StepClean(sc, m, s);
      hide Step, Decode, WellTyped, Clean;
      var (m', n) := Step(sc, m, s).value;
      DecodeClean(sc, m', s[n..]);
    }
  }

  lemma {:induction false} StepClean(sc: Schema, m: Msg, s: bytes)
    requires WellTyped(sc, m) && Clean(sc, m) && Step(sc, m, s).Ok?
    ensures Clean(sc, Step(sc, m, s).value.0)
    decreases |s|, 1
  {
    hide Header, FieldStep, HasType, Records.Length, AllUnknown, CleanVal;
    var head := Header(s).value;
    var i := Find(sc.fields, head.num);
    if i < |sc.fields| {
      FieldStepClean(sc.fields[i].kind, head.num, head.wireType, m.vals[i], s[head.len..]);
    } else {
      StepUnknown(sc, s);
      AllUnknownAppend(sc, m.unknown, s[..Records.Length(s).value]);
    }
  }

  lemma {:induction false} FieldStepClean(kind: Kind, num: int, wireType: nat, v: Val, p: bytes)
    requires HasType(kind, v) && CleanVal(kind, v) && FieldStep(kind, num, wireType, v, p).Ok?
    ensures CleanVal(kind, FieldStep(kind, num, wireType, v, p).value.0)
    decreases |p|, 0
  {
    hide NumberStep, LenPrefix, Decode, Entry, Clean, WellTyped, Empty;
    match kind
    case Message(sc) =>
      var (i, j) := LenPrefix(p).value;
      EmptyIsClean(sc);
      DecodeClean(sc, if v.sub.Some? then v.sub.value else Empty(sc), p[i..j]);
    case RepeatedMessage(sc) =>
      var (i, j) := LenPrefix(p).value;
      EmptyIsClean(sc);
      DecodeClean(sc, Empty(sc), p[i..j]);
    case _ =>
  }

  //
  // Unknown records read back as themselves
  //

  lemma DecodeOne(sc: Schema, m: Msg, s: bytes, m': Msg)
    requires WellTyped(sc, m) && s != [] && Step(sc, m, s) == Ok((m', |s|))
    ensures Decode(sc, m, s) == Ok(m')
  {
    DecodeStep(sc, m, s);
    hide Step;
    assert s[|s|..] == [];
  }

  lemma DecodeUnknownRecord(sc: Schema, m: Msg, r: bytes)
    requires WellTyped(sc, m) && IsUnknownRecord(sc, r)
    ensures Decode(sc, m, r) == Ok(m.(unknown := m.unknown + r))
  {
    hide Header, Records.Length, WellTyped, Decode, Records.IsRecord;
    assert r[..|r|] == r;
    Records.LengthIsRecord(r, |r|);
    DecodeOne(sc, m, r, m.(unknown := m.unknown + r));
  }

  lemma {:induction false} DecodeRecords(sc: Schema, m: Msg, rs: seq<bytes>)
    requires WellTyped(sc, m) && forall r <- rs :: IsUnknownRecord(sc, r)
    ensures Decode(sc, m, Concat(rs)) == Ok(m.(unknown := m.unknown + Concat(rs)))
    decreases |rs|
  {
    hide Decode, IsUnknownRecord, HasType;
    if rs == [] {
      DecodeNone(sc, m);
      assert m.unknown + [] == m.unknown;
    } else {
      var r, rest := rs[0], Concat(rs[1..]);
      var m' := m.(unknown := m.unknown + r);
      DecodeUnknownRecord(sc, m, r);
      DecodeConcat(sc, m, r, rest);
      DecodeRecords(sc, m', rs[1..]);
      assert m.unknown + r + rest == m.unknown + (r + rest);
    }
  }

  lemma DecodeUnknown(sc: Schema, m: Msg, u: bytes)
    requires WellTyped(sc, m) && AllUnknown(sc, u)
    ensures Decode(sc, m, u) == Ok(m.(unknown := m.unknown + u))
  {
    hide Decode, IsUnknownRecord;
    var rs :| u == Concat(rs) && forall r <- rs :: IsUnknownRecord(sc, r);
    DecodeRecords(sc, m, rs);
  }
}
