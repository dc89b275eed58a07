/** Why Field Order stops at maps: a record whose entry is cut short borrows its string from
    the records behind it. */
module MapOrder {
  import opened GoInts
  import opened Errors
  import opened Schemas
  import opened Decoding
  import opened AppClientPlatos
  import Varint

  /** A record of `tags` (field 100) with an entry of two bytes, whose key claims two more. */
  const CUT_SHORT: bytes := [0xA2, 0x06, 0x02, 0x0A, 0x02]

  /** A record of `ver` (field 1) that sets it to 1. */
  const VERSION: bytes := [0x08, 0x01]

  lemma OneByte(s: bytes)
    requires |s| > 0 && s[0] < 128
    ensures Varint.Dec(s) == Ok((s[0], 1))
  {
  }

  lemma TwoBytes(s: bytes)
    requires |s| > 1 && s[0] == 0xA2 && s[1] == 0x06
    ensures Varint.Dec(s) == Ok((802, 2))
  {
    assert s[1..][0] == 0x06;
    assert Varint.DecAt(s[1..], 1) == Ok((6, 1));
    assert Varint.DecAt(s, 0) == Ok((802, 2));
  }

  /** Records of different known fields need not commute when one is a map entry that is not
      a complete record by itself: one order is accepted, the other refused. */
  lemma OrderCanMatter()
    ensures Decode(FQDN_LIST_REPLY_SCHEMA, Empty(FQDN_LIST_REPLY_SCHEMA), CUT_SHORT + VERSION).Ok?
    ensures Decode(FQDN_LIST_REPLY_SCHEMA, Empty(FQDN_LIST_REPLY_SCHEMA), VERSION + CUT_SHORT) == Err(Bounds)
  {
    hide Decode, Step, WellTyped;
    var sc, s, t := FQDN_LIST_REPLY_SCHEMA, CUT_SHORT + VERSION, VERSION + CUT_SHORT;
    FqdnListReplySchemaValid();
    MapFirst(Empty(sc));
    DecodeStep(sc, Empty(sc), s);
    var m := Step(sc, Empty(sc), s).value.0;
    assert s[5..] == VERSION;
    VersionFirst(m, []);
    assert VERSION + [] == VERSION;
    DecodeStep(sc, m, VERSION);
    DecodeNone(sc, Step(sc, m, VERSION).value.0);
    VersionFirst(Empty(sc), CUT_SHORT);
    DecodeStep(sc, Empty(sc), t);
    assert t[2..] == CUT_SHORT;
    var w := Step(sc, Empty(sc), t).value.0;
    MapLast(w);
    DecodeStep(sc, w, CUT_SHORT);
  }

  lemma VersionFirst(m: Msg, rest: bytes)
    requires WellTyped(FQDN_LIST_REPLY_SCHEMA, m)
    ensures Step(FQDN_LIST_REPLY_SCHEMA, m, VERSION + rest).Ok?
    ensures Step(FQDN_LIST_REPLY_SCHEMA, m, VERSION + rest).value.1 == 2
  {
    hide Varint.Dec, WellTyped;
    var s := VERSION + rest;
    OneByte(s);
    OneByte(s[1..]);
    FqdnListReplySchemaValid();
    FindKnown(FQDN_LIST_REPLY_SCHEMA, 0);
    assert Header(s) == Ok(Head(1, 0, 1));
    assert s[1..][0] == 1;
  }

  lemma MapFirst(m: Msg)
    requires WellTyped(FQDN_LIST_REPLY_SCHEMA, m)
    ensures Step(FQDN_LIST_REPLY_SCHEMA, m, CUT_SHORT + VERSION).Ok?
    ensures Step(FQDN_LIST_REPLY_SCHEMA, m, CUT_SHORT + VERSION).value.1 == 5
  {
    hide Varint.Dec, WellTyped, Entry;
    var s := CUT_SHORT + VERSION;
    TwoBytes(s);
    var p := s[2..];
    OneByte(p);
    FqdnListReplySchemaValid();
    FindKnown(FQDN_LIST_REPLY_SCHEMA, 3);
    assert Header(s) == Ok(Head(100, 2, 2));
    assert LenPrefix(p) == Ok((1, 3));
    assert p[1..] == [0x0A, 0x02, 0x08, 0x01];
    Borrowed();
  }

  lemma Borrowed()
    ensures Entry([0x0A, 0x02, 0x08, 0x01], 2, [], []) == Ok(([0x08, 0x01], []))
  {
    hide Varint.Dec;
    var t: bytes := [0x0A, 0x02, 0x08, 0x01];
    OneByte(t);
    OneByte(t[1..]);
    assert t[1..][0] == 2;
    assert LenPrefix(t[1..]) == Ok((1, 3));
    assert t[1..][1..3] == [0x08, 0x01];
  }

  lemma MapLast(m: Msg)
    requires WellTyped(FQDN_LIST_REPLY_SCHEMA, m)
    ensures Step(FQDN_LIST_REPLY_SCHEMA, m, CUT_SHORT) == Err(Bounds)
  {
    hide Varint.Dec, WellTyped, Entry;
    var s := CUT_SHORT;
    TwoBytes(s);
    var p := s[2..];
    OneByte(p);
    FqdnListReplySchemaValid();
    FindKnown(FQDN_LIST_REPLY_SCHEMA, 3);
    assert Header(s) == Ok(Head(100, 2, 2));
    assert LenPrefix(p) == Ok((1, 3));
    assert p[1..] == [0x0A, 0x02];
    NotBorrowed();
  }

  lemma NotBorrowed()
    ensures Entry([0x0A, 0x02], 2, [], []) == Err(Bounds)
  {
    hide Varint.Dec;
    var t: bytes := [0x0A, 0x02];
    OneByte(t);
    OneByte(t[1..]);
    assert t[1..][0] == 2;
    assert LenPrefix(t[1..]) == Err(Bounds);
  }
}
