/** What the codec promises: round trips, Last One Wins, normalisation, independence of
    field order, and the meaning of map entries. */
module Theorems {
  import opened GoInts
  import opened Errors
  import opened Schemas
  import opened Decoding
  import opened Encoding
  import opened Merging
  import opened Unknowns
  import opened RoundTrip
  import Records
  import Varint

  //
  // Round trips
  //

  /** Reading an encoding of m gives m back, negative zeros apart. */
  lemma WriteThenRead(sc: Schema, m: Msg, b: bytes)
    requires ValidSchema(sc) && WellTyped(sc, m) && Clean(sc, m) && Encodes(sc, m, b) && |b| < TWO63
    ensures Decode(sc, Empty(sc), b) == Ok(Canonical(sc, m))
    ensures Agree(sc, m, Canonical(sc, m))
    ensures PositiveZeros(sc, m) ==> Canonical(sc, m) == m
  {
    DecodeEncoding(sc, Empty(sc), m, b);
    CanonicalAgrees(sc, m);
    if PositiveZeros(sc, m) {
      CanonicalFixed(sc, m);
    }
  }

  /** The bytes say which message was written: two messages with a common encoding
      agree up to the sign of zeros, however their maps were iterated. */
  lemma EncodingDetermines(sc: Schema, m: Msg, w: Msg, b: bytes)
    requires ValidSchema(sc) && WellTyped(sc, m) && WellTyped(sc, w) && Clean(sc, m) && Clean(sc, w)
    requires Encodes(sc, m, b) && Encodes(sc, w, b) && |b| < TWO63
    ensures Canonical(sc, m) == Canonical(sc, w)
  {
    WriteThenRead(sc, m, b);
    WriteThenRead(sc, w, b);
  }

  /** Encodings can be concatenated: the reader merges the messages. */
  lemma ConcatenationMerges(sc: Schema, m: Msg, w: Msg, a: bytes, b: bytes)
    requires ValidSchema(sc) && WellTyped(sc, m) && WellTyped(sc, w) && Clean(sc, m) && Clean(sc, w)
    requires Encodes(sc, m, a) && Encodes(sc, w, b) && |a| < TWO63 && |b| < TWO63
    ensures Decode(sc, Empty(sc), a + b) == Ok(Canonical(sc, Merge(sc, m, w)))
  {
    DecodeEncoding(sc, Empty(sc), m, a);
    DecodeConcat(sc, Empty(sc), a, b);
    DecodeEncoding(sc, Merge(sc, Empty(sc), m), w, b);
    MergeAssociative(sc, Empty(sc), m, w);
  }

  /** Normalisation: whatever bytes were accepted, writing the message and reading it
      again gives the same message, negative zeros apart. */
  lemma ReadWriteRead(sc: Schema, a: bytes, b: bytes)
    requires ValidSchema(sc) && Decode(sc, Empty(sc), a).Ok?
    requires Encodes(sc, Decode(sc, Empty(sc), a).value, b) && |b| < TWO63
    ensures Clean(sc, Decode(sc, Empty(sc), a).value)
    ensures Decode(sc, Empty(sc), b) == Ok(Canonical(sc, Decode(sc, Empty(sc), a).value))
    ensures Agree(sc, Decode(sc, Empty(sc), a).value, Canonical(sc, Decode(sc, Empty(sc), a).value))
  {
    EmptyIsClean(sc);
    DecodeClean(sc, Empty(sc), a);
    WriteThenRead(sc, Decode(sc, Empty(sc), a).value, b);
  }

  //
  // Every message has an encoding
  //

  lemma {:induction false} ListMap(m: map<bytes, bytes>) returns (es: seq<(bytes, bytes)>)
    ensures Lists(es, m)
    decreases |m|
  {
    if m == map[] {
      es := [];
    } else {
      assert m.Keys != {};
      var k :| k in m.Keys;
      var rest := ListMap(m - {k});
      es := [(k, m[k])] + rest;
    }
  }

  lemma {:induction false} EncodeVal(f: Field, v: Val) returns (b: bytes)
    requires HasType(f.kind, v)
    ensures EncodesVal(f, v, b)
    decreases f.kind, 0
  {
    match f.kind
    case String => b := if v.str == [] then [] else Delimited(f.num, v.str);
    case RepeatedString => b := Strings(f.num, v.strs);
    case Message(sc) =>
      if v.sub.None? {
        b := [];
      } else {
        var c := EncodingExists(sc, v.sub.value);
        b := Delimited(f.num, c);
      }
    case RepeatedMessage(sc) => b := EncodeSubs(f.num, sc, v.subs);
    case StringMap =>
      var es := ListMap(v.entries);
      b := Entries(f.num, es);
    case _ => b := Number(f.num, f.kind, v.word);
  }

  lemma {:induction false} EncodeSubs(num: nat, sc: Schema, subs: seq<Msg>) returns (b: bytes)
    requires forall i :: 0 <= i < |subs| ==> WellTyped(sc, subs[i])
    ensures EncodesSubs(num, sc, subs, b)
    decreases sc, |sc.fields| + 2, |subs|
  {
    if subs == [] {
      b := [];
    } else {
      var c := EncodingExists(sc, subs[0]);
      var rest := EncodeSubs(num, sc, subs[1..]);
      b := Delimited(num, c) + rest;
    }
  }

  lemma {:induction false} EncodeFrom(sc: Schema, m: Msg, i: nat) returns (b: bytes)
    requires WellTyped(sc, m) && i <= |sc.fields|
    ensures EncodesFrom(sc, m, i, b)
    decreases sc, |sc.fields| - i
  {
    if i == |sc.fields| {
      b := m.unknown;
    } else {
      var b1 := EncodeVal(sc.fields[i], m.vals[i]);
      var b2 := EncodeFrom(sc, m, i + 1);
      b := b1 + b2;
    }
  }

  lemma {:induction false} EncodingExists(sc: Schema, m: Msg) returns (b: bytes)
    requires WellTyped(sc, m)
    ensures Encodes(sc, m, b) && |b| == Size(sc, m)
    decreases sc, |sc.fields| + 1
  {
    b := EncodeFrom(sc, m, 0);
    EncodesSize(sc, m, b);
  }

  //
  // Whether bytes are accepted does not depend on the message they are read onto
  //

  predicate SameOutcome<T>(r: Result<T>, s: Result<T>) {
    if r.Ok? then s.Ok? else s.Err? && s.fault == r.fault
  }

  lemma {:induction false} SameFaultAnywhere(sc: Schema, m: Msg, w: Msg, s: bytes)
    requires WellTyped(sc, m) && WellTyped(sc, w)
    ensures SameOutcome(Decode(sc, m, s), Decode(sc, w, s))
    decreases |s|, 2
  {
    if s != [] {
      DecodeStep(sc, m, s);
      DecodeStep(sc, w, s);
      hide Decode, Step, WellTyped;
      SameStepAnywhere(sc, m, w, s);
      if Step(sc, m, s).Ok? {
        var n := Step(sc, m, s).value.1;
        SameFaultAnywhere(sc, Step(sc, m, s).value.0, Step(sc, w, s).value.0, s[n..]);
      }
    }
  }

  lemma {:induction false} SameStepAnywhere(sc: Schema, m: Msg, w: Msg, s: bytes)
    requires WellTyped(sc, m) && WellTyped(sc, w)
    ensures SameOutcome(Step(sc, m, s), Step(sc, w, s))
    ensures Step(sc, m, s).Ok? ==> Step(sc, w, s).value.1 == Step(sc, m, s).value.1
    decreases |s|, 1
  {
    hide Header, FieldStep, HasType, Records.Length;
    if Header(s).Ok? {
      var head := Header(s).value;
      var i := Find(sc.fields, head.num);
      if i < |sc.fields| {
        SameFieldStepAnywhere(sc.fields[i].kind, head.num, head.wireType, m.vals[i], w.vals[i], s[head.len..]);
      }
    }
  }

  lemma {:induction false} SameFieldStepAnywhere(kind: Kind, num: int, wireType: nat, v: Val, w: Val, p: bytes)
    requires HasType(kind, v) && HasType(kind, w)
    ensures SameOutcome(FieldStep(kind, num, wireType, v, p), FieldStep(kind, num, wireType, w, p))
    ensures FieldStep(kind, num, wireType, v, p).Ok? ==>
              FieldStep(kind, num, wireType, w, p).value.1 == FieldStep(kind, num, wireType, v, p).value.1
    decreases |p|, 0
  {
    hide NumberStep, LenPrefix, Decode, Entry, WellTyped, Empty;
    if kind.Message? && LenPrefix(p).Ok? {
      var (i, j) := LenPrefix(p).value;
      SameFaultAnywhere(kind.schema, if v.sub.Some? then v.sub.value else Empty(kind.schema),
                        if w.sub.Some? then w.sub.value else Empty(kind.schema), p[i..j]);
    }
  }

  //
  // Every round of the loop consumes exactly one record of the grammar
  //

  lemma AcceptsHeader(sc: Schema, m: Msg, r: bytes)
    requires WellTyped(sc, m) && Step(sc, m, r).Ok?
    ensures Header(r).Ok?
  {
    hide Header, FieldStep, HasType, Records.Length;
  }

  lemma StepIsRecord(sc: Schema, m: Msg, s: bytes)
    requires WellTyped(sc, m) && Step(sc, m, s).Ok?
    ensures Records.Length(s) == Ok(Step(sc, m, s).value.1)
    ensures Records.IsRecord(s[..Step(sc, m, s).value.1])
  {
    var n := Step(sc, m, s).value.1;
    assert Records.Length(s) == Ok(n) by {
      hide FieldStep, HasType, Records.Length, Varint.Dec;
      var head := Header(s).value;
      var i := Find(sc.fields, head.num);
      if i < |sc.fields| {
        FieldStepIsPayload(sc.fields[i].kind, head.num, head.wireType, m.vals[i], s[head.len..]);
        KnownRecord(s, n);
      }
    }
    hide Records.IsRecord, Step;
    Records.LengthIsRecord(s, n);
  }

  lemma FieldStepIsPayload(kind: Kind, num: int, wireType: nat, v: Val, p: bytes)
    requires HasType(kind, v) && FieldStep(kind, num, wireType, v, p).Ok?
    ensures Records.Payload(p, wireType) == Ok(FieldStep(kind, num, wireType, v, p).value.1)
    ensures wireType != 3
  {
    hide Varint.Dec, Decode, Entry, HasType, Word;
  }

  lemma KnownRecord(s: bytes, n: nat)
    requires Header(s).Ok? && Header(s).value.wireType != 3
    requires var head := Header(s).value;
             n >= head.len && Records.Payload(s[head.len..], head.wireType) == Ok(n - head.len)
    ensures Records.Length(s) == Ok(n)
  {
    hide Varint.Dec, Records.Payload;
    Records.RestOfToken(s, 0);
  }

  //
  // Map entries
  //

  /** How far the entry's strings run: 0 when the last one ends with the entry, and the
      negated number of bytes by which it runs past the end otherwise. */
  function EntryLeft(t: bytes, left: int): int
    decreases |t|
  {
    if left <= 0 then left
    else
      match Varint.Dec(t)
      case Err(_) => left
      case Ok((wire, k)) =>
        var num := Signed32(wire / 8);
        if num == 1 || num == 2 then
          match LenPrefix(t[k..])
          case Err(_) => left
          case Ok((i, j)) => EntryLeft(t[k + j..], left - (k + j))
        else
          match Records.Length(t)
          case Err(_) => left
          case Ok(n) => if n > left then left else EntryLeft(t[n..], left - n)
  }

  /** An entry means the same as in a buffer that ends with it exactly when no string of
      it runs past its end; otherwise the shorter buffer is refused. */
  lemma EntryConfined(t: bytes, left: nat, key: bytes, value: bytes)
    requires left <= |t| && Entry(t, left, key, value).Ok?
    ensures Entry(t[..left], left, key, value) == Entry(t, left, key, value) <==> EntryLeft(t, left) == 0
    ensures Entry(t[..left], left, key, value).Ok? <==> EntryLeft(t, left) == 0
  {
    hide Entry, EntryLeft;
    if EntryLeft(t, left) == 0 {
      EntryCut(t, left, key, value);
    }
    if Entry(t[..left], left, key, value).Ok? {
      EntryLeftOfCut(t[..left], left, key, value);
      EntryLeftStable(t[..left], t, left, key, value);
    }
  }

  /** In a buffer that ends with the entry no string can run past it. */
  lemma {:induction false} EntryLeftOfCut(t: bytes, left: nat, key: bytes, value: bytes)
    requires left == |t| && Entry(t, left, key, value).Ok?
    ensures EntryLeft(t, left) == 0
    decreases |t|
  {
    hide Varint.Dec, LenPrefix, Records.Length, Entry, EntryLeft, Signed32;
    if left == 0 {
      EntryLeftNone(t, left);
    } else {
      var wire, k, n, key', value' := EntryParts(t, left, key, value);
      EntryLeftOfCut(t[n..], left - n, key', value');
    }
  }

  lemma {:induction false} EntryLeftStable(s: bytes, t: bytes, left: int, key: bytes, value: bytes)
    requires s <= t && Entry(s, left, key, value).Ok?
    ensures EntryLeft(t, left) == EntryLeft(s, left)
    decreases |s|
  {
    hide Varint.Dec, LenPrefix, Records.Length, Entry, EntryLeft, Signed32;
    if left <= 0 {
      EntryLeftNone(s, left);
      EntryLeftNone(t, left);
    } else {
      var wire, k, n, key', value' := EntryParts(s, left, key, value);
      Varint.DecStable(s, t);
      if Signed32(wire / 8) == 1 || Signed32(wire / 8) == 2 {
        LenPrefixStable(s[k..], t[k..]);
      } else {
        Records.LengthStable(s, t);
      }
      EntryLeftUnfold(t, left, wire, k, n);
      EntryLeftStable(s[n..], t[n..], left - n, key', value');
    }
  }

  /** An entry that is accepted does not end early, and what it borrows is there. */
  lemma {:induction false} EntryReach(t: bytes, left: int, key: bytes, value: bytes)
    requires Entry(t, left, key, value).Ok?
    ensures left - EntryLeft(t, left) <= |t|
    ensures EntryLeft(t, left) <= 0
    decreases |t|
  {
    hide Varint.Dec, LenPrefix, Records.Length, Entry, EntryLeft, Signed32;
    if left <= 0 {
      EntryLeftNone(t, left);
    } else {
      var _, _, n, key', value' := EntryParts(t, left, key, value);
      EntryReach(t[n..], left - n, key', value');
    }
  }

  lemma EntryLeftNone(t: bytes, left: int)
    requires left <= 0
    ensures EntryLeft(t, left) == left
  {
  }

  lemma EntryLeftUnfold(t: bytes, left: nat, wire: uint64, k: nat, n: nat)
    requires 0 < left && n <= |t| && Varint.Dec(t) == Ok((wire, k))
    requires if Signed32(wire / 8) == 1 || Signed32(wire / 8) == 2
             then LenPrefix(t[k..]).Ok? && n == k + LenPrefix(t[k..]).value.1
             else Records.Length(t) == Ok(n) && n <= left
    ensures EntryLeft(t, left) == EntryLeft(t[n..], left - n)
  {
    hide Varint.Dec, LenPrefix, Records.Length, Signed32;
  }

  /** The first string or record of an entry, and the key and value after it. */
  lemma EntryParts(t: bytes, left: nat, key: bytes, value: bytes)
    returns (wire: uint64, k: nat, n: nat, key': bytes, value': bytes)
    requires 0 < left && Entry(t, left, key, value).Ok?
    ensures Varint.Dec(t) == Ok((wire, k)) && 1 <= k <= n <= |t|
    ensures EntryLeft(t, left) == EntryLeft(t[n..], left - n)
    ensures Entry(t, left, key, value) == Entry(t[n..], left - n, key', value')
    ensures if Signed32(wire / 8) == 1 || Signed32(wire / 8) == 2
            then LenPrefix(t[k..]).Ok? && n == k + LenPrefix(t[k..]).value.1
            else Records.Length(t) == Ok(n) && n <= left
  {
    hide Varint.Dec, LenPrefix, Records.Length, Signed32;
    wire, k := Varint.Dec(t).value.0, Varint.Dec(t).value.1;
    key', value' := key, value;
    if Signed32(wire / 8) == 1 || Signed32(wire / 8) == 2 {
      var (i, j) := LenPrefix(t[k..]).value;
      n := k + j;
      if Signed32(wire / 8) == 1 {
        key' := t[k..][i..j];
      } else {
        value' := t[k..][i..j];
      }
    } else {
      n := Records.Length(t).value;
      LengthCoversTag(t);
    }
  }

  lemma DecCut(s: bytes, m: nat)
    requires Varint.Dec(s).Ok? && Varint.Dec(s).value.1 <= m <= |s|
    ensures Varint.Dec(s[..m]) == Varint.Dec(s)
  {
    hide Varint.Dec;
    Varint.DecLocal(s);
    var k := Varint.Dec(s).value.1;
    assert s[..m][..k] == s[..k];
    Varint.DecStable(s[..k], s[..m]);
  }

  lemma LenPrefixLocal(s: bytes, m: nat)
    requires LenPrefix(s).Ok? && LenPrefix(s).value.1 <= m <= |s|
    ensures LenPrefix(s[..m]) == LenPrefix(s)
  {
    hide Varint.Dec;
    DecCut(s, m);
  }

  lemma EntryLeftSinks(t: bytes, left: int)
    ensures EntryLeft(t, left) <= left
    decreases |t|
  {
    hide Varint.Dec, LenPrefix, Records.Length;
  }

  /** Cutting the buffer after a confined entry changes nothing. */
  lemma {:induction false} EntryCut(t: bytes, left: nat, key: bytes, value: bytes)
    requires left <= |t| && Entry(t, left, key, value).Ok? && EntryLeft(t, left) == 0
    ensures Entry(t[..left], left, key, value) == Entry(t, left, key, value)
    decreases |t|, 1
  {
    hide Varint.Dec, LenPrefix, Records.Length, Entry, EntryLeft, Signed32;
    if left == 0 {
      EntryNone(t[..left], key, value);
      EntryNone(t, key, value);
    } else {
      var wire, k, n, _, _ := EntryParts(t, left, key, value);
      EntryLeftSinks(t[n..], left - n);
      DecCut(t, left);
      if Signed32(wire / 8) == 1 || Signed32(wire / 8) == 2 {
        var (i, j) := LenPrefix(t[k..]).value;
        EntryCutString(t, left, wire, k, i, j, key, value);
      } else {
        LengthCut(t, k, left);
        var rest := t[n..];
        EntryUnfoldRecord(t, left, wire, k, n, rest, key, value);
        assert t[..left][n..] == rest[..left - n];
        EntryUnfoldRecord(t[..left], left, wire, k, n, rest[..left - n], key, value);
        EntryCut(rest, left - n, key, value);
      }
    }
  }

  lemma {:induction false} EntryCutString(t: bytes, left: nat, wire: uint64, k: nat, i: nat, j: nat,
      key: bytes, value: bytes)
    requires 0 < left <= |t| && Entry(t, left, key, value).Ok?
    requires Varint.Dec(t) == Ok((wire, k)) && Varint.Dec(t[..left]) == Ok((wire, k)) && k >= 1
    requires Signed32(wire / 8) == 1 || Signed32(wire / 8) == 2
    requires LenPrefix(t[k..]) == Ok((i, j)) && k + j <= left && EntryLeft(t[k + j..], left - (k + j)) == 0
    ensures Entry(t[..left], left, key, value) == Entry(t, left, key, value)
    decreases |t|, 0
  {
    hide Varint.Dec, LenPrefix, Records.Length, Entry, EntryLeft, Signed32;
    var s, n := t[..left], k + j;
    var str, rest := t[k..][i..j], t[n..];
    var first := Signed32(wire / 8) == 1;
    LenPrefixLocal(t[k..], left - k);
    assert s[k..] == t[k..][..left - k];
    assert s[k..][i..j] == str;
    assert s[n..] == rest[..left - n];
    EntryUnfoldString(t, left, wire, k, i, j, str, rest, key, value);
    EntryUnfoldString(s, left, wire, k, i, j, str, rest[..left - n], key, value);
    EntryCut(rest, left - n, if first then str else key, if first then value else str);
  }

  lemma LengthCut(s: bytes, k: nat, m: nat)
    requires Records.Length(s).Ok? && Records.Length(s).value <= m <= |s|
    requires Varint.Dec(s).Ok? && Varint.Dec(s).value.1 == k
    ensures Records.Length(s[..m]) == Records.Length(s)
    ensures k <= m && Varint.Dec(s[..m]) == Varint.Dec(s)
  {
    hide Varint.Dec, Records.Payload;
    var n := Records.Length(s).value;
    Records.LengthStable(s, s);
    assert s[..m][..n] == s[..n];
    Records.LengthStable(s[..n], s[..m]);
    Records.RestOfToken(s, 0);
    DecCut(s, m);
  }

  /** The message type that the standard gives to the entries of a map. */
  const ENTRY_SCHEMA := Schema([Field(1, String), Field(2, String)])

  /** Maps: wherever the entry, as a message with a key and a value, is accepted, the
      map decoder finds the same key and value; the last of several wins and
      other fields are dropped. */
  lemma {:induction false} EntryIsMessage(m: Msg, s: bytes)
    requires WellTyped(ENTRY_SCHEMA, m) && Decode(ENTRY_SCHEMA, m, s).Ok?
    ensures Entry(s, |s|, Key(m), Value(m)) ==
            Ok((Key(Decode(ENTRY_SCHEMA, m, s).value), Value(Decode(ENTRY_SCHEMA, m, s).value)))
    decreases |s|
  {
    hide Entry, Decode, Step, Key, Value, WellTyped, ENTRY_SCHEMA;
    if s == [] {
      DecodeNone(ENTRY_SCHEMA, m);
      EntryNone(s, Key(m), Value(m));
    } else {
      DecodeStep(ENTRY_SCHEMA, m, s);
      var (m', n) := Step(ENTRY_SCHEMA, m, s).value;
      EntryIsMessageStep(m, s, m', n);
      EntryIsMessage(m', s[n..]);
    }
  }

  lemma EntryNone(t: bytes, key: bytes, value: bytes)
    ensures Entry(t, 0, key, value) == Ok((key, value))
  {
  }

  function Key(m: Msg): bytes
    requires WellTyped(ENTRY_SCHEMA, m)
  {
    assert HasType(ENTRY_SCHEMA.fields[0].kind, m.vals[0]);
    m.vals[0].str
  }

  function Value(m: Msg): bytes
    requires WellTyped(ENTRY_SCHEMA, m)
  {
    assert HasType(ENTRY_SCHEMA.fields[1].kind, m.vals[1]);
    m.vals[1].str
  }

  lemma EntryIsMessageStep(m: Msg, s: bytes, m': Msg, n: nat)
    requires WellTyped(ENTRY_SCHEMA, m) && Step(ENTRY_SCHEMA, m, s) == Ok((m', n))
    ensures WellTyped(ENTRY_SCHEMA, m') && 1 <= n <= |s|
    ensures Entry(s, |s|, Key(m), Value(m)) == Entry(s[n..], |s| - n, Key(m'), Value(m'))
  {
    hide HasType, Entry, Step, Key, Value, WellTyped, Header, ENTRY_SCHEMA;
    AcceptsHeader(ENTRY_SCHEMA, m, s);
    if Header(s).value.num == 1 || Header(s).value.num == 2 {
      EntryStringStep(m, s, m', n);
    } else {
      EntryRecordStep(m, s, m', n);
    }
  }

  lemma EntryStringStep(m: Msg, s: bytes, m': Msg, n: nat)
    requires WellTyped(ENTRY_SCHEMA, m) && Step(ENTRY_SCHEMA, m, s) == Ok((m', n))
    requires Header(s).Ok? && (Header(s).value.num == 1 || Header(s).value.num == 2)
    ensures WellTyped(ENTRY_SCHEMA, m') && 1 <= n <= |s|
    ensures Entry(s, |s|, Key(m), Value(m)) == Entry(s[n..], |s| - n, Key(m'), Value(m'))
  {
    hide LenPrefix, Entry, Step, Key, Value, WellTyped, Header, ENTRY_SCHEMA;
    var i, j, str := EntryKnownStep(m, s, m', n);
    EntryTakesString(s, Header(s).value, i, j, str, s[n..], Key(m), Value(m));
  }

  lemma EntryRecordStep(m: Msg, s: bytes, m': Msg, n: nat)
    requires WellTyped(ENTRY_SCHEMA, m) && Step(ENTRY_SCHEMA, m, s) == Ok((m', n))
    requires Header(s).Ok? && Header(s).value.num != 1 && Header(s).value.num != 2
    ensures WellTyped(ENTRY_SCHEMA, m') && 1 <= n <= |s|
    ensures Entry(s, |s|, Key(m), Value(m)) == Entry(s[n..], |s| - n, Key(m'), Value(m'))
  {
    hide Records.Length, Entry, Step, Key, Value, WellTyped, Header, ENTRY_SCHEMA;
    EntryUnknownStep(m, s, m', n);
    EntryTakesRecord(s, Header(s).value, n, s[n..], Key(m), Value(m));
  }

  lemma FindInEntry(num: int)
    ensures Find(ENTRY_SCHEMA.fields, num) == if num == 1 then 0 else if num == 2 then 1 else 2
  {
  }

  lemma EntryKnownStep(m: Msg, s: bytes, m': Msg, n: nat) returns (i: nat, j: nat, str: bytes)
    requires WellTyped(ENTRY_SCHEMA, m) && Step(ENTRY_SCHEMA, m, s) == Ok((m', n))
    requires Header(s).Ok? && (Header(s).value.num == 1 || Header(s).value.num == 2)
    ensures LenPrefix(s[Header(s).value.len..]) == Ok((i, j)) && n == Header(s).value.len + j
    ensures i <= j <= |s| - Header(s).value.len && str == s[Header(s).value.len..][i..j]
    ensures Key(m') == if Header(s).value.num == 1 then str else Key(m)
    ensures Value(m') == if Header(s).value.num == 1 then Value(m) else str
  {
    hide LenPrefix, Records.Length, FieldStep, HasType, Find, Header;
    var head := Header(s).value;
    FindInEntry(head.num);
    assert HasType(ENTRY_SCHEMA.fields[head.num - 1].kind, m.vals[head.num - 1]);
    StringStep(head.num, head.wireType, m.vals[head.num - 1], s[head.len..]);
    i, j := LenPrefix(s[head.len..]).value.0, LenPrefix(s[head.len..]).value.1;
    str := s[head.len..][i..j];
  }

  lemma EntryUnknownStep(m: Msg, s: bytes, m': Msg, n: nat)
    requires WellTyped(ENTRY_SCHEMA, m) && Step(ENTRY_SCHEMA, m, s) == Ok((m', n))
    requires Header(s).Ok? && Header(s).value.num != 1 && Header(s).value.num != 2
    ensures Records.Length(s) == Ok(n) && Key(m') == Key(m) && Value(m') == Value(m)
  {
    hide LenPrefix, Records.Length, FieldStep, HasType, Find, Header;
    FindInEntry(Header(s).value.num);
  }

  lemma StringStep(num: int, wireType: nat, v: Val, p: bytes)
    requires HasType(String, v) && FieldStep(String, num, wireType, v, p).Ok?
    ensures LenPrefix(p).Ok?
    ensures var (i, j) := LenPrefix(p).value; FieldStep(String, num, wireType, v, p) == Ok((Str(p[i..j]), j))
  {
    hide LenPrefix;
  }

  lemma HeaderParts(s: bytes) returns (wire: uint64, k: nat)
    requires Header(s).Ok?
    ensures Varint.Dec(s) == Ok((wire, k)) && Header(s).value.num == Signed32(wire / 8) && Header(s).value.len == k
  {
    hide Varint.Dec, Signed32;
    wire, k := Varint.Dec(s).value.0, Varint.Dec(s).value.1;
  }

  /** What an entry does with a string whose header has been read. */
  lemma EntryTakesString(t: bytes, head: Head, i: nat, j: nat, str: bytes, rest: bytes, key: bytes, value: bytes)
    requires Header(t) == Ok(head) && (head.num == 1 || head.num == 2)
    requires LenPrefix(t[head.len..]) == Ok((i, j)) && t[head.len..][i..j] == str && t[head.len + j..] == rest
    ensures Entry(t, |t|, key, value) ==
            if head.num == 1 then Entry(rest, |t| - (head.len + j), str, value)
            else Entry(rest, |t| - (head.len + j), key, str)
  {
    hide Varint.Dec, LenPrefix, Entry, Signed32, Header;
    var wire, k := HeaderParts(t);
    EntryUnfoldString(t, |t|, wire, k, i, j, str, rest, key, value);
  }

  lemma EntryTakesRecord(t: bytes, head: Head, n: nat, rest: bytes, key: bytes, value: bytes)
    requires Header(t) == Ok(head) && head.num != 1 && head.num != 2
    requires Records.Length(t) == Ok(n) && n <= |t| && t[n..] == rest
    ensures Entry(t, |t|, key, value) == Entry(rest, |t| - n, key, value)
  {
    hide Varint.Dec, Records.Length, Entry, Signed32, Header;
    var wire, k := HeaderParts(t);
    EntryUnfoldRecord(t, |t|, wire, k, n, rest, key, value);
  }

  lemma EntryUnfoldString(t: bytes, left: nat, wire: uint64, k: nat, i: nat, j: nat, str: bytes, rest: bytes,
      key: bytes, value: bytes)
    requires Varint.Dec(t) == Ok((wire, k)) && left > 0
    requires Signed32(wire / 8) == 1 || Signed32(wire / 8) == 2
    requires LenPrefix(t[k..]) == Ok((i, j)) && t[k..][i..j] == str && t[k + j..] == rest
    ensures Entry(t, left, key, value) ==
            if Signed32(wire / 8) == 1 then Entry(rest, left - (k + j), str, value)
            else Entry(rest, left - (k + j), key, str)
  {
    hide Varint.Dec, LenPrefix, Records.Length, Signed32;
  }

  lemma EntryUnfoldRecord(t: bytes, left: nat, wire: uint64, k: nat, n: nat, rest: bytes, key: bytes, value: bytes)
    requires Varint.Dec(t) == Ok((wire, k)) && left > 0
    requires Signed32(wire / 8) != 1 && Signed32(wire / 8) != 2
    requires Records.Length(t) == Ok(n) && n <= left && t[n..] == rest
    ensures Entry(t, left, key, value) == Entry(rest, left - n, key, value)
  {
    hide Varint.Dec, LenPrefix, Records.Length, Signed32;
  }
}
