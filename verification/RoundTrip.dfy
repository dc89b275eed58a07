/** Decoding undoes encoding: reading any encoding of w onto m merges w into m. */
module RoundTrip {
  import opened GoInts
  import opened Errors
  import opened Schemas
  import opened Decoding
  import opened Encoding
  import opened Merging
  import opened Unknowns
  import Varint

  //
  // Reading back one piece
  //

  lemma HeaderTag(num: nat, wireType: nat, rest: bytes)
    requires 1 <= num < 0x2000_0000 && wireType < 8 && wireType != 4
    ensures Header(Tag(num, wireType) + rest) == Ok(Head(num, wireType, |Tag(num, wireType)|))
  {
    hide Varint.Dec, Varint.Enc, Signed32;
    Varint.RoundTrip(num * 8 + wireType, rest);
    TagSplits(num, wireType);
  }

  lemma TagSplits(num: nat, wireType: nat)
    requires num < 0x2000_0000 && wireType < 8
    ensures (num * 8 + wireType) / 8 == num && (num * 8 + wireType) % 8 == wireType
    ensures Signed32(num) == num
  {
  }

  lemma LenPrefixBody(body: bytes, rest: bytes)
    requires |body| < TWO64
    ensures LenPrefix(Varint.Enc(|body|) + body + rest) == Ok((|Varint.Enc(|body|)|, |Varint.Enc(|body|)| + |body|))
  {
    hide Varint.Dec, Varint.Enc;
    Varint.RoundTrip(|body|, body + rest);
    assert Varint.Enc(|body|) + body + rest == Varint.Enc(|body|) + (body + rest);
  }

  lemma {:induction false} FixedRoundTrip(v: nat, n: nat)
    requires v < Pow2(8 * n)
    ensures Fixed(FixedBytes(v, n)) == v
  {
    if n > 0 {
      assert Pow2(8) == 256;
      Pow2Sum(8, 8 * (n - 1));
      FixedRoundTrip(v / 256, n - 1);
    }
  }

  /** One record of field i, alone. */
  lemma DecodeField(sc: Schema, m: Msg, i: nat, p: bytes, v: Val)
    requires ValidSchema(sc) && WellTyped(sc, m) && i < |sc.fields|
    requires var f := sc.fields[i];
             FieldStep(f.kind, f.num, f.kind.WireType(), m.vals[i], p) == Ok((v, |p|))
    ensures Decode(sc, m, Tag(sc.fields[i].num, sc.fields[i].kind.WireType()) + p) == Ok(m.(vals := m.vals[i := v]))
  {
    hide Decode, Step, Tag, HasType, FieldStep, Header, Find;
    var f := sc.fields[i];
    var tag := Tag(f.num, f.kind.WireType());
    HeaderTag(f.num, f.kind.WireType(), p);
    FindKnown(sc, i);
    assert (tag + p)[|tag|..] == p;
    StepField(sc, m, i, tag + p, |tag|, v);
    DecodeOne(sc, m, tag + p, m.(vals := m.vals[i := v]));
  }

  lemma StepField(sc: Schema, m: Msg, i: nat, s: bytes, k: nat, v: Val)
    requires WellTyped(sc, m) && i < |sc.fields| && Find(sc.fields, sc.fields[i].num) == i && k <= |s|
    requires Header(s) == Ok(Head(sc.fields[i].num, sc.fields[i].kind.WireType(), k))
    requires var f := sc.fields[i];
             FieldStep(f.kind, f.num, f.kind.WireType(), m.vals[i], s[k..]) == Ok((v, |s| - k))
    ensures Step(sc, m, s) == Ok((m.(vals := m.vals[i := v]), |s|))
  {
    hide Header, FieldStep, HasType, Find;
  }

  lemma DelimitedParts(num: nat, body: bytes)
    requires |body| < TWO64
    ensures Delimited(num, body) == Tag(num, 2) + (Varint.Enc(|body|) + body)
    ensures LenPrefix(Varint.Enc(|body|) + body) == Ok((|Varint.Enc(|body|)|, |Varint.Enc(|body|)| + |body|))
    ensures (Varint.Enc(|body|) + body)[|Varint.Enc(|body|)|..] == body
  {
    hide LenPrefix, Varint.Enc, Tag;
    LenPrefixBody(body, []);
    assert Varint.Enc(|body|) + body + [] == Varint.Enc(|body|) + body;
  }

  /** One length-delimited record of field i, alone. */
  lemma DecodeDelimited(sc: Schema, m: Msg, i: nat, body: bytes, v: Val)
    requires ValidSchema(sc) && WellTyped(sc, m) && i < |sc.fields| && |body| < TWO64
    requires sc.fields[i].kind.WireType() == 2
    requires DelimitedStep(sc.fields[i].kind, m.vals[i], body) == Ok(v)
    ensures Decode(sc, m, Delimited(sc.fields[i].num, body)) == Ok(m.(vals := m.vals[i := v]))
  {
    hide Varint.Enc, Decode, HasType, Tag, Delimited, LenPrefix, DelimitedStep, FieldStep, ValidSchema;
    var f := sc.fields[i];
    var p := Varint.Enc(|body|) + body;
    DelimitedParts(f.num, body);
    FieldStepDelimited(f.kind, f.num, m.vals[i], p, body, v);
    DecodeField(sc, m, i, p, v);
  }

  /** What a length-delimited field becomes when the buffer ends with its body. */
  function DelimitedStep(kind: Kind, v: Val, body: bytes): Result<Val>
    requires HasType(kind, v) && kind.WireType() == 2
  {
    match kind
    case String => Ok(Str(body))
    case RepeatedString => Ok(Strs(v.strs + [body]))
    case Message(sc) =>
      var m :- Decode(sc, if v.sub.Some? then v.sub.value else Empty(sc), body);
      Ok(Sub(Some(m)))
    case RepeatedMessage(sc) =>
      var m :- Decode(sc, Empty(sc), body);
      Ok(Subs(v.subs + [m]))
    case StringMap =>
      var (key, value) :- Entry(body, |body|, [], []);
      Ok(StrMap(v.entries[key := value]))
  }

  lemma FieldStepDelimited(kind: Kind, num: int, v: Val, p: bytes, body: bytes, w: Val)
    requires HasType(kind, v) && kind.WireType() == 2 && DelimitedStep(kind, v, body) == Ok(w)
    requires LenPrefix(p) == Ok((|p| - |body|, |p|)) && p[|p| - |body|..] == body
    ensures FieldStep(kind, num, 2, v, p) == Ok((w, |p|))
  {
    hide LenPrefix, Decode, Entry, HasType;
    assert p[|p| - |body|..|p|] == body;
  }

  //
  // Reading back a field
  //

  lemma DecodeNumber(sc: Schema, m: Msg, i: nat, w: uint64)
    requires ValidSchema(sc) && WellTyped(sc, m) && i < |sc.fields|
    requires sc.fields[i].kind.IsNumber() && w == Narrow(sc.fields[i].kind, w)
    ensures Decode(sc, m, Number(sc.fields[i].num, sc.fields[i].kind, w)) ==
            Ok(m.(vals := m.vals[i := MergeVal(sc.fields[i].kind, m.vals[i], Num(w))]))
  {
    var f := sc.fields[i];
    assert HasType(f.kind, m.vals[i]);
    if IsZero(f.kind, w) {
      DecodeNone(sc, m);
      assert m.vals[i := m.vals[i]] == m.vals;
    } else if f.kind.IsVarint() {
      hide Decode, Tag;
      Varint.RoundTrip(w, []);
      hide Varint.Dec, Varint.Enc;
      assert Varint.Enc(w) + [] == Varint.Enc(w);
      DecodeField(sc, m, i, Varint.Enc(w), Num(w));
    } else {
      hide Decode, Tag;
      var n := if f.kind.Double? then 8 else 4;
      Pow2Known();
      FixedRoundTrip(w, n);
      assert FixedBytes(w, n)[..n] == FixedBytes(w, n);
      DecodeField(sc, m, i, FixedBytes(w, n), Num(w));
    }
  }

  lemma {:induction false} DecodeStrings(sc: Schema, m: Msg, i: nat, strs: seq<bytes>)
    requires ValidSchema(sc) && WellTyped(sc, m) && i < |sc.fields| && sc.fields[i].kind == RepeatedString
    requires |Strings(sc.fields[i].num, strs)| < TWO63
    ensures HasType(RepeatedString, m.vals[i])
    ensures Decode(sc, m, Strings(sc.fields[i].num, strs)) == Ok(m.(vals := m.vals[i := Strs(m.vals[i].strs + strs)]))
    decreases |strs|
  {
    hide Decode, Delimited, HasType;
    assert HasType(RepeatedString, m.vals[i]);
    StrsHaveType(m.vals[i]);
    if strs == [] {
      DecodeNone(sc, m);
      assert m.vals[i].strs + [] == m.vals[i].strs;
      assert m.vals[i := m.vals[i]] == m.vals;
    } else {
      var num := sc.fields[i].num;
      var v := Strs(m.vals[i].strs + [strs[0]]);
      var m' := m.(vals := m.vals[i := v]);
      BodyShorter(num, strs[0]);
      DecodeDelimited(sc, m, i, strs[0], v);
      StrsHaveType(v);
      DecodeConcat(sc, m, Delimited(num, strs[0]), Strings(num, strs[1..]));
      DecodeStrings(sc, m', i, strs[1..]);
      assert m.vals[i].strs + [strs[0]] + strs[1..] == m.vals[i].strs + strs;
      assert m'.vals[i := Strs(m.vals[i].strs + strs)] == m.vals[i := Strs(m.vals[i].strs + strs)];
    }
  }

  lemma StrsHaveType(v: Val)
    ensures HasType(RepeatedString, v) <==> v.Strs?
  {
  }

  lemma BodyShorter(num: nat, body: bytes)
    ensures |Delimited(num, body)| > |body|
  {
    hide Varint.Enc;
  }

  /** The key (num 1) or the value (num 2) of an entry. */
  lemma EntryString(num: nat, str: bytes, rest: bytes, key: bytes, value: bytes)
    requires num == 1 || num == 2
    requires |str| < TWO63
    ensures Entry(Delimited(num, str) + rest, |Delimited(num, str)| + |rest|, key, value) ==
            if num == 1 then Entry(rest, |rest|, str, value) else Entry(rest, |rest|, key, str)
  {
    hide Varint.Enc, Varint.Dec, LenPrefix, Entry;
    var wire := num * 8 + 2;
    var tag, len := Varint.Enc(wire), Varint.Enc(|str|);
    var body := len + str + rest;
    var t := Delimited(num, str) + rest;
    Varint.RoundTrip(wire, body);
    LenPrefixBody(str, rest);
    assert t == tag + body;
    assert t[|tag|..] == body;
    assert t[|Delimited(num, str)|..] == rest;
    assert body[|len|..|len| + |str|] == str;
    EntryStep(t, wire, |tag|, |len|, |len| + |str|, str, rest, key, value);
  }

  lemma EntryStep(t: bytes, wire: uint64, k: nat, i: nat, j: nat, str: bytes, rest: bytes, key: bytes, value: bytes)
    requires Varint.Dec(t) == Ok((wire, k)) && (wire / 8 == 1 || wire / 8 == 2)
    requires LenPrefix(t[k..]) == Ok((i, j)) && t[k..][i..j] == str && t[k + j..] == rest
    ensures Entry(t, |t|, key, value) ==
            if wire / 8 == 1 then Entry(rest, |rest|, str, value) else Entry(rest, |rest|, key, str)
  {
    hide Varint.Dec, LenPrefix;
  }

  /** An entry yields its key and its value. */
  lemma EntryRoundTrip(key: bytes, value: bytes)
    requires |key| < TWO63 && |value| < TWO63
    ensures Entry(EntryBody(key, value), |EntryBody(key, value)|, [], []) == Ok((key, value))
  {
    hide Delimited, Entry;
    EntryString(1, key, Delimited(2, value), [], []);
    EntryString(2, value, [], key, []);
    assert Delimited(2, value) + [] == Delimited(2, value);
    EntryEnds(key, value);
  }

  lemma EntryEnds(key: bytes, value: bytes)
    ensures Entry([], 0, key, value) == Ok((key, value))
  {
  }

  /** The map m after the pairs of es have been stored in it, one by one. */
  function StoreAll(m: map<bytes, bytes>, es: seq<(bytes, bytes)>): map<bytes, bytes>
    decreases |es|
  {
    if es == [] then m else StoreAll(m[es[0].0 := es[0].1], es[1..])
  }

  /** A key that has no pair keeps what it had. */
  lemma {:induction false} KeyWithoutPair(m: map<bytes, bytes>, es: seq<(bytes, bytes)>, key: bytes)
    requires forall j :: 0 <= j < |es| ==> es[j].0 != key
    ensures key in StoreAll(m, es) <==> key in m
    ensures key in m ==> StoreAll(m, es)[key] == m[key]
    decreases |es|
  {
    if es != [] {
      KeyWithoutPair(m[es[0].0 := es[0].1], es[1..], key);
    }
  }

  /** The last pair for a key decides its value. */
  lemma {:induction false} LastDuplicateWins(m: map<bytes, bytes>, es: seq<(bytes, bytes)>, i: nat)
    requires i < |es| && forall j :: i < j < |es| ==> es[j].0 != es[i].0
    ensures es[i].0 in StoreAll(m, es) && StoreAll(m, es)[es[i].0] == es[i].1
    decreases |es|
  {
    var m', rest := m[es[0].0 := es[0].1], es[1..];
    if i == 0 {
      KeyWithoutPair(m', rest, es[0].0);
    } else {
      assert forall j :: i - 1 < j < |rest| ==> rest[j] == es[j + 1];
      LastDuplicateWins(m', rest, i - 1);
    }
  }

  /** Storing the entries of a map that es lists merges that map in. */
  lemma {:induction false} StoringListed(m: map<bytes, bytes>, es: seq<(bytes, bytes)>, entries: map<bytes, bytes>)
    requires Lists(es, entries)
    ensures StoreAll(m, es) == m + entries
    decreases |es|
  {
    if es == [] {
      assert m + map[] == m;
    } else {
      var m', key := m[es[0].0 := es[0].1], es[0].0;
      StoringListed(m', es[1..], entries - {key});
      assert m' + (entries - {key}) == m + entries;
    }
  }

  /** Maps: a run of entries is stored entry by entry, so the last duplicate of a key wins. */
  lemma {:induction false} DecodeEntries(sc: Schema, m: Msg, i: nat, es: seq<(bytes, bytes)>)
    requires ValidSchema(sc) && WellTyped(sc, m) && i < |sc.fields| && sc.fields[i].kind == StringMap
    requires |Entries(sc.fields[i].num, es)| < TWO63
    ensures HasType(StringMap, m.vals[i])
    ensures Decode(sc, m, Entries(sc.fields[i].num, es)) ==
            Ok(m.(vals := m.vals[i := StrMap(StoreAll(m.vals[i].entries, es))]))
    decreases |es|
  {
    hide Decode, Delimited, HasType, EntryBody;
    assert HasType(StringMap, m.vals[i]);
    StrMapHasType(m.vals[i]);
    if es == [] {
      DecodeNone(sc, m);
      assert m.vals[i := m.vals[i]] == m.vals;
    } else {
      var num, key, value := sc.fields[i].num, es[0].0, es[0].1;
      var body := EntryBody(key, value);
      var v := StrMap(m.vals[i].entries[key := value]);
      var m' := m.(vals := m.vals[i := v]);
      BodyShorter(num, body);
      EntryCovers(key, value);
      EntryRoundTrip(key, value);
      DecodeDelimited(sc, m, i, body, v);
      StrMapHasType(v);
      DecodeConcat(sc, m, Delimited(num, body), Entries(num, es[1..]));
      DecodeEntries(sc, m', i, es[1..]);
      var all := StrMap(StoreAll(m.vals[i].entries, es));
      assert m'.vals[i := all] == m.vals[i := all];
    }
  }

  /** The entries that are written for a map merge it in, whatever their order. */
  lemma DecodeMap(sc: Schema, m: Msg, i: nat, es: seq<(bytes, bytes)>, entries: map<bytes, bytes>)
    requires ValidSchema(sc) && WellTyped(sc, m) && i < |sc.fields| && sc.fields[i].kind == StringMap
    requires Lists(es, entries) && |Entries(sc.fields[i].num, es)| < TWO63
    ensures HasType(StringMap, m.vals[i])
    ensures Decode(sc, m, Entries(sc.fields[i].num, es)) ==
            Ok(m.(vals := m.vals[i := StrMap(m.vals[i].entries + entries)]))
  {
    hide Decode, HasType, Entries;
    DecodeEntries(sc, m, i, es);
    StrMapHasType(m.vals[i]);
    StoringListed(m.vals[i].entries, es, entries);
  }

  lemma StrMapHasType(v: Val)
    ensures HasType(StringMap, v) <==> v.StrMap?
  {
  }

  lemma EntryCovers(key: bytes, value: bytes)
    ensures |EntryBody(key, value)| > |key| && |EntryBody(key, value)| > |value|
  {
    BodyShorter(1, key);
    BodyShorter(2, value);
    hide Delimited;
  }

  lemma {:induction false} DecodeSubs(sc: Schema, m: Msg, i: nat, sub: Schema, subs: seq<Msg>, b: bytes)
    requires ValidSchema(sc) && WellTyped(sc, m) && i < |sc.fields| && sc.fields[i].kind == RepeatedMessage(sub)
    requires forall j :: 0 <= j < |subs| ==> WellTyped(sub, subs[j]) && Clean(sub, subs[j])
    requires EncodesSubs(sc.fields[i].num, sub, subs, b) && |b| < TWO63
    ensures HasType(RepeatedMessage(sub), m.vals[i])
    ensures Decode(sc, m, b) == Ok(m.(vals := m.vals[i := Subs(m.vals[i].subs + Copies(sub, subs))]))
    decreases sub, |sub.fields| + 2, |subs|
  {
    hide Decode, Delimited, HasType, Clean, Encodes, WellTyped, Canonical, Copies, ValidSchema;
    IsTyped(sc, m, i);
    SubsHaveType(sub, m.vals[i]);
    if subs == [] {
      DecodeNone(sc, m);
      NoCopies(sub, m, i);
    } else {
      var num := sc.fields[i].num;
      var c, rest := FirstSub(num, sub, subs, b);
      var m' := DecodeSub(sc, m, i, sub, subs[0], c);
      DecodeConcat(sc, m, Delimited(num, c), rest);
      DecodeSubs(sc, m', i, sub, subs[1..], rest);
      OneMoreCopy(sub, m.vals[i].subs, subs);
      SetTwice(m, i, m'.vals[i], Subs(m.vals[i].subs + Copies(sub, subs)));
    }
  }

  lemma FirstSub(num: nat, sub: Schema, subs: seq<Msg>, b: bytes) returns (c: bytes, rest: bytes)
    requires forall j :: 0 <= j < |subs| ==> WellTyped(sub, subs[j])
    requires subs != [] && EncodesSubs(num, sub, subs, b)
    ensures Encodes(sub, subs[0], c) && EncodesSubs(num, sub, subs[1..], rest) && b == Delimited(num, c) + rest
  {
    hide Encodes, WellTyped, Delimited;
    c, rest :| Encodes(sub, subs[0], c) && EncodesSubs(num, sub, subs[1..], rest) && b == Delimited(num, c) + rest;
  }

  lemma NoCopies(sub: Schema, m: Msg, i: nat)
    requires i < |m.vals| && m.vals[i].Subs?
    ensures m.(vals := m.vals[i := Subs(m.vals[i].subs + Copies(sub, []))]) == m
  {
    assert m.vals[i].subs + Copies(sub, []) == m.vals[i].subs;
    assert m.vals[i := m.vals[i]] == m.vals;
  }

  lemma OneMoreCopy(sub: Schema, before: seq<Msg>, subs: seq<Msg>)
    requires subs != [] && forall j :: 0 <= j < |subs| ==> WellTyped(sub, subs[j])
    ensures before + [Canonical(sub, subs[0])] + Copies(sub, subs[1..]) == before + Copies(sub, subs)
  {
    hide Canonical, WellTyped;
  }

  /** One element of a repeated message. */
  lemma {:induction false} DecodeSub(sc: Schema, m: Msg, i: nat, sub: Schema, x: Msg, c: bytes) returns (m': Msg)
    requires ValidSchema(sc) && WellTyped(sc, m) && i < |sc.fields| && sc.fields[i].kind == RepeatedMessage(sub)
    requires WellTyped(sub, x) && Clean(sub, x) && Encodes(sub, x, c) && |Delimited(sc.fields[i].num, c)| < TWO63
    ensures m.vals[i].Subs?
    ensures m' == m.(vals := m.vals[i := Subs(m.vals[i].subs + [Canonical(sub, x)])])
    ensures Decode(sc, m, Delimited(sc.fields[i].num, c)) == Ok(m')
    decreases sub, |sub.fields| + 2, 0
  {
    hide Decode, Delimited, HasType, Clean, Encodes, WellTyped, Canonical, Merge, Empty;
    IsTyped(sc, m, i);
    SubsHaveType(sub, m.vals[i]);
    assert ValidKind(sc.fields[i].kind);
    BodyShorter(sc.fields[i].num, c);
    DecodeEncoding(sub, Empty(sub), x, c);
    CanonicalIs(sub, x);
    var v := Subs(m.vals[i].subs + [Canonical(sub, x)]);
    m' := m.(vals := m.vals[i := v]);
    DecodeDelimited(sc, m, i, c, v);
  }

  lemma SetTwice(m: Msg, i: nat, v: Val, w: Val)
    requires i < |m.vals|
    ensures m.vals[i := v][i := w] == m.vals[i := w]
  {
  }

  lemma CanonicalIs(sc: Schema, m: Msg)
    requires WellTyped(sc, m)
    ensures Canonical(sc, m) == Merge(sc, Empty(sc), m)
  {
  }

  lemma SubsHaveType(sub: Schema, v: Val)
    ensures HasType(RepeatedMessage(sub), v) <==> v.Subs? && forall i :: 0 <= i < |v.subs| ==> WellTyped(sub, v.subs[i])
  {
  }

  lemma {:induction false} DecodeVal(sc: Schema, m: Msg, i: nat, v: Val, b: bytes)
    requires ValidSchema(sc) && WellTyped(sc, m) && i < |sc.fields|
    requires HasType(sc.fields[i].kind, v) && CleanVal(sc.fields[i].kind, v)
    requires EncodesVal(sc.fields[i], v, b) && |b| < TWO63
    ensures Decode(sc, m, b) == Ok(m.(vals := m.vals[i := MergeVal(sc.fields[i].kind, m.vals[i], v)]))
    decreases sc, 0, 0
  {
    hide Decode, Delimited, Clean, Encodes, EncodesSubs, Number, WellTyped, Empty;
    var f := sc.fields[i];
    IsTyped(sc, m, i);
    match f.kind
    case String =>
      if v.str == [] {
        DecodeNone(sc, m);
        assert m.vals[i := m.vals[i]] == m.vals;
      } else {
        BodyShorter(f.num, v.str);
        DecodeDelimited(sc, m, i, v.str, v);
      }
    case RepeatedString =>
      DecodeStrings(sc, m, i, v.strs);
    case Message(sub) =>
      assert ValidKind(f.kind);
      if v.sub.None? {
        DecodeNone(sc, m);
        assert m.vals[i := m.vals[i]] == m.vals;
      } else {
        var c :| Encodes(sub, v.sub.value, c) && b == Delimited(f.num, c);
        var base := if m.vals[i].sub.Some? then m.vals[i].sub.value else Empty(sub);
        BodyShorter(f.num, c);
        DecodeEncoding(sub, base, v.sub.value, c);
        DecodeDelimited(sc, m, i, c, Sub(Some(Merge(sub, base, v.sub.value))));
      }
    case RepeatedMessage(sub) =>
      DecodeSubs(sc, m, i, sub, v.subs, b);
    case StringMap =>
      var es :| Lists(es, v.entries) && b == Entries(f.num, es);
      DecodeMap(sc, m, i, es, v.entries);
    case _ =>
      DecodeNumber(sc, m, i, v.word);
  }

  lemma IsTyped(sc: Schema, m: Msg, i: nat)
    requires WellTyped(sc, m) && i < |sc.fields|
    ensures i < |m.vals| && HasType(sc.fields[i].kind, m.vals[i])
  {
  }

  //
  // Reading back a message
  //

  lemma {:induction false} DecodeFrom(sc: Schema, m: Msg, w: Msg, i: nat, b: bytes)
    requires ValidSchema(sc) && WellTyped(sc, m) && WellTyped(sc, w) && Clean(sc, w) && i <= |sc.fields|
    requires EncodesFrom(sc, w, i, b) && |b| < TWO63
    ensures Decode(sc, m, b) == Ok(MergeFrom(sc, m, w, i))
    decreases sc, |sc.fields| - i, 1
  {
    hide Decode, EncodesVal, CleanVal, HasType, AllUnknown, MergeVal;
    if i == |sc.fields| {
      DecodeUnknown(sc, m, w.unknown);
    } else {
      var b1, b2 :| EncodesVal(sc.fields[i], w.vals[i], b1) && EncodesFrom(sc, w, i + 1, b2) && b == b1 + b2;
      DecodeVal(sc, m, i, w.vals[i], b1);
      var m' := m.(vals := m.vals[i := MergeVal(sc.fields[i].kind, m.vals[i], w.vals[i])]);
      DecodeConcat(sc, m, b1, b2);
      DecodeFrom(sc, m', w, i + 1, b2);
    }
  }

  /** Last One Wins, second half, and the heart of the round trip: reading any encoding
      of w onto m gives m with w merged in, in whatever order w's maps were written. */
  lemma {:induction false} DecodeEncoding(sc: Schema, m: Msg, w: Msg, b: bytes)
    requires ValidSchema(sc) && WellTyped(sc, m) && WellTyped(sc, w) && Clean(sc, w)
    requires Encodes(sc, w, b) && |b| < TWO63
    ensures Decode(sc, m, b) == Ok(Merge(sc, m, w))
    decreases sc, |sc.fields| + 1, 0
  {
    DecodeFrom(sc, m, w, 0, b);
  }
}
