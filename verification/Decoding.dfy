/** What the bytes of a message mean: `Unmarshal` as a function on values. */
module Decoding {
  import opened GoInts
  import opened Errors
  import opened Schemas
  import Varint
  import Records

  //
  // The decoder
  //

  datatype Head = Head(num: int, wireType: nat, len: nat)

  /** The tag at the start of a record. */
  function Header(s: bytes): (r: Result<Head>)
    ensures r.Ok? ==> 0 < r.value.num && 1 <= r.value.len <= |s| && r.value.wireType < 8
  {
    var (wire, k) :- Varint.Dec(s);
    var num, wt := Signed32(wire / 8), wire % 8;
    if wt == 4 then Err(EndGroupTag)
    else if num <= 0 then Err(BadTag(num, wire))
    else Ok(Head(num, wt, k))
  }

  /** A length and that many bytes: where they begin and end. */
  function LenPrefix(s: bytes): (r: Result<(nat, nat)>)
    ensures r.Ok? ==> 1 <= r.value.0 <= r.value.1 <= |s|
  {
    var (len, k) :- Varint.Dec(s);
    if k + len > |s| then Err(Bounds) else Ok((k, k + len))
  }

  /** A little-endian word. */
  function Fixed(s: bytes): (v: nat) {
    if s == [] then 0 else s[0] + 256 * Fixed(s[1..])
  }

  lemma {:induction false} FixedBound(s: bytes)
    ensures Fixed(s) < Pow2(8 * |s|)
  {
    if s != [] {
      FixedBound(s[1..]);
      assert Pow2(8) == 256;
      Pow2Sum(8, 8 * (|s| - 1));
    }
  }

  function Word(s: bytes): (v: uint64)
    requires |s| <= 8
  {
    FixedBound(s);
    Pow2Known();
    Pow2Sum(8 * |s|, 64 - 8 * |s|);
    WordBound(Fixed(s), Pow2(8 * |s|), Pow2(64 - 8 * |s|));
    Fixed(s)
  }

  /** The word of a double, byte by byte. */
  lemma EightDigits(s: bytes)
    requires |s| == 8
    ensures Word(s) == s[0] as int + 0x100 * (s[1] as int) + 0x1_0000 * (s[2] as int) +
                       0x100_0000 * (s[3] as int) + 0x1_0000_0000 * (s[4] as int) + 0x100_0000_0000 * (s[5] as int) +
                       0x1_0000_0000_0000 * (s[6] as int) + 0x100_0000_0000_0000 * (s[7] as int)
  {
    FourDigits(s);
    FourDigits(s[4..]);
    assert s[4..][4..] == [];
  }

  lemma FourDigits(s: bytes)
    requires |s| >= 4
    ensures Fixed(s) == s[0] as int + 0x100 * (s[1] as int) + 0x1_0000 * (s[2] as int) + 0x100_0000 * (s[3] as int) +
                        0x1_0000_0000 * Fixed(s[4..])
  {
    assert s[1..][1..] == s[2..] && s[2..][1..] == s[3..] && s[3..][1..] == s[4..];
    assert Fixed(s[1..]) == s[1] + 256 * Fixed(s[2..]);
    assert Fixed(s[2..]) == s[2] + 256 * Fixed(s[3..]);
    assert Fixed(s[3..]) == s[3] + 256 * Fixed(s[4..]);
  }

  lemma WordBound(v: nat, p: nat, q: nat)
    requires v < p && q >= 1
    ensures v < p * q
  {
  }

  /** The key and value of a map entry, whose remaining length is left (or less than
      nothing, when a string has run past the end of the entry). The strings are bounded
      by the end of the buffer, t, not by the end of the entry; the wire
      types of the key and the value are not looked at. */
  function Entry(t: bytes, left: int, key: bytes, value: bytes): (r: Result<(bytes, bytes)>)
    decreases |t|
  {
    if left <= 0 then Ok((key, value))
    else
      var (wire, k) :- Varint.Dec(t);
      var num := Signed32(wire / 8);
      if num == 1 || num == 2 then
        var (i, j) :- LenPrefix(t[k..]);
        var str, n := t[k..][i..j], k + j;
        Entry(t[n..], left - n, if num == 1 then str else key, if num == 1 then value else str)
      else
        var n :- Records.Length(t);
        if n > left then Err(Bounds) else Entry(t[n..], left - n, key, value)
  }

  lemma NarrowTwice(kind: Kind, x: uint64)
    requires kind.IsNumber()
    ensures Narrow(kind, Narrow(kind, x)) == Narrow(kind, x)
  {
    hide Signed32, Unsigned64;
    if kind.Int32? {
      SignedTwice(Signed32(x));
    }
  }

  lemma SignedTwice(y: int32)
    ensures Signed32(Unsigned64(y)) == y
  {
    if y < 0 {
      assert Unsigned64(y) == y + TWO64;
      ModUnique(TWO32 - 1, y + TWO32, TWO32);
    }
  }

  /** Reads a number after its tag: the word, and the bytes used. */
  function NumberStep(kind: Kind, p: bytes): (r: Result<(uint64, nat)>)
    requires kind.IsNumber()
    ensures r.Ok? ==> r.value.1 <= |p| && r.value.0 == Narrow(kind, r.value.0)
  {
    hide Varint.Dec, Word;
    if kind.IsVarint() then
      var (x, n) :- Varint.Dec(p);
      NarrowTwice(kind, x);
      Ok((Narrow(kind, x), n))
    else if kind.Double? then
      if |p| < 8 then Err(Bounds) else Ok((Word(p[..8]), 8))
    else
      if |p| < 4 then Err(Bounds)
      else
        NarrowTwice(kind, Word(p[..4]));
        Ok((Narrow(kind, Word(p[..4])), 4))
  }

  /** Reads one field after its tag: the new value of the field, and the bytes used. */
  function FieldStep(kind: Kind, num: int, wireType: nat, v: Val, p: bytes): (r: Result<(Val, nat)>)
    requires HasType(kind, v)
    ensures r.Ok? ==> r.value.1 <= |p| && HasType(kind, r.value.0)
    decreases |p|, 0
  {
    if wireType != kind.WireType() then Err(WrongType(wireType, num))
    else if kind.IsNumber() then
      var (w, n) :- NumberStep(kind, p);
      Ok((Num(w), n))
    else
      var (i, j) :- LenPrefix(p);
      var body := p[i..j];
      match kind
      case String => Ok((Str(body), j))
      case RepeatedString => Ok((Strs(v.strs + [body]), j))
      case Message(sc) =>
        var m :- Decode(sc, if v.sub.Some? then v.sub.value else Empty(sc), body);
        Ok((Sub(Some(m)), j))
      case RepeatedMessage(sc) =>
        var m :- Decode(sc, Empty(sc), body);
        Ok((Subs(v.subs + [m]), j))
      case StringMap =>
        var (key, value) :- Entry(p[i..], j - i, [], []);
        Ok((StrMap(v.entries[key := value]), j))
  }

  /** One round of the loop of `Unmarshal`: the message after the record at
      the start of s, and the length of the record. */
  function Step(sc: Schema, m: Msg, s: bytes): (r: Result<(Msg, nat)>)
    requires WellTyped(sc, m)
    ensures r.Ok? ==> WellTyped(sc, r.value.0) && 1 <= r.value.1 <= |s|
    decreases |s|, 1
  {
    var head :- Header(s);
    var i := Find(sc.fields, head.num);
    if i < |sc.fields| then
      var (v, n) :- FieldStep(sc.fields[i].kind, head.num, head.wireType, m.vals[i], s[head.len..]);
      Ok((m.(vals := m.vals[i := v]), head.len + n))
    else
      var n :- Records.Length(s);
      Ok((m.(unknown := m.unknown + s[..n]), n))
  }

  /** `Unmarshal`: m after all the records of s. */
  function Decode(sc: Schema, m: Msg, s: bytes): (r: Result<Msg>)
    requires WellTyped(sc, m)
    ensures r.Ok? ==> WellTyped(sc, r.value)
    decreases |s|, 2
  {
    if s == [] then Ok(m)
    else
      var (m', n) :- Step(sc, m, s);
      Decode(sc, m', s[n..])
  }

  //
  // Stability: what has been decoded from s is decoded from every extension of s
  //

  lemma HeaderStable(s: bytes, t: bytes)
    requires s <= t && Header(s).Ok?
    ensures Header(t) == Header(s)
  {
    hide Varint.Dec;
    Varint.DecStable(s, t);
  }

  lemma LenPrefixStable(s: bytes, t: bytes)
    requires s <= t && LenPrefix(s).Ok?
    ensures LenPrefix(t) == LenPrefix(s)
  {
    hide Varint.Dec;
    Varint.DecStable(s, t);
  }

  lemma {:induction false} EntryStable(s: bytes, t: bytes, left: int, key: bytes, value: bytes)
    requires s <= t && Entry(s, left, key, value).Ok?
    ensures Entry(t, left, key, value) == Entry(s, left, key, value)
    decreases |s|
  {
    hide Varint.Dec, Records.Length, LenPrefix, Signed32;
    if left > 0 {
      Varint.DecStable(s, t);
      var (wire, k) := Varint.Dec(s).value;
      var num := Signed32(wire / 8);
      if num == 1 || num == 2 {
        LenPrefixStable(s[k..], t[k..]);
        var (i, j) := LenPrefix(s[k..]).value;
        var n := k + j;
        var str := s[k..][i..j];
        assert t[k..][i..j] == str;
        EntryStable(s[n..], t[n..], left - n, if num == 1 then str else key, if num == 1 then value else str);
      } else {
        Records.LengthStable(s, t);
        var n := Records.Length(s).value;
        EntryStable(s[n..], t[n..], left - n, key, value);
      }
    }
  }

  lemma NumberStepStable(kind: Kind, s: bytes, t: bytes)
    requires kind.IsNumber() && s <= t && NumberStep(kind, s).Ok?
    ensures NumberStep(kind, t) == NumberStep(kind, s)
  {
    hide Varint.Dec, Word;
    if kind.IsVarint() {
      Varint.DecStable(s, t);
    } else if kind.Double? {
      assert s[..8] == t[..8];
    } else {
      assert s[..4] == t[..4];
    }
  }

  lemma FieldStepStable(kind: Kind, num: int, wireType: nat, v: Val, s: bytes, t: bytes)
    requires HasType(kind, v)
    requires s <= t && FieldStep(kind, num, wireType, v, s).Ok?
    ensures FieldStep(kind, num, wireType, v, t) == FieldStep(kind, num, wireType, v, s)
  {
    hide Varint.Dec, LenPrefix, Decode, Entry, NumberStep, HasType;
    if kind.IsNumber() {
      NumberStepStable(kind, s, t);
    } else {
      LenPrefixStable(s, t);
      var (i, j) := LenPrefix(s).value;
      assert s[i..j] == t[i..j];
      if kind.StringMap? {
        EntryStable(s[i..], t[i..], j - i, [], []);
      }
    }
  }

  lemma StepStable(sc: Schema, m: Msg, s: bytes, t: bytes)
    requires WellTyped(sc, m)
    requires s <= t && Step(sc, m, s).Ok?
    ensures Step(sc, m, t) == Step(sc, m, s)
  {
    hide Header, FieldStep, HasType, Records.Length;
    HeaderStable(s, t);
    var head := Header(s).value;
    var i := Find(sc.fields, head.num);
    if i < |sc.fields| {
      FieldStepStable(sc.fields[i].kind, head.num, head.wireType, m.vals[i], s[head.len..], t[head.len..]);
    } else {
      Records.LengthStable(s, t);
      assert s[..Records.Length(s).value] == t[..Records.Length(s).value];
    }
  }

  lemma DecodeStep(sc: Schema, m: Msg, s: bytes)
    requires WellTyped(sc, m) && s != []
    ensures Step(sc, m, s).Err? ==> Decode(sc, m, s) == Err(Step(sc, m, s).fault)
    ensures Step(sc, m, s).Ok? ==> Decode(sc, m, s) == Decode(sc, Step(sc, m, s).value.0, s[Step(sc, m, s).value.1..])
  {
    hide Step, WellTyped;
  }

  lemma DecodeNone(sc: Schema, m: Msg)
    requires WellTyped(sc, m)
    ensures Decode(sc, m, []) == Ok(m)
  {
  }

  /** Last One Wins, first half: decoding a and b together is decoding a, and then b
      onto the result. */
  lemma {:induction false} DecodeConcat(sc: Schema, m: Msg, a: bytes, b: bytes)
    requires WellTyped(sc, m) && Decode(sc, m, a).Ok?
    ensures Decode(sc, m, a + b) == Decode(sc, Decode(sc, m, a).value, b)
    decreases |a|
  {
    hide Step, Decode, WellTyped;
    if a == [] {
      DecodeNone(sc, m);
      assert a + b == b;
    } else {
      DecodeStep(sc, m, a);
      DecodeStep(sc, m, a + b);
      StepStable(sc, m, a, a + b);
      var (m', n) := Step(sc, m, a).value;
      assert (a + b)[n..] == a[n..] + b;
      DecodeConcat(sc, m', a[n..], b);
    }
  }
}
