/** Field Order: when two adjacent records may change places. */
module FieldOrder {
  import opened GoInts
  import opened Errors
  import opened Schemas
  import opened Decoding
  import opened Theorems
  import opened Unknowns
  import Records
  import Varint

  //
  // Records on their own
  //

  /** r is one record that sc accepts on its own. */
  ghost predicate Accepts(sc: Schema, r: bytes) {
    Step(sc, Empty(sc), r).Ok? && Step(sc, Empty(sc), r).value.1 == |r|
  }

  /** The position of the field that claims the record at the start of s; the number of
      fields, if none does. */
  function Target(sc: Schema, s: bytes): (i: nat)
    ensures i <= |sc.fields|
  {
    if Header(s).Ok? then Find(sc.fields, Header(s).value.num) else |sc.fields|
  }

  /** If the record at the start of s belongs to a map, the number of bytes by which the strings
      of its entry run past the end of the entry. */
  function Borrowed(sc: Schema, s: bytes): int {
    var i := Target(sc, s);
    if i < |sc.fields| && sc.fields[i].kind.StringMap? then
      var p := s[Header(s).value.len..];
      match LenPrefix(p)
      case Err(_) => 0
      case Ok((i, j)) => -EntryLeft(p[i..], j - i)
    else 0
  }

  /** No string of a map entry at the start of s runs past the end of the entry. */
  predicate Confined(sc: Schema, s: bytes) {
    Borrowed(sc, s) == 0
  }

  ghost predicate HasMaps(sc: Schema) {
    exists i :: 0 <= i < |sc.fields| && sc.fields[i].kind.StringMap?
  }

  //
  // A record that is confined means the same without what follows it
  //

  lemma NumberStepLocal(kind: Kind, p: bytes)
    requires kind.IsNumber() && NumberStep(kind, p).Ok?
    ensures NumberStep(kind, p[..NumberStep(kind, p).value.1]) == NumberStep(kind, p)
  {
    hide Varint.Dec, Word;
    var n := NumberStep(kind, p).value.1;
    if kind.IsVarint() {
      Varint.DecLocal(p);
    } else {
      assert p[..n][..n] == p[..n];
    }
  }

  lemma FieldStepLocal(kind: Kind, num: int, wireType: nat, v: Val, p: bytes)
    requires HasType(kind, v) && FieldStep(kind, num, wireType, v, p).Ok?
    requires kind.StringMap? ==> EntryLeft(p[LenPrefix(p).value.0..], LenPrefix(p).value.1 - LenPrefix(p).value.0) == 0
    ensures FieldStep(kind, num, wireType, v, p[..FieldStep(kind, num, wireType, v, p).value.1]) ==
            FieldStep(kind, num, wireType, v, p)
  {
    hide Varint.Dec, LenPrefix, Decode, Entry, EntryLeft, NumberStep, HasType;
    var n := FieldStep(kind, num, wireType, v, p).value.1;
    if kind.IsNumber() {
      NumberStepLocal(kind, p);
    } else {
      LenPrefixLocal(p, n);
      var (i, j) := LenPrefix(p).value;
      assert p[..n][i..j] == p[i..j];
      if kind.StringMap? {
        EntryConfined(p[i..], j - i, [], []);
        assert p[..n][i..] == p[i..][..j - i];
      }
    }
  }

  lemma StepLocal(sc: Schema, m: Msg, s: bytes)
    requires WellTyped(sc, m) && Step(sc, m, s).Ok? && Confined(sc, s)
    ensures Step(sc, m, s[..Step(sc, m, s).value.1]) == Step(sc, m, s)
  {
    hide Header, FieldStep, HasType, Records.Length, EntryLeft, LenPrefix;
    var n := Step(sc, m, s).value.1;
    var head := Header(s).value;
    var i := Find(sc.fields, head.num);
    if i < |sc.fields| {
      StepParts(sc, m, s);
      HeaderLocal(s, n);
      FieldStepLocal(sc.fields[i].kind, head.num, head.wireType, m.vals[i], s[head.len..]);
      assert s[..n][head.len..] == s[head.len..][..n - head.len];
    } else {
      LengthCoversTag(s);
      HeaderLocal(s, n);
      Records.LengthStable(s, s);
      assert s[..n][..n] == s[..n];
    }
  }

  lemma StepParts(sc: Schema, m: Msg, s: bytes)
    requires WellTyped(sc, m) && Step(sc, m, s).Ok? && Target(sc, s) < |sc.fields|
    ensures var kind, p := sc.fields[Target(sc, s)].kind, s[Header(s).value.len..];
            kind.WireType() == 2 ==>
              && LenPrefix(p).Ok?
              && Step(sc, m, s).value.1 == Header(s).value.len + LenPrefix(p).value.1
  {
    hide Header, HasType, Records.Length, Decode, Entry, LenPrefix;
  }

  /** A record consumed in some context is accepted on its own if and only if it is confined;
      where the message has no map, every one is. */
  lemma AcceptedAlone(sc: Schema, m: Msg, r: bytes, rest: bytes)
    requires WellTyped(sc, m) && Step(sc, m, r + rest).Ok? && Step(sc, m, r + rest).value.1 == |r|
    ensures Accepts(sc, r) <==> Confined(sc, r + rest)
    ensures !HasMaps(sc) ==> Accepts(sc, r)
  {
    hide Header, Step, HasType, LenPrefix, Entry, EntryLeft;
    var s := r + rest;
    assert s[..|r|] == r;
    if Confined(sc, s) {
      StepLocal(sc, m, s);
      SameStepAnywhere(sc, m, Empty(sc), r);
    }
    if Accepts(sc, r) {
      AcceptsHeader(sc, Empty(sc), r);
      HeaderStable(r, s);
      if Target(sc, s) < |sc.fields| && sc.fields[Target(sc, s)].kind.StringMap? {
        EntryOfStep(sc, Empty(sc), r);
        ConfinedByPrefix(r[Header(r).value.len..], s[Header(r).value.len..]);
      }
    }
  }

  lemma EntryOfStep(sc: Schema, m: Msg, s: bytes)
    requires WellTyped(sc, m) && Step(sc, m, s).Ok?
    requires Target(sc, s) < |sc.fields| && sc.fields[Target(sc, s)].kind.StringMap?
    ensures Header(s).Ok?
    ensures var p := s[Header(s).value.len..];
            && LenPrefix(p).Ok? && Step(sc, m, s).value.1 == Header(s).value.len + LenPrefix(p).value.1
            && Entry(p[LenPrefix(p).value.0..], LenPrefix(p).value.1 - LenPrefix(p).value.0, [], []).Ok?
  {
    hide Header, HasType, Records.Length, LenPrefix, Entry;
  }

  lemma ConfinedByPrefix(p: bytes, q: bytes)
    requires p <= q && LenPrefix(p).Ok? && LenPrefix(p).value.1 == |p|
    requires Entry(p[LenPrefix(p).value.0..], |p| - LenPrefix(p).value.0, [], []).Ok?
    ensures LenPrefix(q) == LenPrefix(p)
    ensures EntryLeft(q[LenPrefix(q).value.0..], LenPrefix(q).value.1 - LenPrefix(q).value.0) == 0
  {
    hide LenPrefix, Entry, EntryLeft;
    LenPrefixStable(p, q);
    var i := LenPrefix(p).value.0;
    EntryLeftOfCut(p[i..], |p| - i, [], []);
    EntryLeftStable(p[i..], q[i..], |p| - i, [], []);
  }

  //
  // What records do to the message
  //

  /** The message after the record r, when sc accepts it. */
  function After(sc: Schema, m: Msg, r: bytes): (m': Msg)
    requires WellTyped(sc, m)
    ensures WellTyped(sc, m')
  {
    match Step(sc, m, r)
    case Ok((m', _)) => m'
    case Err(_) => m
  }

  lemma AcceptedAnywhere(sc: Schema, m: Msg, r: bytes, rest: bytes)
    requires WellTyped(sc, m) && Accepts(sc, r)
    ensures Decode(sc, m, r + rest) == Decode(sc, After(sc, m, r), rest)
  {
    hide Step, Decode;
    SameStepAnywhere(sc, Empty(sc), m, r);
    DecodeOne(sc, m, r, After(sc, m, r));
    DecodeConcat(sc, m, r, rest);
  }

  /** Records for different fields, at most one of them unknown, do not disturb each other. */
  lemma AfterCommutes(sc: Schema, m: Msg, r: bytes, t: bytes)
    requires WellTyped(sc, m) && Accepts(sc, r) && Accepts(sc, t)
    requires Header(r).Ok? && Header(t).Ok? && Target(sc, r) != Target(sc, t)
    ensures After(sc, After(sc, m, r), t) == After(sc, After(sc, m, t), r)
  {
    hide Step, After, HasType, Header;
    var i, j := Target(sc, r), Target(sc, t);
    var mr, mt := After(sc, m, r), After(sc, m, t);
    AfterChangesOnly(sc, m, r);
    AfterChangesOnly(sc, m, t);
    AfterIsLocal(sc, m, mt, r, j);
    AfterIsLocal(sc, m, mr, t, i);
    AfterChangesOnly(sc, mr, t);
    AfterChangesOnly(sc, mt, r);
    assert After(sc, mr, t).vals == After(sc, mt, r).vals;
  }

  lemma AfterChangesOnly(sc: Schema, m: Msg, r: bytes)
    requires WellTyped(sc, m) && Header(r).Ok?
    ensures var m', i := After(sc, m, r), Target(sc, r);
            && (forall j :: 0 <= j < |sc.fields| && j != i ==> m'.vals[j] == m.vals[j])
            && (i < |sc.fields| ==> m'.unknown == m.unknown)
            && |m'.vals| == |m.vals| == |sc.fields|
  {
    hide Header, FieldStep, HasType, Records.Length;
  }

  /** What a record does to its own field depends on nothing else in the message. */
  lemma AfterIsLocal(sc: Schema, m: Msg, w: Msg, r: bytes, j: nat)
    requires WellTyped(sc, m) && WellTyped(sc, w) && Header(r).Ok? && j != Target(sc, r) && j <= |sc.fields|
    requires forall k :: 0 <= k < |sc.fields| && k != j ==> m.vals[k] == w.vals[k]
    requires j < |sc.fields| ==> m.unknown == w.unknown
    ensures var i := Target(sc, r);
            if i < |sc.fields| then After(sc, w, r).vals[i] == After(sc, m, r).vals[i]
            else After(sc, w, r).unknown == After(sc, m, r).unknown
  {
    hide Header, FieldStep, HasType, Records.Length;
  }

  lemma AcceptedCommute(sc: Schema, m: Msg, r: bytes, t: bytes, c: bytes)
    requires WellTyped(sc, m) && Accepts(sc, r) && Accepts(sc, t) && Target(sc, r) != Target(sc, t)
    ensures Decode(sc, m, r + (t + c)) == Decode(sc, m, t + (r + c))
  {
    AcceptsHeader(sc, Empty(sc), r);
    AcceptsHeader(sc, Empty(sc), t);
    hide Decode, Accepts, Header, After, Step;
    AcceptedAnywhere(sc, m, r, t + c);
    AcceptedAnywhere(sc, After(sc, m, r), t, c);
    AcceptedAnywhere(sc, m, t, r + c);
    AcceptedAnywhere(sc, After(sc, m, t), r, c);
    AfterCommutes(sc, m, r, t);
  }

  //
  // Swapping complete records
  //

  /** A complete record at the start of accepted bytes is what the first round consumes. */
  lemma FirstRecord(sc: Schema, m: Msg, r: bytes, rest: bytes)
    requires WellTyped(sc, m) && Records.IsRecord(r) && Decode(sc, m, r + rest).Ok?
    ensures r != [] && Step(sc, m, r + rest).Ok? && Step(sc, m, r + rest).value.1 == |r|
    ensures Decode(sc, Step(sc, m, r + rest).value.0, rest).Ok?
    ensures Target(sc, r + rest) == Target(sc, r)
  {
    hide Decode, Step, Records.IsRecord, Records.Length, Header, Find;
    RecordLength(r, rest);
    DecodeStep(sc, m, r + rest);
    StepIsRecord(sc, m, r + rest);
    assert (r + rest)[|r|..] == rest;
    AcceptsHeader(sc, m, r + rest);
    LengthCoversTag(r + rest);
    HeaderLocal(r + rest, |r|);
    assert (r + rest)[..|r|] == r;
  }

  lemma RecordLength(r: bytes, rest: bytes)
    requires Records.IsRecord(r)
    ensures r != [] && Records.Length(r + rest) == Ok(|r|)
  {
    hide Records.IsRecord, Records.Length;
    assert r[..|r|] == r;
    assert (r + rest)[..|r|] == r;
    Records.RecordHasTag(r);
    Records.LengthIsRecord(r + rest, |r|);
  }

  /** Two adjacent complete records for different fields, at most one of them unknown, can be
      swapped in accepted bytes, provided that the strings of map entries stay
      within their entries. */
  lemma SwapRecords(sc: Schema, m: Msg, a: bytes, r: bytes, t: bytes, c: bytes)
    requires WellTyped(sc, m) && Decode(sc, m, a).Ok?
    requires Records.IsRecord(r) && Records.IsRecord(t) && Target(sc, r) != Target(sc, t)
    requires Decode(sc, m, a + (r + (t + c))).Ok?
    requires Confined(sc, r + (t + c)) && Confined(sc, t + c)
    ensures Decode(sc, m, a + (t + (r + c))) == Decode(sc, m, a + (r + (t + c)))
  {
    hide Decode, Step, Records.IsRecord, Confined, Accepts, Target;
    var m' := Decode(sc, m, a).value;
    DecodeConcat(sc, m, a, r + (t + c));
    DecodeConcat(sc, m, a, t + (r + c));
    FirstRecord(sc, m', r, t + c);
    AcceptedAlone(sc, m', r, t + c);
    var m'' := Step(sc, m', r + (t + c)).value.0;
    FirstRecord(sc, m'', t, c);
    AcceptedAlone(sc, m'', t, c);
    AcceptedCommute(sc, m', r, t, c);
  }

  /** Field Order: in a message without maps, adjacent complete records for different fields, at
      most one of them unknown, can always be swapped. */
  lemma OrderIsFree(sc: Schema, m: Msg, a: bytes, r: bytes, t: bytes, c: bytes)
    requires WellTyped(sc, m) && Decode(sc, m, a).Ok? && !HasMaps(sc)
    requires Records.IsRecord(r) && Records.IsRecord(t) && Target(sc, r) != Target(sc, t)
    ensures Decode(sc, m, a + (r + (t + c))).Ok? <==> Decode(sc, m, a + (t + (r + c))).Ok?
    ensures Decode(sc, m, a + (r + (t + c))).Ok? ==>
              Decode(sc, m, a + (t + (r + c))) == Decode(sc, m, a + (r + (t + c)))
  {
    hide Decode, Step, Records.IsRecord, Accepts, Header, EntryLeft, LenPrefix;
    if Decode(sc, m, a + (r + (t + c))).Ok? {
      SwapRecords(sc, m, a, r, t, c);
    }
    if Decode(sc, m, a + (t + (r + c))).Ok? {
      SwapRecords(sc, m, a, t, r, c);
    }
  }

  /** Where there are maps: a record can be moved behind the last one if and only if it is
      confined; if not, the bytes are no longer accepted. */
  lemma SwapToTheEnd(sc: Schema, m: Msg, a: bytes, r: bytes, t: bytes)
    requires WellTyped(sc, m) && Decode(sc, m, a).Ok?
    requires Records.IsRecord(r) && Records.IsRecord(t) && Target(sc, r) != Target(sc, t)
    requires Decode(sc, m, a + (r + t)).Ok?
    ensures Decode(sc, m, a + (t + r)) == Decode(sc, m, a + (r + t)) <==> Confined(sc, r + t)
    ensures Decode(sc, m, a + (t + r)).Ok? <==> Confined(sc, r + t)
  {
    hide Decode, Step, Records.IsRecord, Confined, Accepts, Target;
    var m' := Decode(sc, m, a).value;
    DecodeConcat(sc, m, a, r + t);
    DecodeConcat(sc, m, a, t + r);
    FirstRecord(sc, m', r, t);
    AcceptedAlone(sc, m', r, t);
    LastIsAccepted(sc, Step(sc, m', r + t).value.0, t);
    if Confined(sc, r + t) {
      AcceptedCommute(sc, m', r, t, []);
      assert t + [] == t && r + [] == r;
    } else if Decode(sc, m, a + (t + r)).Ok? {
      FirstRecord(sc, m', t, r);
      LastIsAccepted(sc, Step(sc, m', t + r).value.0, r);
    }
  }

  /** With other bytes c behind the pair: the new order is accepted if and only if the record r is,
      where it comes to stand. One that is not confined then borrows from c, and c holds
      what it borrows. */
  lemma SwapAccepted(sc: Schema, m: Msg, a: bytes, r: bytes, t: bytes, c: bytes)
    requires WellTyped(sc, m) && Decode(sc, m, a).Ok?
    requires Records.IsRecord(r) && Records.IsRecord(t)
    requires Decode(sc, m, a + (r + (t + c))).Ok? && Confined(sc, t + c)
    ensures Decode(sc, m, a + (t + (r + c))).Ok? <==> Step(sc, Empty(sc), r + c).Ok?
    ensures Decode(sc, m, a + (t + (r + c))).Ok? && !Confined(sc, r + (t + c)) ==> 0 < Borrowed(sc, r + c) <= |c|
  {
    hide Decode, Step, Records.IsRecord, Borrowed, Accepts, Target;
    var m' := Decode(sc, m, a).value;
    DecodeConcat(sc, m, a, r + (t + c));
    DecodeConcat(sc, m, a, t + (r + c));
    FirstRecord(sc, m', r, t + c);
    var m'' := Step(sc, m', r + (t + c)).value.0;
    FirstRecord(sc, m'', t, c);
    AcceptedAlone(sc, m'', t, c);
    AcceptedAnywhere(sc, m', t, r + c);
    var w := After(sc, m', t);
    RecordBefore(sc, w, Step(sc, m'', t + c).value.0, r, c);
    if Step(sc, w, r + c).Ok? {
      AcceptedAlone(sc, m', r, t + c);
      AcceptedAlone(sc, w, r, c);
      BorrowedBehind(sc, w, r + c);
    }
  }

  /** Before bytes that are accepted, a complete record decides. */
  lemma RecordBefore(sc: Schema, w: Msg, v: Msg, r: bytes, c: bytes)
    requires WellTyped(sc, w) && WellTyped(sc, v) && Records.IsRecord(r) && Decode(sc, v, c).Ok?
    ensures Decode(sc, w, r + c).Ok? <==> Step(sc, w, r + c).Ok?
    ensures Step(sc, w, r + c).Ok? <==> Step(sc, Empty(sc), r + c).Ok?
    ensures Step(sc, w, r + c).Ok? ==> Step(sc, w, r + c).value.1 == |r|
  {
    hide Decode, Step, Records.IsRecord;
    SameStepAnywhere(sc, w, Empty(sc), r + c);
    RecordLength(r, c);
    DecodeStep(sc, w, r + c);
    if Step(sc, w, r + c).Ok? {
      StepIsRecord(sc, w, r + c);
      assert (r + c)[|r|..] == c;
      SameFaultAnywhere(sc, v, Step(sc, w, r + c).value.0, c);
    }
  }

  /** What a record borrows is there. */
  lemma BorrowedBehind(sc: Schema, w: Msg, s: bytes)
    requires WellTyped(sc, w) && Step(sc, w, s).Ok?
    ensures 0 <= Borrowed(sc, s) <= |s| - Step(sc, w, s).value.1
  {
    hide Header, Step, LenPrefix, Entry, EntryLeft, Target;
    if Target(sc, s) < |sc.fields| && sc.fields[Target(sc, s)].kind.StringMap? {
      EntryOfStep(sc, w, s);
      BorrowedReach(s[Header(s).value.len..]);
    }
  }

  lemma BorrowedReach(p: bytes)
    requires LenPrefix(p).Ok?
    requires Entry(p[LenPrefix(p).value.0..], LenPrefix(p).value.1 - LenPrefix(p).value.0, [], []).Ok?
    ensures var (i, j) := LenPrefix(p).value; 0 <= -EntryLeft(p[i..], j - i) <= |p| - j
  {
    hide LenPrefix, Entry, EntryLeft;
    var (i, j) := LenPrefix(p).value;
    EntryReach(p[i..], j - i, [], []);
  }

  lemma LastIsAccepted(sc: Schema, m: Msg, t: bytes)
    requires WellTyped(sc, m) && Records.IsRecord(t) && Decode(sc, m, t).Ok?
    ensures Accepts(sc, t)
  {
    hide Decode, Step, Records.IsRecord;
    assert t + [] == t;
    FirstRecord(sc, m, t, []);
    SameStepAnywhere(sc, m, Empty(sc), t);
  }
}
