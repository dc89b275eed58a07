/** Wire records of unknown content: the grammar of the encoding, and `skip*`, which
    measures one record without knowing what it means. */
module Records {
  import opened GoInts
  import opened Errors
  import Varint

  //
  // The grammar
  //

  /** A varint: at most ten bytes, all but the last with the high bit set. */
  ghost predicate IsVarint(b: bytes) {
    && 1 <= |b| <= 10
    && b[|b| - 1] < 128
    && forall i :: 0 <= i < |b| - 1 ==> b[i] >= 128
  }

  /** The number that the low seven bits of each byte spell, least significant first. */
  function Digits(b: bytes): nat {
    if b == [] then 0 else b[0] % 128 + 128 * Digits(b[1..])
  }

  /** The payload that follows a tag of the given wire type. */
  ghost predicate IsPayload(p: bytes, wireType: nat) {
    match wireType
    case 0 => IsVarint(p)
    case 1 => |p| == 8
    case 2 => exists j :: 0 <= j <= |p| && IsVarint(p[..j]) && |p| - j == Digits(p[..j]) % TWO64
    case 3 => p == []
    case 4 => p == []
    case 5 => |p| == 4
    case _ => false
  }

  /** A tag varint of the given wire type together with its payload. */
  ghost predicate IsToken(b: bytes, wireType: nat) {
    exists k :: 0 <= k <= |b| && IsVarint(b[..k]) && Digits(b[..k]) % 8 == wireType && IsPayload(b[k..], wireType)
  }

  /** A record: a tag with its payload, or the records between a start-group tag and
      an end-group tag. The field numbers of the two tags need not agree. */
  datatype Item = Scalar(raw: bytes) | Group(start: bytes, items: seq<Item>, stop: bytes)

  ghost predicate WellFormed(it: Item) {
    match it
    case Scalar(raw) => exists wt :: wt != 3 && wt != 4 && IsToken(raw, wt)
    case Group(start, items, stop) =>
      IsToken(start, 3) && IsToken(stop, 4) && forall x <- items :: WellFormed(x)
  }

  function Flat(it: Item): bytes {
    match it
    case Scalar(raw) => raw
    case Group(start, items, stop) => start + FlatAll(items) + stop
  }

  function FlatAll(items: seq<Item>): bytes {
    if items == [] then [] else Flat(items[0]) + FlatAll(items[1..])
  }

  /** b is one complete record. */
  ghost predicate IsRecord(b: bytes) {
    exists it :: WellFormed(it) && Flat(it) == b
  }

  lemma RecordHasTag(b: bytes)
    requires IsRecord(b)
    ensures b != []
  {
    var it :| WellFormed(it) && Flat(it) == b;
  }

  //
  // Measuring a record
  //

  /** The length of a payload. */
  function Payload(p: bytes, wireType: nat): (r: Result<nat>)
    ensures r.Ok? ==> r.value <= |p|
  {
    match wireType
    case 0 =>
      var (_, j) :- Varint.Dec(p);
      Ok(j)
    case 1 => if 8 <= |p| then Ok(8) else Err(Bounds)
    case 2 =>
      var (len, j) :- Varint.Dec(p);
      if j + len <= |p| then Ok(j + len) else Err(Bounds)
    case 3 => Ok(0)
    case 4 => Ok(0)
    case 5 => if 4 <= |p| then Ok(4) else Err(Bounds)
    case _ => Err(BadWireType(wireType))
  }

  /** The wire type and the length of the token at the start of s. */
  function Token(s: bytes): (r: Result<(nat, nat)>)
    ensures r.Ok? ==> 1 <= r.value.1 <= |s|
  {
    var (wire, k) :- Varint.Dec(s);
    var n :- Payload(s[k..], wire % 8);
    Ok((wire % 8, k + n))
  }

  /** The number of groups open after a token. */
  function Deeper(depth: nat, wireType: nat): (d: int) {
    if wireType == 3 then depth + 1 else if wireType == 4 then depth - 1 else depth
  }

  /** The length of what remains of a record at the start of s when depth of its groups
      are open; the record must end within s. */
  function Rest(s: bytes, depth: nat): (r: Result<nat>)
    ensures r.Ok? ==> 1 <= r.value <= |s|
    decreases |s|
  {
    if |s| == 0 then Err(Bounds)
    else
      var (wt, n) :- Token(s);
      var d := Deeper(depth, wt);
      if d < 0 then Err(EndOfGroup)
      else if d == 0 then Ok(n)
      else
        var m :- Rest(s[n..], d);
        Ok(n + m)
  }

  function Length(s: bytes): (r: Result<nat>)
    ensures r.Ok? ==> 1 <= r.value <= |s|
  {
    Rest(s, 0)
  }

  //
  // Stability: a record that is complete in s is the same record in every extension
  //

  lemma TokenStable(s: bytes, t: bytes)
    requires s <= t && Token(s).Ok?
    ensures Token(t) == Token(s)
  {
    hide Varint.Dec;
    Varint.DecStable(s, t);
    var (wire, k) := Varint.Dec(s).value;
    PayloadStable(s[k..], t[k..], wire % 8);
  }

  lemma PayloadStable(s: bytes, t: bytes, wireType: nat)
    requires s <= t && Payload(s, wireType).Ok?
    ensures Payload(t, wireType) == Payload(s, wireType)
  {
    hide Varint.Dec;
    if Varint.Dec(s).Ok? {
      Varint.DecStable(s, t);
    }
  }

  lemma {:induction false} RestStable(s: bytes, t: bytes, depth: nat)
    requires s <= t && Rest(s, depth).Ok?
    ensures Rest(t, depth) == Rest(s, depth)
    decreases |s|
  {
    hide Token;
    TokenStable(s, t);
    var (wt, n) := Token(s).value;
    if Deeper(depth, wt) > 0 {
      RestStable(s[n..], t[n..], Deeper(depth, wt));
    }
  }

  /** Measuring reads no further than the end of the record. */
  lemma TokenLocal(s: bytes)
    requires Token(s).Ok?
    ensures Token(s[..Token(s).value.1]) == Token(s)
  {
    hide Varint.Dec, Payload;
    var (wt, n) := Token(s).value;
    var t := s[..n];
    var (_, k) := Varint.Dec(s).value;
    Varint.DecLocal(s);
    assert t[..k] == s[..k];
    Varint.DecStable(s[..k], t);
    PayloadLocal(s[k..], wt);
    assert t[k..] == s[k..][..n - k];
  }

  lemma PayloadLocal(s: bytes, wireType: nat)
    requires Payload(s, wireType).Ok?
    ensures Payload(s[..Payload(s, wireType).value], wireType) == Payload(s, wireType)
  {
    hide Varint.Dec;
    var t := s[..Payload(s, wireType).value];
    if wireType == 0 || wireType == 2 {
      Varint.DecLocal(s);
      var j := Varint.Dec(s).value.1;
      assert t[..j] == s[..j];
      Varint.DecStable(s[..j], t);
    }
  }

  lemma {:induction false} RestLocal(s: bytes, depth: nat)
    requires Rest(s, depth).Ok?
    ensures Rest(s[..Rest(s, depth).value], depth) == Rest(s, depth)
    decreases |s|
  {
    hide Token;
    TokenLocal(s);
    var (wt, n) := Token(s).value;
    var t := s[..Rest(s, depth).value];
    assert t[..n] == s[..n];
    TokenStable(s[..n], t);
    if Deeper(depth, wt) > 0 {
      RestLocal(s[n..], Deeper(depth, wt));
      assert t[n..] == s[n..][..|t| - n];
    }
  }

  /** The length found in s is found in every extension of s and in no shorter prefix,
      and the record alone has it too: records are prefix-free. */
  lemma LengthStable(s: bytes, t: bytes)
    requires s <= t && Length(s).Ok?
    ensures Length(t) == Length(s)
    ensures Length(s[..Length(s).value]) == Length(s)
    ensures forall m: nat :: m < Length(s).value ==> Length(s[..m]).Err?
  {
    RestStable(s, t, 0);
    RestLocal(s, 0);
    forall m: nat | m < Length(s).value
      ensures Length(s[..m]).Err?
    {
      if Length(s[..m]).Ok? {
        RestStable(s[..m], s, 0);
      }
    }
  }

  //
  // The length is that of the record the grammar describes
  //

  lemma {:induction false} DecAtGrammar(s: bytes, k: nat, n: nat)
    requires k <= 10
    ensures DecAtSplits(s, k, n) <==> DigitsEnd(s, k, n)
    decreases |s|
  {
    if k < 10 && |s| > 0 && s[0] >= 128 && n > 1 {
      DecAtGrammar(s[1..], k + 1, n - 1);
      if n <= |s| {
        assert s[..n][1..] == s[1..][..n - 1];
        assert forall i :: 0 <= i < n - 2 ==> s[1..][i] == s[i + 1];
        assert DigitsEnd(s, k, n) <==> DigitsEnd(s[1..], k + 1, n - 1) by {
          if DigitsEnd(s, k, n) {
            assert forall i :: 0 <= i < n - 2 ==> s[1..][i] >= 128;
          }
          if DigitsEnd(s[1..], k + 1, n - 1) {
            forall i | 0 <= i < n - 1
              ensures s[i] >= 128
            {
              if i > 0 {
                assert s[1..][i - 1] == s[i];
              }
            }
          }
        }
      }
    } else if n == 1 && |s| > 0 {
      assert s[..1] == [s[0]];
      assert Digits([s[0]]) == s[0] % 128 + 128 * Digits([]);
    }
  }

  ghost predicate DecAtSplits(s: bytes, k: nat, n: nat) {
    n <= |s| && Varint.DecAt(s, k) == Ok((Digits(s[..n]), n))
  }

  ghost predicate DigitsEnd(s: bytes, k: nat, n: nat) {
    && 1 <= n <= |s| && n + k <= 10
    && s[n - 1] < 128
    && forall i :: 0 <= i < n - 1 ==> s[i] >= 128
  }

  /** Reading a varint finds exactly the varint of the grammar. */
  lemma DecGrammar(s: bytes, n: nat)
    requires n <= |s|
    ensures IsVarint(s[..n]) <==> Varint.Dec(s) == Ok((Digits(s[..n]) % TWO64, n))
  {
    DecAtGrammar(s, 0, n);
    if Varint.Dec(s).Ok? && Varint.Dec(s).value.1 == n {
      DecAtDigits(s, 0);
    }
  }

  lemma {:induction false} DecAtDigits(s: bytes, k: nat)
    requires Varint.DecAt(s, k).Ok?
    ensures Varint.DecAt(s, k).value.0 == Digits(s[..Varint.DecAt(s, k).value.1])
    decreases |s|
  {
    var n := Varint.DecAt(s, k).value.1;
    if s[0] >= 128 {
      DecAtDigits(s[1..], k + 1);
      assert s[..n][1..] == s[1..][..n - 1];
    } else {
      assert s[..1] == [s[0]];
      assert Digits([s[0]]) == s[0] % 128 + 128 * Digits([]);
    }
  }

  /** Token finds exactly the tokens of the grammar. */
  lemma TokenGrammar(b: bytes, wireType: nat)
    ensures IsToken(b, wireType) <==> Token(b) == Ok((wireType, |b|))
  {
    if IsToken(b, wireType) {
      GrammarToken(b, wireType);
    }
    if Token(b) == Ok((wireType, |b|)) {
      TokenInGrammar(b, wireType);
    }
  }

  lemma PayloadGrammar(p: bytes, wireType: nat)
    ensures IsPayload(p, wireType) <==> Payload(p, wireType) == Ok(|p|)
  {
    hide Varint.Dec;
    if IsPayload(p, wireType) {
      if wireType == 0 {
        assert p[..|p|] == p;
        DecGrammar(p, |p|);
      } else if wireType == 2 {
        var j :| 0 <= j <= |p| && IsVarint(p[..j]) && |p| - j == Digits(p[..j]) % TWO64;
        DecGrammar(p, j);
      }
    }
    if Payload(p, wireType) == Ok(|p|) && (wireType == 0 || wireType == 2) {
      DecGrammarOf(p);
      assert p[..|p|] == p;
    }
  }

  lemma GrammarToken(b: bytes, wireType: nat)
    requires IsToken(b, wireType)
    ensures Token(b) == Ok((wireType, |b|))
  {
    hide Varint.Dec, IsPayload, IsVarint;
    var k :| 0 <= k <= |b| && IsVarint(b[..k]) && Digits(b[..k]) % 8 == wireType && IsPayload(b[k..], wireType);
    DecGrammar(b, k);
    LowBits(Digits(b[..k]));
    PayloadGrammar(b[k..], wireType);
  }

  lemma TokenInGrammar(b: bytes, wireType: nat)
    requires Token(b) == Ok((wireType, |b|))
    ensures IsToken(b, wireType)
  {
    hide Varint.Dec, IsPayload, IsVarint;
    var (wire, k) := Varint.Dec(b).value;
    DecGrammarOf(b);
    LowBits(Digits(b[..k]));
    PayloadGrammar(b[k..], wireType);
  }

  lemma LowBits(x: nat)
    ensures x % TWO64 % 8 == x % 8
  {
  }

  lemma DecGrammarOf(s: bytes)
    requires Varint.Dec(s).Ok?
    ensures var (v, n) := Varint.Dec(s).value;
            IsVarint(s[..n]) && v == Digits(s[..n]) % TWO64
  {
    var n := Varint.Dec(s).value.1;
    DecAtDigits(s, 0);
    DecGrammar(s, n);
  }

  function Plus(r: Result<nat>, n: nat): Result<nat> {
    match r
    case Ok(m) => Ok(n + m)
    case Err(f) => Err(f)
  }

  lemma PlusPlus(r: Result<nat>, m: nat, n: nat)
    ensures Plus(Plus(r, m), n) == Plus(r, m + n)
  {
  }

  lemma RestStep(s: bytes, depth: nat, wireType: nat, n: nat, tail: bytes)
    requires Token(s) == Ok((wireType, n)) && s[n..] == tail
    ensures Rest(s, depth) ==
            if Deeper(depth, wireType) < 0 then Err(EndOfGroup)
            else if Deeper(depth, wireType) == 0 then Ok(n)
            else Plus(Rest(tail, Deeper(depth, wireType)), n)
  {
    hide Token;
  }

  lemma RestOfToken(s: bytes, depth: nat)
    requires |s| > 0
    ensures Token(s).Err? ==> Rest(s, depth) == Err(Token(s).fault)
    ensures Token(s).Ok? ==>
              var d, n := Deeper(depth, Token(s).value.0), Token(s).value.1;
              Rest(s, depth) ==
              if d < 0 then Err(EndOfGroup) else if d == 0 then Ok(n) else Plus(Rest(s[n..], d), n)
  {
    hide Token;
  }

  lemma TokenThen(b: bytes, wireType: nat, rest: bytes, depth: nat)
    requires IsToken(b, wireType) && Deeper(depth, wireType) >= 0
    ensures Rest(b + rest, depth) ==
            if Deeper(depth, wireType) == 0 then Ok(|b|) else Plus(Rest(rest, Deeper(depth, wireType)), |b|)
  {
    hide Token, IsToken, Rest;
    TokenGrammar(b, wireType);
    TokenStable(b, b + rest);
    assert (b + rest)[|b|..] == rest;
    RestStep(b + rest, depth, wireType, |b|, rest);
  }

  /** A whole record leaves the number of open groups as it was. */
  lemma {:induction false} ItemThen(it: Item, rest: bytes, depth: nat)
    requires WellFormed(it)
    ensures Rest(Flat(it) + rest, depth) ==
            if depth == 0 then Ok(|Flat(it)|) else Plus(Rest(rest, depth), |Flat(it)|)
    decreases it, 0
  {
    hide Rest, IsToken;
    match it
    case Scalar(raw) =>
      var wt :| wt != 3 && wt != 4 && IsToken(raw, wt);
      TokenThen(raw, wt, rest, depth);
    case Group(start, items, stop) =>
      var tail := stop + rest;
      assert Flat(it) + rest == start + (FlatAll(items) + tail);
      TokenThen(start, 3, FlatAll(items) + tail, depth);
      ItemsThen(items, tail, depth + 1);
      TokenThen(stop, 4, rest, depth + 1);
  }

  lemma {:induction false} ItemsThen(items: seq<Item>, rest: bytes, depth: nat)
    requires forall x <- items :: WellFormed(x)
    requires depth > 0
    ensures Rest(FlatAll(items) + rest, depth) == Plus(Rest(rest, depth), |FlatAll(items)|)
    decreases items, 1
  {
    hide Rest;
    if items == [] {
      assert FlatAll(items) + rest == rest;
    } else {
      var tail := FlatAll(items[1..]) + rest;
      assert FlatAll(items) + rest == Flat(items[0]) + tail;
      ItemThen(items[0], tail, depth);
      ItemsThen(items[1..], rest, depth);
    }
  }

  lemma FirstToken(s: bytes, depth: nat) returns (wireType: nat, n: nat)
    requires Rest(s, depth).Ok?
    ensures 1 <= n <= |s| && Token(s) == Ok((wireType, n)) && IsToken(s[..n], wireType)
    ensures Deeper(depth, wireType) >= 0
  {
    hide Token, IsToken;
    wireType, n := Token(s).value.0, Token(s).value.1;
    TokenLocal(s);
    TokenGrammar(s[..n], wireType);
  }

  /** Reads back the items up to the end of the innermost open group. */
  lemma {:induction false} ParseGroup(s: bytes, depth: nat) returns (items: seq<Item>, stop: bytes, k: nat)
    requires depth > 0 && Rest(s, depth).Ok?
    ensures forall x <- items :: WellFormed(x)
    ensures IsToken(stop, 4)
    ensures k <= |s| && s[..k] == FlatAll(items) + stop
    ensures Rest(s, depth) == if depth == 1 then Ok(k) else Plus(Rest(s[k..], depth - 1), k)
    decreases |s|
  {
    var wt, n := FirstToken(s, depth);
    hide Token, IsToken, Rest, Flat, FlatAll, WellFormed, Plus;
    if wt == 4 {
      RestStep(s, depth, wt, n, s[n..]);
      items, stop, k := [], s[..n], n;
      assert FlatAll(items) + stop == stop by {
        FlatNone();
      }
    } else {
      var first: Item, m: nat := ParseItem(s, depth, wt, n);
      var others, close, j := ParseGroup(s[m..], depth);
      items, stop, k := [first] + others, close, m + j;
      FlatCons(s, m, first, others, j, close);
      RestJoin(s, depth, m, j);
    }
  }

  /** Reads back the item at the start of s, whose first token is known. */
  lemma {:induction false} ParseItem(s: bytes, depth: nat, wt: nat, n: nat) returns (it: Item, m: nat)
    requires depth > 0 && Rest(s, depth).Ok?
    requires wt != 4 && 1 <= n <= |s| && Token(s) == Ok((wt, n)) && IsToken(s[..n], wt)
    ensures WellFormed(it) && 1 <= m <= |s| && Flat(it) == s[..m]
    ensures Rest(s, depth) == Plus(Rest(s[m..], depth), m)
    decreases |s|, 0
  {
    hide Token, IsToken, Rest;
    RestStep(s, depth, wt, n, s[n..]);
    if wt == 3 {
      var items, stop, j := ParseGroup(s[n..], depth + 1);
      it, m := Group(s[..n], items, stop), n + j;
      DropTwice(s, n, j);
      assert s[..m] == s[..n] + s[n..][..j];
    } else {
      it, m := Scalar(s[..n]), n;
    }
  }

  lemma RestJoin(s: bytes, depth: nat, m: nat, n: nat)
    requires depth > 0 && m + n <= |s|
    requires Rest(s, depth) == Plus(Rest(s[m..], depth), m)
    requires Rest(s[m..], depth) == if depth == 1 then Ok(n) else Plus(Rest(s[m..][n..], depth - 1), n)
    ensures Rest(s, depth) == if depth == 1 then Ok(m + n) else Plus(Rest(s[m + n..], depth - 1), m + n)
  {
    hide Rest;
    DropTwice(s, m, n);
  }

  lemma DropTwice(s: bytes, m: nat, n: nat)
    requires m + n <= |s|
    ensures s[m..][n..] == s[m + n..]
  {
  }

  /** What is measured after a tag of one byte, for each wire type but that of a group. */
  lemma LengthByType(tag: byte, p: bytes)
    requires tag < 128 && tag % 8 != 3
    ensures tag % 8 == 0 && Varint.Dec(p).Ok? ==> Length([tag] + p) == Ok(1 + Varint.Dec(p).value.1)
    ensures tag % 8 == 1 ==> Length([tag] + p) == if |p| < 8 then Err(Bounds) else Ok(9)
    ensures tag % 8 == 2 && Varint.Dec(p).Ok? ==>
              var (n, k) := Varint.Dec(p).value;
              Length([tag] + p) == if |p| < k + n then Err(Bounds) else Ok(1 + k + n)
    ensures tag % 8 == 4 ==> Length([tag] + p) == Err(EndOfGroup)
    ensures tag % 8 == 5 ==> Length([tag] + p) == if |p| < 4 then Err(Bounds) else Ok(5)
    ensures tag % 8 > 5 ==> Length([tag] + p) == Err(BadWireType(tag % 8))
  {
    hide Rest;
    var s := [tag] + p;
    assert Varint.Dec(s) == Ok((tag as nat, 1)) && s[1..] == p by {
      assert Varint.DecAt(s, 0) == Ok((tag as nat, 1));
    }
    hide Varint.Dec;
    RestOfToken(s, 0);
  }

  /** A start-group tag, a record or none, and an end-group tag make a record. */
  lemma GroupIsRecord(start: byte, r: bytes, stop: byte)
    requires start < 128 && start % 8 == 3 && stop < 128 && stop % 8 == 4
    requires r == [] || IsRecord(r)
    ensures IsRecord([start] + r + [stop])
  {
    TagIsToken(start);
    TagIsToken(stop);
    hide IsToken;
    if r == [] {
      assert WellFormed(Group([start], [], [stop])) && Flat(Group([start], [], [stop])) == [start] + r + [stop];
    } else {
      var it :| WellFormed(it) && Flat(it) == r;
      assert FlatAll([it]) == r + FlatAll([]) == r;
      assert WellFormed(Group([start], [it], [stop])) && Flat(Group([start], [it], [stop])) == [start] + r + [stop];
    }
  }

  lemma TagIsToken(tag: byte)
    requires tag < 128 && (tag % 8 == 3 || tag % 8 == 4)
    ensures IsToken([tag], tag % 8)
  {
    var b: bytes := [tag];
    assert b[..1] == b && b[1..] == [];
    assert Digits(b) == tag % 128 + 128 * Digits(b[1..]);
    assert IsVarint(b[..1]) && Digits(b[..1]) % 8 == tag % 8 && IsPayload(b[1..], tag % 8);
  }

  lemma FlatNone()
    ensures FlatAll([]) == []
  {
  }

  lemma FlatCons(s: bytes, m: nat, first: Item, others: seq<Item>, j: nat, stop: bytes)
    requires m + j <= |s| && Flat(first) == s[..m] && FlatAll(others) + stop == s[m..][..j]
    ensures s[..m + j] == FlatAll([first] + others) + stop
  {
    hide Flat;
    assert ([first] + others)[1..] == others;
    assert s[..m + j] == s[..m] + s[m..][..j];
  }

  /** Length returns n exactly when the first n bytes are one complete record: groups
      nest like brackets to any depth, and only their balance matters. */
  lemma LengthIsRecord(s: bytes, n: nat)
    ensures Length(s) == Ok(n) <==> 1 <= n <= |s| && IsRecord(s[..n])
  {
    hide Token, IsToken;
    if Length(s) == Ok(n) {
      var (wt, k) := Token(s).value;
      TokenLocal(s);
      TokenGrammar(s[..k], wt);
      if wt == 3 {
        RestStep(s, 0, wt, k, s[k..]);
        var items, stop, j := ParseGroup(s[k..], 1);
        var it := Group(s[..k], items, stop);
        assert s[..n] == s[..k] + s[k..][..j] == Flat(it);
        assert WellFormed(it);
      } else {
        var it := Scalar(s[..k]);
        assert WellFormed(it) && Flat(it) == s[..n];
      }
    }
    if 1 <= n <= |s| && IsRecord(s[..n]) {
      var it :| WellFormed(it) && Flat(it) == s[..n];
      ItemThen(it, s[n..], 0);
      assert s == s[..n] + s[n..];
    }
  }

  //
  // skip*
  //

  /** `skip*`: the length of the record at the start of dAtA. The record may run past
      the end of dAtA, which the callers check. */
  method Skip(dAtA: bytes) returns (n: int64, err: Error)
    requires |dAtA| < TWO63
    ensures match Length(dAtA)
            case Ok(k) => err.Nil? && n == k
            case Err(f) => if err.Nil? then f == Bounds && n > |dAtA| else err.Fault() == f
  {
    hide Token, Rest, Length, Progress;
    var l := |dAtA|;
    var iNdEx: int64 := 0;
    var depth: nat := 0;
    ProgressStart(dAtA);
    while iNdEx < l
      invariant 0 <= iNdEx
      invariant depth == 0 ==> iNdEx == 0
      invariant Progress(dAtA, iNdEx, depth)
      decreases l - iNdEx
    {
      ghost var before, open := iNdEx, depth;
      var wireType;
      err, wireType, iNdEx := SkipToken(dAtA, iNdEx);
      ProgressStep(dAtA, before, open);
      if !err.Nil? {
        return 0, err;
      }
      match wireType {
        case 3 =>
          depth := depth + 1;
        case 4 =>
          if depth == 0 {
            return 0, ErrUnexpectedEndOfGroup;
          }
          depth := depth - 1;
        case _ =>
      }
      if iNdEx < 0 {
        return 0, ErrInvalidLength;
      }
      if depth == 0 {
        return iNdEx, Nil;
      }
      ProgressPastEnd(dAtA, iNdEx, depth);
    }
    ProgressAtEnd(dAtA, iNdEx, depth);
    return 0, ErrUnexpectedEOF;
  }

  /** What remains of the record is at iNdEx, with depth groups open. */
  ghost predicate Progress(dAtA: bytes, iNdEx: nat, depth: nat) {
    Length(dAtA) == if iNdEx <= |dAtA| then Plus(Rest(dAtA[iNdEx..], depth), iNdEx) else Err(Bounds)
  }

  lemma ProgressStart(dAtA: bytes)
    ensures Progress(dAtA, 0, 0)
  {
    hide Rest;
    assert dAtA[0..] == dAtA;
  }

  lemma ProgressAtEnd(dAtA: bytes, iNdEx: nat, depth: nat)
    requires Progress(dAtA, iNdEx, depth) && iNdEx >= |dAtA|
    ensures Length(dAtA) == Err(Bounds)
  {
  }

  lemma ProgressPastEnd(dAtA: bytes, iNdEx: nat, depth: nat)
    ensures iNdEx > |dAtA| ==> (Progress(dAtA, iNdEx, depth) <==> Length(dAtA) == Err(Bounds))
  {
  }

  lemma ProgressStep(dAtA: bytes, iNdEx: nat, depth: nat)
    requires iNdEx < |dAtA| && Progress(dAtA, iNdEx, depth)
    ensures Token(dAtA[iNdEx..]).Err? ==> Length(dAtA) == Err(Token(dAtA[iNdEx..]).fault)
    ensures Token(dAtA[iNdEx..]).Ok? ==>
              var d, next := Deeper(depth, Token(dAtA[iNdEx..]).value.0), iNdEx + Token(dAtA[iNdEx..]).value.1;
              if d < 0 then Length(dAtA) == Err(EndOfGroup)
              else if d == 0 then Length(dAtA) == Ok(next)
              else Progress(dAtA, next, d)
  {
    hide Token;
    var s := dAtA[iNdEx..];
    RestOfToken(s, depth);
    if Token(s).Ok? && Deeper(depth, Token(s).value.0) > 0 {
      var n := Token(s).value.1;
      DropTwice(dAtA, iNdEx, n);
      PlusPlus(Rest(s[n..], Deeper(depth, Token(s).value.0)), n, iNdEx);
    }
  }

  /** The part of the loop of `skip*` that moves the cursor: past the tag, and past
      the payload by wire type. The sum may wrap around to a negative index. */
  method SkipToken(dAtA: bytes, start: int64) returns (err: Error, wireType: nat, iNdEx: int64)
    requires 0 <= start < |dAtA| < TWO63
    ensures match Token(dAtA[start..])
            case Ok((wt, n)) => err.Nil? && wireType == wt && iNdEx == start + n
            case Err(f) =>
              if err.Nil? then f == Bounds && wireType !in {3, 4} && (iNdEx < 0 || iNdEx > |dAtA|)
              else err.Fault() == f
  {
    hide Varint.Dec;
    var wire;
    err, wire, iNdEx := ReadVarint(dAtA, start);
    if !err.Nil? {
      return err, 0, iNdEx;
    }
    DropTwice(dAtA, start, iNdEx - start);
    wireType := wire % 8;
    err, iNdEx := SkipPayload(dAtA, iNdEx, wireType);
  }

  /** The switch of `skip*` on the wire type, as far as it moves the cursor. */
  method SkipPayload(dAtA: bytes, start: int64, wireType: nat) returns (err: Error, iNdEx: int64)
    requires 0 <= start <= |dAtA| < TWO63
    ensures match Payload(dAtA[start..], wireType)
            case Ok(n) => err.Nil? && iNdEx == start + n
            case Err(f) =>
              if err.Nil? then f == Bounds && wireType !in {3, 4} && (iNdEx < 0 || iNdEx > |dAtA|)
              else err.Fault() == f
  {
    hide Varint.Dec, Add64, Signed64;
    iNdEx, err := start, Nil;
    match wireType {
      case 0 =>
        var v;
        err, v, iNdEx := ReadVarint(dAtA, iNdEx);
      case 1 =>
        AddWraps(iNdEx, 8);
        iNdEx := Add64(iNdEx, 8);
      case 2 =>
        var pattern;
        err, pattern, iNdEx := ReadVarint(dAtA, iNdEx);
        if !err.Nil? {
          return;
        }
        SignedPattern(pattern);
        var length := Signed64(pattern);
        if length < 0 {
          return ErrInvalidLength, iNdEx;
        }
        AddWraps(iNdEx, length);
        iNdEx := Add64(iNdEx, length);
      case 3 =>
      case 4 =>
      case 5 =>
        AddWraps(iNdEx, 4);
        iNdEx := Add64(iNdEx, 4);
      case _ =>
        err := ErrIllegalWireType(wireType);
    }
  }

  /** The decoding loop over a 64-bit accumulator. */
  method ReadVarint(dAtA: bytes, start: int64) returns (err: Error, v: uint64, iNdEx: int64)
    requires 0 <= start <= |dAtA| < TWO63
    ensures err.Reports(Varint.Dec(dAtA[start..]))
    ensures err.Nil? ==> (v, iNdEx - start) == Varint.Dec(dAtA[start..]).value && iNdEx <= |dAtA|
  {
    var x, next;
    err, x, next := Varint.Decode(dAtA, start, 64);
    Pow2Known();
    if err.Nil? {
      v, iNdEx := x, next;
    } else {
      v, iNdEx := 0, start;
    }
  }
}
