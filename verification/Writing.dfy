/** The blocks of code from which the generator assembles `MarshalToSizedBuffer`: each writes
    one piece into the bytes of the buffer just before an index, and returns the
    index at which the piece begins. */
module Writing {
  import opened GoInts
  import opened Schemas
  import opened Encoding
  import Varint

  /** The buffer went from before to after by writing b just before index i; b begins at j. */
  ghost predicate Wrote(before: bytes, after: bytes, i: int, j: int, b: bytes) {
    && 0 <= j
    && j + |b| == i <= |before|
    && after == before[..j] + b + before[i..]
  }

  lemma WroteBoth(s: bytes, t: bytes, u: bytes, i: int, j: int, k: int, b: bytes, c: bytes)
    requires Wrote(s, t, i, j, b) && Wrote(t, u, j, k, c)
    ensures Wrote(s, u, i, k, c + b)
  {
    assert t[..k] == s[..k];
    assert t[j..] == b + s[i..];
  }

  lemma WroteNothing(s: bytes, i: int)
    requires 0 <= i <= |s|
    ensures Wrote(s, s, i, i, [])
  {
  }

  //
  // Tags
  //

  lemma TagByte(num: nat, wireType: nat)
    requires num * 8 + wireType < 128
    ensures Tag(num, wireType) == [num * 8 + wireType]
  {
  }

  lemma TagHundred()
    ensures Tag(100, 2) == [0xa2, 0x06]
  {
    assert Varint.Enc(6) == [6];
    assert Varint.Enc(802) == [162] + Varint.Enc(6);
  }

  //
  // Blocks
  //

  /** `i -= len(s); copy(dAtA[i:], s)` */
  method Copy(dAtA: array<byte>, i: int, s: bytes) returns (j: int)
    requires |s| <= i <= dAtA.Length
    modifies dAtA
    ensures Wrote(old(dAtA[..]), dAtA[..], i, j, s)
  {
    j := i - |s|;
    forall k | 0 <= k < |s| {
      dAtA[j + k] := s[k];
    }
  }

  /** `i--; dAtA[i] = b` */
  method PutByte(dAtA: array<byte>, i: int, b: byte) returns (j: int)
    requires 1 <= i <= dAtA.Length
    modifies dAtA
    ensures Wrote(old(dAtA[..]), dAtA[..], i, j, [b])
  {
    j := i - 1;
    dAtA[j] := b;
  }

  /** `i = encodeVarint(dAtA, i, v); i--; dAtA[i] = tag` for a varint of any field. */
  method PutVarint(dAtA: array<byte>, i: int, v: uint64, tag: byte, ghost num: nat) returns (j: int)
    requires tag == num * 8 < 128
    requires 1 + |Varint.Enc(v)| <= i <= dAtA.Length
    modifies dAtA
    ensures Wrote(old(dAtA[..]), dAtA[..], i, j, Tag(num, 0) + Varint.Enc(v))
  {
    hide Varint.Enc;
    Varint.EncLength(v);
    ghost var s := dAtA[..];
    j := Varint.Encode(dAtA, i, v);
    ghost var t, k := dAtA[..], j;
    assert Wrote(s, t, i, j, Varint.Enc(v));
    j := PutByte(dAtA, j, tag);
    TagByte(num, 0);
    WroteBoth(s, t, dAtA[..], i, k, j, Varint.Enc(v), [tag]);
  }

  /** A `bool` that is true. */
  method PutTrue(dAtA: array<byte>, i: int, tag: byte, ghost num: nat) returns (j: int)
    requires tag == num * 8 < 128
    requires 2 <= i <= dAtA.Length
    modifies dAtA
    ensures Wrote(old(dAtA[..]), dAtA[..], i, j, Tag(num, 0) + Varint.Enc(1))
  {
    ghost var s := dAtA[..];
    j := PutByte(dAtA, i, 1);
    ghost var t, k := dAtA[..], j;
    j := PutByte(dAtA, j, tag);
    TagByte(num, 0);
    WroteBoth(s, t, dAtA[..], i, k, j, [1], [tag]);
  }

  /** `i -= 8; encoding_binary.LittleEndian.PutUint64(dAtA[i:], v)` */
  method PutUint64(dAtA: array<byte>, i: int, v: uint64) returns (j: int)
    requires 8 <= i <= dAtA.Length
    modifies dAtA
    ensures Wrote(old(dAtA[..]), dAtA[..], i, j, FixedBytes(v, 8)) && j == i - 8
    ensures dAtA[j] == v % 256 && dAtA[j + 1] == v / 0x100 % 256
    ensures dAtA[j + 2] == v / 0x1_0000 % 256 && dAtA[j + 3] == v / 0x100_0000 % 256
    ensures dAtA[j + 4] == v / 0x1_0000_0000 % 256 && dAtA[j + 5] == v / 0x100_0000_0000 % 256
    ensures dAtA[j + 6] == v / 0x1_0000_0000_0000 % 256 && dAtA[j + 7] == v / 0x100_0000_0000_0000
  {
    hide FixedBytes;
    EightBytes(v);
    j := Copy(dAtA, i, [v % 256, v / 0x100 % 256, v / 0x1_0000 % 256, v / 0x100_0000 % 256, v / 0x1_0000_0000 % 256,
        v / 0x100_0000_0000 % 256, v / 0x1_0000_0000_0000 % 256, v / 0x100_0000_0000_0000]);
  }

  /** A double that is not zero: its eight bytes and its tag. */
  method PutDouble(dAtA: array<byte>, i: int, v: uint64, tag: byte, ghost num: nat) returns (j: int)
    requires tag == num * 8 + 1 < 128
    requires 9 <= i <= dAtA.Length
    modifies dAtA
    ensures Wrote(old(dAtA[..]), dAtA[..], i, j, Tag(num, 1) + FixedBytes(v, 8)) && j == i - 9
    ensures dAtA[j] == tag
    ensures dAtA[j + 1] == v % 256 && dAtA[j + 2] == v / 0x100 % 256
    ensures dAtA[j + 3] == v / 0x1_0000 % 256 && dAtA[j + 4] == v / 0x100_0000 % 256
    ensures dAtA[j + 5] == v / 0x1_0000_0000 % 256 && dAtA[j + 6] == v / 0x100_0000_0000 % 256
    ensures dAtA[j + 7] == v / 0x1_0000_0000_0000 % 256 && dAtA[j + 8] == v / 0x100_0000_0000_0000
  {
    hide FixedBytes;
    ghost var s := dAtA[..];
    j := PutUint64(dAtA, i, v);
    ghost var t, k := dAtA[..], j;
    j := PutByte(dAtA, j, tag);
    assert forall x :: k <= x < i ==> dAtA[x] == t[x];
    TagByte(num, 1);
    WroteBoth(s, t, dAtA[..], i, k, j, FixedBytes(v, 8), [tag]);
  }

  /** The length and the tag in front of a body of n bytes. */
  method PutPrefix(dAtA: array<byte>, i: int, n: uint64, tag: byte, ghost num: nat) returns (j: int)
    requires tag == num * 8 + 2 < 128
    requires 1 + |Varint.Enc(n)| <= i <= dAtA.Length
    modifies dAtA
    ensures Wrote(old(dAtA[..]), dAtA[..], i, j, Tag(num, 2) + Varint.Enc(n))
  {
    hide Varint.Enc;
    Varint.EncLength(n);
    ghost var s := dAtA[..];
    j := Varint.Encode(dAtA, i, n);
    ghost var t, k := dAtA[..], j;
    assert Wrote(s, t, i, j, Varint.Enc(n));
    j := PutByte(dAtA, j, tag);
    TagByte(num, 2);
    WroteBoth(s, t, dAtA[..], i, k, j, Varint.Enc(n), [tag]);
  }

  /** A string: `i -= len(s); copy(dAtA[i:], s)`, its length and its tag. */
  method PutBytes(dAtA: array<byte>, i: int, s: bytes, tag: byte, ghost num: nat) returns (j: int)
    requires tag == num * 8 + 2 < 128
    requires |Delimited(num, s)| <= i <= dAtA.Length && |s| < TWO63
    modifies dAtA
    ensures Wrote(old(dAtA[..]), dAtA[..], i, j, Delimited(num, s))
  {
    hide Varint.Enc, Wrote;
    ghost var a := dAtA[..];
    TagByte(num, 2);
    WroteMeans();
    j := Copy(dAtA, i, s);
    ghost var b, k := dAtA[..], j;
    j := PutPrefix(dAtA, j, |s|, tag, num);
    WroteBoth(a, b, dAtA[..], i, k, j, s, Tag(num, 2) + Varint.Enc(|s|));
  }

  lemma WroteMeans()
    ensures forall s: bytes, t, i, j, b :: Wrote(s, t, i, j, b) ==> 0 <= j && j + |b| == i && |t| == |s|
  {
  }

  /** The strings of a list, last first. */
  method PutStrings(dAtA: array<byte>, i: int, strs: seq<bytes>, tag: byte, ghost num: nat) returns (j: int)
    requires tag == num * 8 + 2 < 128
    requires |Strings(num, strs)| <= i <= dAtA.Length && i < TWO63
    modifies dAtA
    ensures Wrote(old(dAtA[..]), dAtA[..], i, j, Strings(num, strs))
  {
    hide Wrote, Delimited;
    ghost var a := dAtA[..];
    j := i;
    var n := |strs|;
    WroteNothing(a, i);
    assert strs[n..] == [] && strs[..n] == strs;
    while n > 0
      invariant 0 <= n <= |strs|
      invariant 0 <= j <= i
      invariant Wrote(a, dAtA[..], i, j, Strings(num, strs[n..]))
      invariant Strings(num, strs) == Strings(num, strs[..n]) + Strings(num, strs[n..])
      invariant |Strings(num, strs[..n])| <= j
    {
      n := n - 1;
      ghost var b, k, tail := dAtA[..], j, strs[n + 1..];
      StringsLast(num, strs, n);
      DelimitedLonger(num, strs[n]);
      j := PutBytes(dAtA, j, strs[n], tag, num);
      WroteMeans();
      assert [strs[n]] + tail == strs[n..];
      WroteBoth(a, b, dAtA[..], i, k, j, Strings(num, tail), Delimited(num, strs[n]));
    }
  }

  lemma {:induction false} StringsAppend(num: nat, ss: seq<bytes>, ts: seq<bytes>)
    ensures Strings(num, ss + ts) == Strings(num, ss) + Strings(num, ts)
  {
    if ss == [] {
      assert ss + ts == ts;
    } else {
      assert (ss + ts)[1..] == ss[1..] + ts;
      StringsAppend(num, ss[1..], ts);
    }
  }

  lemma StringsLast(num: nat, strs: seq<bytes>, n: nat)
    requires n < |strs|
    ensures Strings(num, strs[..n + 1]) == Strings(num, strs[..n]) + Delimited(num, strs[n])
    ensures Strings(num, strs[n..]) == Delimited(num, strs[n]) + Strings(num, strs[n + 1..])
    ensures Strings(num, strs) == Strings(num, strs[..n]) + Strings(num, strs[n..])
  {
    hide Delimited;
    assert strs[..n + 1] == strs[..n] + [strs[n]];
    StringsAppend(num, strs[..n], [strs[n]]);
    assert Strings(num, [strs[n]]) == Delimited(num, strs[n]) + Strings(num, []);
    assert strs == strs[..n] + strs[n..];
    StringsAppend(num, strs[..n], strs[n..]);
  }

  lemma DelimitedLonger(num: nat, s: bytes)
    ensures |Delimited(num, s)| == DelimitedSize(num, |s|) > |s|
  {
    hide Varint.Enc;
  }

  /** The entries of a map, in an order of the loop's own choosing. The length of each
      entry is measured as the distance that the index has moved. */
  method PutTags(dAtA: array<byte>, i: int, tags: map<bytes, bytes>) returns (j: int, ghost es: seq<(bytes, bytes)>)
    requires MapSize(100, tags) <= i <= dAtA.Length && i < TWO63
    modifies dAtA
    ensures Lists(es, tags)
    ensures Wrote(old(dAtA[..]), dAtA[..], i, j, Entries(100, es))
  {
    hide Wrote, MapSize, EntrySize, DelimitedSize, Lists, Entries, Delimited, EntryBody;
    ghost var a := dAtA[..];
    WroteNothing(a, i);
    j, es := i, [];
    var keys := tags.Keys;
    ghost var left := tags;
    NoEntries(tags);
    while keys != {}
      invariant keys == left.Keys
      invariant Visited(tags, left, es)
      invariant 0 <= j <= i
      invariant Wrote(a, dAtA[..], i, j, Entries(100, es))
      invariant MapSize(100, left) <= j
      decreases |keys|
    {
      hide Visited;
      var k :| k in keys;
      VisitedHas(tags, left, es, k);
      var v := tags[k];
      MapSizeAny(100, left, k);
      ghost var b, from := dAtA[..], j;
      j := PutEntry(dAtA, j, k, v);
      EntryLength(k, v);
      WroteMoves(b, dAtA[..], from, j, Delimited(100, EntryBody(k, v)));
      WroteBoth(a, b, dAtA[..], i, from, j, Entries(100, es), Delimited(100, EntryBody(k, v)));
      VisitOne(tags, left, es, k);
      keys, left, es := keys - {k}, left - {k}, [(k, v)] + es;
    }
    AllVisited(tags, left, es);
  }

  /** es lists the entries of tags that are not in left. */
  ghost predicate Visited(tags: map<bytes, bytes>, left: map<bytes, bytes>, es: seq<(bytes, bytes)>) {
    left.Keys <= tags.Keys && left == tags - (tags.Keys - left.Keys) && Lists(es, tags - left.Keys)
  }

  lemma NoEntries(tags: map<bytes, bytes>)
    ensures Visited(tags, tags, [])
    ensures Entries(100, []) == []
  {
    assert tags - tags.Keys == map[];
    assert tags == tags - {};
  }

  lemma VisitedHas(tags: map<bytes, bytes>, left: map<bytes, bytes>, es: seq<(bytes, bytes)>, k: bytes)
    requires Visited(tags, left, es) && k in left
    ensures k in tags && left[k] == tags[k]
  {
  }

  lemma VisitOne(tags: map<bytes, bytes>, left: map<bytes, bytes>, es: seq<(bytes, bytes)>, k: bytes)
    requires Visited(tags, left, es) && k in left && k in tags
    ensures Visited(tags, left - {k}, [(k, tags[k])] + es)
    ensures Entries(100, [(k, tags[k])] + es) == Delimited(100, EntryBody(k, tags[k])) + Entries(100, es)
  {
    hide Delimited, EntryBody;
    var more, rest := [(k, tags[k])] + es, left - {k};
    assert more[1..] == es;
    assert tags - rest.Keys - {k} == tags - left.Keys;
    assert rest == tags - (tags.Keys - rest.Keys);
    assert Lists(more, tags - rest.Keys);
  }

  lemma AllVisited(tags: map<bytes, bytes>, left: map<bytes, bytes>, es: seq<(bytes, bytes)>)
    requires Visited(tags, left, es) && left.Keys == {}
    ensures Lists(es, tags)
  {
    hide Lists;
    assert tags - left.Keys == tags;
  }

  /** One entry of the map in field 100. */
  method PutEntry(dAtA: array<byte>, i: int, k: bytes, v: bytes) returns (j: int)
    requires DelimitedSize(100, EntrySize(k, v)) <= i <= dAtA.Length && i < TWO63
    modifies dAtA
    ensures Wrote(old(dAtA[..]), dAtA[..], i, j, Delimited(100, EntryBody(k, v)))
  {
    hide Varint.Enc, Wrote, EntrySize, DelimitedSize, Delimited, EntryBody, Tag;
    ghost var a, body := dAtA[..], EntryBody(k, v);
    EntryLength(k, v);
    EntryParts(k, v);
    TagHundred();
    var baseI := i;
    j := PutBytes(dAtA, i, v, 0x12, 2);
    WroteMeans();
    ghost var b, i1 := dAtA[..], j;
    j := PutBytes(dAtA, j, k, 0xa, 1);
    WroteBoth(a, b, dAtA[..], i, i1, j, Delimited(2, v), Delimited(1, k));
    ghost var c, i2 := dAtA[..], j;
    Varint.EncLength(baseI - j);
    j := Varint.Encode(dAtA, j, baseI - j);
    WroteIs(c, dAtA[..], i2, j, Varint.Enc(|body|));
    WroteBoth(a, c, dAtA[..], i, i2, j, body, Varint.Enc(|body|));
    ghost var d, i3 := dAtA[..], j;
    j := PutByte(dAtA, j, 0x6);
    ghost var e, i4 := dAtA[..], j;
    j := PutByte(dAtA, j, 0xa2);
    WroteBoth(d, e, dAtA[..], i3, i4, j, [0x6], [0xa2]);
    WroteBoth(a, d, dAtA[..], i, i3, j, Varint.Enc(|body|) + body, Tag(100, 2));
  }

  lemma WroteMoves(s: bytes, t: bytes, i: int, j: int, b: bytes)
    requires Wrote(s, t, i, j, b)
    ensures 0 <= j && j + |b| == i
  {
  }

  lemma WroteIs(s: bytes, t: bytes, i: int, j: int, b: bytes)
    requires 0 <= j && j + |b| == i <= |s| && t == s[..j] + b + s[i..]
    ensures Wrote(s, t, i, j, b)
  {
  }

  lemma EntryLength(k: bytes, v: bytes)
    ensures |EntryBody(k, v)| == EntrySize(k, v)
    ensures |Delimited(100, EntryBody(k, v))| == DelimitedSize(100, EntrySize(k, v))
  {
    hide Varint.Enc;
  }

  lemma EntryParts(k: bytes, v: bytes)
    ensures EntryBody(k, v) == Delimited(1, k) + Delimited(2, v)
    ensures var n := |EntryBody(k, v)|; |Delimited(100, EntryBody(k, v))| == 2 + |Varint.Enc(n)| + n
    ensures |k| < |Delimited(1, k)| && |v| < |Delimited(2, v)|
    ensures [0xa2] + [0x6] == Tag(100, 2)
    ensures var body := EntryBody(k, v); Delimited(100, body) == Tag(100, 2) + (Varint.Enc(|body|) + body)
  {
    hide Varint.Enc;
    TagHundred();
  }

  //
  // The state of MarshalToSizedBuffer between two fields
  //

  /** The buffer holds the fields of m from position k on, and its unknown bytes,
      between i and hi, and is unchanged elsewhere. */
  ghost predicate Written(sc: Schema, m: Msg, k: nat, before: bytes, after: bytes, hi: int, i: int)
    requires WellTyped(sc, m)
  {
    k <= |sc.fields| && exists b :: EncodesFrom(sc, m, k, b) && Wrote(before, after, hi, i, b)
  }

  lemma WrittenUnknown(sc: Schema, m: Msg, before: bytes, after: bytes, hi: int, i: int)
    requires WellTyped(sc, m) && Wrote(before, after, hi, i, m.unknown)
    ensures Written(sc, m, |sc.fields|, before, after, hi, i)
  {
    assert EncodesFrom(sc, m, |sc.fields|, m.unknown);
  }

  /** There is room in front for the field before. */
  lemma Room(sc: Schema, m: Msg, k: nat, before: bytes, after: bytes, hi: int, i: int)
    requires WellTyped(sc, m) && k < |sc.fields| && Written(sc, m, k + 1, before, after, hi, i)
    requires Size(sc, m) <= hi
    ensures HasType(sc.fields[k].kind, m.vals[k]) && ValSize(sc.fields[k], m.vals[k]) <= i <= hi
    ensures |after| == |before|
  {
    var b :| EncodesFrom(sc, m, k + 1, b) && Wrote(before, after, hi, i, b);
    EncodesFromSize(sc, m, k + 1, b);
    SizeSum(sc, m, k);
    hide ValSize, HasType;
    SizeUpTo(sc, m, k);
  }

  lemma SizeSum(sc: Schema, m: Msg, k: nat)
    requires WellTyped(sc, m) && k < |sc.fields|
    ensures HasType(sc.fields[k].kind, m.vals[k])
    ensures SizeFrom(sc, m, k) == ValSize(sc.fields[k], m.vals[k]) + SizeFrom(sc, m, k + 1)
  {
    hide ValSize, HasType;
  }

  lemma {:induction false} SizeUpTo(sc: Schema, m: Msg, k: nat)
    requires WellTyped(sc, m) && k <= |sc.fields|
    ensures SizeFrom(sc, m, k) <= Size(sc, m)
  {
    if k > 0 {
      SizeSum(sc, m, k - 1);
      SizeUpTo(sc, m, k - 1);
    }
  }

  /** The field before has been written, as x. */
  lemma Extend(sc: Schema, m: Msg, k: nat, before: bytes, mid: bytes, after: bytes, hi: int, j: int, i: int,
      x: bytes)
    requires WellTyped(sc, m) && k < |sc.fields| && Written(sc, m, k + 1, before, mid, hi, j)
    requires HasType(sc.fields[k].kind, m.vals[k]) && EncodesVal(sc.fields[k], m.vals[k], x)
    requires Wrote(mid, after, j, i, x)
    ensures Written(sc, m, k, before, after, hi, i)
  {
    hide EncodesVal, HasType, Wrote;
    var b :| EncodesFrom(sc, m, k + 1, b) && Wrote(before, mid, hi, j, b);
    WroteBoth(before, mid, after, hi, j, i, b, x);
    assert EncodesFrom(sc, m, k, x + b);
  }

  /** The field before is a number, written unless it is zero. */
  lemma ExtendNumber(sc: Schema, m: Msg, k: nat, before: bytes, mid: bytes, after: bytes, hi: int, j: int, i: int)
    requires WellTyped(sc, m) && k < |sc.fields| && Written(sc, m, k + 1, before, mid, hi, j)
    requires HasType(sc.fields[k].kind, m.vals[k]) && sc.fields[k].kind.IsNumber() && 0 <= j <= |mid|
    requires m.vals[k].Num?
    requires var f, w := sc.fields[k], m.vals[k].word;
             if IsZero(f.kind, w) then mid == after && j == i
             else Wrote(mid, after, j, i, Number(f.num, f.kind, w))
    ensures Written(sc, m, k, before, after, hi, i)
  {
    hide HasType, Wrote, Written;
    var f, w := sc.fields[k], m.vals[k].word;
    NumberHasType(f.kind, m.vals[k]);
    WroteNothing(mid, j);
    Extend(sc, m, k, before, mid, after, hi, j, i, Number(f.num, f.kind, w));
  }

  lemma NumberHasType(kind: Kind, v: Val)
    requires kind.IsNumber()
    ensures HasType(kind, v) <==> v.Num? && v.word == Narrow(kind, v.word)
  {
  }

  /** What `MarshalToSizedBuffer` promises of the first hi bytes of a buffer: the last n of
      them hold an encoding of m, and no other byte has changed. */
  ghost predicate Marshaled(sc: Schema, m: Msg, before: bytes, after: bytes, hi: int, n: nat)
    requires WellTyped(sc, m)
  {
    n == Size(sc, m) && exists b :: Encodes(sc, m, b) && Wrote(before, after, hi, hi - n, b)
  }

  lemma MarshalDone(sc: Schema, m: Msg, before: bytes, after: bytes, hi: int, i: int)
    requires WellTyped(sc, m) && Written(sc, m, 0, before, after, hi, i)
    ensures hi - i >= 0 && Marshaled(sc, m, before, after, hi, hi - i)
  {
    var b :| EncodesFrom(sc, m, 0, b) && Wrote(before, after, hi, i, b);
    EncodesSize(sc, m, b);
    assert Encodes(sc, m, b);
  }

  lemma SizeUnknown(sc: Schema, m: Msg)
    requires WellTyped(sc, m)
    ensures |m.unknown| <= Size(sc, m)
  {
    SizeUpTo(sc, m, |sc.fields|);
  }

  lemma SizeKnown(sc: Schema, m: Msg, k: nat)
    requires WellTyped(sc, m) && k < |sc.fields|
    ensures HasType(sc.fields[k].kind, m.vals[k])
    ensures SizeFrom(sc, m, k) == ValSize(sc.fields[k], m.vals[k]) + SizeFrom(sc, m, k + 1)
    ensures SizeFrom(sc, m, k) <= Size(sc, m)
  {
    hide ValSize, HasType;
    SizeSum(sc, m, k);
    SizeUpTo(sc, m, k);
  }

  lemma SizeAll(sc: Schema, m: Msg)
    requires WellTyped(sc, m)
    ensures Size(sc, m) == SizeFrom(sc, m, 0)
    ensures SizeFrom(sc, m, |sc.fields|) == |m.unknown| <= Size(sc, m)
  {
    SizeUnknown(sc, m);
  }

  /** The field before is a string, written unless it is empty. */
  lemma ExtendString(sc: Schema, m: Msg, k: nat, before: bytes, mid: bytes, after: bytes, hi: int, j: int, i: int)
    requires WellTyped(sc, m) && k < |sc.fields| && Written(sc, m, k + 1, before, mid, hi, j)
    requires HasType(sc.fields[k].kind, m.vals[k]) && sc.fields[k].kind.String? && 0 <= j <= |mid|
    requires m.vals[k].Str?
    requires if m.vals[k].str == [] then mid == after && j == i
             else Wrote(mid, after, j, i, Delimited(sc.fields[k].num, m.vals[k].str))
    ensures Written(sc, m, k, before, after, hi, i)
  {
    hide HasType, Wrote, Written, Delimited;
    WroteNothing(mid, j);
    Extend(sc, m, k, before, mid, after, hi, j, i,
           if m.vals[k].str == [] then [] else Delimited(sc.fields[k].num, m.vals[k].str));
  }

  lemma ExtendStrings(sc: Schema, m: Msg, k: nat, before: bytes, mid: bytes, after: bytes, hi: int, j: int, i: int)
    requires WellTyped(sc, m) && k < |sc.fields| && Written(sc, m, k + 1, before, mid, hi, j)
    requires HasType(sc.fields[k].kind, m.vals[k]) && sc.fields[k].kind.RepeatedString? && m.vals[k].Strs?
    requires Wrote(mid, after, j, i, Strings(sc.fields[k].num, m.vals[k].strs))
    ensures Written(sc, m, k, before, after, hi, i)
  {
    hide HasType, Wrote, Written, Strings;
    Extend(sc, m, k, before, mid, after, hi, j, i, Strings(sc.fields[k].num, m.vals[k].strs));
  }

  lemma ExtendMap(sc: Schema, m: Msg, k: nat, before: bytes, mid: bytes, after: bytes, hi: int, j: int, i: int,
      es: seq<(bytes, bytes)>)
    requires WellTyped(sc, m) && k < |sc.fields| && Written(sc, m, k + 1, before, mid, hi, j)
    requires HasType(sc.fields[k].kind, m.vals[k]) && sc.fields[k].kind.StringMap? && m.vals[k].StrMap?
    requires Lists(es, m.vals[k].entries) && Wrote(mid, after, j, i, Entries(sc.fields[k].num, es))
    ensures Written(sc, m, k, before, after, hi, i)
  {
    hide HasType, Wrote, Written, Entries, Lists;
    Extend(sc, m, k, before, mid, after, hi, j, i, Entries(sc.fields[k].num, es));
  }

  /** A sub-message has been written in front of index j, and then its length and tag. */
  lemma WroteSub(num: nat, sub: Schema, x: Msg, s: bytes, t: bytes, u: bytes, j: int, size: nat,
      i: int) returns (c: bytes)
    requires WellTyped(sub, x) && Marshaled(sub, x, s, t, j, size)
    requires Wrote(t, u, j - size, i, Tag(num, 2) + Varint.Enc(size))
    ensures Encodes(sub, x, c) && |c| == size && Wrote(s, u, j, i, Delimited(num, c))
  {
    hide Varint.Enc, Tag, Encodes, Wrote;
    c :| Encodes(sub, x, c) && Wrote(s, t, j, j - size, c);
    EncodesSize(sub, x, c);
    WroteBoth(s, t, u, j, j - size, i, c, Tag(num, 2) + Varint.Enc(size));
  }

  /** The field before is a message, written unless it is nil. */
  lemma ExtendNil(sc: Schema, m: Msg, k: nat, before: bytes, mid: bytes, hi: int, j: int)
    requires WellTyped(sc, m) && k < |sc.fields| && Written(sc, m, k + 1, before, mid, hi, j)
    requires HasType(sc.fields[k].kind, m.vals[k]) && sc.fields[k].kind.Message? && m.vals[k] == Sub(None)
    requires 0 <= j <= |mid|
    ensures Written(sc, m, k, before, mid, hi, j)
  {
    hide HasType, Wrote, Written;
    WroteNothing(mid, j);
    Extend(sc, m, k, before, mid, mid, hi, j, j, []);
  }

  lemma ExtendMessage(sc: Schema, m: Msg, k: nat, before: bytes, mid: bytes, t: bytes, after: bytes, hi: int,
      j: int, size: nat, i: int)
    requires WellTyped(sc, m) && k < |sc.fields| && Written(sc, m, k + 1, before, mid, hi, j)
    requires HasType(sc.fields[k].kind, m.vals[k]) && sc.fields[k].kind.Message?
    requires m.vals[k].Sub? && m.vals[k].sub.Some? && WellTyped(sc.fields[k].kind.schema, m.vals[k].sub.value)
    requires Marshaled(sc.fields[k].kind.schema, m.vals[k].sub.value, mid, t, j, size)
    requires Wrote(t, after, j - size, i, Tag(sc.fields[k].num, 2) + Varint.Enc(size))
    ensures Written(sc, m, k, before, after, hi, i)
  {
    hide HasType, Wrote, Written, Marshaled, Encodes, Tag, Delimited, Varint.Enc;
    var f := sc.fields[k];
    var c := WroteSub(f.num, f.kind.schema, m.vals[k].sub.value, mid, t, after, j, size, i);
    Extend(sc, m, k, before, mid, after, hi, j, i, Delimited(f.num, c));
  }

  /** The elements of subs from position n on have been written in front of index j. */
  ghost predicate SubsWritten(num: nat, sub: Schema, subs: seq<Msg>, n: nat, mid: bytes, after: bytes, j: int,
      i: int)
    requires forall x <- subs :: WellTyped(sub, x)
  {
    n <= |subs| && exists b :: EncodesSubs(num, sub, subs[n..], b) && Wrote(mid, after, j, i, b)
  }

  lemma SubsWrittenNone(num: nat, sub: Schema, subs: seq<Msg>, mid: bytes, j: int)
    requires (forall x <- subs :: WellTyped(sub, x)) && 0 <= j <= |mid|
    ensures SubsWritten(num, sub, subs, |subs|, mid, mid, j, j)
  {
    assert subs[|subs|..] == [];
    assert EncodesSubs(num, sub, [], []);
    WroteNothing(mid, j);
  }

  /** There is room for the element before. */
  lemma RoomSub(num: nat, sub: Schema, subs: seq<Msg>, n: nat, mid: bytes, after: bytes, j: int, i: int)
    requires (forall x <- subs :: WellTyped(sub, x)) && 0 < n <= |subs|
    requires SubsWritten(num, sub, subs, n, mid, after, j, i) && SubsSize(num, sub, subs) <= j
    ensures DelimitedSize(num, Size(sub, subs[n - 1])) <= i <= j
    ensures |after| == |mid|
  {
    hide Size, DelimitedSize, WellTyped;
    var b :| EncodesSubs(num, sub, subs[n..], b) && Wrote(mid, after, j, i, b);
    EncodesSubsSize(num, sub, subs[n..], b);
    SubsSizeSuffix(num, sub, subs, n - 1);
    assert subs[n - 1..][1..] == subs[n..];
  }

  lemma {:induction false} SubsSizeSuffix(num: nat, sub: Schema, subs: seq<Msg>, n: nat)
    requires (forall x <- subs :: WellTyped(sub, x)) && n <= |subs|
    ensures SubsSize(num, sub, subs[n..]) <= SubsSize(num, sub, subs)
  {
    hide Size, DelimitedSize, WellTyped;
    if n > 0 {
      SubsSizeSuffix(num, sub, subs, n - 1);
      assert subs[n - 1..][1..] == subs[n..];
    } else {
      assert subs[0..] == subs;
    }
  }

  lemma ExtendSub(num: nat, sub: Schema, subs: seq<Msg>, n: nat, mid: bytes, s: bytes, t: bytes, after: bytes,
      hi: int, j: int, size: nat, i: int)
    requires (forall x <- subs :: WellTyped(sub, x)) && n < |subs|
    requires SubsWritten(num, sub, subs, n + 1, mid, s, hi, j)
    requires Marshaled(sub, subs[n], s, t, j, size)
    requires Wrote(t, after, j - size, i, Tag(num, 2) + Varint.Enc(size))
    ensures SubsWritten(num, sub, subs, n, mid, after, hi, i)
  {
    hide Wrote, Marshaled, Encodes, Tag, Delimited, WellTyped, Varint.Enc;
    var b :| EncodesSubs(num, sub, subs[n + 1..], b) && Wrote(mid, s, hi, j, b);
    var c := WroteSub(num, sub, subs[n], s, t, after, j, size, i);
    WroteBoth(mid, s, after, hi, j, i, b, Delimited(num, c));
    assert subs[n..][1..] == subs[n + 1..];
    assert EncodesSubs(num, sub, subs[n..], Delimited(num, c) + b);
  }

  lemma ExtendSubs(sc: Schema, m: Msg, k: nat, before: bytes, mid: bytes, after: bytes, hi: int, j: int, i: int)
    requires WellTyped(sc, m) && k < |sc.fields| && Written(sc, m, k + 1, before, mid, hi, j)
    requires HasType(sc.fields[k].kind, m.vals[k]) && sc.fields[k].kind.RepeatedMessage? && m.vals[k].Subs?
    requires forall x <- m.vals[k].subs :: WellTyped(sc.fields[k].kind.schema, x)
    requires SubsWritten(sc.fields[k].num, sc.fields[k].kind.schema, m.vals[k].subs, 0, mid, after, j, i)
    ensures Written(sc, m, k, before, after, hi, i)
  {
    hide HasType, Wrote, Written, EncodesSubs;
    var f, subs := sc.fields[k], m.vals[k].subs;
    assert subs[0..] == subs;
    var b :| EncodesSubs(f.num, f.kind.schema, subs, b) && Wrote(mid, after, j, i, b);
    Extend(sc, m, k, before, mid, after, hi, j, i, b);
  }

  //
  // Sizes of lists and maps
  //

  method SizeStrings(strs: seq<bytes>, ghost num: nat) returns (n: nat)
    requires 1 <= num < 16 && StringsSize(num, strs) < TWO63
    ensures n == StringsSize(num, strs)
  {
    hide Varint.Enc;
    n := 0;
    assert strs[0..] == strs;
    for k := 0 to |strs|
      invariant n + StringsSize(num, strs[k..]) == StringsSize(num, strs)
    {
      assert strs[k..][1..] == strs[k + 1..];
      TagByte(num, 2);
      var l := |strs[k]|;
      Varint.EncLength(l);
      n := n + 1 + l + Varint.Sov(l);
    }
  }

  /** The terms of the size of an entry of the map in field 100. */
  lemma EntryMeasured(k: bytes, v: bytes)
    requires DelimitedSize(100, EntrySize(k, v)) < TWO63
    ensures |k| < TWO63 && |v| < TWO63
    ensures var n := 1 + |k| + Varint.Sov(|k|) + 1 + |v| + Varint.Sov(|v|);
            n < TWO63 && DelimitedSize(100, EntrySize(k, v)) == n + 2 + Varint.Sov(n)
  {
    hide Varint.Enc, Varint.Sov;
    TagHundred();
    TagByte(1, 2);
    TagByte(2, 2);
    Varint.EncLength(|k|);
    Varint.EncLength(|v|);
    Varint.EncLength(1 + |k| + Varint.Sov(|k|) + 1 + |v| + Varint.Sov(|v|));
  }

  method SizeTags(tags: map<bytes, bytes>) returns (n: nat)
    requires MapSize(100, tags) < TWO63
    ensures n == MapSize(100, tags)
  {
    hide MapSize, DelimitedSize, EntrySize, Varint.Sov;
    n := 0;
    var left := tags;
    while left != map[]
      invariant n + MapSize(100, left) == MapSize(100, tags)
      invariant left.Keys <= tags.Keys
      decreases |left|
    {
      assert left.Keys != {};
      var k :| k in left.Keys;
      MapSizeAny(100, left, k);
      var v := left[k];
      EntryMeasured(k, v);
      var mapEntrySize := 1 + |k| + Varint.Sov(|k|) + 1 + |v| + Varint.Sov(|v|);
      n := n + mapEntrySize + 2 + Varint.Sov(mapEntrySize);
      left := left - {k};
    }
    MapSizeNone();
  }

  lemma MapSizeNone()
    ensures MapSize(100, map[]) == 0
  {
  }

  lemma MarshaledLength(sc: Schema, m: Msg, before: bytes, after: bytes, hi: int, n: nat)
    requires WellTyped(sc, m) && Marshaled(sc, m, before, after, hi, n)
    ensures n == Size(sc, m) && |after| == |before|
  {
    hide Size, WellTyped, Encodes;
  }

  //
  // The blocks of MarshalToSizedBuffer, field by field
  //

  /** The fields after field k have been written; tag is the tag byte of field k. */
  ghost predicate BeforeField(sc: Schema, m: Msg, k: nat, kind: Kind, tag: int, before: bytes, after: bytes,
      hi: int, i: int) {
    && WellTyped(sc, m)
    && k < |sc.fields| && sc.fields[k].kind == kind && tag == sc.fields[k].num * 8 + kind.WireType() < 128
    && Size(sc, m) <= hi <= |after| < TWO63
    && Written(sc, m, k + 1, before, after, hi, i)
  }

  method Uint32Field(dAtA: array<byte>, i: int, v: uint32, tag: byte, ghost sc: Schema, ghost m: Msg,
      ghost k: nat, ghost before: bytes, ghost hi: int)
    returns (j: int)
    requires BeforeField(sc, m, k, Uint32, tag, before, dAtA[..], hi, i) && m.vals[k] == Num(v)
    modifies dAtA
    ensures Written(sc, m, k, before, dAtA[..], hi, j)
  {
    hide Varint.Enc, Wrote, Written, Size;
    Room(sc, m, k, before, dAtA[..], hi, i);
    ghost var mid := dAtA[..];
    ghost var num := sc.fields[k].num;
    TagByte(num, 0);
    j := i;
    if v != 0 {
      j := PutVarint(dAtA, j, v, tag, num);
    }
    ExtendNumber(sc, m, k, before, mid, dAtA[..], hi, i, j);
  }

  method Int32Field(dAtA: array<byte>, i: int, v: int32, tag: byte, ghost sc: Schema, ghost m: Msg,
      ghost k: nat, ghost before: bytes, ghost hi: int)
    returns (j: int)
    requires BeforeField(sc, m, k, Int32, tag, before, dAtA[..], hi, i) && m.vals[k] == Num(Int32Word(v))
    modifies dAtA
    ensures Written(sc, m, k, before, dAtA[..], hi, j)
  {
    hide Varint.Enc, Wrote, Written, Size;
    Room(sc, m, k, before, dAtA[..], hi, i);
    ghost var mid := dAtA[..];
    ghost var num := sc.fields[k].num;
    TagByte(num, 0);
    j := i;
    if v != 0 {
      j := PutVarint(dAtA, j, Int32Word(v), tag, num);
    }
    ExtendNumber(sc, m, k, before, mid, dAtA[..], hi, i, j);
  }

  method Int64Field(dAtA: array<byte>, i: int, v: int64, tag: byte, ghost sc: Schema, ghost m: Msg,
      ghost k: nat, ghost before: bytes, ghost hi: int)
    returns (j: int)
    requires BeforeField(sc, m, k, Int64, tag, before, dAtA[..], hi, i) && m.vals[k] == Num(Int64Word(v))
    modifies dAtA
    ensures Written(sc, m, k, before, dAtA[..], hi, j)
  {
    hide Varint.Enc, Wrote, Written, Size;
    Room(sc, m, k, before, dAtA[..], hi, i);
    ghost var mid := dAtA[..];
    ghost var num := sc.fields[k].num;
    TagByte(num, 0);
    j := i;
    if v != 0 {
      j := PutVarint(dAtA, j, Int64Word(v), tag, num);
    }
    ExtendNumber(sc, m, k, before, mid, dAtA[..], hi, i, j);
  }

  method BoolField(dAtA: array<byte>, i: int, v: bool, tag: byte, ghost sc: Schema, ghost m: Msg, ghost k: nat,
      ghost before: bytes, ghost hi: int)
    returns (j: int)
    requires BeforeField(sc, m, k, Bool, tag, before, dAtA[..], hi, i) && m.vals[k] == Num(BoolWord(v))
    modifies dAtA
    ensures Written(sc, m, k, before, dAtA[..], hi, j)
  {
    hide Varint.Enc, Wrote, Written, Size;
    Room(sc, m, k, before, dAtA[..], hi, i);
    ghost var mid := dAtA[..];
    ghost var num := sc.fields[k].num;
    TagByte(num, 0);
    Varint.EncLength(1);
    j := i;
    if v {
      j := PutTrue(dAtA, j, tag, num);
    }
    ExtendNumber(sc, m, k, before, mid, dAtA[..], hi, i, j);
  }

  method DoubleField(dAtA: array<byte>, i: int, v: uint64, tag: byte, ghost sc: Schema, ghost m: Msg,
      ghost k: nat, ghost before: bytes, ghost hi: int)
    returns (j: int)
    requires BeforeField(sc, m, k, Double, tag, before, dAtA[..], hi, i) && m.vals[k] == Num(v)
    modifies dAtA
    ensures Written(sc, m, k, before, dAtA[..], hi, j)
  {
    hide Varint.Enc, Wrote, Written, Size;
    Room(sc, m, k, before, dAtA[..], hi, i);
    ghost var mid := dAtA[..];
    ghost var num := sc.fields[k].num;
    TagByte(num, 1);
    j := i;
    if !IsZero(Double, v) {
      j := PutDouble(dAtA, j, v, tag, num);
    }
    ExtendNumber(sc, m, k, before, mid, dAtA[..], hi, i, j);
  }

  method StringField(dAtA: array<byte>, i: int, v: bytes, tag: byte, ghost sc: Schema, ghost m: Msg,
      ghost k: nat, ghost before: bytes, ghost hi: int)
    returns (j: int)
    requires BeforeField(sc, m, k, String, tag, before, dAtA[..], hi, i) && m.vals[k] == Str(v)
    modifies dAtA
    ensures Written(sc, m, k, before, dAtA[..], hi, j)
  {
    hide Varint.Enc, Wrote, Written, Size;
    Room(sc, m, k, before, dAtA[..], hi, i);
    ghost var mid := dAtA[..];
    DelimitedLonger(sc.fields[k].num, v);
    j := i;
    if |v| > 0 {
      j := PutBytes(dAtA, j, v, tag, sc.fields[k].num);
    }
    ExtendString(sc, m, k, before, mid, dAtA[..], hi, i, j);
  }

  method StringsField(dAtA: array<byte>, i: int, v: seq<bytes>, tag: byte, ghost sc: Schema, ghost m: Msg,
      ghost k: nat, ghost before: bytes, ghost hi: int)
    returns (j: int)
    requires BeforeField(sc, m, k, RepeatedString, tag, before, dAtA[..], hi, i) && m.vals[k] == Strs(v)
    modifies dAtA
    ensures Written(sc, m, k, before, dAtA[..], hi, j)
  {
    hide Varint.Enc, Wrote, Written, Size;
    Room(sc, m, k, before, dAtA[..], hi, i);
    ghost var mid := dAtA[..];
    StringsLength(sc.fields[k].num, v);
    j := PutStrings(dAtA, i, v, tag, sc.fields[k].num);
    ExtendStrings(sc, m, k, before, mid, dAtA[..], hi, i, j);
  }

  /** A map in field 100, whose tag takes two bytes. */
  method MapField(dAtA: array<byte>, i: int, v: map<bytes, bytes>, ghost sc: Schema, ghost m: Msg,
      ghost k: nat, ghost before: bytes, ghost hi: int)
    returns (j: int)
    requires WellTyped(sc, m) && k < |sc.fields| && sc.fields[k] == Field(100, StringMap) && m.vals[k] == StrMap(v)
    requires Size(sc, m) <= hi <= dAtA.Length && dAtA.Length < TWO63 && Written(sc, m, k + 1, before, dAtA[..], hi, i)
    modifies dAtA
    ensures Written(sc, m, k, before, dAtA[..], hi, j)
  {
    hide Varint.Enc, Wrote, Written, Size, MapSize;
    Room(sc, m, k, before, dAtA[..], hi, i);
    ghost var mid := dAtA[..];
    ghost var es;
    j, es := PutTags(dAtA, i, v);
    ExtendMap(sc, m, k, before, mid, dAtA[..], hi, i, j, es);
  }

  /** The unknown bytes, at the end of the buffer. */
  method UnknownField(dAtA: array<byte>, hi: int, unrecognized: bytes, ghost sc: Schema, ghost m: Msg)
      returns (i: int)
    requires WellTyped(sc, m) && m.unknown == unrecognized && Size(sc, m) <= hi <= dAtA.Length
    modifies dAtA
    ensures Written(sc, m, |sc.fields|, old(dAtA[..]), dAtA[..], hi, i)
  {
    hide Size, Wrote, Written;
    ghost var a := dAtA[..];
    SizeUnknown(sc, m);
    i := Copy(dAtA, hi, unrecognized);
    WrittenUnknown(sc, m, a, dAtA[..], hi, i);
  }

  /** There is room for a sub-message and the length and tag before it. */
  lemma RoomMessage(sc: Schema, m: Msg, k: nat, sub: Schema, tag: int, before: bytes, after: bytes, hi: int, i: int)
    requires BeforeField(sc, m, k, Message(sub), tag, before, after, hi, i)
    requires m.vals[k].Sub? && m.vals[k].sub.Some?
    ensures WellTyped(sub, m.vals[k].sub.value)
    ensures var n := Size(sub, m.vals[k].sub.value); 1 + |Varint.Enc(n)| + n <= i <= hi
    ensures |after| == |before|
  {
    hide Size, Written, Varint.Enc;
    Room(sc, m, k, before, after, hi, i);
    TagByte(sc.fields[k].num, 2);
  }

  lemma NilField(sc: Schema, m: Msg, k: nat, sub: Schema, tag: int, before: bytes, after: bytes, hi: int, i: int)
    requires BeforeField(sc, m, k, Message(sub), tag, before, after, hi, i) && m.vals[k] == Sub(None)
    ensures Written(sc, m, k, before, after, hi, i)
  {
    hide Size, Written;
    Room(sc, m, k, before, after, hi, i);
    ExtendNil(sc, m, k, before, after, hi, i);
  }

  /** The length and the tag of a sub-message that has just been written. */
  method MessageField(dAtA: array<byte>, i: int, size: nat, tag: byte, ghost sc: Schema, ghost m: Msg,
      ghost k: nat, ghost sub: Schema, ghost before: bytes, ghost mid: bytes, ghost hi: int)
    returns (j: int)
    requires BeforeField(sc, m, k, Message(sub), tag, before, mid, hi, i) && m.vals[k].Sub? && m.vals[k].sub.Some?
    requires WellTyped(sub, m.vals[k].sub.value) && Marshaled(sub, m.vals[k].sub.value, mid, dAtA[..], i, size)
    modifies dAtA
    ensures Written(sc, m, k, before, dAtA[..], hi, j)
  {
    hide Varint.Enc, Wrote, Written, Size, Encodes;
    RoomMessage(sc, m, k, sub, tag, before, mid, hi, i);
    ghost var t := dAtA[..];
    MarshaledLength(sub, m.vals[k].sub.value, mid, t, i, size);
    j := i - size;
    j := PutPrefix(dAtA, j, size, tag, sc.fields[k].num);
    ExtendMessage(sc, m, k, before, mid, t, dAtA[..], hi, i, size, j);
  }

  lemma RoomSubs(sc: Schema, m: Msg, k: nat, sub: Schema, tag: int, before: bytes, after: bytes, hi: int, i: int)
    requires BeforeField(sc, m, k, RepeatedMessage(sub), tag, before, after, hi, i) && m.vals[k].Subs?
    ensures forall x <- m.vals[k].subs :: WellTyped(sub, x)
    ensures SubsSize(sc.fields[k].num, sub, m.vals[k].subs) <= i <= hi
    ensures |after| == |before|
  {
    hide Size, Written;
    Room(sc, m, k, before, after, hi, i);
  }

  lemma SubsField(sc: Schema, m: Msg, k: nat, sub: Schema, tag: int, before: bytes, mid: bytes, after: bytes,
      hi: int, i: int, j: int)
    requires BeforeField(sc, m, k, RepeatedMessage(sub), tag, before, mid, hi, i) && m.vals[k].Subs?
    requires forall x <- m.vals[k].subs :: WellTyped(sub, x)
    requires SubsWritten(sc.fields[k].num, sub, m.vals[k].subs, 0, mid, after, i, j)
    ensures Written(sc, m, k, before, after, hi, j)
  {
    hide Size, Written, SubsWritten;
    Room(sc, m, k, before, mid, hi, i);
    ExtendSubs(sc, m, k, before, mid, after, hi, i, j);
  }

  //
  // The terms of Size, field by field
  //

  /** Field k of a message that is not too large for a Go slice. */
  ghost predicate ToSize(sc: Schema, m: Msg, k: nat) {
    && WellTyped(sc, m) && Size(sc, m) < TWO63
    && k < |sc.fields| && 1 <= sc.fields[k].num < 16
  }

  function VarintSize(w: uint64, ghost sc: Schema, ghost m: Msg, ghost k: nat): (n: nat)
    requires ToSize(sc, m, k) && sc.fields[k].kind.IsVarint() && m.vals[k] == Num(w)
    ensures n + SizeFrom(sc, m, k + 1) == SizeFrom(sc, m, k)
  {
    SizeKnown(sc, m, k);
    TagByte(sc.fields[k].num, 0);
    Varint.EncLength(w);
    if w != 0 then 1 + Varint.Sov(w) else 0
  }

  function BoolSize(v: bool, ghost sc: Schema, ghost m: Msg, ghost k: nat): (n: nat)
    requires ToSize(sc, m, k) && sc.fields[k].kind.Bool? && m.vals[k] == Num(BoolWord(v))
    ensures n + SizeFrom(sc, m, k + 1) == SizeFrom(sc, m, k)
  {
    SizeKnown(sc, m, k);
    TagByte(sc.fields[k].num, 0);
    Varint.EncLength(1);
    if v then 2 else 0
  }

  function DoubleSize(v: uint64, ghost sc: Schema, ghost m: Msg, ghost k: nat): (n: nat)
    requires ToSize(sc, m, k) && sc.fields[k].kind.Double? && m.vals[k] == Num(v)
    ensures n + SizeFrom(sc, m, k + 1) == SizeFrom(sc, m, k)
  {
    SizeKnown(sc, m, k);
    TagByte(sc.fields[k].num, 1);
    if !IsZero(Double, v) then 9 else 0
  }

  function StringSize(v: bytes, ghost sc: Schema, ghost m: Msg, ghost k: nat): (n: nat)
    requires ToSize(sc, m, k) && sc.fields[k].kind.String? && m.vals[k] == Str(v)
    ensures n + SizeFrom(sc, m, k + 1) == SizeFrom(sc, m, k)
  {
    SizeKnown(sc, m, k);
    TagByte(sc.fields[k].num, 2);
    Varint.EncLength(|v|);
    if |v| > 0 then 1 + |v| + Varint.Sov(|v|) else 0
  }

  /** The record of a sub-message of l bytes. */
  function MessageSize(l: nat, ghost num: nat): (n: nat)
    requires 1 <= num < 16 && l < TWO64
    ensures n == DelimitedSize(num, l)
  {
    TagByte(num, 2);
    Varint.EncLength(l);
    1 + l + Varint.Sov(l)
  }
}
