/** Base 128 varints: the encoder `encodeVarint*`, the inlined decoding loop, and the
    size functions `sov*` and `soz*`. */
module Varint {
  import opened GoInts
  import opened Errors

  /** The varint of v: seven bits a byte, least significant first, with the
      high bit set on every byte but the last. */
  function Enc(v: nat): (s: bytes)
    ensures |s| >= 1
  {
    if v < 128 then [v] else [v % 128 + 128] + Enc(v / 128)
  }

  /** Reads a varint whose first k bytes have been consumed: the value of the remaining
      digits (not yet truncated to a machine word) and the number of bytes they take.
      At most ten bytes are read in all. */
  function DecAt(s: bytes, k: nat): (r: Result<(nat, nat)>)
    ensures r.Ok? ==> 1 <= r.value.1 <= |s| && r.value.1 + k <= 10
    ensures k >= 10 ==> r.Err?
  {
    if k >= 10 then Err(Overflow)
    else if |s| == 0 then Err(Bounds)
    else if s[0] < 128 then Ok((s[0] as nat, 1))
    else
      var (v, n) :- DecAt(s[1..], k + 1);
      Ok((s[0] - 128 + 128 * v, n + 1))
  }

  /** The varint at the start of s: its value as a `uint64` and its length. */
  function Dec(s: bytes): (r: Result<(uint64, nat)>)
    ensures r.Ok? ==> 1 <= r.value.1 <= |s| && r.value.1 <= 10
  {
    var (v, n) :- DecAt(s, 0);
    Ok((v % TWO64, n))
  }

  /** `math/bits.Len64`. */
  function Len64(x: nat): nat {
    if x == 0 then 0 else 1 + Len64(x / 2)
  }

  function Sov(x: uint64): nat {
    (Len64(if x % 2 == 1 then x else x + 1) + 6) / 7
  }

  /** The `x ^ (int64(x) >> 63)` of `soz*` flips every bit of x << 1 for a negative x. */
  function ZigZag(x: uint64): uint64 {
    var shifted := (2 * x) % TWO64;
    if Signed64(x) < 0 then TWO64 - 1 - shifted else shifted
  }

  function Soz(x: uint64): nat {
    Sov(ZigZag(x))
  }

  lemma {:induction false} LenDown(x: nat, k: nat)
    requires x >= Pow2(k)
    ensures Len64(x) == k + Len64(x / Pow2(k))
  {
    if k > 0 {
      DivTwice(x, Pow2(k - 1));
      LenDown(x / 2, k - 1);
    }
  }

  lemma DivTwice(x: nat, p: nat)
    requires p > 0 && x >= 2 * p
    ensures (x / 2) / p == x / (2 * p)
    ensures x / 2 >= p
  {
    var q, t := x / (2 * p), x % (2 * p);
    assert x == q * (2 * p) + t;
    assert x / 2 == q * p + t / 2 by {
      assert x == 2 * (q * p) + t;
    }
    assert (x / 2) % p == t / 2 && (x / 2) / p == q by {
      ModUnique(q, t / 2, p);
      DivUnique(q, t / 2, p);
    }
  }

  /** x has at most k bits just when x < 2^k. */
  lemma {:induction false} LenBound(x: nat, k: nat)
    ensures Len64(x) <= k <==> x < Pow2(k)
  {
    if x > 0 && k > 0 {
      LenBound(x / 2, k - 1);
    }
  }

  /** Sov(v) is the least n >= 1 with v < 128^n. */
  lemma SovLeast(v: uint64, n: nat)
    requires n >= 1
    ensures Sov(v) <= n <==> v < Pow2(7 * n)
    ensures 1 <= Sov(v) <= 10
  {
    hide Len64, Pow2;
    var x := if v % 2 == 1 then v else v + 1;
    LenBound(x, 7 * n);
    LenBound(x, 64);
    LenBound(x, 0);
    Pow2Known();
    NothingBelowOne();
    EvenPow2(7 * n, v);
    SevenBits(Len64(x));
  }

  /** A power of two is even, so the odd number after an even one below it is below it too. */
  lemma EvenPow2(k: nat, v: nat)
    requires k >= 1
    ensures v % 2 == 0 ==> (v < Pow2(k) <==> v + 1 < Pow2(k))
  {
    assert Pow2(k) == 2 * Pow2(k - 1);
  }

  lemma SevenBits(len: nat)
    ensures forall n: nat :: (len + 6) / 7 <= n <==> len <= 7 * n
  {
  }

  lemma NothingBelowOne()
    ensures Pow2(0) == 1
  {
  }

  /** `sov` predicts the length of the varint. */
  lemma {:induction false} EncLength(v: uint64)
    ensures |Enc(v)| == Sov(v)
  {
    if v < 128 {
      SovLeast(v, 1);
      Pow2Known();
    } else {
      EncLength(v / 128);
      SovStep(v);
    }
  }

  lemma SovStep(v: uint64)
    requires v >= 128
    ensures Sov(v) == 1 + Sov(v / 128)
  {
    hide Len64, Pow2;
    var x := if v % 2 == 1 then v else v + 1;
    Pow2Known();
    LenDown(x, 7);
    LenOdd(v / 128);
  }

  lemma LenOdd(y: nat)
    requires y > 0
    ensures y % 2 == 0 ==> Len64(y + 1) == Len64(y)
  {
    assert y % 2 == 0 ==> (y + 1) / 2 == y / 2;
  }

  /** Soz(x) is the least n >= 1 such that the signed value fits in 7n bits. */
  lemma SozLeast(x: uint64, n: nat)
    requires n >= 1
    ensures Soz(x) <= n <==> 0 - Pow2(7 * n - 1) <= Signed64(x) as int < Pow2(7 * n - 1)
  {
    ZigZagValue(x);
    SovLeast(ZigZag(x), n);
    assert Pow2(7 * n) == 2 * Pow2(7 * n - 1);
  }

  lemma ZigZagValue(x: uint64)
    ensures ZigZag(x) == if Signed64(x) < 0 then -2 * (Signed64(x) as int) - 1 else 2 * Signed64(x) as int
  {
  }

  /** Room for v is room for one more byte, and for the rest of v behind it. */
  lemma RoomForMore(v: nat, k: nat)
    requires k < 10 && 128 <= v < Pow2(64 - 7 * k)
    ensures k < 9 && v / 128 < Pow2(64 - 7 * (k + 1))
  {
    assert Pow2(1) == 2;
    Pow2Known();
    if k < 9 {
      Pow2Sum(7, 64 - 7 * (k + 1));
      DivBelow(v, Pow2(64 - 7 * (k + 1)));
    }
  }

  lemma DivBelow(v: nat, q: nat)
    requires v < 128 * q
    ensures v / 128 < q
  {
  }

  /** Decoding undoes encoding, whatever follows. */
  lemma {:induction false} DecEnc(v: nat, rest: bytes, k: nat)
    requires k < 10 && v < Pow2(64 - 7 * k)
    ensures DecAt(Enc(v) + rest, k) == Ok((v, |Enc(v)|))
    decreases v
  {
    var s := Enc(v) + rest;
    assert Pow2(1) == 2;
    if v >= 128 {
      RoomForMore(v, k);
      DecEnc(v / 128, rest, k + 1);
      assert s == [v % 128 + 128] + (Enc(v / 128) + rest);
      assert s[1..] == Enc(v / 128) + rest;
    }
  }

  /** Every uint64 survives the trip through its varint. */
  lemma RoundTrip(v: uint64, rest: bytes)
    ensures Dec(Enc(v) + rest) == Ok((v, |Enc(v)|))
    ensures |Enc(v)| == Sov(v) <= 10
  {
    hide DecAt, Enc, Sov, Pow2;
    Pow2Known();
    SovLeast(v, 1);
    DecEnc(v, rest, 0);
    EncLength(v);
  }

  /** A varint that is complete in s is the same varint in every extension of s. */
  lemma {:induction false} DecAtStable(s: bytes, t: bytes, k: nat)
    requires s <= t && DecAt(s, k).Ok?
    ensures DecAt(t, k) == DecAt(s, k)
  {
    if s[0] >= 128 {
      DecAtStable(s[1..], t[1..], k + 1);
    }
  }

  lemma DecStable(s: bytes, t: bytes)
    requires s <= t && Dec(s).Ok?
    ensures Dec(t) == Dec(s)
  {
    DecAtStable(s, t, 0);
  }

  /** Reading a varint does not look past its last byte. */
  lemma {:induction false} DecAtLocal(s: bytes, k: nat)
    requires DecAt(s, k).Ok?
    ensures DecAt(s[..DecAt(s, k).value.1], k) == DecAt(s, k)
    ensures forall m: nat :: m < DecAt(s, k).value.1 ==> DecAt(s[..m], k).Err?
  {
    var n := DecAt(s, k).value.1;
    if s[0] >= 128 {
      DecAtLocal(s[1..], k + 1);
      assert s[..n][1..] == s[1..][..n - 1];
      forall m: nat | 0 < m < n
        ensures DecAt(s[..m], k).Err?
      {
        assert s[..m][1..] == s[1..][..m - 1];
      }
    }
  }

  lemma DecLocal(s: bytes)
    requires Dec(s).Ok?
    ensures Dec(s[..Dec(s).value.1]) == Dec(s)
    ensures forall m: nat :: m < Dec(s).value.1 ==> Dec(s[..m]).Err?
  {
    DecAtLocal(s, 0);
  }

  /** Byte i of a varint is the digit i in base 128, with the high bit set on every byte but the last. */
  lemma {:induction false} EncDigit(v: nat, i: nat)
    requires i < |Enc(v)|
    ensures Enc(v)[i] == v / Pow2(7 * i) % 128 + if i < |Enc(v)| - 1 then 128 else 0
  {
    NothingBelowOne();
    if v >= 128 && i > 0 {
      EncDigit(v / 128, i - 1);
      DigitBehind(v, i);
    }
  }

  lemma DigitBehind(v: nat, i: nat)
    requires i > 0
    ensures v / 128 / Pow2(7 * (i - 1)) == v / Pow2(7 * i)
  {
    hide Pow2;
    Pow2Known();
    Pow2Sum(7, 7 * (i - 1));
    DivDiv(v, 128, Pow2(7 * (i - 1)));
  }

  /** A varint is refused if the first ten bytes all have the high bit set, or if there are fewer
      than ten and they all have. */
  lemma {:induction false} DecAtFaults(s: bytes, k: nat)
    requires k <= 10
    ensures DecAt(s, k) == Err(Overflow) <==> |s| >= 10 - k && forall i :: 0 <= i < 10 - k ==> s[i] >= 128
    ensures DecAt(s, k) == Err(Bounds) <==> |s| < 10 - k && forall i :: 0 <= i < |s| ==> s[i] >= 128
    ensures DecAt(s, k).Err? ==> DecAt(s, k).fault == Overflow || DecAt(s, k).fault == Bounds
    decreases 10 - k
  {
    if k < 10 && |s| > 0 && s[0] >= 128 {
      DecAtFaults(s[1..], k + 1);
      assert forall i :: 0 <= i < |s[1..]| ==> s[1..][i] == s[i + 1];
      assert forall i :: 0 < i < |s| ==> s[i] == s[1..][i - 1];
    }
  }

  /** `encodeVarint*`: writes the varint of v in the bytes just before offset. */
  method Encode(dAtA: array<byte>, offset: int, v: uint64) returns (base: int)
    requires Sov(v) <= offset <= dAtA.Length
    modifies dAtA
    ensures base == offset - Sov(v)
    ensures dAtA[..] == old(dAtA[..base]) + Enc(v) + old(dAtA[offset..])
  {
    EncLength(v);
    var o, v' := offset - Sov(v), v;
    base := o;
    while v' >= 128
      invariant base <= o && o + |Enc(v')| == offset
      invariant dAtA[..o] + Enc(v') == old(dAtA[..base]) + Enc(v)
      invariant dAtA[offset..] == old(dAtA[offset..])
    {
      ghost var before := dAtA[..o];
      EncStep(before, v');
      dAtA[o] := v' % 128 + 128;
      assert dAtA[..o + 1] == before + [v' % 128 + 128];
      v' := v' / 128;
      o := o + 1;
    }
    ghost var before := dAtA[..o];
    assert Enc(v') == [v'];
    dAtA[o] := v';
    assert dAtA[..] == before + [v'] + dAtA[offset..];
  }

  /** One byte of a long varint after another. */
  lemma EncStep(before: bytes, v: nat)
    requires v >= 128
    ensures before + Enc(v) == before + [v % 128 + 128] + Enc(v / 128)
    ensures |Enc(v)| == 1 + |Enc(v / 128)| >= 2
  {
    assert before + ([v % 128 + 128] + Enc(v / 128)) == before + [v % 128 + 128] + Enc(v / 128);
  }

  /** The decoding loop that the generator inlines wherever a varint is read. The
      accumulator is a w-bit word (32 for `int32`, `uint32` and enums, 64 for the
      others); a signed accumulator is held as its bit pattern. */
  method Decode(dAtA: bytes, start: int, w: nat) returns (err: Error, v: nat, iNdEx: int)
    requires 0 <= start <= |dAtA|
    ensures err.Reports(DecAt(dAtA[start..], 0))
    ensures err.Nil? || err.ErrIntOverflow? || err.ErrUnexpectedEOF?
    ensures err.Nil? ==>
              var (x, n) := DecAt(dAtA[start..], 0).value;
              v == x % Pow2(w) && iNdEx == start + n
  {
    hide DecAt, Lift, Pow2;
    var l := |dAtA|;
    iNdEx := start;
    v := 0;
    var shift := 0;
    ghost var k: nat, r: nat := 0, 0;
    LiftFirst(dAtA[start..], w);
    while true
      invariant k <= 10 && shift == 7 * k && iNdEx == start + k <= l
      invariant r < Pow2(7 * k) && v == r % Pow2(w)
      invariant DecAt(dAtA[start..], 0) == Lift(DecAt(dAtA[iNdEx..], k), r, k)
      decreases 10 - k
    {
      ghost var s := dAtA[iNdEx..];
      LiftLast(s, r, k);
      if shift >= 64 {
        return ErrIntOverflow, v, iNdEx;
      }
      if iNdEx >= l {
        return ErrUnexpectedEOF, v, iNdEx;
      }
      var b := dAtA[iNdEx];
      iNdEx := iNdEx + 1;
      if b >= 128 {
        assert s[0] - 128 == b % 128;
        LiftStep(s, r, k);
        assert s[1..] == dAtA[iNdEx..];
      }
      v, r := Accumulate(v, r, b % 128, shift, w);
      if b < 128 {
        break;
      }
      assert r < Pow2(7 * (k + 1));
      k := k + 1;
      shift := shift + 7;
    }
    err := Nil;
  }

  /** `acc |= w(b & 0x7F) << shift`, with the untruncated sum r beside it. */
  method Accumulate(acc: nat, ghost r: nat, x: nat, shift: nat, w: nat) returns (acc': nat, ghost r': nat)
    requires r < Pow2(shift) && acc == r % Pow2(w)
    ensures r' == r + x * Pow2(shift) && acc' == r' % Pow2(w)
  {
    OrShlAccumulates(r, x, shift, w);
    acc' := Or(acc, Shl(x, shift, w));
    r' := r + x * Pow2(shift);
  }

  /** What DecAt yields once the first k bytes, worth r, are put back. */
  ghost function Lift(d: Result<(nat, nat)>, r: nat, k: nat): Result<(nat, nat)> {
    match d
    case Err(f) => Err(f)
    case Ok((x, n)) => Ok((r + x * Pow2(7 * k), n + k))
  }

  lemma LiftFirst(s: bytes, w: nat)
    ensures Lift(DecAt(s, 0), 0, 0) == DecAt(s, 0)
    ensures 0 < Pow2(7 * 0) && 0 == 0 % Pow2(w)
  {
    assert Pow2(0) == 1;
  }

  /** The rounds in which the loop ends. */
  lemma LiftLast(s: bytes, r: nat, k: nat)
    ensures k >= 10 ==> Lift(DecAt(s, k), r, k) == Err(Overflow)
    ensures k < 10 && s == [] ==> Lift(DecAt(s, k), r, k) == Err(Bounds)
    ensures k < 10 && s != [] && s[0] < 128 ==> Lift(DecAt(s, k), r, k) == Ok((r + s[0] * Pow2(7 * k), k + 1))
  {
  }

  lemma LiftStep(s: bytes, r: nat, k: nat)
    requires k < 10 && |s| > 0 && s[0] >= 128 && r < Pow2(7 * k)
    ensures r + (s[0] - 128) * Pow2(7 * k) < Pow2(7 * (k + 1))
    ensures (s[0] - 128) * Pow2(7 * k) >= 0
    ensures Lift(DecAt(s, k), r, k) == Lift(DecAt(s[1..], k + 1), r + (s[0] - 128) * Pow2(7 * k), k + 1)
  {
    hide Pow2;
    var p, d := Pow2(7 * k), s[0] - 128;
    assert Pow2(7 * (k + 1)) == 128 * p by {
      Pow2Sum(7, 7 * k);
      Pow2Known();
    }
    DigitBound(d, p);
    var rest := DecAt(s[1..], k + 1);
    if rest.Ok? {
      var x := rest.value.0;
      assert DecAt(s, k) == Ok((d + 128 * x, rest.value.1 + 1));
      DigitShift(d, x, p);
    }
  }

  lemma DigitBound(d: nat, p: nat)
    requires d <= 127
    ensures 0 <= d * p <= 127 * p
  {
  }

  lemma DigitShift(d: nat, x: nat, p: nat)
    ensures (d + 128 * x) * p == d * p + x * (128 * p)
  {
  }
}
