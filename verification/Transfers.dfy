/** What the buffers that `Marshal` and `XXX_Marshal` return mean to a receiver. */
module Transfers {
  import opened GoInts
  import opened Errors
  import opened Schemas
  import opened Decoding
  import opened Reading
  import opened Writing
  import Encoding
  import Merging
  import Theorems
  import Unknowns
  import Varint

  /** A buffer of exactly the size of the message holds its encoding. */
  lemma FilledExactly(sc: Schema, m: Msg, before: bytes, after: bytes, hi: int, n: nat)
    requires WellTyped(sc, m) && Marshaled(sc, m, before, after, hi, n) && n <= hi <= |before|
    ensures |after| == |before| && after[..hi - n] == before[..hi - n] && after[hi..] == before[hi..]
    ensures Encoding.Encodes(sc, m, after[hi - n..hi])
  {
    hide Encoding.Encodes, Encoding.Size;
    var b :| Encoding.Encodes(sc, m, b) && Wrote(before, after, hi, hi - n, b);
    assert after[hi - n..hi] == b;
  }

  /** A receiver that unmarshals an encoding into a new message has the message that was sent. */
  lemma Received(sc: Schema, m: Msg, x: Msg, b: bytes, err: Error)
    requires ValidSchema(sc) && WellTyped(sc, m) && Unknowns.Clean(sc, m)
    requires Encoding.Encodes(sc, m, b) && |b| < TWO63 && Unmarshaled(sc, Empty(sc), x, b, err)
    ensures err.Nil? && x == Merging.Canonical(sc, m)
  {
    hide Encoding.Encodes, Decode, Unknowns.Clean, Merging.Canonical, Merging.Agree, Merging.PositiveZeros,
        WellTyped, ValidSchema, Empty;
    Theorems.WriteThenRead(sc, m, b);
  }

  /** The lists and maps that were empty, and no others, are empty in the message that is received. */
  lemma EmptyStaysEmpty(sc: Schema, m: Msg, k: nat)
    requires WellTyped(sc, m) && k < |sc.fields|
    ensures var v, w := m.vals[k], Merging.Canonical(sc, m).vals[k];
            match sc.fields[k].kind
            case RepeatedString => v.Strs? && w.Strs? && (w.strs == [] <==> v.strs == [])
            case RepeatedMessage(_) => v.Subs? && w.Subs? && (w.subs == [] <==> v.subs == [])
            case StringMap => v.StrMap? && w.StrMap? && (w.entries == map[] <==> v.entries == map[])
            case _ => true
  {
    assert HasType(sc.fields[k].kind, m.vals[k]);
    if sc.fields[k].kind.StringMap? {
      assert map[] + m.vals[k].entries == m.vals[k].entries;
    }
  }

  /** No encoding of a clean message begins with a zero byte: the tag would be zero. */
  lemma FirstByte(sc: Schema, m: Msg, b: bytes)
    requires ValidSchema(sc) && WellTyped(sc, m) && Unknowns.Clean(sc, m)
    requires Encoding.Encodes(sc, m, b) && 0 < |b| < TWO63
    ensures b[0] != 0
  {
    hide Encoding.Encodes, Decode, Unknowns.Clean, Merging.Canonical, Merging.Agree, Merging.PositiveZeros,
        WellTyped, ValidSchema, Empty, Step;
    Theorems.WriteThenRead(sc, m, b);
    DecodeStep(sc, Empty(sc), b);
    Theorems.AcceptsHeader(sc, Empty(sc), b);
    if b[0] == 0 {
      ZeroTag(b);
    }
  }

  lemma ZeroTag(b: bytes)
    requires |b| > 0 && b[0] == 0
    ensures Header(b).Err?
  {
    assert Varint.Dec(b) == Ok((0, 1));
  }

  /** `XXX_Marshal` returns the first n bytes of a buffer whose last n bytes it has filled: for
      a new buffer, that is an encoding of the message exactly when the capacity of the
      buffer is the size of the message (or the message is empty). */
  lemma ExactCapacity(sc: Schema, m: Msg, before: bytes, after: bytes, n: nat)
    requires ValidSchema(sc) && WellTyped(sc, m) && Unknowns.Clean(sc, m)
    requires Marshaled(sc, m, before, after, |before|, n) && n <= |before| < TWO63
    requires forall i :: 0 <= i < |before| ==> before[i] == 0
    ensures |after| == |before|
    ensures Encoding.Encodes(sc, m, after[..n]) <==> |before| == n || n == 0
  {
    hide Marshaled, Encoding.Encodes, Unknowns.Clean, WellTyped, ValidSchema;
    FilledExactly(sc, m, before, after, |before|, n);
    if |before| == n {
      assert after[..n] == after[|before| - n..|before|];
    } else if n == 0 {
      assert after[..0] == after[|before|..|before|];
    } else {
      assert after[0] == after[..|before| - n][0] == before[0];
      if Encoding.Encodes(sc, m, after[..n]) {
        FirstByte(sc, m, after[..n]);
      }
    }
  }
}
