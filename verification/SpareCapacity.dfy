/** Why `XXX_Marshal` needs a buffer of exactly the size of the message: with spare capacity the
    record is written at the end of the buffer, and the caller gets the beginning. */
module SpareCapacity {
  import opened GoInts
  import opened Schemas
  import opened Decoding
  import opened Unknowns
  import opened Reading
  import opened Writing
  import opened LocMessages
  import Encoding
  import Transfers
  import Varint

  /** One second after the epoch. */
  const SECOND := Msg([Num(1), Num(0)], [])

  lemma SecondTyped()
    ensures WellTyped(TIMESTAMP_SCHEMA, SECOND) && Clean(TIMESTAMP_SCHEMA, SECOND)
  {
    AllUnknownNone(TIMESTAMP_SCHEMA);
  }

  lemma SecondEncoded()
    requires WellTyped(TIMESTAMP_SCHEMA, SECOND)
    ensures Encoding.Encodes(TIMESTAMP_SCHEMA, SECOND, [0x08, 0x01])
  {
    hide WellTyped;
    var sc := TIMESTAMP_SCHEMA;
    var b: bytes, none: bytes := [0x08, 0x01], [];
    assert Encoding.Tag(1, 0) == [0x08];
    assert Varint.Enc(1) == [0x01];
    assert Encoding.EncodesVal(sc.fields[0], SECOND.vals[0], [0x08, 0x01]);
    assert Encoding.EncodesVal(sc.fields[1], SECOND.vals[1], []);
    assert Encoding.EncodesFrom(sc, SECOND, 2, []);
    assert none + none == none;
    assert Encoding.EncodesFrom(sc, SECOND, 1, []);
    assert b + none == b;
  }

  /** A second marshaled into a new buffer of three bytes: the two bytes that the caller gets are
      no encoding of it, and no receiver accepts them. */
  lemma SpareCapacityLost()
    ensures WellTyped(TIMESTAMP_SCHEMA, SECOND)
    ensures Marshaled(TIMESTAMP_SCHEMA, SECOND, [0, 0, 0], [0, 0x08, 0x01], 3, 2)
    ensures !Encoding.Encodes(TIMESTAMP_SCHEMA, SECOND, [0, 0x08, 0x01][..2])
    ensures Decode(TIMESTAMP_SCHEMA, Empty(TIMESTAMP_SCHEMA), [0, 0x08, 0x01][..2]).Err?
  {
    hide WellTyped, Clean, Encoding.Encodes, Encoding.Size, Decode, Step;
    var sc, r := TIMESTAMP_SCHEMA, [0, 0x08, 0x01][..2];
    SecondTyped();
    SecondEncoded();
    Encoding.EncodesSize(sc, SECOND, [0x08, 0x01]);
    assert Wrote([0, 0, 0], [0, 0x08, 0x01], 3, 1, [0x08, 0x01]);
    TimestampSchemaValid();
    if Encoding.Encodes(sc, SECOND, r) {
      Transfers.FirstByte(sc, SECOND, r);
    }
    Transfers.ZeroTag(r);
    DecodeStep(sc, Empty(sc), r);
    StepFault(sc, Empty(sc), r);
  }
}
