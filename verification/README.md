# The message codec, copies and field maps of the edge cloud platform

This project models the protobuf code that the generator wrote for the distributed match engine: how
a message is sized, written backwards into a buffer, and read again by a hand-unrolled state machine
over a cursor; how messages are copied in place and cloned; and the `FieldMap` that names fields by
dotted keys. It covers the trees AppInstListReply, CloudletLocation, Appinstance and AppPort, with
Loc and Timestamp, and FqdnListReply with AppFqdn; the theorems about message types hold for every
type built from the repository's kinds of field. The copies of BandSelection and FindCloudletReply,
and the blocks that inline them, are modelled as well. The wire format is that of the Protocol
Buffers Encoding specification ("Base 128 Varints", "Message Structure", "Length-Delimited Records",
"Last One Wins", "Maps", "Groups", "Field Order").

How it is built, from the bottom:

- `GoInts`, `Errors`, `Varint`: Go's fixed-width integers, error values, and varints, with the loops
  that write and read them.
- `Records`: the grammar of records, and `skip*` proved to recognise exactly that grammar.
- `Schemas`, `Decoding`, `Encoding`: message types and values; decoding as a function, encoding as a
  relation, because a Go map is iterated in any order.
- `Merging`, `Unknowns`, `RoundTrip`, `Theorems`, `LastOneWins`, `FieldOrder`, `Transfers`: what the
  codec promises, for all messages, all inputs and all map orders; `MapOrder` and `SpareCapacity`
  hold the concrete inputs on which two of the promises fail.
- `Wire`: the same format in literal bytes, without message types, to which every class is tied.
- `Reading`, `Writing`: the blocks of code that the generator repeats, as methods over a cursor and
  an array, each proved against those functions.
- `LocMessages`, `AppCommon`, `AppClientPlatos`, `AppClient`: the messages as classes whose methods
  are assembled from those blocks, with the copies; `QosPosition`, `EdgeEvents`: two more whose
  copies are inlined.
- `Copying`, `TagMaps`, `StringLists`, `FieldMaps`: what copies, `Add*` and `FieldMap` compute, and
  their laws, and Go's maps as objects.

Conventions. A float is its bit pattern. A nil-able slice is an `Option`, a map a reference to a
`TagMap` that may be null. An enum is its `int32`. `View` is the message as the codec sees it (a nil
list is an empty one), `Fields` the message as copying sees it (the two differ), `Image` its bytes
spelled out field by field, `Equals` equality of two messages field by field. A message with nested
lists has a ghost set `Repr` of its objects; `Valid` says that it holds them. `Tight` says that no
list or map of a message, at any level, is empty without being nil. The cases of a switch, or the
fields or a nested block of a copy, that would make a method too long are methods of their own,
named after the fields (`UnmarshalPorts`, `UnmarshalVerToStatus`, `TakeGpsLocation`). `Transfer` and
`Rebuild` are not functions of the repository: each puts two of its functions together, to state
what they do to each other. Faults are coarser than Go's errors in one respect: `ErrInvalidLength`
and `io.ErrUnexpectedEOF` after a length are one fault, because which of the two the code returns
depends on whether an index near 2^63 wraps around, and so on where in the buffer the bytes lie.

In two places the code does less than its surroundings suggest, and the model follows the code. The
strings of a map entry are bounded by the end of the buffer, not by the end of the entry, so an
entry can borrow bytes from the records behind it; `EntryConfined` says exactly when it does,
`OrderCanMatter` shows what follows, and `SwapToTheEnd` says exactly when the order of records
matters because of it, for a record that is moved behind the last one. With other bytes behind the
pair, `SwapRecords` gives a sufficient condition for the same outcome, and `SwapAccepted` says
exactly when the new order is accepted. `XXX_Marshal` fills the end of the buffer it is given and
returns its beginning; `ExactCapacity` says exactly when that is right, and `SpareCapacityLost`
shows a buffer for which it is not.

## Model

| member | source | states |
|---|---|---|
| Varint.Encode | api/distributed_match_engine/loc.pb.go:531-541 | Fills exactly the sov(v) bytes before offset with the varint of v, by the forward loop after the backward reservation, and changes no other byte |
| Varint.Decode | api/distributed_match_engine/loc.pb.go:964-980 | The shift-and-or loop, with an accumulator of 32 or 64 bits, computes the varint at the cursor modulo the width of the accumulator; ten bytes at most, and no read past the end |
| Varint.SovLeast | api/distributed_match_engine/loc.pb.go:952-954 | sov(v) is the least n >= 1 with v < 128^n, and is at most 10 |
| Varint.SozLeast | api/distributed_match_engine/loc.pb.go:955-957 | soz(x) is the least n such that int64(x) lies in [-2^(7n-1), 2^(7n-1)) |
| Varint.RoundTrip | api/distributed_match_engine/loc.pb.go:531-541 | Decoding what was encoded, whatever bytes follow, gives the value back and uses exactly sov(v) bytes |
| Varint.DecStable | api/distributed_match_engine/loc.pb.go:964-980 | A varint that has been read is read the same from every extension of the input |
| Varint.EncDigit | api/distributed_match_engine/loc.pb.go:531-541 | Byte i of the varint of v is v / 128^i mod 128, with the high bit set on every byte but the last |
| Varint.DecAtFaults | api/distributed_match_engine/loc.pb.go:964-980 | A varint is refused as too long if and only if ten bytes are there and all have the high bit set, and as cut short if and only if fewer than ten are and all have |
| GoInts.OrShlAccumulates | api/distributed_match_engine/loc.pb.go:964-977 | Or-ing a shifted seven-bit group into the accumulator adds it at its place, modulo the width of the accumulator |
| Reading.ReadInt32 | api/distributed_match_engine/loc.pb.go:1006-1024 | An int32 (or enum) field gets the int32 that differs from the varint by a multiple of 2^32, so sign-extended negative values come back |
| Reading.ReadInt64 | api/distributed_match_engine/loc.pb.go:987-1005 | An int64 field gets the int64 that differs from the varint by a multiple of 2^64 |
| Reading.ReadUint32 | api/distributed_match_engine/app-client-platos.pb.go:2324-2338 | A uint32 field gets the varint modulo 2^32 |
| Reading.ReadBool | api/distributed_match_engine/appcommon.pb.go:1671-1690 | A bool field is true if and only if the 64-bit varint is not zero |
| Reading.ReadDouble | api/distributed_match_engine/loc.pb.go:1080-1086 | A fixed64 field is the sum of the eight bytes at the cursor times 256^0 to 256^7, refused exactly when fewer than eight bytes are left; the addition wraps as in Go |
| Records.Skip | api/distributed_match_engine/loc.pb.go:1597-1674 | The loop over tags with its depth counter returns exactly what the grammar-level length function says, which may lie past the end of the slice, and each of its errors is the specified one |
| Records.LengthIsRecord | api/distributed_match_engine/loc.pb.go:1597-1674 | skip returns n within the slice if and only if the first n bytes are one complete record of the grammar: a tag and a payload, or balanced start and end groups of any depth |
| Records.LengthStable | api/distributed_match_engine/appcommon.pb.go:2001-2078 | A record that has been skipped is skipped with the same length on every extension, and no shorter prefix yields a length within itself: records are prefix-free |
| Records.LengthByType | api/distributed_match_engine/loc.pb.go:1597-1674 | After a one-byte tag: a varint, 8 bytes, a length and that many bytes, or 4 bytes, for the wire types 0, 1, 2 and 5; an end-group tag alone and the wire types 6 and 7 are refused |
| Records.GroupIsRecord | api/distributed_match_engine/loc.pb.go:1597-1674 | A start-group tag, a record or none, and an end-group tag are one record |
| Reading.ReadTag | api/distributed_match_engine/loc.pb.go:962-989 | The tag is the int32 truncation of wire >> 3 with its wire type; end-group tags get ErrEndGroupForNonGroup, numbers that are not positive ErrIllegalTag, and all others no error |
| Reading.ReadLength | api/distributed_match_engine/app-client-platos.pb.go:2343-2367 | With wrapping 64-bit ints the negative-length, negative-postIndex and past-end checks together admit exactly the lengths that fit in what is left, the slice that follows is in bounds, and the error is ErrInvalidLength exactly when the end of the body would lie at 2^63 or beyond, io.ErrUnexpectedEOF otherwise |
| Reading.SkipWithin | api/distributed_match_engine/app-client-platos.pb.go:2519-2534 | The checks after skip (negative, wrapped, past the end) refuse exactly the records that do not end by the limit |
| Reading.ReadEntry | api/distributed_match_engine/app-client-platos.pb.go:2411-2518 | The inner loop reads a map entry as specified: strings bounded by the end of the buffer rather than of the entry, unknown records skipped, wire types of key and value ignored |
| Theorems.EntryConfined | api/distributed_match_engine/app-client-platos.pb.go:2411-2518 | A map entry is read as if the entry were the whole buffer if and only if no string of it runs past its end |
| Theorems.EntryIsMessage | api/distributed_match_engine/app-client-platos.pb.go:2411-2518 | A map entry that is accepted as a message with a string key (field 1) and a string value (field 2) is read as that message's key and value |
| Decoding.StepStable | api/distributed_match_engine/app-client.pb.go:6447-6642 | What one round of the decoding loop does to the message depends only on the record it consumes |
| Theorems.StepIsRecord | api/distributed_match_engine/app-client.pb.go:6447-6642 | Whatever record the loop consumes, known or not, is one complete record of the grammar, and its length is what skip would return |
| Theorems.SameFaultAnywhere | api/distributed_match_engine/app-client.pb.go:6447-6642 | Whether bytes are accepted, and the error if not, does not depend on the message they are read onto |
| Theorems.WriteThenRead | api/distributed_match_engine/app-client.pb.go:1520-1724 | For every message tree whose unknown bytes are complete unknown records, reading any of its encodings into a new message succeeds and returns the same tree: the same bits everywhere, except that a double whose bits are 2^63 (a float: 2^31) is read as 0 |
| RoundTrip.DecodeEncoding | api/distributed_match_engine/app-client.pb.go:6202-6892 | Reading any encoding of w onto m succeeds and yields m with w merged in, for every order in which the maps were iterated |
| RoundTrip.EntryRoundTrip | api/distributed_match_engine/app-client-platos.pb.go:683-703 | The entry written for a key and a value is read back as that key and that value |
| RoundTrip.DecodeEntries | api/distributed_match_engine/app-client-platos.pb.go:2411-2518 | Reading a run of entries, duplicate keys included, onto a map stores them one by one |
| RoundTrip.LastDuplicateWins | api/distributed_match_engine/app-client-platos.pb.go:2517-2518 | Of the pairs of a run with the same key, the last one decides the value of the key |
| RoundTrip.DecodeMap | api/distributed_match_engine/app-client-platos.pb.go:683-703 | Reading the entries that were written for a map, in any order, merges that map in |
| Theorems.EncodingDetermines | api/distributed_match_engine/app-client.pb.go:1520-1724 | Two messages with a common encoding are the same message, up to the sign of zeros |
| Theorems.EncodingExists | api/distributed_match_engine/app-client.pb.go:1520-1724 | Every well-typed message has an encoding, of exactly its computed size |
| Theorems.ReadWriteRead | api/distributed_match_engine/app-client-platos.pb.go:2519-2534 | For every accepted input: what is kept as unknown is clean, and decode, encode, decode equals the first decode up to the sign of zeros |
| Unknowns.DecodeClean | api/distributed_match_engine/app-client-platos.pb.go:2519-2534 | Unmarshal keeps the invariant that at every level the unknown bytes are complete records whose int32 field number is positive and not known, none starting with an end-group tag |
| Unknowns.DecodeUnknown | api/distributed_match_engine/app-client-platos.pb.go:679-682 | Bytes that are complete unknown records are read back by appending them, unchanged, to the unknown bytes |
| Decoding.DecodeConcat | api/distributed_match_engine/app-client.pb.go:6643-6892 | Last One Wins: decoding a followed by b is decoding a and then b onto the result |
| LastOneWins.ReadingOverlays | api/distributed_match_engine/app-client.pb.go:6643-6892 | Any bytes accepted on their own are accepted onto any message, and overlay it: a scalar is the value read alone if some record is for its field (be it the default) and the old value if none is, lists are appended, map keys overwritten, unknown bytes appended, and a sub-message that occurs is overlaid by its own bodies in the same way, at every depth |
| LastOneWins.OverlaysDetermine | api/distributed_match_engine/app-client.pb.go:6643-6892 | Overlaying leaves no choice: the message, the bytes and what they are read as alone fix the result, at every depth |
| LastOneWins.ScalarWins | api/distributed_match_engine/app-client-platos.pb.go:2324-2338 | A number or string is the value that the bytes give it alone if it occurs in them, and what it was before if it does not |
| LastOneWins.OneAfterTheOther | api/distributed_match_engine/app-client.pb.go:6643-6892 | If a and b are each accepted, a followed by b is accepted onto every message, and is first the overlay of a and then that of b, sub-messages included |
| Theorems.ConcatenationMerges | api/distributed_match_engine/app-client.pb.go:6643-6892 | Concatenated encodings of two messages decode to the merge of the two messages |
| Merging.MergeAssociative | api/distributed_match_engine/app-client.pb.go:6643-6892 | The merging that the decoder implements is associative, so encodings may be concatenated in any grouping |
| FieldOrder.SwapRecords | api/distributed_match_engine/app-client.pb.go:6447-6642 | Field Order: in accepted bytes, adjacent complete records for different fields, at most one of them unknown, can be swapped without changing the outcome, wherever they occur, provided no string of a map entry runs past its entry |
| FieldOrder.OrderIsFree | api/distributed_match_engine/app-client.pb.go:6447-6642 | Field Order, for messages without map fields: adjacent complete records for different fields can always be swapped; either order is accepted if and only if the other is, with the same outcome |
| FieldOrder.SwapToTheEnd | api/distributed_match_engine/app-client-platos.pb.go:2411-2518 | With maps, a record can be moved behind the last record if and only if it is confined; if it is not, the bytes are refused in the new order |
| FieldOrder.SwapAccepted | api/distributed_match_engine/app-client-platos.pb.go:2411-2518 | With other bytes behind the pair (the second record confined): the new order is accepted if and only if the first record is accepted where it comes to stand, and one that is not confined then borrows a number of bytes that the bytes behind the pair hold |
| FieldOrder.AcceptedAlone | api/distributed_match_engine/app-client-platos.pb.go:2411-2518 | A record consumed in any context is accepted on its own if and only if it is confined: it is no map entry, or no string of its entry runs past the entry |
| FieldOrder.StepLocal | api/distributed_match_engine/app-client.pb.go:6447-6642 | What a confined record does depends on none of the bytes behind it |
| MapOrder.OrderCanMatter | api/distributed_match_engine/app-client-platos.pb.go:2411-2518 | A concrete pair of records of FqdnListReply that is accepted in one order and refused in the other, because a map entry cut short takes its key from the record behind it |
| Encoding.MapSizeAny | api/distributed_match_engine/app-client-platos.pb.go:1538-1545 | The size of a map does not depend on the order in which its entries are counted |
| Encoding.EntriesSize | api/distributed_match_engine/app-client-platos.pb.go:683-703 | Entries written in any order take exactly the size that Size computes for the map |
| Encoding.EncodesSize | api/distributed_match_engine/app-client-platos.pb.go:1520-1550 | Every encoding of a message has the length that Size computes |
| Wire.EncodesParts | api/distributed_match_engine/app-client.pb.go:1520-1724 | The bytes of a message are the bytes of its fields, in order and each chosen on its own, and then its unknown bytes |
| Writing.PutTags | api/distributed_match_engine/app-client-platos.pb.go:683-703 | The backward loop over a map writes, for the order in which it visits the keys, each entry once, and measures each entry as baseI - i |
| Writing.PutEntry | api/distributed_match_engine/app-client-platos.pb.go:686-702 | One entry: value, key, entry length and tag written backwards are the record of the map entry, with the measured length |
| Writing.SizeTags | api/distributed_match_engine/app-client-platos.pb.go:1538-1545 | The loop over a map adds up its size, whatever the order of iteration |
| Writing.PutStrings | api/distributed_match_engine/app-client-platos.pb.go:626-634 | The reverse loop over a list of strings writes the records of the list in order |
| Writing.SizeStrings | api/distributed_match_engine/app-client-platos.pb.go:1504-1509 | The loop over a list of strings adds up its encoded size |
| Writing.PutUint64 | api/distributed_match_engine/loc.pb.go:383-384 | The eight bytes of the word go into the array least significant first, each given by its own quotient |
| Writing.PutDouble | api/distributed_match_engine/loc.pb.go:346-351 | A double is written as its tag and the eight bytes of its bits, least significant first, and no other byte changes |
| LocMessages.Timestamp.MarshalToSizedBuffer | api/distributed_match_engine/loc.pb.go:288-308 | Writes, backwards from hi, an encoding of the Timestamp into exactly the last Size bytes before hi, changes no other byte, never indexes out of range, leaves the message as it was and returns Size; the bytes are the image of the message |
| LocMessages.Timestamp.Size | api/distributed_match_engine/loc.pb.go:836-852 | Returns the length of every encoding of the Timestamp, and of its image |
| LocMessages.Timestamp.Imaged | api/distributed_match_engine/loc.pb.go:288-308 | The encodings of the Timestamp are exactly its image: the fields that are not zero or empty, in order and behind literal tags (0x08 seconds, 0x10 nanos), then the unknown bytes |
| LocMessages.Timestamp.NumberFromWire | api/distributed_match_engine/loc.pb.go:958-1046 | Unmarshal of one number with one of the two literal tags sets the field of that tag to it, modulo 2^64 or 2^32 in two's complement, and nothing else |
| LocMessages.Timestamp.Unmarshal | api/distributed_match_engine/loc.pb.go:958-1046 | On arbitrary bytes, terminates without indexing out of range; its error is the specified fault, and on success the cursor ends at the length and the Timestamp holds what the decoding function gives for its old value |
| LocMessages.Loc.MarshalToSizedBuffer | api/distributed_match_engine/loc.pb.go:325-389 | Writes, backwards from hi, an encoding of the Loc into exactly the last Size bytes before hi, changes no other byte, never indexes out of range, leaves the message as it was and returns Size; the bytes are the image of the message |
| LocMessages.Loc.Size | api/distributed_match_engine/loc.pb.go:854-889 | Returns the length of every encoding of the Loc, and of its image |
| LocMessages.Loc.Imaged | api/distributed_match_engine/loc.pb.go:325-389 | The encodings of the Loc are exactly its image: the fields that are not zero or empty, in order and behind literal tags (0x09 latitude, 0x11 longitude, 0x19 horizontalAccuracy, 0x21 verticalAccuracy, 0x29 altitude, 0x31 course, 0x39 speed, 0x42 timestamp), then the unknown bytes, a double exactly when its bits are not 0 or 2^63 |
| LocMessages.Loc.RealFromWire | api/distributed_match_engine/loc.pb.go:1047-1210 | Unmarshal of one double with one of the seven literal tags sets the field of that tag to its bits, and nothing else |
| LocMessages.Loc.TimestampFromWire | api/distributed_match_engine/loc.pb.go:1047-1210 | Unmarshal of one body with the tag 0x42 reads it onto the Timestamp that is there, or a new one, and changes nothing else |
| LocMessages.Loc.Unmarshal | api/distributed_match_engine/loc.pb.go:1047-1210 | On arbitrary bytes, terminates without indexing out of range; its error is the specified fault, and on success the cursor ends at the length and the Loc holds what the decoding function gives for its old value |
| AppCommon.AppPort.MarshalToSizedBuffer | api/distributed_match_engine/appcommon.pb.go:505-567 | Writes, backwards from hi, an encoding of the AppPort into exactly the last Size bytes before hi, changes no other byte, never indexes out of range, leaves the message as it was and returns Size; the bytes are the image of the message |
| AppCommon.AppPort.Size | api/distributed_match_engine/appcommon.pb.go:1448-1483 | Returns the length of every encoding of the AppPort, and of its image |
| AppCommon.AppPort.Imaged | api/distributed_match_engine/appcommon.pb.go:505-567 | The encodings of the AppPort are exactly its image: the fields that are not zero or empty, in order and behind literal tags (0x08 proto, 0x10 internalPort, 0x18 publicPort, 0x2A fqdnPrefix, 0x30 endPort, 0x38 tls, 0x40 nginx, 0x48 maxPktSize), then the unknown bytes |
| AppCommon.AppPort.NumberFromWire | api/distributed_match_engine/appcommon.pb.go:1534-1751 | Unmarshal of one number with one of the seven literal tags sets the field of that tag to it, modulo 2^32 or 2^64 or compared with 0, and nothing else |
| AppCommon.AppPort.TextFromWire | api/distributed_match_engine/appcommon.pb.go:1534-1751 | Unmarshal of one string with the tag 0x2A sets fqdnPrefix and nothing else |
| AppCommon.AppPort.Unmarshal | api/distributed_match_engine/appcommon.pb.go:1534-1751 | On arbitrary bytes, terminates without indexing out of range; its error is the specified fault, and on success the cursor ends at the length and the AppPort holds what the decoding function gives for its old value |
| AppClientPlatos.AppFqdn.MarshalToSizedBuffer | api/distributed_match_engine/app-client-platos.pb.go:610-657 | Writes, backwards from hi, an encoding of the AppFqdn into exactly the last Size bytes before hi, changes no other byte, never indexes out of range, leaves the message as it was and returns Size; the bytes are the image of the message |
| AppClientPlatos.AppFqdn.Size | api/distributed_match_engine/app-client-platos.pb.go:1486-1518 | Returns the length of every encoding of the AppFqdn, and of its image |
| AppClientPlatos.AppFqdn.Imaged | api/distributed_match_engine/app-client-platos.pb.go:610-657 | The encodings of the AppFqdn are exactly its image: the fields that are not zero or empty, in order and behind literal tags (0x0A appName, 0x12 appVers, 0x1A orgName, 0x22 each of fqdns, 0x2A androidPackageName), then the unknown bytes |
| AppClientPlatos.AppFqdn.TextFromWire | api/distributed_match_engine/app-client-platos.pb.go:2080-2290 | Unmarshal of one string with one of the five literal tags sets the field of that tag, or is appended to fqdns, and changes nothing else |
| AppClientPlatos.AppFqdn.Unmarshal | api/distributed_match_engine/app-client-platos.pb.go:2080-2290 | On arbitrary bytes, terminates without indexing out of range; its error is the specified fault, and on success the cursor ends at the length and the AppFqdn holds what the decoding function gives for its old value; its list stays as it was, nil included, unless a string is stored |
| AppClientPlatos.FqdnListReply.MarshalToSizedBuffer | api/distributed_match_engine/app-client-platos.pb.go:674-729 | Writes, backwards from hi, an encoding of the FqdnListReply into exactly the last Size bytes before hi, changes no other byte, never indexes out of range, leaves the message as it was and returns Size, recursively for its elements and for every iteration order of its map; the bytes are an image of the message |
| AppClientPlatos.FqdnListReply.Size | api/distributed_match_engine/app-client-platos.pb.go:1520-1550 | Returns the length of every encoding of the FqdnListReply, and of its image |
| AppClientPlatos.FqdnListReply.Imaged | api/distributed_match_engine/app-client-platos.pb.go:674-729 | The encodings of the FqdnListReply are exactly its images, one for each order of the map: the fields that are not zero or empty, in order and behind literal tags (0x08 ver, 0x1A each of appFqdns, 0x20 status, 0xA2 0x06 each entry of tags, a 0x0A key and a 0x12 value), then the unknown bytes |
| AppClientPlatos.FqdnListReply.NumberFromWire | api/distributed_match_engine/app-client-platos.pb.go:2291-2540 | Unmarshal of one number with the tag 0x08 or 0x20 sets ver or status, and nothing else |
| AppClientPlatos.FqdnListReply.AppFqdnsFromWire | api/distributed_match_engine/app-client-platos.pb.go:2291-2540 | Unmarshal of one body with the tag 0x1A appends what it means to appFqdns, and changes nothing else |
| AppClientPlatos.FqdnListReply.TagsFromWire | api/distributed_match_engine/app-client-platos.pb.go:2291-2540 | Unmarshal of one entry with the tag 0xA2 0x06, a 0x0A key and a 0x12 value, stores that pair in the map, and changes nothing else |
| AppClientPlatos.FqdnListReply.Unmarshal | api/distributed_match_engine/app-client-platos.pb.go:2291-2540 | On arbitrary bytes, terminates without indexing out of range; its error is the specified fault, and on success the cursor ends at the length and the FqdnListReply holds what the decoding function gives for its old value; its list and its map stay as they were, nil included, unless something is stored, and a map that is there stays the same object; if no list or map was empty without being nil at any level, none is afterwards |
| AppClient.Appinstance.MarshalToSizedBuffer | api/distributed_match_engine/app-client.pb.go:1520-1579 | Writes, backwards from hi, an encoding of the Appinstance into exactly the last Size bytes before hi, changes no other byte, never indexes out of range, leaves the message as it was and returns Size, recursively for its ports; the bytes are the image of the message |
| AppClient.Appinstance.Size | api/distributed_match_engine/app-client.pb.go:4911-4947 | Returns the length of every encoding of the Appinstance, and of its image |
| AppClient.Appinstance.Imaged | api/distributed_match_engine/app-client.pb.go:1520-1579 | The encodings of the Appinstance are exactly its image: the fields that are not zero or empty, in order and behind literal tags (0x0A appName, 0x12 appVers, 0x1A fqdn, 0x22 each of ports, 0x2A orgName, 0x32 edgeEventsCookie), then the unknown bytes |
| AppClient.Appinstance.TextFromWire | api/distributed_match_engine/app-client.pb.go:6202-6446 | Unmarshal of one string with one of the five literal tags sets the field of that tag, and nothing else |
| AppClient.Appinstance.PortsFromWire | api/distributed_match_engine/app-client.pb.go:6202-6446 | Unmarshal of one body with the tag 0x22 appends what it means to ports, and changes nothing else |
| AppClient.Appinstance.Unmarshal | api/distributed_match_engine/app-client.pb.go:6202-6446 | On arbitrary bytes, terminates without indexing out of range; its error is the specified fault, and on success the cursor ends at the length and the Appinstance holds what the decoding function gives for its old value; its list stays as it was, nil included, unless an element is stored |
| AppClient.CloudletLocation.MarshalToSizedBuffer | api/distributed_match_engine/app-client.pb.go:1596-1652 | Writes, backwards from hi, an encoding of the CloudletLocation into exactly the last Size bytes before hi, changes no other byte, never indexes out of range, leaves the message as it was and returns Size, recursively for its location and instances; the bytes are the image of the message |
| AppClient.CloudletLocation.Size | api/distributed_match_engine/app-client.pb.go:4949-4980 | Returns the length of every encoding of the CloudletLocation, and of its image |
| AppClient.CloudletLocation.Imaged | api/distributed_match_engine/app-client.pb.go:1596-1652 | The encodings of the CloudletLocation are exactly its image: the fields that are not zero or empty, in order and behind literal tags (0x0A carrierName, 0x12 cloudletName, 0x1A gpsLocation, 0x21 distance, 0x2A each of appinstances), then the unknown bytes, a double exactly when its bits are not 0 or 2^63 |
| AppClient.CloudletLocation.RealFromWire | api/distributed_match_engine/app-client.pb.go:6447-6642 | Unmarshal of one double with the tag 0x21 sets distance to its bits, and nothing else |
| AppClient.CloudletLocation.TextFromWire | api/distributed_match_engine/app-client.pb.go:6447-6642 | Unmarshal of one string with the tag 0x0A or 0x12 sets carrierName or cloudletName, and nothing else |
| AppClient.CloudletLocation.GpsLocationFromWire | api/distributed_match_engine/app-client.pb.go:6447-6642 | Unmarshal of one body with the tag 0x1A reads it onto the Loc that is there, or a new one, and changes nothing else |
| AppClient.CloudletLocation.AppinstancesFromWire | api/distributed_match_engine/app-client.pb.go:6447-6642 | Unmarshal of one body with the tag 0x2A appends what it means to appinstances, and changes nothing else |
| AppClient.CloudletLocation.Unmarshal | api/distributed_match_engine/app-client.pb.go:6447-6642 | On arbitrary bytes, terminates without indexing out of range; its error is the specified fault, and on success the cursor ends at the length and the CloudletLocation holds what the decoding function gives for its old value; its list stays as it was, nil included, unless an element is stored; if no list was empty without being nil at any level, none is afterwards |
| AppClient.AppInstListReply.MarshalToSizedBuffer | api/distributed_match_engine/app-client.pb.go:1669-1724 | Writes, backwards from hi, an encoding of the AppInstListReply into exactly the last Size bytes before hi, changes no other byte, never indexes out of range, leaves the message as it was and returns Size, recursively for the whole tree and every iteration order of its map; the bytes are an image of the message |
| AppClient.AppInstListReply.Size | api/distributed_match_engine/app-client.pb.go:4982-5008 | Returns the length of every encoding of the AppInstListReply, and of its image |
| AppClient.AppInstListReply.Imaged | api/distributed_match_engine/app-client.pb.go:1669-1724 | The encodings of the AppInstListReply are exactly its images, one for each order of the map: the fields that are not zero or empty, in order and behind literal tags (0x08 ver, 0x10 status, 0x1A each of cloudlets, 0xA2 0x06 each entry of tags, a 0x0A key and a 0x12 value), then the unknown bytes |
| AppClient.AppInstListReply.NumberFromWire | api/distributed_match_engine/app-client.pb.go:6643-6892 | Unmarshal of one number with the tag 0x08 or 0x10 sets ver or status, and nothing else |
| AppClient.AppInstListReply.CloudletsFromWire | api/distributed_match_engine/app-client.pb.go:6643-6892 | Unmarshal of one body with the tag 0x1A appends what it means to cloudlets, and changes nothing else |
| AppClient.AppInstListReply.TagsFromWire | api/distributed_match_engine/app-client.pb.go:6643-6892 | Unmarshal of one entry with the tag 0xA2 0x06, a 0x0A key and a 0x12 value, stores that pair in the map, and changes nothing else |
| AppClient.AppInstListReply.Unmarshal | api/distributed_match_engine/app-client.pb.go:6643-6892 | On arbitrary bytes, terminates without indexing out of range; its error is the specified fault, and on success the cursor ends at the length and the AppInstListReply holds what the decoding function gives for its old value; its list and its map stay as they were, nil included, unless something is stored, and a map that is there stays the same object; if no list or map was empty without being nil at any level, none is afterwards |
| AppClient.Appinstance.MarshalAll | api/distributed_match_engine/app-client.pb.go:1543-1556 | The reverse loop over a list of messages writes them in order, each in the prefix that is left, and leaves them as they were |
| AppClient.CloudletLocation.UnmarshalGpsLocation | api/distributed_match_engine/app-client.pb.go:6540-6575 | A second occurrence of a sub-message is read onto the one that is there; the first allocates it |
| AppClient.CloudletLocation.UnmarshalAppinstances | api/distributed_match_engine/app-client.pb.go:6587-6620 | Each occurrence of a repeated message appends a new element and reads the body onto it, leaving the other elements alone |
| AppClientPlatos.FqdnListReply.UnmarshalTags | api/distributed_match_engine/app-client-platos.pb.go:2392-2518 | An occurrence of the map makes the map if it is nil, and stores the entry in the map that is there, which is the same object as before |
| AppClientPlatos.FqdnListReply.Marshal | api/distributed_match_engine/app-client-platos.pb.go:659-667 | Returns a new buffer, filled exactly, that holds an encoding of the message, an image of it |
| AppClientPlatos.FqdnListReply.XXXMarshal | api/distributed_match_engine/app-client-platos.pb.go:253-264 | What is returned is an encoding when cap(b) is the size of the message; for a zeroed buffer and a clean message, if and only if cap(b) equals the size or the message is empty |
| AppClient.AppInstListReply.Marshal | api/distributed_match_engine/app-client.pb.go:1654-1662 | Returns a new buffer, filled exactly, that holds an encoding of the message, an image of it |
| AppClient.AppInstListReply.XXXMarshal | api/distributed_match_engine/app-client.pb.go:571-582 | As for FqdnListReply: right exactly when cap(b) is the size, or the message is empty |
| Transfers.ExactCapacity | api/distributed_match_engine/app-client-platos.pb.go:253-264 | The first n bytes of a zeroed buffer whose last n bytes were filled hold an encoding if and only if the buffer has n bytes or n is 0 |
| SpareCapacity.SpareCapacityLost | api/distributed_match_engine/loc.pb.go:48-59 | A concrete Timestamp and a buffer one byte too large: the two bytes that are returned are no encoding of it, and no receiver accepts them |
| AppClient.AppInstListReply.Transfer | api/distributed_match_engine/app-client.pb.go:1654-1662 | Marshal followed by Unmarshal into a new object yields a wholly fresh tree with the value that was sent; what was empty without being nil, be it the map or a list at any level, is received as nil |
| AppClientPlatos.FqdnListReply.Transfer | api/distributed_match_engine/app-client-platos.pb.go:659-667 | Marshal followed by Unmarshal into a new object yields a wholly fresh tree with the value that was sent; what was empty without being nil, be it the map or a list at any level, is received as nil |
| LocMessages.Timestamp.CopyInFields | api/distributed_match_engine/loc.pb.go:548-559 | Copies the fields that differ and counts them; afterwards the two are Equal, field by field, and a result of 0 means nothing changed |
| LocMessages.Loc.CopyInFields | api/distributed_match_engine/loc.pb.go:580-627 | Same, with floats compared by their bits: one counts unless the two have the same bits or are zeros, and neither is above the bits of infinity; afterwards it has the bits of the source's, or both are zeros. The Timestamp is copied field by field into the one that is there, or a new one |
| LocMessages.Loc.TakeTimestamp | api/distributed_match_engine/loc.pb.go:610-625 | The inlined block leaves the state and the count of allocating the Timestamp if it is nil and copying into it as its own CopyInFields does |
| AppClient.CloudletLocation.CopyInFields | api/distributed_match_engine/app-client.pb.go:2774-2858 | Fields at every level (nil and empty lists told apart inside the instances too), count, and no memory shared with the source afterwards; the source is unchanged; a result of 0 leaves the message unchanged except that a nil sub-message may have become a blank one |
| AppClient.CloudletLocation.TakeGpsLocation | api/distributed_match_engine/app-client.pb.go:2785-2836 | The inlined block, Timestamp included, leaves the state and the count that copying a Loc into the old one (or a new one) leaves |
| AppClientPlatos.FqdnListReply.CopyInFields | api/distributed_match_engine/app-client-platos.pb.go:1015-1067 | Same, with the list replaced by fresh clones, whose own lists are nil where the source's are, and the map by a new map filled entry by entry, whenever the source's is not nil |
| TagMaps.TagMap.Copied | api/distributed_match_engine/app-client-platos.pb.go:1082-1086 | The loop makes a new map with the entries of the source, whatever the order of iteration, and leaves the source as it was |
| AppClient.AppInstListReply.CopyInFields | api/distributed_match_engine/app-client.pb.go:2946-2998 | Same, for the list of cloudlets and the tags, which become a new map |
| EdgeEvents.FindCloudletReply.CopyInFields | api/distributed_match_engine/app-client.pb.go:2292-2412 | Same, for the nine fields of the message that a ServerEdgeEvent carries: a list of ports, a Loc with its Timestamp, a map and plain fields |
| EdgeEvents.ServerEdgeEvent.TakeNewCloudlet | api/distributed_match_engine/app-client.pb.go:3703-3826 | The inlined block, three levels deep, leaves the state and the count of allocating the message if it is nil and copying into it as its own CopyInFields does; the source keeps its value |
| QosPosition.BandSelection.CopyInFields | api/distributed_match_engine/qos-position.pb.go:1048-1108 | Each of the four lists is replaced and counted when the source's is not nil, dropped and counted when only the source's is nil |
| QosPosition.QosPositionRequest.TakeBandSelection | api/distributed_match_engine/qos-position.pb.go:1345-1408 | The inlined block leaves the state and the count of BandSelection.CopyInFields on the old sub-message or a new one |
| Copying.CopyAgrees | api/distributed_match_engine/app-client-platos.pb.go:1015-1067 | After a copy every declared field, at every level and inside the messages of lists, equals the source's; a float has its bits, or both are zeros |
| Copying.NoChanges | api/distributed_match_engine/app-client.pb.go:2946-2998 | A count of 0 means that the message is unchanged, except that nil sub-messages may have become allocated and blank |
| Copying.CopyTwice | api/distributed_match_engine/loc.pb.go:580-627 | Copying a second time changes nothing and counts exactly the non-nil lists and maps and the NaNs of the source |
| QosPosition.BandSelection.SameIsEqual | api/distributed_match_engine/qos-position.pb.go:1048-1108 | What copying takes for the same BandSelection is equal to it field by field, by the names of the fields: none is left out of a copy, at any level |
| EdgeEvents.FindCloudletReply.SameIsEqual | api/distributed_match_engine/app-client.pb.go:2292-2412 | What copying takes for the same FindCloudletReply is equal to it field by field, by the names of the fields: none is left out of a copy, at any level |
| AppClient.AppInstListReply.SameIsEqual | api/distributed_match_engine/app-client.pb.go:2946-2998 | What copying takes for the same AppInstListReply is equal to it field by field, by the names of the fields: none is left out of a copy, at any level |
| AppClient.CloudletLocation.SameIsEqual | api/distributed_match_engine/app-client.pb.go:2774-2858 | What copying takes for the same CloudletLocation is equal to it field by field, by the names of the fields: none is left out of a copy, at any level |
| AppClient.Appinstance.SameIsEqual | api/distributed_match_engine/app-client.pb.go:2622-2626 | What copying takes for the same Appinstance is equal to it field by field, by the names of the fields: none is left out of a copy, at any level |
| AppClientPlatos.FqdnListReply.SameIsEqual | api/distributed_match_engine/app-client-platos.pb.go:1015-1067 | What copying takes for the same FqdnListReply is equal to it field by field, by the names of the fields: none is left out of a copy, at any level |
| AppClientPlatos.AppFqdn.SameIsEqual | api/distributed_match_engine/app-client-platos.pb.go:882-886 | What copying takes for the same AppFqdn is equal to it field by field, by the names of the fields: none is left out of a copy, at any level |
| AppCommon.AppPort.SameIsEqual | api/distributed_match_engine/appcommon.pb.go:667-671 | What copying takes for the same AppPort is equal to it field by field, by the names of the fields: none is left out of a copy, at any level |
| LocMessages.Loc.SameIsEqual | api/distributed_match_engine/loc.pb.go:580-627 | What copying takes for the same Loc is equal to it field by field, by the names of the fields: none is left out of a copy, at any level |
| LocMessages.Timestamp.SameIsEqual | api/distributed_match_engine/loc.pb.go:548-559 | What copying takes for the same Timestamp is equal to it field by field, by the names of the fields: none is left out of a copy, at any level |
| LocMessages.Loc.DeepCopyIn | api/distributed_match_engine/loc.pb.go:629-645 | The message becomes the source without unknown bytes in sub-messages, which are fresh; its own unknown bytes stay |
| LocMessages.Loc.Clone | api/distributed_match_engine/loc.pb.go:574-578 | A wholly fresh copy, equal on declared fields with the same bits, unknown bytes dropped at both levels |
| AppCommon.AppPort.Clone | api/distributed_match_engine/appcommon.pb.go:667-671 | A fresh copy, equal on declared fields, without the unknown bytes |
| AppClientPlatos.AppFqdn.Clone | api/distributed_match_engine/app-client-platos.pb.go:882-886 | A fresh copy, equal on declared fields including whether the list is nil, without the unknown bytes |
| AppClientPlatos.FqdnListReply.Clone | api/distributed_match_engine/app-client-platos.pb.go:978-982 | A wholly fresh tree, map included, with the same declared fields (nil and empty lists told apart at every level) and no unknown bytes at any level |
| AppClient.Appinstance.Clone | api/distributed_match_engine/app-client.pb.go:2622-2626 | A wholly fresh tree with the same declared fields and no unknown bytes at any level |
| AppClient.CloudletLocation.Clone | api/distributed_match_engine/app-client.pb.go:2737-2741 | A wholly fresh tree with the same declared fields (nil and empty lists told apart at every level) and no unknown bytes at any level |
| AppClient.AppInstListReply.Clone | api/distributed_match_engine/app-client.pb.go:2909-2913 | A wholly fresh tree, map included, with the same declared fields (nil and empty lists told apart at every level); what it puts on the wire is what the original does without its unknown bytes |
| AppClient.CloudletLocation.DeepCopyIn | api/distributed_match_engine/app-client.pb.go:2860-2881 | The message becomes the source without unknown bytes below its own level, nil lists nil at every level, sharing no object with it |
| AppClient.AppInstListReply.DeepCopyIn | api/distributed_match_engine/app-client.pb.go:3000-3021 | The message becomes the source without unknown bytes below its own level, nil lists nil at every level, sharing no object with it: cloudlets and map are new |
| Copying.BareOnWire | api/distributed_match_engine/app-client.pb.go:3000-3021 | The encodings of a clone are exactly those of the original with the unknown bytes cleared at every level |
| Copying.ClonesReadBack | api/distributed_match_engine/app-client.pb.go:3000-3021 | A clone can always be read back from its encodings, whatever the unknown bytes of the original were |
| StringLists.AddStrings | api/distributed_match_engine/app-client-platos.pb.go:888-902 | The two loops return the list followed by the arguments that are not in it, and their number; if nothing is added, the list is the one that was passed, nil included |
| StringLists.AbsentCount | api/distributed_match_engine/app-client-platos.pb.go:888-902 | An argument is appended as often as it is given if it is not in the list, and never if it is |
| StringLists.AbsentInOrder | api/distributed_match_engine/app-client-platos.pb.go:888-902 | The arguments are looked at one after the other and keep their order |
| StringLists.AddedElements | api/distributed_match_engine/qos-position.pb.go:924-938 | The element set becomes the union, and the old list is a prefix of the new one |
| StringLists.AddedTwice | api/distributed_match_engine/qos-position.pb.go:924-938 | Adding the same strings again adds nothing |
| AppClientPlatos.AppFqdn.AddFqdns | api/distributed_match_engine/app-client-platos.pb.go:888-902 | The list becomes the old one followed by the new arguments, and the result is how many were appended |
| QosPosition.BandSelection.AddRat2G | api/distributed_match_engine/qos-position.pb.go:924-938 | The list becomes the old one followed by the new arguments, and the result is how many were appended |
| FieldMaps.FieldMap.Has | api/distributed_match_engine/app-client-platos.pb.go:1299-1312 | Cutting at the last dot again and again answers whether some stored key equals the key or is a proper ancestor of it |
| FieldMaps.FieldMap.HasOrHasChild | api/distributed_match_engine/app-client-platos.pb.go:1317-1328 | Holds if and only if some stored key equals the key, is an ancestor of it or a descendant of it |
| FieldMaps.LastDot | api/distributed_match_engine/app-client-platos.pb.go:1305-1308 | The index of the last dot, or -1: a dot is there and none follows |
| FieldMaps.DotExample | api/distributed_match_engine/app-client-platos.pb.go:1299-1312 | The separator is the full stop: 1 covers 1.2 and not 12, and 1.2.3 is cut behind 1.2 |
| FieldMaps.SetIsInherited | api/distributed_match_engine/app-client-platos.pb.go:1296-1297 | Every child of a key that is set is set |
| FieldMaps.ClearedKey | api/distributed_match_engine/app-client-platos.pb.go:1334-1336 | After Clear(k), Has(k) holds if and only if a proper ancestor of k is stored |
| FieldMaps.ClearElsewhere | api/distributed_match_engine/app-client-platos.pb.go:1334-1336 | Clearing a key changes the answer for no key outside its subtree |
| FieldMaps.SetAdds | api/distributed_match_engine/app-client-platos.pb.go:1330-1332 | Setting a key sets the keys of its subtree and no others |
| FieldMaps.FieldMap.Fields | api/distributed_match_engine/app-client-platos.pb.go:1338-1345 | Returns the stored keys, each once; of two of them, the one before is a proper prefix of the other or has the smaller byte where they first differ |
| FieldMaps.LessIs | api/distributed_match_engine/app-client-platos.pb.go:1338-1345 | The order in which sort.Strings puts strings: a proper prefix first, otherwise the smaller byte where they first differ |
| FieldMaps.IncreasingUnique | api/distributed_match_engine/app-client-platos.pb.go:1338-1345 | The result of Fields is determined by the stored keys, not by the order of map iteration |
| FieldMaps.FieldMap.Rebuild | api/distributed_match_engine/app-client-platos.pb.go:1276-1286 | MakeFieldMap of Fields restores the set of keys |
| FieldMaps.FieldMap.Make | api/distributed_match_engine/app-client-platos.pb.go:1276-1286 | The stored keys are the elements of the list |

## Left out

- The messages of the repository other than AppInstListReply, CloudletLocation, Appinstance, AppPort, Loc, Timestamp, FqdnListReply and AppFqdn have no class with a codec here; the theorems about schemas hold for their types too, including the kinds of field (float, uint64) that no class here has.
- `CopyInFields` of AppPort, AppFqdn and Appinstance, and the inlined Statistics block of ServerEdgeEvent.
- QosPosition.QosPositionRequest.TakeBandSelection: of QosPositionRequest only the field BandSelection is modelled.
- EdgeEvents.ServerEdgeEvent.TakeNewCloudlet: of ServerEdgeEvent only the field NewCloudlet is modelled, and of FindCloudletReply only the copying.
- The branches of `CopyInFields` for the actions "add" and "remove", which are never taken because the action is always "replace", and the `Remove*` functions, whose loop starts one past the end of the list.
- `Add*` over messages: they compare messages by `proto.CompactTextString`, which is not part of this model.
- Nil elements in lists of messages, on which the code panics: the element type of a list is a non-null class.
- `MarshalTo`, which is `MarshalToSizedBuffer` on the first Size bytes of a larger buffer.
- `XXX_Marshal` with `deterministic` set, `XXX_Merge` and `XXX_DiscardUnknown`: they call into the protobuf library, which is not part of this model.
- LocMessages.Timestamp.Unmarshal: does not say which of `ErrInvalidLength` and `io.ErrUnexpectedEOF` a bounds error is, nor what is in the message after an error, which the code leaves half read.
- LocMessages.Loc.Unmarshal: does not say which of `ErrInvalidLength` and `io.ErrUnexpectedEOF` a bounds error is, nor what is in the message after an error, which the code leaves half read.
- AppCommon.AppPort.Unmarshal: does not say which of `ErrInvalidLength` and `io.ErrUnexpectedEOF` a bounds error is, nor what is in the message after an error, which the code leaves half read.
- AppClientPlatos.AppFqdn.Unmarshal: does not say which of `ErrInvalidLength` and `io.ErrUnexpectedEOF` a bounds error is, nor what is in the message after an error, which the code leaves half read.
- AppClientPlatos.FqdnListReply.Unmarshal: does not say which of `ErrInvalidLength` and `io.ErrUnexpectedEOF` a bounds error is, nor what is in the message after an error, which the code leaves half read.
- AppClient.Appinstance.Unmarshal: does not say which of `ErrInvalidLength` and `io.ErrUnexpectedEOF` a bounds error is, nor what is in the message after an error, which the code leaves half read.
- AppClient.CloudletLocation.Unmarshal: does not say which of `ErrInvalidLength` and `io.ErrUnexpectedEOF` a bounds error is, nor what is in the message after an error, which the code leaves half read.
- AppClient.AppInstListReply.Unmarshal: does not say which of `ErrInvalidLength` and `io.ErrUnexpectedEOF` a bounds error is, nor what is in the message after an error, which the code leaves half read.
- Slices are values here, so Go's sharing of backing arrays after `append` is not modelled, nor is that of the map passed to `NewFieldMap`.
- Sizes are bounded by 2^63, as the length of every Go slice is, and the input of `Unmarshal` by 2^63 - 8: with fewer than eight bytes to spare, the check before a fixed64 would wrap around and let the read run past the end. Memory limits are not modelled.
- IEEE arithmetic: the code only compares floats with zero and with each other.
- `sort.Strings` and `strings.LastIndex` stand in the model as an insertion sort and a recursive function.
- gRPC services, HTTP gateways, descriptors, enum parsing, `ValidateEnums`, `IsValidArgsFor*`, `MatchOptions` and JSON: plumbing, or functions of finite tables.
