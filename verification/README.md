# Silkoroutine: codec, transaction protocol, coroutines and hex

A Dafny model of four parts of Silkoroutine, with proofs.

**Message codec** (`WireFormat`, `WireTheory`, `Decoding`, `Utf8`, `CursorCodec`, `PairCodec`, `SentPeersCodec`,
`ForksCodec`, `StatusDataCodec`, `CodecMeaning`, `Concatenation`, `WrittenBytes`).  The generated C++ of `remote.Cursor`, `remote.Pair`,
`sentry.SentPeers`, `sentry.Forks` and `sentry.StatusData`: each message is a class whose methods parse, serialize,
measure, merge, copy and clear in place, proved against functions on a value type.  Tag dispatch, default skipping,
write order, size caching and merging are those of the generated code.  The primitives it calls in its runtime
follow the Encoding specification of Protocol Buffers (Base 128 Varints, Length-Delimited Records, Submessages, Packed
Repeated Fields, Last One Wins): tags and sizes of at most five bytes, sizes below 2^31, varints of at most ten bytes
with the bits above the 64th dropped, groups and submessages down to a depth that is a parameter.  UTF-8 is that
of section 4 of RFC 3629.

**Transaction protocol** (`KvClient`, `KvReactor`, `KvSession`, `KvMachine`, `KvGuarantees`, `KvRuns`, `KvProgress`,
`KvOperations`, `RemoteTransaction`, `KvSeek`, `KvWire`).  `KvMachine` is a step relation over the client coroutine, the reactor with its single
slots and reply buffer, the queue of posted work, and a server that may give any legal answer; each read, write or
stream end may fail.  `KvClient` has the code of `RemoteCursor` and `RemoteTransaction` cut at its awaits;
`RemoteTransaction` has the same code uncut, as classes over mutable objects, proved to agree with it.  `KvSession` is the
sequential reading of calls, `KvRuns` the refinement between runs and sessions.  `KvSeek` has the synchronous, nested-callback
and coroutine clients of one exchange.

**Coroutine tasks** (`TaskChain`, `TaskTheory`, `Coroutines`).  A machine over frames with `caller_coro`,
`completion_handler` and `result`, against an ordinary recursive function.  A program gives for each body what it does next
from the values its awaits gave, so awaits may depend on values, bodies may await themselves, and a program need not end.

**Hex** (`Hex`).  `from_hex` and `operator<<` on `ByteView`, base 16 as in section 8 of RFC 4648, lower case.

## What is assumed of the environment

- A callback is one atomic step.  An exception in a callback ends the run (`thrown`).
- Every started gRPC operation gets one done event.  The end of the stream comes once, after the started reads and
  writes; it may come before the half-close, and then the empty close slot throws.
- Requests and replies are first in, first out, one `Pair` for each request.  A message has the value it had when its write was
  started.
- The server gives each new cursor a nonzero id that is not in use.  Nothing else is assumed of its replies, unless a theorem
  says so (`LooksUp`: SEEK replies depend only on table and key).
- A caller awaits one call before it makes the next, as `kv_seek` does, and makes none after `close()`.
- `close()` visits the cached cursors in some order of their tables; the source's map gives the order of keys.
- The output stream of the hex printer has neither `uppercase` nor `showbase` set.

## How the parts are stated

A parser accepts an input if its loop consumed the whole extent: it neither stopped at tag 0 or an end-group tag nor failed.
`Parse` gives `Done` in that case.  A message is well-formed if strings are within the size limit, text is UTF-8 and the unknown
fields are valid records that the parser would not take for known ones.

`Client` numbers the cursor objects in the order they are made; `ids` holds each one's `cursor_id_` and `cached` is `cursors_`.
`tables` is a history variable.  In `State`, `ops` and `completions` are the operations initiated and the calls of `complete`,
in order; `served` is all the server ever answered.  A stored callback is represented by the number of the operation whose lambda
it is.

Where a property turned out to need a condition, the condition is proved to be exact:

- `RoundTrip` holds if and only if the message is well-formed.
- Stale cached sizes give wrong output, always: `ForksCodec.CacheDecidesOutput` and `StatusDataCodec.CachesDecideOutput`.
- Two accepted inputs in a row parse to the merge of both if and only if the second does not spell out a default where the
  first has a value (module `Concatenation`).
- `close()` leaves nothing open at the server if and only if every open cursor object was cached (`KvRuns.CloseLeavesNothingOpen`).
- The one-shot seek looks in the table it is given if and only if its cursor is closed or open on that table
  (`KvSession.OneShotTableMatters`).
- The three clients write the same messages if and only if no cursor with id 0 has to be closed (`KvSeek.SameExchange`).

## Model

| member | source | states |
|---|---|---|
| StatusDataCodec.Canonical | silkoroutine/bindings/p2psentry/generated/sentry.pb.cc:2659-2757 | Every input below 2^31 bytes that the StatusData parser accepts, with unknown fields, wrong wire types, repeated fork_data and mixed packed and single forks, parses to a message that is parsed again from its own serialization |
| StatusDataCodec.RoundTrip | silkoroutine/bindings/p2psentry/generated/sentry.pb.cc:2659-2802 | A StatusData below 2^31 bytes survives serialize-then-parse if and only if it is well-formed: unknown fields are valid and not known ones, and fork_data fits the recursion depth |
| StatusDataCodec.ConcatIsMerge | silkoroutine/bindings/p2psentry/generated/sentry.pb.cc:2819-2838 | Any accepted bytes followed by a serialized message parse to the merge of the two, with fork_data merged recursively |
| StatusDataCodec.MergeMonoid | silkoroutine/bindings/p2psentry/generated/sentry.pb.cc:2819-2852 | MergeFrom is associative and the cleared message is its identity on both sides, nested presence included |
| StatusDataCodec.ParsedIsWellFormed | silkoroutine/bindings/p2psentry/generated/sentry.pb.cc:2659-2717 | Whatever is parsed from fewer than 2^31 bytes is well-formed; packing forks that arrived in pieces and joining repeated fork_data never makes a nested length reach 2^31 |
| StatusDataCodec.DecodeSerialized | silkoroutine/bindings/p2psentry/generated/sentry.pb.cc:2659-2757 | Parsing a serialized message on top of another one is merging it in |
| StatusDataCodec.SizeIsLength | silkoroutine/bindings/p2psentry/generated/sentry.pb.cc:2759-2802 | The size pass counts exactly the bytes of the serialization |
| StatusDataCodec.FreshCachesSerialize | silkoroutine/bindings/p2psentry/generated/sentry.pb.cc:2719-2757 | With the caches a size pass leaves, both cached length prefixes are those of the payloads after them, so the cache-trusting serializer writes the right bytes |
| StatusDataCodec.CachesDecideOutput | silkoroutine/bindings/p2psentry/generated/sentry.pb.cc:2719-2757 | The cache-trusting serializer writes the right bytes if and only if, when there is a submessage, its cached size and its cached packed size are both right |
| StatusDataCodec.BelowLimit | silkoroutine/bindings/p2psentry/generated/sentry.pb.cc:2759-2802 | A message below the 2 GiB limit has nested sizes below it, so that no cached size is truncated |
| StatusDataCodec.StatusDataMessage.InternalParse | silkoroutine/bindings/p2psentry/generated/sentry.pb.cc:2659-2717 | The byte loop ends at its limit, at a stopping tag or in failure as the record-by-record decoder does, with the same message |
| StatusDataCodec.StatusDataMessage.ParseField | silkoroutine/bindings/p2psentry/generated/sentry.pb.cc:2666-2709 | One turn of the tag switch, known fields with the wrong wire type falling through to unknown fields, is one turn of the decoder |
| StatusDataCodec.StatusDataMessage.ParseMessage | silkoroutine/bindings/p2psentry/generated/sentry.pb.cc:2690-2696 | A fork_data record is parsed on top of the submessage already there, one level deeper, and fails unless it fills its extent |
| StatusDataCodec.StatusDataMessage.MutableForkData | silkoroutine/bindings/p2psentry/generated/sentry.pb.h:3200-3207 | The submessage is created empty on first use and kept afterwards |
| StatusDataCodec.StatusDataMessage.InternalSerialize | silkoroutine/bindings/p2psentry/generated/sentry.pb.cc:2719-2757 | The serializer appends the encoding determined by the fields and by the two cached sizes, right or stale |
| StatusDataCodec.StatusDataMessage.ByteSizeLong | silkoroutine/bindings/p2psentry/generated/sentry.pb.cc:2759-2802 | Returns the size of the serialization, leaves the message unchanged and leaves fresh caches, nested ones included |
| StatusDataCodec.StatusDataMessage.SerializeToBytes | silkoroutine/bindings/p2psentry/generated/sentry.pb.cc:2719-2802 | Size pass, limit, serializer: below 2^31 bytes exactly the returned number of bytes come out, and they are the serialization |
| StatusDataCodec.StatusDataMessage.MergeFrom | silkoroutine/bindings/p2psentry/generated/sentry.pb.cc:2819-2838 | In-place merge is Merge; the other message is unchanged |
| StatusDataCodec.StatusDataMessage.CopyFrom | silkoroutine/bindings/p2psentry/generated/sentry.pb.cc:2847-2852 | Clear then merge gives a message equal to the source, with its own submessage; copying from itself changes nothing |
| StatusDataCodec.StatusDataMessage.Clear | silkoroutine/bindings/p2psentry/generated/sentry.pb.cc:2643-2657 | All fields go back to their defaults and the submessage goes away |
| ForksCodec.Canonical | silkoroutine/bindings/p2psentry/generated/sentry.pb.cc:2389-2464 | Every accepted input below 2^31 bytes parses to a message that is parsed again from its own serialization, which is at most one byte longer than the input |
| ForksCodec.RoundTrip | silkoroutine/bindings/p2psentry/generated/sentry.pb.cc:2389-2503 | A Forks below 2^31 bytes survives serialize-then-parse if and only if it is well-formed |
| ForksCodec.SplittingDoesNotMatter | silkoroutine/bindings/p2psentry/generated/sentry.pb.cc:2389-2435 | Any splitting of a fork list into packed chunks and single values, with genesis records in between, parses to the same list in order and to the last genesis |
| ForksCodec.ConcatIsMerge | silkoroutine/bindings/p2psentry/generated/sentry.pb.cc:2520-2531 | Any accepted bytes followed by a serialized message parse to the merge: forks appended, genesis replaced unless empty |
| ForksCodec.MergeMonoid | silkoroutine/bindings/p2psentry/generated/sentry.pb.cc:2520-2531 | MergeFrom is associative with the cleared message as identity |
| ForksCodec.SizeIsLength | silkoroutine/bindings/p2psentry/generated/sentry.pb.cc:2466-2503 | The size pass counts exactly the bytes of the serialization |
| ForksCodec.CacheDecidesOutput | silkoroutine/bindings/p2psentry/generated/sentry.pb.cc:2437-2464 | The serializer, which trusts the cached packed size, writes the right bytes if and only if that cache is right |
| ForksCodec.DecodeKeepsShape | silkoroutine/bindings/p2psentry/generated/sentry.pb.cc:2389-2435 | Parsing on top of a message keeps it well-formed and bounds what it will cost to write by the bytes read |
| ForksCodec.ForksMessage.InternalParse | silkoroutine/bindings/p2psentry/generated/sentry.pb.cc:2389-2435 | The byte loop is the record-by-record decoder |
| ForksCodec.ForksMessage.ParseField | silkoroutine/bindings/p2psentry/generated/sentry.pb.cc:2396-2427 | One turn of the tag switch: forks packed, forks as a single value, genesis, or unknown |
| ForksCodec.ForksMessage.InternalSerialize | silkoroutine/bindings/p2psentry/generated/sentry.pb.cc:2437-2464 | Appends the encoding determined by the fields and the cached packed size |
| ForksCodec.ForksMessage.ByteSizeLong | silkoroutine/bindings/p2psentry/generated/sentry.pb.cc:2466-2503 | Returns the size and stores both cached sizes |
| ForksCodec.ForksMessage.MergeFrom | silkoroutine/bindings/p2psentry/generated/sentry.pb.cc:2520-2531 | In-place merge is Merge |
| ForksCodec.ForksMessage.CopyFrom | silkoroutine/bindings/p2psentry/generated/sentry.pb.cc:2540-2545 | Clear then merge gives an equal message; copying from itself changes nothing |
| ForksCodec.ForksMessage.Clear | silkoroutine/bindings/p2psentry/generated/sentry.pb.cc:2378-2387 | All fields go back to their defaults |
| SentPeersCodec.RoundTrip | silkoroutine/bindings/p2psentry/generated/sentry.pb.cc:1450-1536 | Serialize-then-parse gives a SentPeers back if and only if it is well-formed; empty peers are kept |
| SentPeersCodec.Canonical | silkoroutine/bindings/p2psentry/generated/sentry.pb.cc:1450-1511 | Every accepted input parses to a message that is parsed again from its own serialization |
| SentPeersCodec.ConcatIsMerge | silkoroutine/bindings/p2psentry/generated/sentry.pb.cc:1553-1561 | Any accepted bytes followed by a serialized message parse to the merge: peers appended |
| SentPeersCodec.MergeMonoid | silkoroutine/bindings/p2psentry/generated/sentry.pb.cc:1553-1575 | MergeFrom is associative with the cleared message as identity |
| SentPeersCodec.SizeIsLength | silkoroutine/bindings/p2psentry/generated/sentry.pb.cc:1513-1536 | The size pass counts exactly the bytes written |
| SentPeersCodec.SentPeersMessage.InternalParse | silkoroutine/bindings/p2psentry/generated/sentry.pb.cc:1450-1491 | The byte loop, with its inner loop over adjacent peers, is the record-by-record decoder |
| SentPeersCodec.SentPeersMessage.ParsePeers | silkoroutine/bindings/p2psentry/generated/sentry.pb.cc:1458-1470 | The inner loop over expected tags takes the same records as separate turns of the outer loop |
| SentPeersCodec.SentPeersMessage.InternalSerialize | silkoroutine/bindings/p2psentry/generated/sentry.pb.cc:1493-1511 | The loop over peers appends the serialization |
| SentPeersCodec.SentPeersMessage.ByteSizeLong | silkoroutine/bindings/p2psentry/generated/sentry.pb.cc:1513-1536 | The loop over peers returns the length of the serialization |
| SentPeersCodec.SentPeersMessage.MergeFrom | silkoroutine/bindings/p2psentry/generated/sentry.pb.cc:1553-1561 | In-place merge is Merge |
| SentPeersCodec.SentPeersMessage.CopyFrom | silkoroutine/bindings/p2psentry/generated/sentry.pb.cc:1570-1575 | Clear then merge gives an equal message; copying from itself changes nothing |
| SentPeersCodec.SentPeersMessage.Clear | silkoroutine/bindings/p2psentry/generated/sentry.pb.cc:1440-1448 | All fields go back to their defaults |
| CursorCodec.RoundTrip | silkoroutine/bindings/kv/generated/kv.pb.cc:242-410 | Serialize-then-parse gives a Cursor back if and only if its bucket name is valid UTF-8, strings are below 2^31 bytes and unknown fields are valid, for every int32 op and uint32 cursor |
| CursorCodec.Canonical | silkoroutine/bindings/kv/generated/kv.pb.cc:242-359 | Every accepted input parses to a message that is parsed again from its own serialization |
| CursorCodec.ConcatIsMerge | silkoroutine/bindings/kv/generated/kv.pb.cc:427-449 | Any accepted bytes followed by a serialized message parse to the merge of the two |
| CursorCodec.MergeAssociative | silkoroutine/bindings/kv/generated/kv.pb.cc:427-449 | MergeFrom is associative |
| CursorCodec.MergeIdentity | silkoroutine/bindings/kv/generated/kv.pb.cc:227-240 | The cleared message is the identity of MergeFrom on both sides |
| CursorCodec.SignExtendRoundTrip | silkoroutine/bindings/kv/generated/kv.pb.cc:251-255 | An int32 enum written as a sign-extended 64-bit varint comes back by truncation |
| CursorCodec.SizeIsLength | silkoroutine/bindings/kv/generated/kv.pb.cc:361-410 | The size pass counts exactly the bytes written, ten for a negative op |
| CursorCodec.CursorMessage.InternalParse | silkoroutine/bindings/kv/generated/kv.pb.cc:242-310 | The byte loop is the record-by-record decoder, in all three ways to end |
| CursorCodec.CursorMessage.ParseField | silkoroutine/bindings/kv/generated/kv.pb.cc:249-302 | One turn of the tag switch, UTF-8 check included |
| CursorCodec.CursorMessage.InternalSerialize | silkoroutine/bindings/kv/generated/kv.pb.cc:312-359 | Appends the serialization, defaults skipped, unknown fields last |
| CursorCodec.CursorMessage.ByteSizeLong | silkoroutine/bindings/kv/generated/kv.pb.cc:361-410 | Returns the length of the serialization |
| CursorCodec.CursorMessage.MergeFrom | silkoroutine/bindings/kv/generated/kv.pb.cc:427-449 | In-place merge is Merge |
| CursorCodec.CursorMessage.CopyFrom | silkoroutine/bindings/kv/generated/kv.pb.cc:458-463 | Clear then merge gives an equal message; copying from itself changes nothing |
| CursorCodec.CursorMessage.Clear | silkoroutine/bindings/kv/generated/kv.pb.cc:227-240 | All fields go back to their defaults |
| PairCodec.RoundTrip | silkoroutine/bindings/kv/generated/kv.pb.cc:565-686 | Serialize-then-parse gives a Pair back, whatever its key and value bytes, if and only if it is within the size limit with valid unknown fields |
| PairCodec.Canonical | silkoroutine/bindings/kv/generated/kv.pb.cc:565-648 | Every accepted input parses to a message that is parsed again from its own serialization |
| PairCodec.ConcatIsMerge | silkoroutine/bindings/kv/generated/kv.pb.cc:703-719 | Any accepted bytes followed by a serialized message parse to the merge of the two |
| PairCodec.MergeAssociative | silkoroutine/bindings/kv/generated/kv.pb.cc:703-719 | MergeFrom is associative |
| PairCodec.MergeIdentity | silkoroutine/bindings/kv/generated/kv.pb.cc:553-563 | The cleared message is the identity of MergeFrom on both sides |
| PairCodec.SizeIsLength | silkoroutine/bindings/kv/generated/kv.pb.cc:650-686 | The size pass counts exactly the bytes written |
| PairCodec.PairMessage.InternalParse | silkoroutine/bindings/kv/generated/kv.pb.cc:565-616 | The byte loop is the record-by-record decoder |
| PairCodec.PairMessage.ParseField | silkoroutine/bindings/kv/generated/kv.pb.cc:572-608 | One turn of the tag switch |
| PairCodec.PairMessage.InternalSerialize | silkoroutine/bindings/kv/generated/kv.pb.cc:618-648 | Appends the serialization |
| PairCodec.PairMessage.ByteSizeLong | silkoroutine/bindings/kv/generated/kv.pb.cc:650-686 | Returns the length of the serialization |
| PairCodec.PairMessage.MergeFrom | silkoroutine/bindings/kv/generated/kv.pb.cc:703-719 | In-place merge is Merge |
| PairCodec.PairMessage.CopyFrom | silkoroutine/bindings/kv/generated/kv.pb.cc:728-733 | Clear then merge gives an equal message; copying from itself changes nothing |
| PairCodec.PairMessage.Clear | silkoroutine/bindings/kv/generated/kv.pb.cc:553-563 | All fields go back to their defaults |
| CodecMeaning.CursorMeaning | silkoroutine/bindings/kv/generated/kv.pb.cc:242-310 | The parser accepts exactly the inputs that are records to the end with every bucket name the encoding of Unicode scalar values; of each field the last record counts, all other records are kept in order |
| Utf8.Utf8Meaning | silkoroutine/bindings/kv/generated/kv.pb.cc:263 | The UTF-8 check holds of exactly the byte strings that are encodings of some sequence of scalar values, computed from the code points: every scalar is included, overlong forms and surrogates are not |
| CodecMeaning.PairMeaning | silkoroutine/bindings/kv/generated/kv.pb.cc:565-616 | The parser accepts exactly the inputs that are records to the end; of each field the last record counts |
| CodecMeaning.SentPeersMeaning | silkoroutine/bindings/p2psentry/generated/sentry.pb.cc:1450-1491 | The parser accepts exactly the inputs that are records to the end; the peers are all payloads of field 1 in order |
| CodecMeaning.ForksMeaning | silkoroutine/bindings/p2psentry/generated/sentry.pb.cc:2389-2435 | The parser accepts exactly the inputs of records whose packed chunks are well-formed; the forks are all values in order, packed or not |
| CodecMeaning.StatusDataMeaning | silkoroutine/bindings/p2psentry/generated/sentry.pb.cc:2659-2717 | The parser accepts exactly the inputs of records whose fork_data payloads each parse by themselves; of each scalar the last record counts, and repeated fork_data records parse to what their payloads parse to when put together |
| CodecMeaning.CursorWrittenInOrder | silkoroutine/bindings/kv/generated/kv.pb.cc:312-359 | Known fields are written once, in ascending order, and never at their default |
| CodecMeaning.PairWrittenInOrder | silkoroutine/bindings/kv/generated/kv.pb.cc:618-648 | Known fields are written once, in ascending order, and never at their default |
| CodecMeaning.ForksWrittenInOrder | silkoroutine/bindings/p2psentry/generated/sentry.pb.cc:2437-2464 | Known fields are written once, in ascending order, and never at their default |
| CodecMeaning.StatusDataWrittenInOrder | silkoroutine/bindings/p2psentry/generated/sentry.pb.cc:2719-2757 | The same, but for fork_data, which is written last and also when it is empty |
| WrittenBytes.CursorBytes | silkoroutine/bindings/kv/generated/kv.pb.cc:312-359 | Read back record by record, the bytes written are known fields, ascending and not at their default, and then the unknown fields in order |
| WrittenBytes.PairBytes | silkoroutine/bindings/kv/generated/kv.pb.cc:618-648 | The same for Pair |
| WrittenBytes.SentPeersBytes | silkoroutine/bindings/p2psentry/generated/sentry.pb.cc:1493-1511 | The bytes written are one record for each peer, in order, and then the unknown fields in order |
| WrittenBytes.ForksBytes | silkoroutine/bindings/p2psentry/generated/sentry.pb.cc:2437-2464 | The same for Forks, whose fork list is always packed |
| WrittenBytes.StatusDataBytes | silkoroutine/bindings/p2psentry/generated/sentry.pb.cc:2719-2757 | The same for StatusData, whose submessage is the last known field and may be empty |
| WrittenBytes.SubmessageDepth | silkoroutine/bindings/p2psentry/generated/sentry.pb.cc:2690-2696 | A submessage takes one level of the recursion limit: with groups nested in it, it is accepted if and only if they fit the rest |
| CodecMeaning.DecodeStops | silkoroutine/bindings/kv/generated/kv.pb.cc:291-295 | A parser stops exactly where complete records are followed by a tag of value zero or an end-group tag, with the message of those records |
| Concatenation.ExplicitDefaultOverrides | silkoroutine/bindings/kv/generated/kv.pb.cc:242-310 | An input on which concatenation is not merge: two bytes that spell out a zero cursor override any cursor before them, and equal the merge if and only if the cursor was zero |
| Concatenation.CursorConcatenation | silkoroutine/bindings/kv/generated/kv.pb.cc:242-310 | Any two accepted inputs in a row are accepted, and parse to the merge of what each parses to if and only if each field that the second mentions and leaves at its default is at its default in the first |
| Concatenation.PairConcatenation | silkoroutine/bindings/kv/generated/kv.pb.cc:565-616 | The same for Pair |
| Concatenation.SentPeersConcatenation | silkoroutine/bindings/p2psentry/generated/sentry.pb.cc:1450-1491 | For SentPeers, which has no singular field, any two accepted inputs in a row parse to the merge |
| Concatenation.ForksConcatenation | silkoroutine/bindings/p2psentry/generated/sentry.pb.cc:2389-2435 | The same for Forks, where genesis is the one field concerned |
| Concatenation.StatusDataConcatenation | silkoroutine/bindings/p2psentry/generated/sentry.pb.cc:2659-2717 | The same for StatusData, the genesis of a submessage that both inputs have included |
| WireTheory.VarintMeaning | silkoroutine/bindings/kv/generated/kv.pb.cc:312-359 | A written varint is the base-128 expansion of its number, low group first, the top bit on all bytes but the last, and no spare byte |
| WireTheory.ReadVarintMeaning | silkoroutine/bindings/kv/generated/kv.pb.cc:253 | A varint is read exactly if a byte below 128 comes within the limit, with the value of all groups up to it, overlong forms included |
| WireTheory.ReadersMeaning | silkoroutine/bindings/kv/generated/kv.pb.cc:247-271 | 64-bit and 32-bit values are read from at most ten bytes, tags from at most five, and keep the low bits |
| WireTheory.ReadLenMeaning | silkoroutine/bindings/kv/generated/kv.pb.cc:262 | A length-delimited payload is read exactly if its length is below 2^31 and it is all there |
| WireTheory.SignExtendMeaning | silkoroutine/bindings/kv/generated/kv.pb.cc:251-255 | The 64-bit value written for a 32-bit one is the same number in two's complement |
| WireTheory.ToI32Meaning | silkoroutine/bindings/kv/generated/kv.pb.cc:255 | Truncation to a 32-bit enum keeps the value modulo 2^32 |
| WireTheory.RecordsOnTheWire | silkoroutine/bindings/kv/generated/kv.pb.cc:296-299 | The bytes of the five kinds of records, with tags of eight times the field number plus the wire type |
| WireTheory.BadTags | silkoroutine/bindings/kv/generated/kv.pb.cc:296-299 | Field number zero and wire types 6 and 7 are errors |
| WireTheory.OtherGroupEnd | silkoroutine/bindings/kv/generated/kv.pb.cc:296-299 | A group is ended by the end-group tag of its own number only |
| WireTheory.DepthLimit | silkoroutine/bindings/kv/generated/kv.pb.cc:296-299 | Groups nested inside each other are read exactly up to the recursion limit |
| WireTheory.ReadFieldLocal | silkoroutine/bindings/kv/generated/kv.pb.cc:296-299 | A record is read from its own bytes alone |
| WireTheory.FieldRoundTrip | silkoroutine/bindings/kv/generated/kv.pb.cc:291-301 | Every valid record, groups to any depth included, is read back from its encoding, whatever follows |
| WireTheory.ReadFieldIsCanonical | silkoroutine/bindings/kv/generated/kv.pb.cc:291-301 | Every record read is valid, and its own encoding is no longer than the bytes it was read from |
| WireTheory.EncodedFieldsLength | silkoroutine/bindings/kv/generated/kv.pb.cc:361-410 | The computed size of a list of records is the length of its encoding |
| WireTheory.PackedRoundTrip | silkoroutine/bindings/p2psentry/generated/sentry.pb.cc:2405-2414 | A packed list of 64-bit varints is read back |
| WireTheory.ReadPackedIsCanonical | silkoroutine/bindings/p2psentry/generated/sentry.pb.cc:2405-2414 | A packed list read from any bytes needs no more bytes when written again |
| Decoding.DecodeConcat | silkoroutine/bindings/kv/generated/kv.pb.cc:242-310 | Bytes after a fully consumed input are decoded into the message that input produced, for any message type |
| Decoding.DecodeWritten | silkoroutine/bindings/kv/generated/kv.pb.cc:242-310 | Decoding encoded records is folding over the records, for any message type |
| Hex.FromHex | silkoroutine/common/util.cpp:34-60 | The carry loop succeeds exactly if, after one optional 0x or 0X, there is an even number of characters, all of 0 to 9, a to f or A to F; each byte is then the number its two characters stand for |
| Hex.Write | silkoroutine/common/util.cpp:62-68 | The printing loop appends two lower-case digits a byte to the stream |
| Hex.PrintSpelledOut | silkoroutine/common/util.cpp:62-68 | The printed form is, for each byte, the characters of its high and its low digit among 0123456789abcdef |
| Hex.HexRoundTrip | silkoroutine/common/util.cpp:34-68 | from_hex of the printed form of any bytes, with or without an added prefix, gives exactly those bytes |
| Hex.PrintOfDecoded | silkoroutine/common/util.cpp:34-68 | Printing what was decoded gives the stripped text in lower case |
| Hex.DecodesAlike | silkoroutine/common/util.cpp:34-60 | Two accepted texts decode alike if and only if they agree up to prefix and case |
| Hex.OrIsPlus | silkoroutine/common/util.cpp:52-56 | Or-ing the low digit into the shifted carry is adding it |
| KvMachine.EveryRunInv | silkoroutine/bindings/kv/awaitables.hpp:60-93 | On every run, with any event failing at any step, the invariant holds: phases of the current operation, ordered service, completions, calls so far, cache, balance, agreement of ids |
| KvMachine.IoContextRunsKeeps | silkoroutine/bindings/kv/awaitables.hpp:82-87 | Running the posted work keeps the invariant: it throws, or completes its operation and runs the coroutine to its next await or return |
| KvMachine.WriteEventKeeps | silkoroutine/bindings/kv/grpc_client_reactor.hpp:56-58 | A finished write keeps the invariant, ok or not |
| KvMachine.ReadEventKeeps | silkoroutine/bindings/kv/grpc_client_reactor.hpp:52-54 | A finished read keeps the invariant, ok or not, with the one reply buffer |
| KvMachine.StreamEventKeeps | silkoroutine/bindings/kv/grpc_client_reactor.hpp:60-62 | The end of the stream keeps the invariant, also when it comes with no callback set |
| KvMachine.ServerAnswersKeeps | silkoroutine/bindings/kv/awaitables.hpp:71-89 | Any legal answer of the server keeps the invariant |
| KvMachine.InvokeKeeps | silkoroutine/ethdb/kv/remote_transaction.cpp:21-39 | Starting any call on the transaction or one of its cursors keeps the invariant |
| KvGuarantees.OneAtATime | silkoroutine/bindings/kv/grpc_client_reactor.hpp:42-58 | In every reachable state at most one read or write is outstanding, it is that of the latest operation, and the slot its event will call is that operation's own |
| KvGuarantees.RepliesMatch | silkoroutine/bindings/kv/awaitables.hpp:117-137 | The k-th completed operation is operation k, and its reply is the server's answer to the k-th request, although buffer and slots are reused |
| KvGuarantees.CompletedOnce | silkoroutine/bindings/async_operation.hpp:30-32 | No operation completes twice |
| KvGuarantees.NoFalseSuccess | silkoroutine/bindings/kv/awaitables.hpp:71-89 | An operation completes only after its own write and then its own read were reported ok, or for close its OnDone |
| KvGuarantees.CachedWasOpened | silkoroutine/ethdb/kv/remote_transaction.cpp:26-28 | A table is in the cache only if an OPEN for it was written ok, read ok and completed |
| KvGuarantees.CursorsConserved | silkoroutine/ethdb/kv/remote_cursor.hpp:54-91 | Whenever no call is in progress the nonzero cursor ids are distinct and exactly the server's open cursors, and answered OPENs minus answered CLOSEs is their number |
| KvRuns.RunIsSession | silkoroutine/ethdb/kv/remote_transaction.cpp:21-39 | The calls of any run returned what sequential code returns for their replies, and the server's whole history is exactly their exchanges |
| KvRuns.CachedRunOpens | silkoroutine/ethdb/kv/remote_transaction.cpp:21-30 | On any run of cursor(table) calls and seeks on the cursors they return, the server got exactly one OPEN for each table asked for and none for others, whatever it replied to seeks |
| KvRuns.CachedRun | silkoroutine/ethdb/kv/remote_transaction.cpp:21-30 | If moreover SEEK replies depend only on table and key, every seek returned the entry of its table |
| KvRuns.HalfCloseComesLast | silkoroutine/ethdb/kv/remote_transaction.cpp:32-39 | The stream is half-closed only when every request before, each CLOSE included, has been answered and completed |
| KvRuns.CloseOnRun | silkoroutine/ethdb/kv/remote_transaction.cpp:32-39 | On any run, close() sent one CLOSE for each cached cursor with a nonzero id and none for the rest, then half-closed; the cache is empty, formerly cached cursors are at id 0, all others unchanged |
| KvRuns.CloseLeavesNothingOpen | silkoroutine/ethdb/kv/remote_transaction.cpp:32-39 | On any run that ends with close(), the server has no cursor open if and only if every open cursor object was in the cache before, and exactly then it has answered as many CLOSEs as OPENs |
| KvRuns.OpenAfterClose | silkoroutine/ethdb/kv/remote_transaction.cpp:32-39 | The cursor objects open after close() are those open before that were not in the cache |
| KvRuns.OnlyCachedOpen | silkoroutine/ethdb/kv/remote_transaction.cpp:21-30 | Whoever only calls cursor(table) and seeks has every open cursor object in the cache |
| KvRuns.CacheOnlyLeavesNothingOpen | silkoroutine/ethdb/kv/remote_transaction.cpp:32-39 | After such calls, close() leaves the server without an open cursor |
| KvProgress.EventBringsDown | silkoroutine/bindings/kv/awaitables.hpp:60-93 | With a call in progress, every event throws, ends the call or lowers a measure over remaining awaits and the phase of the operation |
| KvProgress.CallEnds | silkoroutine/ethdb/kv/remote_transaction.cpp:32-39 | No call goes on forever: after as many events as the measure it has returned or thrown |
| KvProgress.CloseAwaits | silkoroutine/ethdb/kv/remote_transaction.cpp:32-39 | close() has at most one await for each cached cursor ahead of it, and one more |
| KvProgress.NeverThrows | silkoroutine/bindings/kv/awaitables.hpp:71-89 | On runs without a failed event no callback throws |
| KvProgress.NoDeadlock | silkoroutine/bindings/kv/awaitables.hpp:71-89 | After a failure-free run that is inside a call some successful event is possible, if and only if the server does not have an OPEN before it with every id in use |
| KvProgress.CallReturns | silkoroutine/bindings/kv/awaitables.hpp:71-89 | Every failure-free run inside a call goes on to a failure-free run in which the call has returned, given a free id if its OPEN is not yet answered |
| KvProgress.CallHasReturned | silkoroutine/bindings/kv/awaitables.hpp:71-89 | Whichever successful events come, after as many as the measure the call has returned |
| KvSession.CachedSession | silkoroutine/ethdb/kv/remote_transaction.cpp:21-30 | In sequential terms: every seek on a cached cursor returns the entry of its table |
| KvSession.CachedOpens | silkoroutine/ethdb/kv/remote_transaction.cpp:21-30 | In sequential terms: each table asked for is opened exactly once, all others never, and every cached cursor is open on its table |
| KvSession.CachedRefinesOneShot | silkoroutine/ethdb/kv/remote_cursor.hpp:47-71 | A seek on a cached cursor and a one-shot seek that looks in the same table for the same key return the same pair |
| KvSession.OneShotIsLookup | silkoroutine/ethdb/kv/remote_cursor.hpp:47-52 | The one-shot seek returns the entry of the requested table if its cursor was closed, of the table the cursor is open on otherwise, and leaves the cursor closed |
| KvSession.OneShotTableMatters | silkoroutine/ethdb/kv/remote_cursor.hpp:47-52 | It returns the entry of the requested table, whatever the server holds, if and only if the cursor was closed or open on that very table |
| KvSession.OneShotIgnoresTable | silkoroutine/ethdb/kv/remote_cursor.hpp:47-52 | An input on which it does not: with the cursor open on another table no OPEN is sent and the seek goes there |
| KvSession.SeekIsLookup | silkoroutine/ethdb/kv/remote_cursor.hpp:64-71 | A seek on an open cursor returns the entry of the table it was opened on and changes nothing |
| KvSession.CloseClosesEverything | silkoroutine/ethdb/kv/remote_transaction.cpp:32-39 | close() issues one CLOSE for each cached cursor with a nonzero id and none for the rest, then half-closes, leaves the cache empty, every formerly cached cursor at id 0 and all others as they were |
| KvSession.SessionConserves | silkoroutine/ethdb/kv/remote_cursor.hpp:54-91 | After any calls against a legal server, client ids and server cursors correspond one to one |
| KvClient.ResumeConsistent | silkoroutine/ethdb/kv/remote_cursor.hpp:54-91 | Whatever a legal server answers, running on from an await keeps client ids and server cursors in one-to-one correspondence |
| KvClient.BeginConsistent | silkoroutine/ethdb/kv/remote_transaction.cpp:21-39 | The code before the first await of any call keeps that correspondence |
| KvReactor.GrpcClientReactor.OnWriteDone | silkoroutine/bindings/kv/grpc_client_reactor.hpp:56-58 | Calls the slot: throws, or starts the read of the same operation |
| KvReactor.GrpcClientReactor.OnReadDone | silkoroutine/bindings/kv/grpc_client_reactor.hpp:52-54 | Calls the slot with the buffer, which posts the completion |
| KvReactor.GrpcClientReactor.OnDone | silkoroutine/bindings/kv/grpc_client_reactor.hpp:60-62 | Calls the close slot, which posts the completion |
| KvReactor.GrpcClientReactor.WriteStart | silkoroutine/bindings/kv/grpc_client_reactor.hpp:47-50 | Overwrites the write slot and starts the write |
| KvReactor.GrpcClientReactor.ReadStart | silkoroutine/bindings/kv/grpc_client_reactor.hpp:42-45 | Overwrites the read slot and starts the read into the shared buffer |
| KvReactor.GrpcClientReactor.CloseStart | silkoroutine/bindings/kv/grpc_client_reactor.hpp:36-40 | Overwrites the close slot and half-closes |
| KvReactor.GrpcClientReactor.WriteCompleted | silkoroutine/bindings/kv/awaitables.hpp:71-75 | The initiator's write callback: throw, or start the read |
| KvReactor.GrpcClientReactor.RunPosted | silkoroutine/bindings/kv/awaitables.hpp:82-87 | The posted lambda: throw, or complete the operation with the captured reply |
| KvReactor.AsyncOperation.Complete | silkoroutine/bindings/async_operation.hpp:30-32 | Completing consumes the operation: it is freed, then its handler is called once if there is an owner |
| KvReactor.AsyncOperation.Destroy | silkoroutine/bindings/async_operation.hpp:34-36 | Destroying consumes the operation: it is freed and no handler is called |
| KvReactor.AsyncOperation.DoComplete | silkoroutine/bindings/kv/async_seek.hpp:41-68 | The operation is freed, and after that its handler is called if there is an owner |
| KvOperations.RunPostedWork | silkoroutine/bindings/kv/awaitables.hpp:82-87 | On any run the posted work finds its operation still pending, and after it exactly the completed operations have been freed and called back, each once with its reply |
| KvOperations.PostedIsPending | silkoroutine/bindings/kv/awaitables.hpp:82-87 | Posted work belongs to the one operation that is not yet completed |
| RemoteTransaction.RemoteTransaction.Cursor | silkoroutine/ethdb/kv/remote_transaction.cpp:21-30 | The straight-line coroutine does what the suspend-and-resume view does, for every sequence of replies, also when they run out: same operations, state and result |
| RemoteTransaction.RemoteTransaction.Close | silkoroutine/ethdb/kv/remote_transaction.cpp:32-39 | The closing loop does what the suspend-and-resume view does, for every sequence of replies |
| RemoteTransaction.RemoteTransaction.ClearAndHalfClose | silkoroutine/ethdb/kv/remote_transaction.cpp:36-38 | Clear, then half-close and wait |
| RemoteTransaction.RemoteTransaction.NewCursor | silkoroutine/ethdb/kv/remote_transaction.hpp:41-43 | A new cursor object at id 0, sending nothing |
| RemoteTransaction.RemoteCursor.SeekOnce | silkoroutine/ethdb/kv/remote_cursor.hpp:47-52 | OPEN, SEEK and CLOSE in a row do what the suspend-and-resume view does, for every sequence of replies |
| RemoteTransaction.OpenRuns | silkoroutine/ethdb/kv/remote_cursor.hpp:54-62 | In the suspend-and-resume view open_cursor has exactly the effect that RemoteCursor.OpenCursor promises |
| RemoteTransaction.SeekRuns | silkoroutine/ethdb/kv/remote_cursor.hpp:64-71 | The same for seek |
| RemoteTransaction.NextRuns | silkoroutine/ethdb/kv/remote_cursor.hpp:73-80 | The same for next |
| RemoteTransaction.CloseRuns | silkoroutine/ethdb/kv/remote_cursor.hpp:82-91 | The same for close_cursor |
| RemoteTransaction.RemoteCursor.OpenCursor | silkoroutine/ethdb/kv/remote_cursor.hpp:54-62 | Opens only at id 0; takes the id of the reply; without a reply stays at id 0 |
| RemoteTransaction.RemoteCursor.Seek | silkoroutine/ethdb/kv/remote_cursor.hpp:64-71 | One SEEK with the cursor's id; returns key and value of the reply |
| RemoteTransaction.RemoteCursor.Next | silkoroutine/ethdb/kv/remote_cursor.hpp:73-80 | One NEXT with the cursor's id; returns key and value of the reply |
| RemoteTransaction.RemoteCursor.CloseCursor | silkoroutine/ethdb/kv/remote_cursor.hpp:82-91 | A CLOSE only for a nonzero id; id 0 afterwards, unchanged if the reply fails |
| RemoteTransaction.GrpcAsioAwaitable.AsyncOpenCursor | silkoroutine/bindings/kv/awaitables.hpp:60-93 | Writes one message with code 30, the table, and nothing else, and waits for the reply |
| RemoteTransaction.GrpcAsioAwaitable.AsyncSeek | silkoroutine/bindings/kv/awaitables.hpp:109-141 | Writes one message with code 2, the cursor id and the key, and nothing else, and waits for the reply |
| RemoteTransaction.GrpcAsioAwaitable.AsyncNext | silkoroutine/bindings/kv/awaitables.hpp:158-189 | Writes one message with code 8 and the cursor id, and nothing else, and waits for the reply |
| RemoteTransaction.GrpcAsioAwaitable.AsyncCloseCursor | silkoroutine/bindings/kv/awaitables.hpp:206-239 | Writes one message with code 31 and the cursor id, and nothing else, and waits for the reply |
| RemoteTransaction.GrpcAsioAwaitable.AsyncClose | silkoroutine/bindings/kv/awaitables.hpp:255-276 | Writes nothing, half-closes and waits for the end of the stream |
| KvWire.RequestOnTheWire | silkoroutine/bindings/kv/generated/kv.pb.h:72-90 | The bytes of the four requests: they begin with 8 and the code 30, 2, 8 or 31, go on with table, id and key, and parse back to exactly these; an OPEN if and only if its table is UTF-8 |
| KvWire.MessagesSpelled | silkoroutine/bindings/kv/awaitables.hpp:68-220 | Every transaction object has written exactly one message for each request it issued, with the stated values in all six fields |
| KvWire.MessagesOnTheWire | silkoroutine/bindings/kv/awaitables.hpp:68-220 | And those messages are those bytes |
| KvWire.RunSpelled | silkoroutine/bindings/kv/awaitables.hpp:68-220 | On every run the i-th message written is that of operation i, with the stated values in all six fields |
| KvWire.RunOnTheWire | silkoroutine/bindings/kv/awaitables.hpp:68-220 | And those messages are those bytes |
| KvWire.SeekMessagesSpelled | cmd/kv_seek.cpp:69-112 | What the synchronous and the callback client write, in all six fields |
| KvSeek.SeekSynchronously | cmd/kv_seek.cpp:69-127 | For every pattern of failed writes and reads: the messages written, the exit code and the pair found |
| KvSeek.GrpcKvCallbackReactor.Run | cmd/kv_seek_async_callback.cpp:122-179 | The event loop over nested callbacks writes, for every pattern of failures, the same messages as the synchronous client, and stops the context exactly after three replies |
| KvSeek.GrpcKvCallbackReactor.OnReadDone | cmd/kv_seek_async_callback.cpp:131-174 | The read callback of each stage issues the next request with the captured cursor id, or stops |
| KvSeek.GrpcKvCallbackReactor.OnWriteDone | cmd/kv_seek_async_callback.cpp:125-165 | The write callback of each stage starts the read, or gives up |
| KvSeek.SeekWithCoroutines | cmd/kv_seek_async_coroutines.cpp:44-53 | The coroutine client issues the operations that its three calls issue on the semantics of the transaction, and finds the pair they find, for every number of replies before a failure |
| KvSeek.SameExchange | cmd/kv_seek_async_coroutines.cpp:44-53 | The messages of those operations are the ones the synchronous and the callback client write, field for field, if and only if the exchange does not get as far as closing a cursor with id 0, and then lack just the CLOSE; the half-close comes last, once everything written is answered |
| KvSeek.TraceIssues | cmd/kv_seek_async_coroutines.cpp:44-53 | The operations that the three calls issue, written out for every number of replies and for id 0 |
| TaskTheory.TaskReturns | silkoroutine/coro/task.hpp:38-90 | For every program, also one whose awaits depend on awaited values: if the recursive function returns, the machine ends with its value; each awaited task resumed its caller exactly once, innermost first, with the value it returned; the completion handler ran once, last; the number of steps |
| TaskTheory.TaskWaits | silkoroutine/coro/task.hpp:75-90 | If outside values run out the machine waits, nothing is returned and no handler has run |
| TaskTheory.SameValue | silkoroutine/coro/task.hpp:80-90 | The machine returns a value if and only if the recursive function does, and then the same |
| TaskTheory.RestsOnlyAnswered | silkoroutine/coro/task.hpp:38-90 | The machine comes to rest only if the recursive function answers, in the state described for that answer |
| TaskChain.EnoughFuel | silkoroutine/coro/task.hpp:75-85 | The recursive function has one answer: a greater bound on its recursion never changes it |
| TaskTheory.AtAnyTime | silkoroutine/coro/task.hpp:38-85 | After any number of steps of any program, one that never ends included, await_resume never lacked its value, those that ended were the innermost, and none resumed its caller twice |
| TaskChain.MachineFollows | silkoroutine/coro/task.hpp:38-85 | From any running frame the machine does, step for step, what the recursive reading of the frame says, other frames untouched |
| TaskChain.ChildReturns | silkoroutine/coro/task.hpp:42-45 | A task that ends resumes the caller linked to it, whose await_resume sees the returned value |
| TaskTheory.RestCounts | silkoroutine/coro/task.hpp:42-45 | Each awaited task resumes its caller once if it ends and not before |
| TaskTheory.RestNested | silkoroutine/coro/task.hpp:42-45 | The log of a frame is one of properly nested calls |
| TaskTheory.RestIsCall | silkoroutine/coro/task.hpp:80-85 | The rest of a frame returns what the rest of the function body returns |
| Coroutines.Coroutines.Run | silkoroutine/coro/task.hpp:87-90 | Running handles until nothing is left to do ends in the state the theory gives |
| Coroutines.Coroutines.DoAwaitSuspend | silkoroutine/coro/task.hpp:75-78 | Links the caller and runs the child |
| Coroutines.Coroutines.DoAwaitResume | silkoroutine/coro/task.hpp:80-85 | Takes the value out of the promise, or throws |
| Coroutines.Coroutines.ReturnAndSuspend | silkoroutine/coro/task.hpp:42-57 | Stores the value, then resumes the caller or runs the handler or neither |
| Coroutines.Coroutines.StepOnce | silkoroutine/coro/task.hpp:38-90 | One step on mutable state is one step of the machine |

## Left out

- gRPC stubs, descriptors, arenas, reflection, swap and ownership release of the generated code.
- The other sentry messages, which have the shape of the ones modelled.
- The margin of bytes beyond the parser's limit that the runtime may look at, and the chunks of an output stream: input
  and output are plain byte sequences.
- `size_t` sums in the size pass are unbounded here; the cached sizes are truncated to 32 bits as in the code.
- Heap allocation, handler allocators, fenced blocks, object lifetimes and real threads; in particular request messages on
  the stack are taken to be read when the write starts.
- Calls by several coroutines on one transaction at the same time: the single slots are not made for them.
- Dropping a cursor object without closing it: it stays counted as open, as it does at the server.
- `next()` is in the protocol model, but not in the cached-cursor refinement: the position of a shared cursor is shared.
- Exceptions after a failure: the coroutine does not run on, and no clean-up of the transaction is modelled.
- `use_await.hpp`, the sentry's asynchronous binding, configuration, flags, logging, timing and console output.
- `ChainConfig`, fork predicates and log levels: finite tables.
- Task values are integers; `task<void>` has the same shape and is not modelled separately.
- Exceptions in tasks: `unhandled_exception` terminates, so that no promise ever holds one; awaiting one task object from two places is not modelled.
