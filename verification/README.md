# Wire codec, batching client, program upload and signature gas

This project models the parts of the repository whose behaviour is hardest to see from one function, and proves
what they guarantee together. Everything is stated for all inputs, all runs or all reachable states.

**The protobuf wire codec** (`chain/types/tx_response.pb.go`, `chain/eventstream/types/query.pb.go`).
`Words`, `Buffers` and `Varint` give 64-bit and 32-bit words, in-place writes, and the varint loops. `Groups` and
`Skip` hold the skipper for unknown fields and a grammar of wire fields with groups nested to any depth; `Fields`
the shared loop of all decoders. `Messages` states what makes a message type a good codec and derives its main
theorems once; `Parts` and `Lists` cover optional and repeated fields, `Embedded` messages that are merged into the one
that is there, and what they can gain by it. `TxResponse`, `EventStream`,
`StreamResponse` and `Status` are the message types as values, and the classes in `TxResponse`, `StreamObjects` and
`ResponseObjects` are the objects that the generated methods update in place. `WireFormat` gives every message down to
its bytes and what each field in bytes does to any object, `WireRules` what is refused, with which fault, and what it
leaves, and `Effects` what repeated occurrences do. A buffer is an `array<byte>` written
from the back; every `MarshalToSizedBuffer` is proved to leave the prefix alone and to write exactly the
front-to-back encoding, and every `Unmarshal` to compute the pure decoder, with its errors and with what is left in
the object when it fails. Go's `int` additions
wrap in the model as they do in the code.

**The batching client** (`client/chain/chain.go`). `BatchLoop` is the goroutine that appends to one backing array
and hands out slices of it; `Queue` is the state machine of concurrent `QueueBroadcastMsg` and `Close` calls, that
goroutine, its timer and its broadcasts, with the closed check and the send as separate steps; `QueueRuns` has the
theorems over all runs, and `QueueCalls` when each step can happen, what a call returns and why, and that every call and
every `Close` can return. `Nonce` is the account sequence with its retry on the three paths under the mutex, and
`NonceRuns` says when it heals.

**The program upload** (`client/svm/helper.go`, module `Upload`) and **the multisig gas meter**
(`chain/app/ante/ante.go`, module `MultisigGas`).

## Where the code and its promises differ

- The encoding guide asks that a group is closed under the number it was opened with. `skipTxResponse` and
  `skipQuery` only count, so the grammar in `Skip` leaves the closing number free. What is skipped can be read in one
  way only (`Skip.FieldIsUnique`), and it conforms to the guide if and only if the numbers match in that reading
  (`Skip.ConformsExactly`), or, as a condition on the bytes alone, if a skipper that keeps the open numbers takes it
  (`Skip.StrictIsTheGuide`); `Skip.MismatchedGroupIsSkipped` is an input where they do not.
- Field numbers are truncated to `int32`, so several tags stand for one field (`Fields.TagsCollide`): exactly those
  whose words agree modulo 2^35 (`Fields.TagsExactly`), and a tag keeps its number exactly if its word is below 2^34
  (`Fields.TagIsKept`).
- Canonicalisation is a contraction for TxResponseGenericMessage, TxResponseData, AnyEvent, ModuleEvents,
  EventsResponse and SyncStatus. It is not one for Block and NewBlockEvent:
  an embedded type of another package may write some bytes when it is empty (a generated message with embedded
  messages that cannot be absent does), and then an absent part that is read from an empty field grows
  (`Status.EmptyIdGrows`, exactly; `Status.BlockFieldCanonicalisation` and `Status.BlockInEventCanonicalisation` for any
  single field); and an `int32` enum that becomes negative by truncation is written with ten bytes
  (`Status.OpFieldCanonicalisation`, exactly for every canonical event). `Status.BlockCanonicalisation` and
  `Status.NewBlockCanonicalisation` bound the growth for every accepted input by these gains alone, read off from the
  fields in the input; `Status.EventCanonicalisation` is the event with its block inside.
- A `Close` that overlaps a `QueueBroadcastMsg` can panic: `QueueRuns.PanicExactly` gives the exact condition for every
  reachable state and `QueueRuns.RacingClosePanics` a run from the start.
- A sequence mismatch can end a call in two ways, both exactly stated by `NonceRuns.MismatchExactly` whatever others do
  in the meantime. It is an error if what is re-read, or kept, is not what the node checks with when the retry is
  simulated: on the asynchronous path a query may return the state without the transactions that are pending, and then
  the retry fails as well (`NonceRuns.LaggingReadMismatches`). It is a code, without an error and without a retry, if
  somebody else uses the account between simulation and delivery, as SyncBroadcastSvmMsg of the same client can:
  nothing of the call is sent, and the local sequence advances (`NonceRuns.RaceLosesCall`). `NonceRuns.RunsHeal` has
  the agreement of reads and check as a hypothesis (`NonceRuns.Agrees`) and no move between a re-read and its retry;
  over such runs exactly the overtaken calls are lost, and no other call ends in a mismatch.
- The retry works only with simulation, because only simulation reports the mismatch as an error.
  `NonceRuns.UnsimulatedMismatch`, `NonceRuns.WithoutSimulation` and `NonceRuns.LostExactly` say how many calls are lost otherwise. A local
  sequence of zero is looked up for each call and not kept (`NonceRuns.EqualExactly`, `NonceRuns.ZeroDriftsApart`).
- Write offsets are 32 bits wide: all programs of n bytes are rebuilt if and only if n is at most 4,294,968,000,
  slightly more than 2^32 (`Upload.RebuiltExactly`).

## Model

| member | source | states |
|---|---|---|
| Varint.EncodeVarint | chain/types/tx_response.pb.go:226-236 | writes exactly the `Sov(v)` bytes that end at `offset`, with the canonical varint, and changes nothing else in the buffer |
| Varint.ReadWord | chain/types/tx_response.pb.go:280-294 | on any bytes: the 7-bit sum modulo 2^width and the index after it, overflow exactly when ten continuation bytes come first, end of input exactly when the bytes end inside fewer than ten; and the partial sum then |
| Varint.ReadVarint | chain/types/tx_response.pb.go:411-425 | the same loop for a 64-bit variable, against the pure decoder |
| Varint.ReadEnum | chain/eventstream/types/query.pb.go:2556-2570 | the same loop for an int32 enum, where bits shifted out are lost on the way |
| Varint.SovIsLeast | chain/types/tx_response.pb.go:269-271 | sov(v) is the least k >= 1 with v < 128^k |
| Varint.SovOfWord | chain/types/tx_response.pb.go:269-271 | sov of a uint64 is between 1 and 10 |
| Varint.VarintRoundTrip | chain/types/tx_response.pb.go:226-294 | reading what was written gives v and stops there, for every uint64 and whatever follows |
| Varint.SignedRoundTrip | chain/eventstream/types/query.pb.go:2180-2212 | every int64 comes back; a negative one takes ten bytes |
| Varint.EnumRoundTrip | chain/eventstream/types/query.pb.go:2556-2570 | every int32 enum comes back through sign extension and truncating shifts; a negative one takes ten bytes |
| Varint.EnumOfWord | chain/eventstream/types/query.pb.go:2556-2570 | reading into an int32 is reading a uint64 and truncating it, with the same errors and length |
| Varint.DecodedIsShortest | chain/types/tx_response.pb.go:269-294 | no accepted varint is shorter than the canonical one of its value |
| Varint.EnumIsShortest | chain/eventstream/types/query.pb.go:2556-2570 | the same for an enum that truncation leaves non-negative |
| Varint.VarintAppend | chain/types/tx_response.pb.go:280-294 | what follows an accepted varint does not change it |
| Varint.VarintDigits | chain/types/tx_response.pb.go:226-236 | byte k of a canonical varint is the k-th seven-bit group of the number, the lowest first, with the continuation bit on all but the last |
| Varint.SumDigits | chain/types/tx_response.pb.go:280-294 | the sum that a reader forms has the low seven bits of its bytes as digits |
| Varint.ReadsUpTo | chain/types/tx_response.pb.go:280-294 | a varint ends at its first byte without continuation bit; it is read if this is one of the first ten, and an overflow if not |
| Varint.FailsWithoutEnd | chain/types/tx_response.pb.go:280-294 | without such a byte: end of input for fewer than ten bytes, else overflow, and what has been summed up by then |
| Words.ConversionsKeepBits | chain/eventstream/types/query.pb.go:2180-2570 | conversions between int64, uint64 and int32 and the wrapping addition keep the number modulo the word size |
| Buffers.WroteExactly | chain/types/tx_response.pb.go:167-187 | a written buffer holds the bytes from index i on, and at every other index what it held before |
| Groups.CountingIsMatching | chain/types/tx_response.pb.go:475-552 | for any lexer: counting the depth accepts n bytes if and only if they are the print of one well-formed tree |
| Groups.SkipTree | chain/types/tx_response.pb.go:475-552 | a tree of any nesting is taken whole at any depth, whatever follows |
| Groups.TreeIsUnique | chain/types/tx_response.pb.go:475-552 | for any lexer: two well-formed trees whose prints start the same bytes are the same tree |
| Groups.StrictIsNamed | chain/types/tx_response.pb.go:475-552 | for any lexer: keeping the names of the open groups accepts exactly the trees whose names match |
| Skip.SkipIsTheGrammar | chain/types/tx_response.pb.go:475-552 | the skipper returns n if and only if the first n bytes are one wire field of the grammar |
| Skip.SkipsAnyField | chain/types/tx_response.pb.go:475-552 | a field with arbitrarily deep closed groups is skipped exactly, whatever follows |
| Skip.SkipAppend | chain/types/tx_response.pb.go:475-552 | what follows a skipped field does not change the result |
| Skip.FieldIsUnique | chain/types/tx_response.pb.go:475-552 | what is skipped can be read as a field in one way only |
| Skip.ConformsExactly | chain/types/tx_response.pb.go:532-538 | what is skipped is a field of the guide if and only if the opening and closing numbers match in that reading |
| Skip.StrictIsTheGuide | chain/types/tx_response.pb.go:532-538 | a skipper that keeps the open numbers returns n if and only if the first n bytes are a field of the guide |
| Skip.MismatchedGroupIsSkipped | chain/types/tx_response.pb.go:532-538 | a group closed under another field number is skipped, and does not conform to the guide |
| Skip.SkipStep | chain/types/tx_response.pb.go:480-543 | one turn of the skipper's loop finds the next token and the change of depth, or reports why there is none |
| Skip.SkipPayload | chain/types/tx_response.pb.go:496-543 | the payload cases of the switch, with indexes that wrap at 64 bits |
| Skip.SkipField | chain/types/tx_response.pb.go:475-552 | the whole loop terminates on any input, never indexes outside it, and returns the pure result or its error class; only a length beyond the end is left to the caller |
| Fields.TagLoop | chain/types/tx_response.pb.go:394-416 | tag, truncated field number, wire type, and the end-group and illegal-tag errors |
| Fields.ReadLength | chain/types/tx_response.pb.go:421-447 | the negative, wrapped-sum and end-of-input checks accept exactly the lengths that fit; otherwise the slice stays in range |
| Fields.SkipFrom | chain/types/tx_response.pb.go:369-383 | the default case: strict progress inside the input, or an error, as the pure skipper says |
| Fields.EncodedField | chain/types/tx_response.pb.go:167-187 | every written field is read back as itself, whatever follows |
| Fields.NextFieldAppend | chain/types/tx_response.pb.go:394-470 | what follows an accepted field does not change how it is read |
| Fields.NextFieldIsTight | chain/types/tx_response.pb.go:269-294 | a known field never takes fewer bytes than its canonical form |
| Fields.TagsCollide | chain/types/tx_response.pb.go:295 | tags whose numbers differ by multiples of 2^32 stand for the same field |
| Fields.TagIsKept | chain/types/tx_response.pb.go:295 | an accepted tag keeps its number if and only if its word is below 2^34 |
| Fields.TagsExactly | chain/types/tx_response.pb.go:295 | two accepted tags stand for the same field and wire type if and only if their words agree modulo 2^35 |
| Fields.ReaderObeys | chain/types/tx_response.pb.go:275-390 | the reader shared by all decoders obeys the three laws of `Messages` |
| Fields.UnknownFieldIsRead | chain/types/tx_response.pb.go:369-383 | a wire field of any shape and depth with an unknown positive number is passed over exactly |
| Fields.UnknownFieldIsTransparent | chain/types/tx_response.pb.go:369-383 | inserting such a field at a field boundary of any accepted input does not change the result, for every message type |
| Fields.ReadTag | chain/types/tx_response.pb.go:278-302 | the tag part of a turn of any decoder, tied to the result for the whole input and to what is left in the object |
| Fields.ReadBytes | chain/types/tx_response.pb.go:304-335 | the case of a bytes, string or message field, likewise, with the wire-type error |
| Fields.ReadInt | chain/eventstream/types/query.pb.go:2157-2175 | the case of a 64-bit number, likewise; a failed read has stored the bytes it has seen |
| Fields.ReadEnumField | chain/eventstream/types/query.pb.go:2552-2570 | the case of an int32 enum, likewise |
| Fields.SkipUnknown | chain/types/tx_response.pb.go:369-383 | the default case of a turn, likewise |
| WireRules.TagRules | chain/types/tx_response.pb.go:278-302 | for every 64-bit word as a tag: end-group is refused, then a number that is not positive as an int32; else number and wire type |
| WireRules.LengthRules | chain/types/tx_response.pb.go:304-333 | for every 64-bit word as a length: accepted if and only if it is not negative as an int64 and fits into what is left |
| WireRules.SkipRules | chain/types/tx_response.pb.go:496-543 | after the tag of an unknown field: a varint, eight bytes or four bytes by wire type, and wire types 6 and 7 are illegal |
| WireRules.SkipsBytes | chain/types/tx_response.pb.go:512-531 | a length-delimited unknown field is skipped if and only if its length is not negative and fits |
| WireRules.SkipsGroupEnd | chain/types/tx_response.pb.go:534-538 | an end-group tag is an error where no group is open, and ends the group where one is |
| WireRules.SkipsGroupStart | chain/types/tx_response.pb.go:532-533 | a start-group tag opens a group; one that is not ended is the end of the input |
| WireRules.StrictGroups | chain/types/tx_response.pb.go:532-538 | the strict skipper takes an empty group if and only if both tags have the same number |
| WireRules.WrongTypeRules | chain/types/tx_response.pb.go:304-307 | a known number with any other wire type is refused, and leaves the object as it is |
| WireRules.BadTagRules | chain/types/tx_response.pb.go:295-302 | a refused tag leaves the object as it is |
| WireRules.ShortContentRules | chain/types/tx_response.pb.go:308-333 | a content that does not fit leaves the object as it is |
| WireRules.BrokenNumber | chain/eventstream/types/query.pb.go:1736-1773 | a number that cannot be read leaves the sum of the bytes that are there, in every message type |
| WireRules.KnownFields | chain/eventstream/types/query.pb.go:1735-2607 | the field numbers that each message knows, with their wire types; all are read by the shared reader |
| WireRules.BrokenSyncNumber | chain/eventstream/types/query.pb.go:2156-2212 | in bytes for SyncStatus, with the sign |
| WireRules.OthersAreSkipped | chain/types/tx_response.pb.go:370-384 | a field with any other number does nothing, and decoding goes on behind it |
| Messages.Message.ConcatIsMerge | chain/types/tx_response.pb.go:391-474 | if a is accepted, decoding a ++ b is decoding b into what a left, errors included: last scalar wins, lists append, embedded messages merge |
| Messages.Message.UnknownIsTransparent | chain/types/tx_response.pb.go:369-383 | what the reader passes over can be inserted after any accepted prefix |
| Messages.Message.RoundTrip | chain/types/tx_response.pb.go:167-390 | decoding an encoding into an empty message gives the message |
| Messages.Message.SizeContraction | chain/types/tx_response.pb.go:237-252 | any size that each field respects grows by no more than the input's length |
| Messages.Message.Contraction | chain/types/tx_response.pb.go:237-252 | the encoding of what was decoded exceeds the encoding of the start value by no more than the input's length |
| Messages.Message.DecodeIsFold | chain/types/tx_response.pb.go:275-390 | an accepted input does what its known fields do, one after the other |
| Messages.Message.FieldsAreTight | chain/types/tx_response.pb.go:237-252 | in canonical form these fields take no more room than the input |
| Messages.Message.LeftOfAccepted | chain/types/tx_response.pb.go:275-390 | an accepted input leaves its result in the object |
| Messages.Message.LeftAfterPrefix | chain/types/tx_response.pb.go:275-390 | if a is accepted, a ++ b leaves what b leaves after a, also when b is refused |
| Effects.OneField | chain/types/tx_response.pb.go:304-369 | decoding one written field into any message is applying it; a refused content leaves what its decoding left |
| Effects.FieldsOfEncoding | chain/types/tx_response.pb.go:275-390 | the fields of an input are those that were written into it |
| Messages.SubIsLawful | chain/types/tx_response.pb.go:448-452 | every lawful message type can be embedded in another: the laws compose over nesting |
| Lists.ListLaws | chain/types/tx_response.pb.go:204-224 | repeated messages of any lawful type form a lawful message type, empty elements kept |
| Embedded.EmbeddedBound | chain/eventstream/types/query.pb.go:2571-2606 | an embedded message outgrows the fields that are merged into it by no more than what its type writes when empty and what the contents gain |
| Embedded.OneFieldCanonicalisation | chain/eventstream/types/query.pb.go:2571-2606 | for any message type: an input that is one embedded field is not lengthened if and only if its content is not |
| Embedded.LawfulGainsNothing | chain/types/tx_response.pb.go:448-452 | a lawful embedded type gains nothing |
| Parts.PutBytesField | chain/types/tx_response.pb.go:172-178 | content, length and tag are written in front of what is there, prefix untouched |
| Parts.PutIntField | chain/eventstream/types/query.pb.go:1175-1189 | number and tag likewise |
| Parts.PutMessage | chain/types/tx_response.pb.go:212-219 | length and tag of an embedded message likewise |
| Parts.PutStrings | chain/eventstream/types/query.pb.go:1015-1022 | a repeated string field written from the last element to the first is its encoding from the first to the last |
| TxResponse.TxResponseGenericMessage.Size | chain/types/tx_response.pb.go:237-252 | the length of the pure encoding |
| TxResponse.TxResponseGenericMessage.MarshalToSizedBuffer | chain/types/tx_response.pb.go:167-187 | writes exactly the last n bytes before `end`, with the pure encoding; the rest of the buffer is unchanged |
| TxResponse.TxResponseGenericMessage.Unmarshal | chain/types/tx_response.pb.go:275-390 | the error, and the new state also after an error, are those of the pure decoder on the old state |
| TxResponse.GenericLaws | chain/types/tx_response.pb.go:167-390 | the message type is lawful, so all theorems of `Messages` hold of it |
| TxResponse.GenericRoundTrip | chain/types/tx_response.pb.go:167-390 | every message comes back |
| WireFormat.GenericBytes | chain/types/tx_response.pb.go:167-187 | the encoding in bytes: 0A, length and Header, then 12, length and Data, each left out when it is empty |
| WireFormat.GenericReads | chain/types/tx_response.pb.go:304-369 | into any message, whatever it holds: a Header or Data that is read replaces the one that is there and nothing else |
| Effects.GenericLastWins | chain/types/tx_response.pb.go:304-369 | after any accepted input, Header and Data are those of its last fields 1 and 2, or what was there if there is none |
| TxResponse.TxResponseData.Size | chain/types/tx_response.pb.go:254-267 | the length of the pure encoding of the list |
| TxResponse.TxResponseData.MarshalToSizedBuffer | chain/types/tx_response.pb.go:204-224 | the loop from the last message to the first writes the encoding from the first to the last |
| TxResponse.TxResponseData.Marshal | chain/types/tx_response.pb.go:189-197 | the new buffer is exactly the encoding, so `dAtA[:n]` is all of it |
| TxResponse.TxResponseData.Unmarshal | chain/types/tx_response.pb.go:391-474 | the error, and the new list also after an error, are those of the pure decoder on the old list; the old elements stay in front |
| TxResponse.DataRoundTrip | chain/types/tx_response.pb.go:189-474 | every list of messages comes back, in order, with empty elements |
| WireFormat.DataBytes | chain/types/tx_response.pb.go:204-224 | one more message adds 0A, its length and its encoding at the end |
| WireFormat.DataReads | chain/types/tx_response.pb.go:420-453 | a field 0A appends what its content decodes to, and also what a refused content left |
| Effects.ListKeepsAll | chain/types/tx_response.pb.go:420-453 | into any list: the old elements stay in front, and each occurrence appends what it decodes to, in order |
| TxResponse.MarshalAndBack | chain/types/tx_response.pb.go:189-474 | the same for the objects: Marshal and then Unmarshal into a fresh object gives the same value |
| TxResponse.DataCanonicalisation | chain/types/tx_response.pb.go:237-474 | whatever is accepted, its canonical form is no longer and means the same |
| TxResponse.DataConcatenation | chain/types/tx_response.pb.go:391-474 | decoding a ++ b is decoding b after a |
| TxResponse.DataIgnoresUnknown | chain/types/tx_response.pb.go:456-470 | inserting a field with an unknown number, groups included, at a field boundary of any accepted list does not change it |
| EventStream.AnyEventLaws | chain/eventstream/types/query.pb.go:2009-2126 | AnyEvent is lawful for every lawful codec of its Any |
| EventStream.EmbeddedMessagesMerge | chain/eventstream/types/query.pb.go:2086-2105 | two occurrences of an embedded message mean the same as one that holds both contents |
| EventStream.ModuleEventsLaws | chain/eventstream/types/query.pb.go:1925-2008 | the second level of nesting is lawful |
| EventStream.AnyEventRoundTrip | chain/eventstream/types/query.pb.go:1121-2126 | every AnyEvent comes back |
| EventStream.ModuleEventsRoundTrip | chain/eventstream/types/query.pb.go:1084-2008 | every list of them comes back |
| WireFormat.AnyEventBytes | chain/eventstream/types/query.pb.go:1121-1146 | the encoding in bytes: 12 for the module, 1A for the Any, which is written when it is there |
| WireFormat.AnyEventReads | chain/eventstream/types/query.pb.go:2038-2069 | into any event: a module that is read replaces the one that is there |
| WireFormat.AnyEventReadsAny | chain/eventstream/types/query.pb.go:2070-2105 | an Any that is read is merged into the one that is there, or into an empty one; a refused one is left as its decoding left it |
| Effects.AnyEventLastWins | chain/eventstream/types/query.pb.go:2038-2069 | after any accepted input the module is that of the last field 2, or what was there |
| Effects.AnyEventMerges | chain/eventstream/types/query.pb.go:2070-2105 | all occurrences of an Any are merged in their order into the one that was there |
| WireFormat.ModuleEventsBytes | chain/eventstream/types/query.pb.go:1084-1104 | one more event adds 0A, its length and its encoding at the end |
| WireFormat.ModuleEventsReads | chain/eventstream/types/query.pb.go:1954-1987 | a field 0A appends what its content decodes to, and also what a refused content left |
| StreamResponse.EventsResponseLaws | chain/eventstream/types/query.pb.go:1707-1924 | the third level of nesting is lawful |
| StreamResponse.EventsRoundTrip | chain/eventstream/types/query.pb.go:1010-1146 | three-level EventsResponse values come back |
| StreamResponse.EventsCanonicalisation | chain/eventstream/types/query.pb.go:1707-1924 | the canonical form is no longer than any accepted input, and means the same |
| WireFormat.EventsBytes | chain/eventstream/types/query.pb.go:1010-1067 | the encoding in bytes: 08 and 10 for the numbers unless they are zero, then each element of 1A, 22, 2A and 32 in order |
| WireFormat.EventsReads | chain/eventstream/types/query.pb.go:1774-1903 | into any response: a string of field 3, 5 or 6 is appended to its list |
| WireFormat.EventsReadsElement | chain/eventstream/types/query.pb.go:1806-1839 | an element of field 4 is appended, also with what a refused one left |
| WireFormat.EventsNumbers | chain/eventstream/types/query.pb.go:1736-1773 | a number that is read replaces the one that is there |
| Effects.EventsLastWins | chain/eventstream/types/query.pb.go:1736-1773 | after any accepted input height and time are those of the last fields 1 and 2, or what was there |
| Effects.EventsKeepsAll | chain/eventstream/types/query.pb.go:1774-1903 | the four lists are the old ones and behind them all occurrences in order |
| StreamObjects.AnyEvent.Size | chain/eventstream/types/query.pb.go:1457-1472 | the length of the pure encoding |
| StreamObjects.ModuleEvents.Size | chain/eventstream/types/query.pb.go:1442-1455 | the loop over the elements gives the length of the pure encoding |
| ResponseObjects.EventsResponse.Size | chain/eventstream/types/query.pb.go:1403-1440 | the length of the pure encoding, through two levels of objects |
| ResponseObjects.SyncStatus.Size | chain/eventstream/types/query.pb.go:1474-1494 | the length of the pure encoding |
| ResponseObjects.Block.Size | chain/eventstream/types/query.pb.go:1520-1535 | the length of the pure encoding |
| ResponseObjects.NewBlockEvent.Size | chain/eventstream/types/query.pb.go:1537-1551 | the length of the pure encoding, block object included |
| StreamObjects.AnyEvent.MarshalToSizedBuffer | chain/eventstream/types/query.pb.go:1121-1146 | in-place writing is the pure encoding, prefix untouched |
| StreamObjects.AnyEvent.Unmarshal | chain/eventstream/types/query.pb.go:2009-2126 | the error, and the new state also after an error, are those of the pure decoder on the old state; an Any is merged into the one that is there |
| StreamObjects.ModuleEvents.MarshalToSizedBuffer | chain/eventstream/types/query.pb.go:1084-1104 | in-place writing is the pure encoding, prefix untouched |
| StreamObjects.ModuleEvents.Unmarshal | chain/eventstream/types/query.pb.go:1925-2008 | the error, and the new list also after an error, are those of the pure decoder on the old list of objects; the old elements stay in front |
| ResponseObjects.EventsResponse.MarshalToSizedBuffer | chain/eventstream/types/query.pb.go:1010-1067 | six fields written from the back are the encoding from the front |
| ResponseObjects.EventsResponse.Unmarshal | chain/eventstream/types/query.pb.go:1707-1924 | the error, and the new state also after an error, are those of the pure decoder on the old state, through two levels of objects |
| ResponseObjects.SyncStatus.MarshalToSizedBuffer | chain/eventstream/types/query.pb.go:1163-1191 | in-place writing is the pure encoding, signed times as 64-bit patterns |
| ResponseObjects.SyncStatus.Unmarshal | chain/eventstream/types/query.pb.go:2127-2265 | the error, and the new state also after an error, are those of the pure decoder on the old state, with the part of a number that was read |
| ResponseObjects.Block.MarshalToSizedBuffer | chain/eventstream/types/query.pb.go:1259-1289 | in-place writing is the pure encoding |
| ResponseObjects.Block.Unmarshal | chain/eventstream/types/query.pb.go:2401-2522 | the error, and the new state also after an error, are those of the pure decoder on the old state |
| ResponseObjects.NewBlockEvent.MarshalToSizedBuffer | chain/eventstream/types/query.pb.go:1306-1329 | in-place writing is the pure encoding, enum sign-extended |
| ResponseObjects.NewBlockEvent.Unmarshal | chain/eventstream/types/query.pb.go:2523-2627 | the last op wins, a block is merged into the object that is there, or into a new one; error and state, also after an error, are those of the pure decoder |
| Status.SyncRoundTrip | chain/eventstream/types/query.pb.go:1163-2265 | every SyncStatus comes back, negative times included |
| Status.SyncLaws | chain/eventstream/types/query.pb.go:2127-2265 | SyncStatus is lawful |
| WireFormat.SyncBytes | chain/eventstream/types/query.pb.go:1163-1191 | the encoding in bytes: 08, 10, 18 for the numbers unless they are zero, times as 64-bit patterns, 22 for the version unless it is empty |
| WireFormat.SyncReads | chain/eventstream/types/query.pb.go:2156-2244 | into any status: each field that is read replaces its value and nothing else, for every signed time |
| Effects.SyncLastWins | chain/eventstream/types/query.pb.go:2156-2244 | after any accepted input each field is that of its last occurrence, or what was there |
| Status.BlockLaws | chain/eventstream/types/query.pb.go:2401-2522 | Block obeys the laws of writing and comes back, if only its parts come back |
| Status.BlockRoundTrip | chain/eventstream/types/query.pb.go:1259-2522 | every Block comes back, if only its parts come back |
| WireFormat.BlockBytes | chain/eventstream/types/query.pb.go:1259-1289 | the encoding in bytes: 0A for the id, 12 for the block, each when it is there |
| WireFormat.BlockReadsId | chain/eventstream/types/query.pb.go:2430-2465 | an id is merged into the one that is there, or into an empty one, also when it is refused |
| WireFormat.BlockReadsBlock | chain/eventstream/types/query.pb.go:2466-2501 | the same for the block |
| Status.BlockGrows | chain/eventstream/types/query.pb.go:2401-2522 | decoding any accepted input into any block lengthens its encoding by no more than the input and the gains of the fields in it |
| Status.BlockCanonicalisation | chain/eventstream/types/query.pb.go:1259-2522 | the canonical form of any accepted input exceeds it by no more than those gains, and means the same |
| Status.BlockFieldCanonicalisation | chain/eventstream/types/query.pb.go:2430-2501 | for an input that is one field: not lengthened if and only if its content is not |
| Status.EmptyIdGrows | chain/eventstream/types/query.pb.go:2430-2465 | an empty field read into an absent id grows if and only if an empty id is written with some bytes |
| Status.NewBlockRoundTrip | chain/eventstream/types/query.pb.go:1306-2627 | every enum value and the block come back, if only the block's type comes back |
| WireFormat.NewBlockBytes | chain/eventstream/types/query.pb.go:1306-1329 | the encoding in bytes: 08 and the sign-extended op unless it is zero, 12 for the block when it is there |
| WireFormat.NewBlockReads | chain/eventstream/types/query.pb.go:2552-2606 | into any event: an op replaces the one that is there by its low 32 bits, a block is merged |
| Effects.NewBlockLastWins | chain/eventstream/types/query.pb.go:2552-2570 | after any accepted input the op is that of the last field 1, or what was there |
| Status.OpFieldCanonicalisation | chain/eventstream/types/query.pb.go:1323-2570 | for every canonical event, an op field followed by a block or by none: not lengthened if and only if the op stays non-negative or was a 64-bit negative |
| Status.NewBlockCanonicalisation | chain/eventstream/types/query.pb.go:1323-2627 | for every accepted input: the canonical form exceeds it by no more than what the last op field and the block fields gain, so not at all if that op keeps its size and the block gains nothing; and it means the same |
| Status.NewBlockGrows | chain/eventstream/types/query.pb.go:2523-2627 | the same for decoding into any event |
| Status.BlockInEventCanonicalisation | chain/eventstream/types/query.pb.go:2571-2606 | for an event that is one block field: not lengthened if and only if its content is not |
| Status.EventCanonicalisation | chain/eventstream/types/query.pb.go:2401-2627 | the bound for the event with its block inside, for ids and blocks that may write bytes when they are empty |
| BatchLoop.ReceiveConserves | client/chain/chain.go:783-804 | a received message joins the end of what was taken; the batch is reset and handed over exactly when it has 1024 messages, and without losing one |
| BatchLoop.TickConserves | client/chain/chain.go:805-814 | a tick hands over all that is pending, and nothing if nothing is |
| BatchLoop.SeeClosedConserves | client/chain/chain.go:785-794 | seeing the close hands over what is pending, and ends the loop exactly if nothing is |
| BatchLoop.AttemptConserves | client/chain/chain.go:746-770 | a broadcast, first or retried, reads the same batch from the array that was reset over it; it is repeated exactly after a first mismatch |
| BatchLoop.AfterConserves | client/chain/chain.go:781-816 | over any sequence of receives, ticks and closes: submits ++ pending is everything received, in order, and the loop ends exactly on a close |
| BatchLoop.ReceivedIsMessages | client/chain/chain.go:781-816 | what a history of events receives is its messages in order, up to the first close |
| BatchLoop.Batcher.SubmitBatch | client/chain/chain.go:746-780 | in place: one or two reads of the slice, handed over as one submit |
| BatchLoop.Batcher.Handle | client/chain/chain.go:782-815 | in place: one turn of the loop on the shared array is the pure turn |
| BatchLoop.Batcher.Run | client/chain/chain.go:742-816 | in place: the whole loop is the pure run, and after a close the submits are all that was received |
| Queue.InitInv | client/chain/chain.go:142-180 | the invariant holds of a new client |
| Queue.StepKeeps | client/chain/chain.go:722-816 | every step of producers, closers, goroutine, timer and broadcasts keeps the invariant |
| Queue.RunKeeps | client/chain/chain.go:722-816 | the invariant holds after every run |
| QueueRuns.MessagesAreConserved | client/chain/chain.go:722-816 | in every reachable state, submitted batches ++ current batch ++ channel is the sequence of all sends; batches have 1 to 1024 messages, retries read the same ones, fewer than 1024 are pending between turns |
| QueueRuns.CallsContributePrefixes | client/chain/chain.go:722-740 | each call contributes a prefix of its arguments in order, all of them if it returns nil, none if it is refused |
| QueueCalls.SendEnters | client/chain/chain.go:730-736 | while the queue is open and holds fewer than 1024 messages, a send happens, and puts exactly the next argument at its end |
| QueueCalls.CheckExactly | client/chain/chain.go:723-727 | the check refuses as read-only if and only if the client cannot sign, as closed if and only if it can and the flag is set, and lets every other call pass |
| QueueCalls.RefusedExactly | client/chain/chain.go:722-740 | over all runs, for a call that has returned: read-only if and only if the client cannot sign, closed if and only if it can and the flag was set at the call's check, else nil if and only if all was sent and a timeout if and only if not |
| QueueCalls.CallGoesThrough | client/chain/chain.go:722-740 | from every state with an open queue in which the call is past its check, some run lets it send all and return nil |
| QueueCalls.NewCallGoesThrough | client/chain/chain.go:722-740 | and likewise every new call of an open client that can sign |
| QueueCalls.CallStepsExactly | client/chain/chain.go:722-740 | when the steps of a call can happen: only a send on an open full queue has to wait |
| QueueCalls.ReturnsExactly | client/chain/chain.go:729-740 | a call returns nil after its last message and a timeout before it; a send on a closed queue panics |
| QueueCalls.LoopStepsExactly | client/chain/chain.go:781-816 | when the steps of the goroutine can happen |
| QueueCalls.ReceiveTakesFirst | client/chain/chain.go:783-804 | the first message of the queue joins the batch in hand, which goes out when it has 1024 |
| QueueCalls.BroadcastExactly | client/chain/chain.go:746-780 | a broadcast is repeated exactly after a first mismatch, and is signalled exactly when it ends without an error |
| QueueCalls.NotifyExactly | client/chain/chain.go:779-780 | the signal is one token in Broadcasted |
| QueueRuns.CloseDrains | client/chain/chain.go:374-385 | once doneC is closed everything sent has been submitted; a Close of a signing client returns only then |
| QueueCalls.CloseExactly | client/chain/chain.go:374-381 | a client that cannot sign returns at once; the first Close of another sets the flag and closes the queue, and each waits for the loop |
| QueueCalls.CloserStepsExactly | client/chain/chain.go:374-381 | when the steps of a Close can happen |
| QueueCalls.CloseReturns | client/chain/chain.go:374-381 | from every state without a panic, some run lets any given Close return |
| QueueRuns.NoDoubleClose | client/chain/chain.go:374-381 | racing Close calls never close the channel twice |
| QueueRuns.PanicExactly | client/chain/chain.go:722-740 | from every state of the invariant a panic is reachable if and only if the client can sign, and no Close has set the flag yet or some producer is past its check with a message left |
| QueueRuns.RacingClosePanics | client/chain/chain.go:374-740 | in particular from the start |
| QueueRuns.ReceivesAfterClose | client/chain/chain.go:783-794 | after the close the remaining receives are at most the queued messages plus one |
| QueueRuns.TurnsAfterClose | client/chain/chain.go:782-816 | after the close the turns of the goroutine are bounded, whatever the schedule |
| QueueRuns.NotStuck | client/chain/chain.go:782-816 | until it has exited the goroutine always has a turn to take, if Broadcasted has room |
| QueueRuns.ClosedQueueDrains | client/chain/chain.go:374-816 | every closed state can be run to the end, with everything sent handed over |
| Nonce.ChainClient.SyncNonce | client/chain/chain.go:203-216 | keeps the local sequence if the read fails, panics on another account number, else takes the sequence that was read |
| Nonce.ChainClient.PrepareFactory | client/chain/chain.go:235-259 | fills in number and sequence from what is read, each only when it is zero, and reads only then |
| Nonce.ChainClient.BroadcastTx | client/chain/chain.go:628-718 | the control flow of broadcastTx: which failures come before and after the node has compared the sequence, and what the account's sequence is afterwards |
| Nonce.ChainClient.SyncBroadcastMsg | client/chain/chain.go:426-452 | the whole new state is that of one call with at most one retry |
| Nonce.ChainClient.AsyncBroadcastMsg | client/chain/chain.go:484-509 | the same without waiting |
| Nonce.ChainClient.SubmitBatch | client/chain/chain.go:746-780 | the same on the batch path; Broadcasted is signalled exactly on a result |
| NonceRuns.AttemptExactly | client/chain/chain.go:628-718 | one attempt from its chances alone: each reply if and only if its condition, and what becomes of the account's sequence |
| NonceRuns.CallExactly | client/chain/chain.go:426-452 | a call is its last attempt; there is a second one exactly after the mismatch of a simulation, with the sequence that was re-read, and it waits for its block if the first one does |
| NonceRuns.BlockDecides | client/chain/chain.go:440-718 | for either number of attempts: an accepted attempt that waits is a timeout, a failing code or a success exactly as its wait ends, and without waiting a success |
| NonceRuns.MismatchExactly | client/chain/chain.go:426-452 | with simulation, whatever others do: the mismatch error if and only if the call was stale and what it re-read, or kept, is stale again; the code of a mismatch if and only if the last attempt passes simulation and is overtaken before delivery, never in a calm call; a panic if and only if it was stale and the re-read found another account number |
| NonceRuns.RaceLosesCall | client/chain/chain.go:653-691 | a call with the right sequence is lost, with no error and the local sequence advanced, if the account is used between its simulation and its delivery |
| NonceRuns.LaggingReadMismatches | client/chain/chain.go:484-509 | a re-read that lags behind pending transactions makes the retry fail as the first attempt did |
| NonceRuns.AtMostOneTransaction | client/chain/chain.go:426-452 | at most two attempts; a retry follows only a first attempt that left the account as it was; whatever others do, a call takes at most one sequence of the account, and none if it ends in a mismatch |
| NonceRuns.EqualExactly | client/chain/chain.go:235-452 | after an accepted call, whatever others did during it, the sequences are equal if and only if the last local one was not zero or the account's was |
| NonceRuns.DriftIsSmall | client/chain/chain.go:426-452 | in a calm call whose reads agree with the check, a failure drifts by one at most, in a direction that its reply tells |
| NonceRuns.CallRepairs | client/chain/chain.go:426-452 | if reads agree with the check and nobody interferes, from any drift the next call on a node that answers goes through and leaves the sequences equal |
| NonceRuns.RunsHeal | client/chain/chain.go:426-780 | over all runs whose reads agree with the check, with outside moves at any time except between a re-read and its retry, and arbitrary other failures: no call ends in the mismatch error or a panic, exactly the calls overtaken between simulation and delivery are lost, and accepted calls end equal |
| NonceRuns.DriftStaysSmall | client/chain/chain.go:426-780 | over all runs of a client alone on its account, with reads that agree, the drift never exceeds one |
| NonceRuns.ZeroDriftsApart | client/chain/chain.go:235-259 | a local sequence of zero lets timeouts add up: after n of them the account is n ahead and the local sequence still zero |
| NonceRuns.UnsimulatedMismatch | client/chain/chain.go:641-691 | without simulation, whatever others do: never a retry or the mismatch error, and the code of a mismatch if and only if the sequence is not the account's at delivery |
| NonceRuns.WithoutSimulation | client/chain/chain.go:641-691 | without simulation a stale call ends as a code: no retry, no error, nothing sent, and the local sequence advances |
| NonceRuns.LostExactly | client/chain/chain.go:641-691 | how many of n calls are then lost: all if ahead, one per step if behind |
| NonceRuns.NoneLost | client/chain/chain.go:641-691 | with simulation none of them is lost |
| NonceRuns.TimeoutLosesNextCall | client/chain/chain.go:693-718 | an expired wait makes the next call without simulation vanish, and not with it |
| NonceRuns.SubmitIsOneCall | client/chain/chain.go:746-780 | a submit of the batching goroutine reads its slice once for each attempt of such a call, and signals Broadcasted exactly if it ends with a result |
| Upload.Encoder.MarshalWrite | client/svm/helper.go:59-77 | appends the little-endian header and the data |
| Upload.Encoder.MarshalDeploy | client/svm/helper.go:83-89 | appends the little-endian deploy instruction |
| Upload.WriteRoundTrip | client/svm/helper.go:59-77 | the header and data are read back from the bytes |
| Upload.DeployRoundTrip | client/svm/helper.go:83-89 | likewise for the deployment |
| Upload.WriteBytesAre | client/svm/helper.go:59-77 | the write instruction in bytes: 1 0 0 0, the offset in four and the length in eight bytes, lowest first, and the data |
| Upload.DeployBytesAre | client/svm/helper.go:83-89 | the deployment in bytes: 2 0 0 0 and the size in eight bytes |
| Upload.CreateProgramUploadMsgs | client/svm/helper.go:160-287 | the loop yields all writes in order and then the deployment, floor(w/750) + 1 transactions, all but the last with 750 writes; and which failure is reported when |
| Upload.ChunksPartition | client/svm/helper.go:177-187 | the pieces have 1 to 1200 bytes, and every byte lies in exactly one |
| Upload.InOrder | client/svm/helper.go:160-220 | instruction k of the transactions writes piece k of 1200 bytes to its place, and the deployment follows the last piece |
| Upload.ExecuteFaithful | client/svm/helper.go:177-187 | faithful writes in any order and number leave the program where they cover, and the rest as before |
| Upload.Reassembles | client/svm/helper.go:160-220 | the instructions of an upload, in any order and possibly repeated, turn a blank buffer into the program, up to 4,294,968,000 bytes |
| Upload.AnyPermutation | client/svm/helper.go:160-220 | the same for every permutation of the instructions |
| Upload.OffsetsAreExact | client/svm/helper.go:183-187 | all written offsets are right if and only if the program is not larger than that |
| Upload.MarkIsLost | client/svm/helper.go:160-220 | beyond the bound there is a program of every size that its instructions do not rebuild, in whatever order |
| Upload.RebuiltExactly | client/svm/helper.go:160-220 | all programs of n bytes are rebuilt if and only if n does not exceed the bound |
| Upload.TransactionsFit | client/svm/helper.go:172-286 | no transaction holds more than 750 instructions, and the only deployment is the very last one |
| MultisigGas.GasMeter.ConsumeGas | chain/app/ante/ante.go:190-196 | a charge beyond the limit or the word is kept on the meter and panics |
| MultisigGas.DefaultSigVerificationGasConsumer | chain/app/ante/ante.go:185-212 | charges the meter as the ordered bill of the key tree says, with its errors and panics |
| MultisigGas.ConsumeMultisignatureVerificationGas | chain/app/ante/ante.go:215-240 | the loop keeps sigIndex equal to the number of set bits below i, and charges the bill of a multisig node |
| MultisigGas.RankCounts | chain/app/ante/ante.go:221-236 | sigIndex at key i is the number of set bits below i |
| MultisigGas.BillIsInOrder | chain/app/ante/ante.go:215-240 | the loop with its two indexes charges the signing keys with their signatures one after the other, and panics at the first that lacks a key or a signature |
| MultisigGas.CompleteExactly | chain/app/ante/ante.go:221-236 | none is lacking if and only if every set bit has its key, and a signature at the number of set bits below it |
| MultisigGas.FlatMultisig | chain/app/ante/ante.go:215-240 | a list of Ed25519 keys whose set bits have keys and signatures costs one price for each set bit |
| MultisigGas.FlatMultisigPanics | chain/app/ante/ante.go:221-236 | if a set bit has no key, or no signature is left for it, the loop panics, given gas for all keys |
| MultisigGas.SingleKeys | chain/app/ante/ante.go:190-196 | a single key costs the price of its kind |
| MultisigGas.Refusals | chain/app/ante/ante.go:198-211 | a multisig key with a single signature, and a key of any other kind, are refused without a charge |
| MultisigGas.PayStops | chain/app/ante/ante.go:190-196 | the charge that exceeds the limit stays on the meter, up to the largest word, and panics |
| MultisigGas.PayThen | chain/app/ante/ante.go:223-237 | paying two bills in a row is paying their concatenation, unless the first ends badly |
| MultisigGas.BillIsGas | chain/app/ante/ante.go:185-240 | the traversal ends well if and only if the signature fits its key tree, and then charges the recursive sum of the signing leaves |
| MultisigGas.SuccessExactly | chain/app/ante/ante.go:185-240 | verification succeeds if and only if the signature is well-formed and the gas suffices, and has then consumed exactly that sum |
| MultisigGas.GasCountsLeaves | chain/app/ante/ante.go:185-240 | the sum is the number of leaves of each kind times its price, for any depth of nesting |

## Left out

- EventsRequest, NewTxsEvent and WasmEvent of `query.pb.go`, and the other generated files: the same pattern again.
- `Marshal` of the eventstream messages and of a single TxResponseGenericMessage: the same wrapper around `Size` and
  `MarshalToSizedBuffer` that is modelled for TxResponseData.
- Any, BlockID and the Tendermint Block: other packages own them. They are codecs passed as parameters. An Any is
  assumed to obey `SubCodec.Lawful`, which the lawful messages of this repository are proved to meet; of a BlockID and a
  Block it is assumed only that values come back (`WritesBack`); what they gain by decoding, and what a failed decoding
  leaves of them, are parameters.
- A message that is too long for a Go `int` (2^63 - 1 bytes), nil elements of a list, and the difference between nil
  and empty bytes.
- The texts of errors. ErrInvalidLength and ErrUnexpectedEOF share one class in the pure decoders, because which of
  them is reported depends on the index at which the same bytes stand.
- `m.Data = append(m.Data[:0], ...)` reuses an array that a caller may hold: field values are sequences here.
- In `Queue`, `syncMux` and the other two paths: waiting for the lock only delays a broadcast. A panic inside
  syncNonce is part of `Nonce` and not of `Queue`. A producer that is blocked when the channel is closed panics at
  its next step.
- SimulateMsg, SyncBroadcastSvmMsg and BuildSignedTx, which use the sequence outside the mutex: they appear only as
  outside moves of the account's sequence. Cookies, gas prices, timeout heights, logging and real time.
- An outside move after delivery, during the wait for a block: the call does not look at the sequence any more, so it is
  the same as a move before the next call (`Turn.drift`). Equal sequences after a call means equal up to such moves.
- A node error on BroadcastTx whose text contains the words of a mismatch: the model has the mismatch from simulation
  and, as a code, from the check of a delivered transaction.
- Programs near 2^63 bytes, for which `idx + 1200` would wrap. Building and signing Solana transactions and deriving
  addresses: only the ordered instructions per transaction are kept, and failures of these calls are parameters.
- The gas meter of the SDK is not part of the repository; the model is the one with a limit, which panics when
  the limit or the 64-bit range is exceeded.
- EIP-712, accounts, fees and the rest of the ante handler.
