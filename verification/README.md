# An HTTP/2 stack, verified

This project models three parts of an HTTP/2 implementation and proves what they are for.

**Header compression (RFC 7541).** The encoder's dynamic table is a Robin Hood hash index over a list of slots
(`EncoderTable`), the decoder's is a plain list (`DynamicTable`). The fast structure is proved against linear search in
the simple one, through evictions, backward shifts and doubling rehashes, for any hash function. On top of it stand the
integer codec, the Huffman codec (`Huffman`, for any suitable code), the representations, coalesced size updates,
decoding of a block in fragments, and finally the lockstep of encoder and decoder over a whole connection (`Lockstep`).

**Streams (RFC 7540, sections 5 and 6.9).** Six intrusive queues are threaded through the entries of a slab
(`StreamStore`); frame deques share another slab (`FrameBuffer`); counters follow the streams (`Counting`); a scheduler
splits bodies under three limits at once (`Scheduler`). `Streams` puts them together: every action of the user, the peer
and the transport keeps the queues, the id map, the counters and the flow-control ledger (`StreamRuns`).

**Framing and shutdown (RFC 7540, sections 4.1, 6.2, 6.8 and 6.10).** Header blocks are cut into HEADERS and
CONTINUATION frames, written, parsed and put together again (`HeaderFraming`); the last-stream-ids of GOAWAY frames
never rise (`GoAway`).

| file | models |
|---|---|
| `Bits.dfy`, `BitStrings.dfy`, `Errors.dfy` | bytes, bit operators, bit strings, results |
| `IntCodec.dfy`, `Huffman.dfy`, `Headers.dfy` | integers, strings, header fields and the static table |
| `DynamicTable.dfy` | the dynamic table as a list; the decoder's table |
| `RobinHood.dfy`, `Rehash.dfy`, `NameIndex.dfy`, `EncoderTable.dfy`, `IndexCheck.dfy` | the encoder's table |
| `Representation.dfy`, `Resumption.dfy`, `HpackDecoder.dfy`, `HpackEncoder.dfy`, `Lockstep.dfy` | the codec |
| `FrameBuffer.dfy`, `StreamState.dfy`, `StreamStore.dfy`, `Counts.dfy`, `FlowControl.dfy`, `Scheduler.dfy`, `Streams.dfy`, `StreamRuns.dfy` | the streams |
| `BlockSize.dfy`, `HeaderFraming.dfy`, `GoAway.dfy` | the size of a block, framing and shutdown |

## How to read it

A class carries the fields of the source's struct. Its `Valid()` is the invariant, and each method is proved against a
function of the old state (`Fifo`, `Popped`, `Block`, lists of frames), whose own laws are lemmas. Ghost fields hold what
the source does not: the unwrapped insertion count, the abstract cells of the hash index, the contents of a queue, the
octets granted and sent. Slabs and maps are `map` fields, the growable output buffer is a sequence passed in and out.

Some inputs are parameters: the hash function; the Huffman code (`Huffman.Good` says what is needed of it); what the
header library decides about pseudo-header values (`Headers.Values`); how a parsed message turns out
(`Streams.HeadersOutcome`, `Streams.EndOutcome`); how much the transport accepts at each write; and when a held reset
expires. Where the source changes two fields of a stream one after the other with nothing in between, `Streams.Commit`
changes them together.

Where the code falls short of what it promises, the exact condition is proved:

- The decoder reads an integer back exactly up to `MaxInt`; a larger one is an `IntegerOverflow` (`IntCodec.DecodeEncode`).
  So a block of well-formed fields decodes exactly if every size announced in it and the length of every string in it is
  within that bound (`Lockstep.BlockBound`).
- Cutting a block up can change what comes of it, in two ways. A literal with an empty name is reported as missing input
  after its octets are gone, so that the next call goes on without it (`Resumption.EmptyNameSwallowed`). And every call
  allows size updates until it has decoded a field, so that a size update refused after a field is carried out if a
  fragment ends between the two (`Resumption.LateUpdateRevived`). For every block and every cut, decoding in two calls
  gives the same headers, table and outcome as decoding whole, unless one of the two happens and the second call does not
  get stuck where it starts (`Resumption.AnyCut`, `Resumption.RevivedUpdate`, `Resumption.SwallowedName`); the same goes
  for any number of fragments (`Resumption.AnyFragmentation`). A block that decodes whole has neither
  (`Resumption.Fragmentation`).
- A stream with body left sends at least one octet when it is taken, unless its window is used up or it can get no
  share of the connection's; it can get none for a rest that is a multiple of 2^32 octets (`Scheduler.Progress`).
- Once the frame with END_STREAM is out the send half is closed, exactly if the message has a body or has no trailers
  (`Scheduler.MessageEnds`): trailers close it only behind a body.
- Crediting more than half the 32-bit range shrinks the connection window. When the peer lowers the initial window, the
  shares taken back are credited all at once; the window then stays non-negative exactly if their sum, in 32 bits, is at
  most half the range or takes the window all the way round (`Streams.GivenBack`, which `Streams.Streams.ShrinkWindows`
  and `Streams.Streams.ApplyRemoteSettings` ensure). Two streams, two accepted grants and one settings change bring it
  to -2 (`Streams.WindowOverdrawn`). It cannot happen if at no moment what the peer has granted and not been sent is
  more than a window can hold (`StreamRuns.NeverOvergranted`, in `StreamRuns.Run`).
- The ledger is an inequality, as shares can be lost: a stream may be given what it has left to send a second time
  (`Streams.ShareTwice`), and what it holds when it is removed is gone (`Streams.SettleOk`).
- A header block is rejected as a flood of CONTINUATION frames exactly if its octets exceed what the frames that are
  allowed can carry, at the size the writer cuts them; its octets are a sum over the lengths of the codes and integers
  of its fields (`HeaderFraming.EndToEnd`, `BlockSize.BlockOctets`). The limit on header lists is on decoded octets, and
  the frames that are allowed are reckoned from it. A block within it is never rejected if no octet of its strings has
  a code of more than ten bits and the writer's frames are at least as large as those the reader reckons with
  (`HeaderFraming.WithinLimit`). Strings are always Huffman-coded, so with longer codes it can be rejected: six million
  newlines, of 30 bits each, are (`HeaderFraming.LongCodesRefused`); so are 200,000 octets of anything if the writer's
  frames are smaller (`HeaderFraming.SmallFramesRefused`).
- The scheduler's assertion that a stream without frames is closed fails exactly at the streams that wait to send with
  nothing to send, though they are open (`Streams.Streams.PopFrame`). A stream comes to be one of them only when it is
  opened after all it had was sent (`StreamRuns.Act`), so in no other run does the assertion fail (`StreamRuns.Run`). It
  does fail in a run: a request that waits to be opened, a settings change that lets it send, two frames, and the
  opening (`StreamRuns.EmptyOpening`).

## Model

| member | source | states |
|---|---|---|
| IntCodec.EncodeInt | src/hpack/encoder.rs:287-311 | the loop of shifts and ors appends the prefix octet and the seven-bit groups of the value, low group first |
| IntCodec.DecodeInt | src/hpack/decoder.rs:414-474 | the loop over continuation octets finds the integer at the front of the input, or says what is missing or wrong, and reads at most five octets |
| IntCodec.DecodeEncode | src/hpack/encoder.rs:287-316 | decoding inverts encoding and consumes exactly its octets if and only if the value is at most 2^N - 1 + 2^28 - 1; any larger one is an IntegerOverflow |
| IntCodec.ReadPrefix | src/hpack/decoder.rs:414-474 | an integer cut short is reported as missing input, and one that is complete does not depend on what follows |
| IntCodec.ReadAhead | src/hpack/decoder.rs:414-474 | what reading an integer comes to does not depend on what follows, once no octet is missing |
| Huffman.Encode | src/hpack/huffman/mod.rs:44-67 | the 40-bit sliding accumulator emits exactly the concatenated code bits, padded with fewer than eight one-bits |
| Huffman.Decoder.Decode4 | src/hpack/huffman/mod.rs:78-97 | one nibble through the automaton is four bits through the code tree |
| Huffman.Decode | src/hpack/huffman/mod.rs:18-42 | decoding nibble by nibble is reading code by code, with the end accepted exactly on a proper padding |
| Huffman.DecodeEncode | src/hpack/huffman/mod.rs:18-67 | decoding inverts encoding for every string and every suitable code |
| Huffman.DecodeExact | src/hpack/huffman/mod.rs:18-42 | the decoder accepts an octet string if and only if it is the encoding of some string, and yields that string |
| Huffman.PadUnique | src/hpack/huffman/mod.rs:99-101 | a code string can be padded to whole octets in one way only |
| Huffman.RunReads | src/hpack/huffman/mod.rs:78-97 | a run of the automaton reads back the codes of its output |
| Headers.IndexStatic | src/hpack/table.rs:699-788 | the index found is one of the 61 static entries |
| Headers.IndexStaticSound | src/hpack/table.rs:699-788 | a static index names the field, and one with a value match stands for the whole field, whose only change is the spelling of an accept-encoding value |
| Headers.SkippedIsStatic | src/hpack/table.rs:139-149 | a field whose value is never indexed always has a static name |
| Headers.NewHeaderInverse | src/hpack/header.rs:81-129 | a well-formed field is made again from its two strings |
| DynamicTable.Table.GetEntry | src/hpack/decoder.rs:535-549 | index 0 and indices past the end are errors; the others address the static and then the dynamic entries, newest first |
| DynamicTable.Table.InsertEntry | src/hpack/decoder.rs:551-562 | evicts until the entry fits and adds it, or empties the table if it never fits |
| DynamicTable.Table.SetMaxSize | src/hpack/decoder.rs:564-568 | keeps the longest run of newest entries that fits the new bound |
| DynamicTable.Table.Reserve | src/hpack/decoder.rs:570-579 | the eviction loop leaves the longest run of newest entries that fits with the new one |
| DynamicTable.Table.Consolidate | src/hpack/decoder.rs:581-598 | the eviction loop leaves the longest run of newest entries that fits |
| DynamicTable.FitLongest | src/hpack/decoder.rs:570-598 | eviction never removes more than it must |
| DynamicTable.FitFit | src/hpack/table.rs:391-400 | evicting to one bound and then to another is evicting to the smaller |
| DynamicTable.SizeCounts | src/hpack/header.rs:131-144 | every entry takes at least 32 octets of the table's size |
| RobinHood.NoHole | src/hpack/table.rs:601-628 | between an entry and its desired position there is no hole, and nobody there is closer to home |
| RobinHood.SearchMisses | src/hpack/table.rs:164-219 | a probe that meets a richer entry or a gap has passed every position the name could be at |
| RobinHood.InsertOrdered | src/hpack/table.rs:285-357 | stealing a position and shifting the rest on keeps Robin Hood order |
| RobinHood.InsertContents | src/hpack/table.rs:285-357 | and keeps every entry |
| RobinHood.RemoveOrdered | src/hpack/table.rs:451-470 | backward-shift deletion keeps Robin Hood order |
| RobinHood.RemoveContents | src/hpack/table.rs:451-470 | and every other entry |
| Rehash.IdealExists | src/hpack/table.rs:488-501 | an index with a gap and an entry has an entry at its desired position |
| Rehash.RehashStep | src/hpack/table.rs:523-546 | from an ideally placed entry on, plain linear probing into an index of twice the size keeps Robin Hood order |
| Rehash.PassedIsRicher | src/hpack/table.rs:523-546 | no entry passed over while reinserting is closer to home than the one being placed |
| NameIndex.GapExists | src/hpack/table.rs:670-672 | with fewer slots than positions the index has a gap, so every probe loop ends |
| NameIndex.PushKnown | src/hpack/table.rs:221-283 | a newer slot of a known name leaves the index as it is |
| NameIndex.PopChain | src/hpack/table.rs:402-447 | when the oldest slot of a name goes its entry moves on to the next of its chain |
| NameIndex.PopReserve | src/hpack/table.rs:402-447 | when the last of a chain goes while its successor is being inserted, the entry already stands for the successor |
| EncoderTable.Table.RemovePhaseTwo | src/hpack/table.rs:451-470 | the shift ends at a gap or an entry at home, and leaves an ordered index without the removed entry |
| EncoderTable.Table.Evict | src/hpack/table.rs:402-447 | removes the oldest slot, keeping the index right in the middle of an insertion too |
| EncoderTable.Table.ReleaseEntry | src/hpack/table.rs:430-443 | the entry of the evicted slot goes to the next of its chain, to the header being inserted, or away |
| EncoderTable.Table.FindEntry | src/hpack/table.rs:424-444 | probing from the hash of the evicted slot finds its one entry |
| EncoderTable.Table.Converge | src/hpack/table.rs:391-400 | evicts exactly until the size fits |
| EncoderTable.Table.UpdateSize | src/hpack/table.rs:386-389 | makes room for a new header while it is being inserted |
| EncoderTable.Table.Resize | src/hpack/table.rs:369-384 | leaves the entries and the bound that the list has after a resize, and a valid index |
| EncoderTable.Table.Place | src/hpack/table.rs:331-348 | inserts an entry and shifts those it displaces, up to the next gap |
| EncoderTable.Table.IndexVacant | src/hpack/table.rs:285-357 | inserts a header of a new name, after evictions that may have moved the place it was to go |
| EncoderTable.Table.ProbeBack | src/hpack/table.rs:303-323 | after evictions the position for a new entry is the first from its home at which the entries are no poorer |
| EncoderTable.Table.IndexOccupied | src/hpack/table.rs:221-283 | walks the chain of a name: finds the equal header if there is one, and otherwise appends |
| EncoderTable.Table.AppendToChain | src/hpack/table.rs:256-282 | links the end of the chain to the new slot, or not if it has been evicted to make room |
| EncoderTable.Table.LinkTail | src/hpack/table.rs:261-270 | a wrapped position leads to the chain's end exactly while that is in the table |
| EncoderTable.Table.ReinsertEntryInOrder | src/hpack/table.rs:523-546 | places one old entry by linear probing, as Robin Hood order wants it |
| EncoderTable.Table.Grow | src/hpack/table.rs:488-521 | doubling the index keeps every entry, its order, and so every lookup |
| EncoderTable.Table.ReserveOne | src/hpack/table.rs:472-485 | afterwards there is room for a slot, and fewer slots than positions |
| EncoderTable.Table.Search | src/hpack/table.rs:164-219 | the probe ends, either at the entry of the oldest slot of the name, or at the place a new entry belongs, and then no slot has the name |
| EncoderTable.Table.IndexDynamic | src/hpack/table.rs:164-219 | Indexed at the one slot with equal name and value if there is one; otherwise an insertion that refers to the newest slot of the name as numbered before, or to none; for any hash function |
| EncoderTable.Table.IndexHeader | src/hpack/table.rs:135-162 | the whole decision agrees with linear search in the list, and the list changes as section 4.4 of RFC 7541 says |
| EncoderTable.Table.Resolve | src/hpack/table.rs:110-120 | the header an index refers to |
| EncoderTable.Table.constructor | src/hpack/table.rs:75-98 | an empty table with room for the capacity asked for |
| IndexCheck.CheckHolds | src/hpack/table.rs:555-643 | every table satisfies the commented-out checker: entries lead to slots of their hash, none is double, each slot is reachable from its home or linked to by exactly one other; and links only lead to newer slots of the name |
| IndexCheck.CheckAccess | src/hpack/table.rs:601-628 | the entry of a slot is never hidden behind a gap or a richer entry |
| IndexCheck.CheckLink | src/hpack/table.rs:629-637 | a slot without an entry has exactly one link to it |
| Representation.LoadRanges | src/hpack/decoder.rs:388-411 | every first octet announces exactly one kind of representation, by its leading bits |
| Representation.ReadWritten | src/hpack/encoder.rs:239-284 | a string literal is read back, whatever follows it |
| Representation.DecodeWritten | src/hpack/decoder.rs:176-251 | a written representation decodes to its meaning: the header, the octets used, the new table, or the error |
| Resumption.StepPrefix | src/hpack/decoder.rs:282-376 | a representation cut short is reported as missing input with nothing consumed, at any octet |
| Resumption.CutInTwo | src/hpack/decoder.rs:176-376 | a decodable block cut in two yields the same headers in order and the same table |
| Resumption.Fragmentation | src/codec/framed_read.rs:346-398 | a block that decodes whole yields the same in any number of fragments, each decoded together with what the previous ones left over |
| Resumption.EmptyNameSwallowed | src/hpack/header.rs:81-86 | a block with an empty name does not decode in one piece, but does in two, without the field |
| Resumption.StepAhead | src/hpack/decoder.rs:201-246 | what decoding any representation comes to, good or bad, does not depend on what follows, once it is not missing input |
| Resumption.OnlyEmptyName | src/hpack/decoder.rs:282-312 | octets are lost to missing input exactly by a literal with an empty name whose strings are not both Huffman-coded |
| Resumption.CutAnywhere | src/hpack/decoder.rs:176-249 | any block, cut anywhere: both ways agree, or the first call fails as the whole does, save for a swallowed name or a revived size update |
| Resumption.AnyCut | src/codec/framed_read.rs:346-398 | two calls agree with one if and only if no name is swallowed and no size update revived, or the second call gets stuck where it starts |
| Resumption.SwallowedName | src/hpack/header.rs:81-86 | what is left over after a swallowed name is less than what was still to be decoded |
| Resumption.RevivedUpdate | src/hpack/decoder.rs:185-244 | the whole is refused at a size update that the second call carries out, and goes on from |
| Resumption.AnyFragmentation | src/codec/framed_read.rs:346-398 | any block in any number of fragments decodes as it does whole, unless a cut swallows a name or revives a size update |
| Resumption.LateUpdateRevived | src/hpack/decoder.rs:176-185 | a field and a size update: refused in one piece, carried out in two |
| HpackDecoder.Cursor.Take | src/hpack/decoder.rs:484-490 | returns the next octets and cuts everything up to them off the buffer |
| HpackDecoder.Decoder.QueueSizeUpdate | src/hpack/decoder.rs:166-173 | the largest size since the last block is remembered |
| HpackDecoder.Decoder.TryDecodeString | src/hpack/decoder.rs:314-366 | finds a string without consuming it, or says what is missing |
| HpackDecoder.Decoder.Consume | src/hpack/decoder.rs:493-502 | cuts a raw string out of the buffer and skips a coded one |
| HpackDecoder.Decoder.DecodeString | src/hpack/decoder.rs:368-376 | yields the string at the front of the input |
| HpackDecoder.Decoder.DecodeIndexed | src/hpack/decoder.rs:274-280 | yields the entry the index names |
| HpackDecoder.Decoder.DecodeLiteral | src/hpack/decoder.rs:282-312 | yields the header; what is left of the input after an error is what the specification says |
| HpackDecoder.Decoder.DecodeNewName | src/hpack/decoder.rs:297-306 | both strings are checked to be complete before either is consumed |
| HpackDecoder.Decoder.ProcessSizeUpdate | src/hpack/decoder.rs:253-272 | resizes the table to at most the last size agreed on |
| HpackDecoder.Decoder.Decode | src/hpack/decoder.rs:176-251 | emits the headers of the block, leaves the table and the rest of the input, as decoding representation by representation does |
| HpackEncoder.Encoder.UpdateMaxSize | src/hpack/encoder.rs:31-59 | applying what is pending amounts to one resize more than before |
| HpackEncoder.CoalesceStep | src/hpack/encoder.rs:31-59 | one more update coalesces with what is pending without changing the outcome |
| HpackEncoder.Coalesced | src/hpack/encoder.rs:31-114 | after any updates, what is pending leaves the table as resizing to every value in turn: to the least and then the last |
| HpackEncoder.Encoder.EncodeSizeUpdates | src/hpack/encoder.rs:100-114 | resizes and announces what was pending, the minimum first |
| HpackEncoder.EncodeStr | src/hpack/encoder.rs:239-284 | moving the string up to make room for its length leaves the length and then the string |
| HpackEncoder.PutHead | src/hpack/encoder.rs:262-279 | the in-place shift and the copy of the head lose no octet |
| HpackEncoder.Encoder.EncodeHeader | src/hpack/encoder.rs:116-160 | writes the representation the index calls for |
| HpackEncoder.Encoder.EncodeHeaderWithoutName | src/hpack/encoder.rs:162-195 | writes a literal that takes its name from the field before it |
| HpackEncoder.Encoder.Encode | src/hpack/encoder.rs:62-98 | writes pending size updates and then one representation for each field, and leaves the list in the table those representations call for |
| HpackEncoder.EncodeNotIndexed | src/hpack/encoder.rs:208-221 | writes a literal without indexing under a known name |
| HpackEncoder.EncodeNotIndexed2 | src/hpack/encoder.rs:223-237 | writes a literal without indexing and its name |
| HpackEncoder.ResolvesToHeader | src/hpack/table.rs:110-162 | after indexing, the index refers to the header |
| HpackEncoder.IndexKeeps | src/hpack/table.rs:122-162 | the index can name the next field: it is a positive entry, or carries its name |
| Lockstep.NamedStep | src/hpack/encoder.rs:116-160 | what the encoder writes for a header decodes to that header, and the two tables change alike |
| Lockstep.NamelessStep | src/hpack/encoder.rs:162-195 | a field without a name decodes to the last name with its own value |
| Lockstep.BlockLockstep | src/hpack/encoder.rs:62-98 | a block decodes from an equal table to the fields that were sent and to an equal table |
| Lockstep.ConnectionLockstep | src/hpack/test/fuzz.rs:133-191 | in any run of size updates and blocks, cut up in any way, every block decodes to the fields sent and both tables stay the same list with the same bound |
| Lockstep.BlockBound | src/hpack/decoder.rs:253-272 | a block of well-formed fields of any length decodes if and only if the integer codec holds every size and every length in it, and is an IntegerOverflow otherwise |
| Lockstep.Transfer | src/hpack/test/fuzz.rs:133-191 | the encoder and decoder objects themselves stay in step over a block, in whatever fragments it arrives |
| Lockstep.DecodeAll | src/codec/framed_read.rs:346-398 | the decoder object, given the fragments one by one with what is left over, does what decoding the fragments does |
| Lockstep.Converse | src/hpack/test/fuzz.rs:133-191 | over any run of size updates and blocks in fragments, what the decoder object yields are the fields given to the encoder object, and their tables stay equal |
| Lockstep.StartsInStep | src/hpack/encoder.rs:198-202 | a connection starts in step |
| FrameBuffer.Deque.PushBack | src/proto/streams/buffer.rs:51-69 | adds at the back of this deque and changes no other one in the buffer |
| FrameBuffer.Deque.PushFront | src/proto/streams/buffer.rs:71-89 | adds at the front of this deque and changes no other one in the buffer |
| FrameBuffer.Deque.PopFront | src/proto/streams/buffer.rs:91-108 | takes the front of this deque and changes no other one in the buffer |
| FrameBuffer.Deque.constructor | src/proto/streams/buffer.rs:41-45 | a new deque is empty |
| FrameBuffer.Buffer.IsEmpty | src/proto/streams/buffer.rs:22-24 | the slab is empty exactly if all deques are |
| FrameBuffer.Occupancy | src/proto/streams/buffer.rs:5-36 | the slab holds as many slots as all deques together |
| FrameBuffer.ReplaceChain | src/proto/streams/buffer.rs:29-38 | work on one chain leaves the others as they were |
| StreamState.HalvesStayClosed | src/proto/streams/state.rs:81-430 | over any transitions a half that has ended never sends again, and a closed stream is never reopened |
| StreamStore.Store.Insert | src/proto/streams/store/mod.rs:38-49 | a new stream gets a vacant index, and its id leads to it |
| StreamStore.Store.FindMut | src/proto/streams/store/mod.rs:65-78 | an id that is known leads to a stream of that id |
| StreamStore.Store.Unlink | src/proto/streams/store/ptr.rs:54-57 | forgets this id and no other |
| StreamStore.Store.Remove | src/proto/streams/store/ptr.rs:32-48 | no id leads to the removed stream |
| StreamStore.Store.TryForEach | src/proto/streams/store/mod.rs:95-129 | visits every stream present at the start exactly once, whichever of the visited ones are forgotten on the way, or stops at the first failure |
| StreamStore.VisitNext | src/proto/streams/store/mod.rs:103-126 | swapping the last entry into the place of the visited one skips and repeats nothing |
| StreamStore.SwapRemoveKeeps | src/proto/streams/store/ptr.rs:54-57 | swap-removal drops one entry and keeps the others |
| StreamStore.Queue.Push | src/proto/streams/store/queue.rs:34-69 | appends the stream unless its flag is set already |
| StreamStore.Queue.PushFront | src/proto/streams/store/queue.rs:74-109 | puts the stream at the head unless its flag is set already |
| StreamStore.Queue.Pop | src/proto/streams/store/queue.rs:111-133 | takes the stream at the head and clears its flag; the queue still lists exactly the flagged streams |
| StreamStore.Queue.PopIf | src/proto/streams/store/queue.rs:139-156 | takes the head exactly if it satisfies the condition |
| StreamStore.OtherQueue | src/proto/streams/stream.rs:251-398 | work on one of the six queues leaves the other five as they were |
| Counting.Counts.IncNumRecvStreams | src/proto/streams/counts.rs:110-117 | the counters still equal the numbers of counted streams |
| Counting.Counts.IncNumSendStreams | src/proto/streams/counts.rs:134-139 | the counters still equal the numbers of counted streams |
| Counting.Counts.DecNumStreams | src/proto/streams/counts.rs:194-206 | the counter of a counted stream is never zero, and equals the number of counted streams afterwards |
| Counting.Counts.TransitionAfter | src/proto/streams/counts.rs:234-271 | a stream is removed only when nothing refers to it and it is not counted, and no decrement fails |
| Counting.Counts.DecNumRemoteResetStreams | src/proto/streams/counts.rs:178-181 | the counter is not zero when an abandoned stream has been accepted |
| Counting.AbandonedChange | src/proto/streams/recv.rs:513-552 | a change of one stream changes the number of those reset before they are accepted by at most one |
| Counting.CountChange | src/proto/streams/counts.rs:110-206 | changing one stream changes the numbers by at most that stream |
| FlowControl.CreditSign | src/proto/streams/flow_control.rs:80-88 | a credit makes a window negative exactly if it exceeds half the 32-bit range and does not wrap all the way |
| Scheduler.PopSends | src/proto/streams/send.rs:687-789 | taking a frame loses and repeats no octet, and END_STREAM is on it exactly if nothing is left |
| Scheduler.PopKeepsBody | src/proto/streams/send.rs:791-902 | the queue of a stream stays headers, body, trailers, with the length of the body on record |
| Scheduler.DataLimits | src/proto/streams/send.rs:719-789 | a DATA frame fits the frame limit and the stream window, and is paid for with the connection window |
| Scheduler.Progress | src/proto/streams/send.rs:642-661 | exactly when a stream with body left sends nothing |
| Scheduler.BodyTransmission | src/proto/streams/send.rs:642-847 | over any interleaving with window changes the DATA frames concatenate to the body, and the last frame of the message alone ends the stream |
| Scheduler.PopEnds | src/proto/streams/send.rs:664-685 | a frame that is taken keeps it settled whether the send half will be ended |
| Scheduler.MessageEnds | src/proto/streams/send.rs:821-847 | once a message is out, over any interleaving, the send half is closed if and only if there was a body or there were no trailers |
| Streams.AssignedSplit | src/proto/streams/stream.rs:44-50 | the total share does not depend on the order in which streams are added up |
| Streams.SettleQueue | src/proto/streams/stream.rs:177-188 | removing a released stream leaves every queue as it was |
| Streams.Streams.Pop | src/proto/streams/store/queue.rs:111-133 | taking a stream off any of the six queues keeps all six, the id map and the counters |
| Streams.Streams.After | src/proto/streams/counts.rs:234-271 | cleaning up keeps all six queues, the id map, the counters and the ledger |
| Streams.SettleOk | src/proto/streams/counts.rs:234-271 | cleaning up loses a stream's share exactly if it removes the stream |
| Streams.Streams.TryAssignCapacity | src/proto/streams/send.rs:418-472 | moves a share from the connection to the stream, or queues the stream for one, within the ledger |
| Streams.ShareTwice | src/proto/streams/send.rs:418-472 | a stream that holds its whole need is given it again |
| Streams.Streams.AssignConnectionCapacity | src/proto/streams/send.rs:386-416 | afterwards the window or the queue is empty; what the window loses the shares gain, short of 32-bit overflow |
| Streams.Streams.FeedNext | src/proto/streams/send.rs:394-415 | takes the stream that has waited longest and, if it still wants one, gives it a share out of the window |
| Streams.Streams.RecvConnectionWindowUpdate | src/proto/streams/send.rs:375-384 | accepted exactly if the window can hold it; the increment is handed out until window or queue is empty, and none of it gets lost short of 32-bit overflow |
| Streams.Streams.RecvStreamWindowUpdate | src/proto/streams/send.rs:474-502 | succeeds exactly if the stream's window can hold the increment; the window moves by it and the stream gets what share it now fits; otherwise it is reset |
| Streams.Streams.RecvWindowUpdate | src/proto/streams/inner.rs:445-499 | a stream whose window overflows ends reset with the reset frame queued, and is held if there is room |
| Streams.Streams.ApplyRemoteSettings | src/proto/streams/send.rs:251-348 | the window of every stream whose send half is open moves by exactly the difference; growing succeeds exactly if none overflows and hands out shares in order; after shrinking the connection window stays non-negative exactly under the stated condition on the shares taken back |
| Streams.Streams.LimitStreams | src/proto/streams/counts.rs:183-189 | the limit on our streams is the one announced, or none |
| Streams.Streams.ShrinkWindows | src/proto/streams/send.rs:293-326 | shares that no longer fit are credited to the connection: none is lost if the window can hold them, and the window stays non-negative exactly if their 32-bit sum is at most half the range or wraps all the way |
| Streams.Streams.ShrinkWindow | src/proto/streams/send.rs:297-319 | what is taken back from the stream is what its share loses, and afterwards the share fits the window |
| Streams.Streams.LowerWindows | src/proto/streams/send.rs:293-319 | every open window is lowered; the sum returned is, in 32 bits, what the shares have lost |
| Streams.AllGivenBack | src/proto/streams/send.rs:320-326 | the sign of the window after the credit, as an if-and-only-if on what the shares have lost |
| Streams.WindowOverdrawn | src/proto/streams/send.rs:293-326 | two streams given all a window can hold, from grants that are accepted, and a settings change to zero bring the window to -2 |
| Streams.Streams.GrowWindows | src/proto/streams/send.rs:327-343 | succeeds exactly if no open window overflows; then each has grown by the difference, and the streams have been given shares of the connection window one after the other, in the order of the store |
| Streams.Streams.SendReset | src/proto/streams/send.rs:194-231 | the stream ends reset, with its queue replaced by the one reset frame unless it had ended with nothing queued; the other streams at most get a larger share |
| Streams.Streams.ScheduleImplicitReset | src/proto/streams/send.rs:233-248 | a stream not closed yet ends with the reset scheduled, and waits to be sent or to be opened; the other streams at most get a larger share |
| Streams.Streams.ReclaimAllCapacity | src/proto/streams/send.rs:504-517 | keeps everything but the ledger, which is not kept from here on |
| Streams.Streams.EnqueueResetExpiration | src/proto/streams/recv.rs:556-578 | a stream is held exactly if it was reset locally, is not held yet and the limit on held ones has room |
| Streams.Streams.ResetStream | src/proto/streams/action.rs:48-86 | the stream ends reset, with the one reset frame queued unless it had ended, or gone from the slab |
| Streams.Streams.ResetUnknown | src/proto/streams/inner.rs:350-402 | the id gets a stream that is closed, uncounted and queued to send its reset, and counts as used on its side |
| Streams.Streams.DropHandle | src/proto/streams/opaque_streams_ref.rs:74-168 | a stream that stays has one handle fewer; all but the ledger is kept, and no counter is decremented below zero |
| Streams.Streams.MaybeCancel | src/proto/streams/opaque_streams_ref.rs:141-168 | a reset is scheduled exactly for a stream without handles that is open and not queued to send |
| Streams.Streams.MoveFromPendingComplete | src/proto/streams/recv.rs:756-781 | takes the longest run of finished streams off the front; a server accepts them in the order their headers came in |
| Streams.Streams.NextAccept | src/proto/streams/streams.rs:143-172 | hands out the stream that has waited longest, alive and with one more handle; None exactly if nothing waits; one that the peer has reset is discounted, and that decrement cannot fail |
| Streams.Streams.RecvHeaders | src/proto/streams/inner.rs:132-295 | a stream is opened exactly if its id is unknown, the peer's to use, not below the next one expected and within the limit, and is counted however its message turns out; the next id expected moves past any id so used; each outcome leaves the state and the frames it calls for |
| Streams.Streams.UseId | src/proto/streams/recv.rs:740-752 | an id at or above the next one expected on its side moves that past it; others change nothing |
| Streams.Streams.Digest | src/proto/streams/inner.rs:165-233 | each outcome of a parsed message leaves the state and the frames it calls for, and no counter of streams changed |
| Streams.Streams.RecvEnd | src/proto/streams/recv.rs:485-510 | succeeds exactly if the peer's half was still open or the content is found wrong first; the half is then closed, and a malformed message resets the stream before or after that |
| Streams.Streams.RecvReset | src/proto/streams/inner.rs:298-348 | refused exactly if too many streams are reset before they are accepted; otherwise the stream is closed with nothing left to send |
| Streams.Streams.HandleError | src/proto/streams/inner.rs:405-442 | every stream that was known by an id above the given one ends closed with nothing left to send, or gone, though streams forget themselves while they are visited; the others keep their ids and their state |
| Streams.Streams.FailStream | src/proto/streams/inner.rs:424-440 | the one stream ends closed or gone; the others at most get a larger share |
| Streams.Streams.SendHeaders | src/proto/streams/send.rs:135-172 | succeeds exactly if the send half was not open; the headers are the first frame queued |
| Streams.Streams.SendRequest | src/proto/streams/streams.rs:62-139 | under the next id of ours a stream is stored that carries the whole message, with one handle, at the back of the streams that wait to be opened; a refused request leaves nothing behind but the id |
| Streams.Streams.TakeId | src/proto/streams/send.rs:524-533 | the id given out belongs to no stream that is known |
| Streams.NotIssued | src/proto/streams/recv.rs:700-718 | an id not given out yet, on either side, leads to no stream |
| Streams.Streams.SendResponse | src/proto/streams/streams_ref.rs:53-101 | the message is queued whole, once |
| Streams.Streams.QueueBodyTrailer | src/proto/streams/streams.rs:433-453 | behind its headers the queue holds the body and the trailers |
| Streams.Streams.PopPendingOpen | src/proto/streams/send.rs:624-640 | opens the stream that has waited longest, uncounted before, exactly if one waits and the limit has room, and counts it |
| Streams.Streams.PollOpen | src/proto/streams/send.rs:917-922 | the stream opened goes to the front of the send queue unless it is there already, and waits there for nothing exactly if it has nothing left to send and is open |
| Streams.Streams.PopDataFrame | src/proto/streams/send.rs:687-789 | sends what the windows allow, and the send half can always be ended when it has to be |
| Streams.Streams.PopFirst | src/proto/streams/send.rs:805-885 | takes the first frame after throwing away what will not be sent |
| Streams.Streams.PopFrame | src/proto/streams/send.rs:791-902 | streams are taken in the order of the queue until one may send, and none before it may; its frame is what its queue, the windows and the frame limit say, and it goes to the back of the queue if it has more; no stream behind it changes; the octets sent are accounted for; the streams at which the assertion fails are exactly those that waited for nothing and were taken |
| Streams.HollowStep | src/proto/streams/send.rs:854-877 | taking a stream off the send queue leaves no other waiting for nothing, and the stream itself did so exactly if it had no frames and was open |
| Streams.BareNow | src/proto/streams/send.rs:886-898 | a stream is never put back with nothing to send, unless it is closed |
| Streams.Streams.ClearExpiredResetStreams | src/proto/streams/recv.rs:836-863 | lets go exactly the held streams at the head whose time is up, up to the first whose time is not, without a failing decrement |
| StreamRuns.Act | src/proto/streams/streams.rs:62-305 | every action keeps all that holds of the streams; what was granted grows by accepted increments alone and what was sent by the DATA octets of the frame that goes out; all but resets and drops keep the ledger; only opening an empty stream makes one wait for nothing, and only then can the assertion fail |
| StreamRuns.Run | src/proto/streams/send.rs:375-502 | over any run queues, ids and counters agree with the streams; without resets, window plus shares plus the DATA octets that went out never exceed 65,535 plus the increments accepted, and the window is never negative if at no moment more is granted and unsent than a window holds; the assertion fails only after a stream was opened with nothing left to send |
| StreamRuns.EmptyOpening | src/proto/streams/send.rs:854-877 | a run of the connection in which a stream is opened with nothing left to send, and the assertion fails |
| HeaderFraming.ReadWritten | src/frame/head.rs:46-71 | a frame is read back as it was written, with its three-octet length |
| HeaderFraming.EncodeBlock | src/frame/headers.rs:678-736 | writes one frame with as much of the block as fits, its length filled in, END_HEADERS taken off if more follows |
| HeaderFraming.SplitLaws | src/frame/headers.rs:571-583 | the payloads concatenate to the block, each fits the limit, and the last frame alone carries END_HEADERS |
| HeaderFraming.FramedWrite.BufferHeaders | src/codec/framed_write.rs:305-311 | what is still to be written grows by exactly the frames of the block |
| HeaderFraming.FramedWrite.UnsetFrame | src/codec/framed_write.rs:234-256 | the next frame moves into the emptied buffer; what is still to be written stays the same |
| HeaderFraming.FramedWrite.Flush | src/codec/framed_write.rs:101-139 | the loop ends; what it has written and what is left is what there was, however little the transport takes |
| HeaderFraming.FramedRead.DecodeFrame | src/codec/framed_read.rs:139-414 | a partial block is kept, extended and decoded on, or given up with the right error |
| HeaderFraming.Reassembled | src/codec/framed_read.rs:306-406 | a block cut into frames is read as in one piece, unless it has more frames than the limit: then it is refused |
| HeaderFraming.WithinLimit | src/codec/framed_read.rs:125-134 | a block within the limit on header lists has no more octets than the frames allowed can carry if no octet of its strings has more than l bits and l bits for every octet of the limit fit those frames; l = 10 fits if the writer's frames are no smaller than the reader's |
| HeaderFraming.FramesWithin | src/frame/headers.rs:571-583 | a block takes at most k frames if and only if it is no longer than k full ones |
| HeaderFraming.LongFieldRefused | src/codec/framed_read.rs:125-134 | a field whose value takes more bits than the frames allowed can carry is refused, whatever its decoded size |
| HeaderFraming.LongCodesRefused | src/codec/framed_read.rs:125-134 | six million newlines, at 30 bits each, are refused though within the limit on header lists and cut at the size the reader reckons with |
| HeaderFraming.SmallFramesRefused | src/codec/framed_read.rs:125-134 | 200,000 octets of any value cut at 16,384 are refused by a reader that reckons with the largest frames, though within the limit on header lists |
| BlockSize.RepsOctetsIs | src/hpack/encoder.rs:116-316 | what a block takes on the wire is the sum of what the integers and the code lengths of its representations take |
| BlockSize.BlockWithin | src/frame/headers.rs:1054-1056 | a block takes at most l bits for every octet of its decoded list size, if no octet of its strings has a code of more than l bits |
| BlockSize.ValueWritten | src/hpack/encoder.rs:239-284 | a value that is written takes at least m bits for every octet if every code in it has at least m |
| HeaderFraming.EndToEnd | src/frame/headers.rs:294-308 | fields that are compressed, framed, written, parsed, put together and decompressed come out as they went in, and the tables agree, if and only if the octets of the block are no more than the frames allowed can carry; otherwise the block is refused |
| GoAway.Handler.EnqueueGoAway | src/proto/go_away.rs:41-57 | the last-stream-ids enqueued so far have never risen |
| GoAway.Handler.GoAwayNow | src/proto/go_away.rs:59-70 | the same frame is not sent twice |
| GoAway.Handler.SendPendingGoAway | src/proto/go_away.rs:109-141 | a pending frame is kept until it can be written |
| GoAway.Connection.GoAwayGracefully | src/proto/connection.rs:525-532 | only the first call does anything, and it finds no PING outstanding |
| GoAway.Connection.GoAwayGraceful | src/proto/connection.rs:215-221 | neither of the two assertions can fail |
| GoAway.Connection.Poll2 | src/proto/connection.rs:309-356 | after an abrupt shutdown no frame is read any more, and a graceful one is always NO_ERROR |
| GoAway.Connection.HandleResult | src/proto/connection.rs:370-468 | an error already announced changes nothing but the state; any other is announced with the last processed id, which is no higher than before |
| GoAway.Connection.GoAwayFromUser | src/proto/connection.rs:237-245 | an abrupt shutdown never raises the id |
| GoAway.Run | src/proto/go_away.rs:41-75 | over any run the ids never rise, and no stream beyond the last one announced has been processed |

## Left out

- The literal 256 by 16 Huffman table and the code table: `Huffman.Good` says what the code has to satisfy, and the automaton is derived from the code.
- The FNV hash: any function from names to numbers does.
- `is_sensitive` is constantly false, so the branches for sensitive headers are not modelled.
- The header library (`header_plz`, `http_plz`): a pseudo-header's value is its byte string, and which values are accepted is a parameter.
- The decoder's scratch buffer for strings, and the growth of buffers.
- Maximum table sizes are taken to be 32-bit settings, as the callers pass them.
- HpackEncoder.EncodeStr: a string whose encoded length takes more than eight octets to write would overrun the placeholder and is excluded; it would have to be longer than 2^49 octets.
- The parts of `index_occupied`, `index_vacant` and `evict` that are written inline in the source are methods of their own here (`Place`, `PushSlot`, `AppendToChain`, `LinkTail`, `FindEntry`, `ReleaseEntry`).
- Async I/O, wakers, locks and tracing; polling is one step at a time, and writes take any prefix.
- PUSH_PROMISE and PRIORITY frames and the single-packet mode (`src/spa.rs`): `spa_tracker` is None, so no other PING is outstanding when a graceful shutdown starts.
- Receive windows, content lengths, received bodies and the limit on error resets: they decide between outcomes that are parameters here (`HeadersOutcome`, `EndOutcome`).
- The two state fields `Send` and `Recv` of the source are one class, `Streams.Streams`; a stream's six `is_pending_*` flags are one set and its `next_*` fields lie beside the slab; its deque of frames is a sequence, as `FrameBuffer` justifies; a `FlowControl` is its one window.
- Streams.Streams.ReclaimAllCapacity: the ledger is not claimed across resets and dropped handles, because the share is credited to the connection without being taken off the stream's record, and a drop credits ten octets.
- `clear_queues` and `recv_eof`, which only run once the connection has ended.
- A reset of an unknown stream that exceeds the limit on error resets: it leaves an idle entry behind, and the connection only shuts down from there.
- Counting.Counts.TransitionAfter: the counter of held resets is at least their number, not equal to it, because an expired stream that has not been flushed skips the decrement; so is the counter of streams reset before they are accepted, as a second reset counts again.
- The over-size and malformed flags of a header block (`HeaderBlock::load`) and the limit on skipped header blocks: resumption is stated for the HPACK decoder and the reassembly of frames.
- Ids above the last one a GOAWAY of ours announced, whose frames are ignored, and the id of a refused stream, which is only kept to answer it.
- Buffering of DATA frames in the writer, and all fixed-layout frames: they would only add easy members.
- The connection's `poll` loop around `poll2`, except for its order: pending GOAWAY frames go out before a frame is read.
