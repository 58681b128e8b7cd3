/** Encoder and decoder kept in step over a whole connection. */
module Lockstep {
  import opened Bits
  import opened Errors
  import opened Headers
  import opened IntCodec
  import opened DynamicTable
  import opened Representation
  import opened Resumption
  import opened HpackEncoder
  import EncoderTable
  import HpackDecoder
  import Huffman

  // ===== what is sent, and what should arrive =====

  /** The code is one the codec works with. */
  ghost predicate Usable(x: Params) {
    |x.codes| == 257 && Huffman.Good(x.codes)
  }

  /** The fields a list of items stands for, after one with the given name. */
  function Received(name: Option<Name>, items: seq<Item>): seq<Header>
    requires Starts(name.Some?, items)
    decreases |items|
  {
    if items == [] then []
    else
      match items[0]
      case Named(h) => [Normalize(h)] + Received(Some(h.name), items[1..])
      case Nameless(value) => [Header(name.value, value)] + Received(name, items[1..])
  }

  /** A header the codec promises to carry: typed correctly, with lengths the decoder accepts. */
  ghost predicate Sendable(x: Params, h: Header)
    requires |x.codes| == 257
  {
    && WellFormed(x.values, h)
    && EncodableString(x.codes, h.name.AsSlice()) && EncodableString(x.codes, h.value)
  }

  /** The decoder's integer codec holds the index in a representation. */
  predicate IndexFits(rep: Rep) {
    match rep
    case IndexedRep(i) => i <= MaxInt(7)
    case LiteralRep(k, i, _, _) => i <= MaxInt(k.Prefix())
    case SizeUpdateRep(_) => true
  }

  /** Fields typed correctly, of any length. */
  ghost predicate AllWellFormed(x: Params, name: Option<Name>, items: seq<Item>)
    decreases |items|
  {
    items != [] ==>
      match items[0]
      case Named(h) => WellFormed(x.values, h) && AllWellFormed(x, Some(h.name), items[1..])
      case Nameless(value) =>
        name.Some? && WellFormed(x.values, Header(name.value, value)) && AllWellFormed(x, name, items[1..])
  }

  ghost predicate AllSendable(x: Params, name: Option<Name>, items: seq<Item>)
    requires |x.codes| == 257
    decreases |items|
  {
    items != [] ==>
      match items[0]
      case Named(h) => Sendable(x, h) && AllSendable(x, Some(h.name), items[1..])
      case Nameless(value) => name.Some? && Sendable(x, Header(name.value, value)) && AllSendable(x, name, items[1..])
  }

  // ===== one field =====

  /** The index of the last field leads the decoder to its name. */
  ghost predicate Refers(t: Fifo, last: EncoderTable.Index, name: Name) {
    if last.NotIndexed? then last.header.name == name
    else Get(t, ResolveIdx(last)).Ok? && Get(t, ResolveIdx(last)).value.name == name
  }

  ghost predicate InBounds(t: Fifo) {
    Bounded(t) && t.maxSize <= EncoderTable.MAX_U32
  }

  /** Every index in use is one the decoder's integer codec accepts. */
  lemma IndexEncodable(t: Fifo, i: nat)
    requires InBounds(t) && i < DYN_OFFSET + |t.entries| + 1
    ensures i <= MaxInt(4) && i <= MaxInt(6) && i <= MaxInt(7)
  {
    SizeCounts(t.entries);
    Pow2Values();
  }

  /** A field looked up by the encoder decodes to itself, and both tables change alike. */
  lemma NamedStep(x: Params, t: Fifo, lastMax: nat, canResize: bool, h: Header)
    requires Usable(x) && InBounds(t) && WellFormed(x.values, h)
    ensures var (index, t') := EncoderTable.IndexSpec(t, h);
            var rep := HeaderRep(index, h);
            && IndexFits(rep) && (Sendable(x, h) ==> Encodable(x.codes, rep))
            && Meaning(x, t, lastMax, canResize, rep) == Done(|RepBytes(x.codes, rep)|, Some(Normalize(h)), t')
            && InBounds(t') && Refers(t', index, h.name)
  {
    hide EncoderTable.FindHeader, EncoderTable.FindName, IndexStatic, Header.Len, Header.SkipValueIndex, Fit, Size,
         Normalize, RepBytes, GetStatic, NewHeader, MaxInt, EncodableString, Huffman.Good, Name.AsSlice, FieldName;
    IndexStaticSound(h);
    NewHeaderInverse(x.values, h);
    InsertBounded(t, h);
    var staticIndex := IndexStatic(h);
    if staticIndex.Some? {
      IndexEncodable(t, staticIndex.value.0);
    }
    IndexEncodable(t, 0);
    var found := EncoderTable.FindHeader(t.entries, h);
    if found.Some? {
      IndexEncodable(t, found.value + DYN_OFFSET);
    }
    var named := EncoderTable.FindName(t.entries, h.name);
    if named.Some? {
      IndexEncodable(t, named.value + DYN_OFFSET);
    }
  }

  /** A field without a name decodes to the last name with its own value. */
  lemma NamelessStep(x: Params, t: Fifo, lastMax: nat, canResize: bool, last: EncoderTable.Index, name: Name,
                     value: Bytes)
    requires Usable(x) && InBounds(t) && Refers(t, last, name) && WellFormed(x.values, Header(name, value))
    ensures var rep := NamelessRep(last, value);
            && IndexFits(rep) && (Sendable(x, Header(name, value)) ==> Encodable(x.codes, rep))
            && Meaning(x, t, lastMax, canResize, rep) == Done(|RepBytes(x.codes, rep)|, Some(Header(name, value)), t)
  {
    hide RepBytes, GetStatic, NewHeader, MaxInt, EncodableString, Huffman.Good, Name.AsSlice, Bounded;
    NewHeaderInverse(x.values, Header(name, value));
    IndexEncodable(t, 0);
    if !last.NotIndexed? {
      IndexEncodable(t, ResolveIdx(last));
    }
  }

  // ===== one block =====

  /** A written representation is decoded, and decoding goes on after it. */
  lemma BlockCons(x: Params, t: Fifo, lastMax: nat, canResize: bool, rep: Rep, tail: Bytes)
    requires Usable(x) && Encodable(x.codes, rep)
    ensures var bytes := RepBytes(x.codes, rep) + tail;
            match Meaning(x, t, lastMax, canResize, rep)
            case Failed(e, lost) =>
              DecodeBlock(x, t, lastMax, canResize, bytes).outcome == Err(e)
            case Done(used, emitted, t') =>
              var rest := DecodeBlock(x, t', lastMax, canResize && emitted.None?, tail);
              used == |RepBytes(x.codes, rep)| ==>
                DecodeBlock(x, t, lastMax, canResize, bytes)
                == if emitted.None? then rest else rest.(headers := [emitted.value] + rest.headers)
  {
    hide DecodeStep, Meaning, RepBytes, Huffman.Good;
    DecodeWritten(x, t, lastMax, canResize, rep, tail);
    var bytes := RepBytes(x.codes, rep) + tail;
    assert bytes[|RepBytes(x.codes, rep)|..] == tail;
  }

  lemma {:induction false} ItemsLockstep(x: Params, t: Fifo, lastMax: nat, canResize: bool,
      last: Option<EncoderTable.Index>, name: Option<Name>, items: seq<Item>)
    requires Usable(x) && InBounds(t) && AllSendable(x, name, items)
    requires last.Some? == name.Some? && (last.Some? ==> Refers(t, last.value, name.value))
    ensures Starts(last.Some?, items) && InBounds(ItemReps(t, last, items).1)
    ensures DecodeBlock(x, t, lastMax, canResize, RepsBytes(x.codes, ItemReps(t, last, items).0))
            == Block(Received(name, items), ItemReps(t, last, items).1, [], Ok(()))
    decreases |items|
  {
    hide Huffman.Good, InBounds, Refers, Meaning, RepBytes, Encodable, EncoderTable.IndexSpec, HeaderRep, NamelessRep,
         WellFormed, EncodableString, IndexFits, Normalize, RepsBytes, DecodeBlock;
    if items == [] {
      EmptyBlock(x, t, lastMax, canResize);
    } else {
      match items[0]
      case Named(h) =>
        var (index, t') := EncoderTable.IndexSpec(t, h);
        NamedStep(x, t, lastMax, canResize, h);
        ItemsLockstep(x, t', lastMax, false, Some(index), Some(h.name), items[1..]);
        var reps := ItemReps(t', Some(index), items[1..]).0;
        RepsCons(x.codes, HeaderRep(index, h), reps);
        BlockCons(x, t, lastMax, canResize, HeaderRep(index, h), RepsBytes(x.codes, reps));
      case Nameless(value) =>
        NamelessStep(x, t, lastMax, canResize, last.value, name.value, value);
        ItemsLockstep(x, t, lastMax, false, last, name, items[1..]);
        var reps := ItemReps(t, last, items[1..]).0;
        RepsCons(x.codes, NamelessRep(last.value, value), reps);
        BlockCons(x, t, lastMax, canResize, NamelessRep(last.value, value), RepsBytes(x.codes, reps));
    }
  }

  lemma EmptyBlock(x: Params, t: Fifo, lastMax: nat, canResize: bool)
    requires |x.codes| == 257
    ensures DecodeBlock(x, t, lastMax, canResize, RepsBytes(x.codes, [])) == Block([], t, [], Ok(()))
  {
  }

  /** Size updates at the front of a block reach the decoder's table. */
  lemma {:induction false} UpdatesLockstep(x: Params, t: Fifo, lastMax: nat, sizes: seq<nat>, reps: seq<Rep>)
    requires Usable(x)
    requires forall i :: 0 <= i < |sizes| ==> sizes[i] <= lastMax && sizes[i] <= MaxInt(5)
    ensures DecodeBlock(x, t, lastMax, true, RepsBytes(x.codes, UpdateReps(sizes) + reps))
            == DecodeBlock(x, ResizeAll(t, sizes), lastMax, true, RepsBytes(x.codes, reps))
    decreases |sizes|
  {
    hide Huffman.Good, RepBytes, RepsBytes, DecodeBlock, Resize, MaxInt;
    if sizes == [] {
      assert UpdateReps(sizes) + reps == reps;
    } else {
      var rep, rest := SizeUpdateRep(sizes[0]), UpdateReps(sizes[1..]) + reps;
      assert UpdateReps(sizes) + reps == [rep] + rest;
      RepsCons(x.codes, rep, rest);
      BlockCons(x, t, lastMax, true, rep, RepsBytes(x.codes, rest));
      UpdatesLockstep(x, Resize(t, sizes[0]), lastMax, sizes[1..], reps);
    }
  }

  lemma {:induction false} ResizeInBounds(t: Fifo, sizes: seq<nat>)
    requires InBounds(t) && forall i :: 0 <= i < |sizes| ==> sizes[i] <= EncoderTable.MAX_U32
    ensures InBounds(ResizeAll(t, sizes))
    decreases |sizes|
  {
    hide Fit, Size;
    if sizes != [] {
      ResizeInBounds(Resize(t, sizes[0]), sizes[1..]);
    }
  }

  /** A block written from a table decodes from an equal table to the fields that were sent and to an equal table. */
  lemma BlockLockstep(x: Params, t: Fifo, lastMax: nat, p: Option<SizeUpdate>, items: seq<Item>)
    requires Usable(x) && InBounds(t) && AllSendable(x, None, items)
    requires forall i :: 0 <= i < |Sizes(p)| ==> Sizes(p)[i] <= lastMax && Sizes(p)[i] <= MaxInt(5)
    ensures Starts(false, items) && InBounds(BlockReps(t, p, items).1)
    ensures DecodeBlock(x, t, lastMax, true, RepsBytes(x.codes, BlockReps(t, p, items).0))
            == Block(Received(None, items), BlockReps(t, p, items).1, [], Ok(()))
  {
    hide Huffman.Good, InBounds, Sizes, ResizeAll, ItemReps, RepsBytes, DecodeBlock, Pow2, AllSendable, Received;
    Pow2Values();
    var t' := ResizeAll(t, Sizes(p));
    ResizeInBounds(t, Sizes(p));
    ItemsLockstep(x, t', lastMax, true, None, None, items);
    UpdatesLockstep(x, t, lastMax, Sizes(p), ItemReps(t', None, items).0);
  }

  // ===== a whole connection =====

  /** Splits octets into fragments of the given lengths and a last one with the rest. */
  function Cut(b: Bytes, lens: seq<nat>): (r: seq<Bytes>)
    ensures r != []
    decreases |lens|
  {
    if lens == [] then [b]
    else
      var n := if lens[0] < |b| then lens[0] else |b|;
      [b[..n]] + Cut(b[n..], lens[1..])
  }

  lemma {:induction false} CutConcat(b: Bytes, lens: seq<nat>)
    ensures Concat(Cut(b, lens)) == b
    decreases |lens|
  {
    if lens == [] {
      assert Concat([b][1..]) == [];
    } else {
      var n := if lens[0] < |b| then lens[0] else |b|;
      CutConcat(b[n..], lens[1..]);
      assert Cut(b, lens)[1..] == Cut(b[n..], lens[1..]);
    }
  }

  /** The peers agree on a new maximum size, or the encoder sends a block and the network cuts it up. */
  datatype Event = Update(size: nat) | Send(items: seq<Item>, lens: seq<nat>)

  /** What both sides hold: their tables, the encoder's pending update, the decoder's queued one and its last bound. */
  datatype Conn = Conn(enc: Fifo, pending: Option<SizeUpdate>, dec: Fifo, queued: Option<nat>, lastMax: nat)

  function Start(size: nat): Conn {
    Conn(Fifo([], size), None, Fifo([], size), None, size)
  }

  /** What the codec promises to carry. */
  ghost predicate Allowed(x: Params, ev: Event)
    requires |x.codes| == 257
  {
    match ev
    case Update(size) => size <= MaxInt(5)
    case Send(items, _) => AllSendable(x, None, items)
  }

  function Queued(queued: Option<nat>, size: nat): Option<nat> {
    if queued.Some? && queued.value > size then queued else Some(size)
  }

  /** One event, and for a block what the decoder makes of its fragments. */
  function Advance(x: Params, c: Conn, ev: Event): (Conn, Option<Block>)
    requires |x.codes| == 257 && (ev.Send? ==> Starts(false, ev.items))
  {
    match ev
    case Update(size) =>
      (c.(pending := Coalesce(c.pending, c.enc.maxSize, size), queued := Queued(c.queued, size)), None)
    case Send(items, lens) =>
      var (reps, enc) := BlockReps(c.enc, c.pending, items);
      var lastMax := if c.queued.Some? then c.queued.value else c.lastMax;
      var block := DecodeFragments(x, c.dec, lastMax, [], Cut(RepsBytes(x.codes, reps), lens));
      (Conn(enc, None, block.table, None, lastMax), Some(block))
  }

  /** The tables are equal, and every pending size is one the decoder has been told of. */
  ghost predicate InStep(c: Conn) {
    && c.enc == c.dec && InBounds(c.enc) && Ranked(c.pending)
    && forall i :: 0 <= i < |Sizes(c.pending)| ==>
         Sizes(c.pending)[i] <= MaxInt(5) && c.queued.Some? && Sizes(c.pending)[i] <= c.queued.value
  }

  /** The decoder is told of every size the encoder may yet announce. */
  lemma UpdateLockstep(x: Params, c: Conn, size: nat)
    requires |x.codes| == 257 && InStep(c) && size <= MaxInt(5)
    ensures InStep(Advance(x, c, Update(size)).0)
  {
    hide InBounds, MaxInt;
    var c' := Advance(x, c, Update(size)).0;
    forall i | 0 <= i < |Sizes(c'.pending)|
      ensures Sizes(c'.pending)[i] <= MaxInt(5) && Sizes(c'.pending)[i] <= c'.queued.value
    {
      if c.pending.Some? {
        assert Sizes(c.pending)[0] <= MaxInt(5) && Sizes(c.pending)[0] <= c.queued.value;
      }
    }
  }

  lemma EventLockstep(x: Params, c: Conn, ev: Event)
    requires Usable(x) && InStep(c) && Allowed(x, ev)
    ensures ev.Send? ==> Starts(false, ev.items)
    ensures var (c', block) := Advance(x, c, ev);
            && InStep(c')
            && block == if ev.Send? then Some(Block(Received(None, ev.items), c'.enc, [], Ok(()))) else None
  {
    hide Huffman.Good, InBounds, ResizeAll, BlockReps, RepsBytes, DecodeBlock, DecodeFragments, Cut, Concat, MaxInt,
         AllSendable, Received;
    match ev
    case Update(size) => UpdateLockstep(x, c, size);
    case Send(items, lens) =>
      var lastMax := if c.queued.Some? then c.queued.value else c.lastMax;
      BlockLockstep(x, c.enc, lastMax, c.pending, items);
      var bytes := RepsBytes(x.codes, BlockReps(c.enc, c.pending, items).0);
      CutConcat(bytes, lens);
      assert [] + bytes == bytes;
      Fragmentation(x, c.enc, lastMax, [], Cut(bytes, lens));
      var c' := Advance(x, c, ev).0;
      assert c'.enc == c'.dec && InBounds(c'.enc);
      assert c'.pending == None && Sizes(None) == [];
  }

  /** The run of a connection, with every decoded block. */
  function Run(x: Params, c: Conn, evs: seq<Event>): (Conn, seq<Block>)
    requires |x.codes| == 257 && forall i :: 0 <= i < |evs| ==> evs[i].Send? ==> Starts(false, evs[i].items)
    decreases |evs|
  {
    if evs == [] then (c, [])
    else
      var (c', block) := Advance(x, c, evs[0]);
      var (c'', blocks) := Run(x, c', evs[1..]);
      (c'', (if block.Some? then [block.value] else []) + blocks)
  }

  /** The fields of every block sent, in order. */
  function Sent(evs: seq<Event>): seq<seq<Header>>
    requires forall i :: 0 <= i < |evs| ==> evs[i].Send? ==> Starts(false, evs[i].items)
    decreases |evs|
  {
    if evs == [] then []
    else (if evs[0].Send? then [Received(None, evs[0].items)] else []) + Sent(evs[1..])
  }

  ghost predicate AllAllowed(x: Params, evs: seq<Event>)
    requires |x.codes| == 257
  {
    forall i :: 0 <= i < |evs| ==> Allowed(x, evs[i])
  }

  lemma AllowedStarts(x: Params, evs: seq<Event>)
    requires |x.codes| == 257 && AllAllowed(x, evs)
    ensures forall i :: 0 <= i < |evs| ==> evs[i].Send? ==> Starts(false, evs[i].items)
  {
    forall i | 0 <= i < |evs| && evs[i].Send?
      ensures Starts(false, evs[i].items)
    {
      assert Allowed(x, evs[i]);
    }
  }

  /**
   Whole-connection lockstep: every block of every run decodes without error, whatever its fragmentation, to the
   fields that were sent, and afterwards the two tables are the same list with the same bound.
   */
  lemma {:induction false} ConnectionLockstep(x: Params, c: Conn, evs: seq<Event>)
    requires Usable(x) && InStep(c) && AllAllowed(x, evs)
    ensures forall i :: 0 <= i < |evs| ==> evs[i].Send? ==> Starts(false, evs[i].items)
    ensures var (c', blocks) := Run(x, c, evs);
            && InStep(c') && c'.enc == c'.dec
            && |blocks| == |Sent(evs)|
            && forall i :: 0 <= i < |blocks| ==>
                 blocks[i].outcome == Ok(()) && blocks[i].leftover == [] && blocks[i].headers == Sent(evs)[i]
    decreases |evs|
  {
    hide Huffman.Good, InStep, Advance, Allowed, Received;
    AllowedStarts(x, evs);
    if evs != [] {
      assert Allowed(x, evs[0]);
      EventLockstep(x, c, evs[0]);
      ConnectionLockstep(x, Advance(x, c, evs[0]).0, evs[1..]);
    }
    InStepTables(Run(x, c, evs).0);
  }

  lemma InStepTables(c: Conn)
    ensures InStep(c) ==> c.enc == c.dec
  {
  }

  /** A connection starts in step. */
  lemma StartsInStep(size: nat)
    requires size <= EncoderTable.MAX_U32
    ensures InStep(Start(size))
  {
    assert Sizes(None) == [] && Size([]) == 0;
  }

  /** The two objects are in step, up to what is pending. */
  ghost predicate Paired(x: Params, enc: HpackEncoder.Encoder, dec: HpackDecoder.Decoder)
    reads enc, enc.table, dec, dec.table
  {
    && enc.Valid() && dec.Valid() && enc.codes == x.codes && dec.params == x
    && InStep(State(enc, dec))
  }

  ghost function State(enc: HpackEncoder.Encoder, dec: HpackDecoder.Decoder): Conn
    reads enc, enc.table, dec, dec.table
  {
    Conn(enc.table.Contents(), enc.sizeUpdate, dec.table.Contents(), dec.maxSizeUpdate, dec.lastMaxUpdate)
  }

  /** Decodes the fragments of a block as they arrive, keeping what each call leaves over. */
  method DecodeAll(dec: HpackDecoder.Decoder, fragments: seq<Bytes>)
    returns (headers: seq<Header>, leftover: Bytes, r: Result<()>)
    requires dec.Valid() && fragments != []
    modifies dec, dec.table
    ensures dec.Valid() && dec.maxSizeUpdate == None
    ensures dec.lastMaxUpdate == old(dec.maxSizeUpdate).GetOr(old(dec.lastMaxUpdate))
    ensures Block(headers, dec.table.Contents(), leftover, r)
            == DecodeFragments(dec.params, old(dec.table.Contents()), dec.lastMaxUpdate, [], fragments)
  {
    hide Huffman.Good, DynamicTable.Table.Valid, DynamicTable.Table.Contents, DecodeBlock, DecodeFragments;
    ghost var x, lastMax := dec.params, dec.maxSizeUpdate.GetOr(dec.lastMaxUpdate);
    ghost var whole := DecodeFragments(x, dec.table.Contents(), lastMax, [], fragments);
    headers, leftover := [], [];
    var i := 0;
    assert fragments[0..] == fragments;
    while true
      invariant i < |fragments| && dec.Valid() && dec.maxSizeUpdate.GetOr(dec.lastMaxUpdate) == lastMax
      invariant var rest := DecodeFragments(x, dec.table.Contents(), lastMax, leftover, fragments[i..]);
                whole == rest.(headers := headers + rest.headers)
      decreases |fragments| - i
    {
      FragmentStep(x, dec.table.Contents(), lastMax, headers, leftover, fragments[i..]);
      assert fragments[i..][1..] == fragments[i + 1..];
      var src := new HpackDecoder.Cursor(leftover + fragments[i]);
      var more;
      more, r := dec.Decode(src);
      headers, leftover := headers + more, src.buf;
      if i == |fragments| - 1 || !Tolerated(r) {
        return;
      }
      i := i + 1;
    }
  }

  /** One more fragment. */
  lemma FragmentStep(x: Params, table: Fifo, lastMax: nat, headers: seq<Header>, leftover: Bytes, fragments: seq<Bytes>)
    requires |x.codes| == 257 && fragments != []
    ensures var all := DecodeFragments(x, table, lastMax, leftover, fragments);
            var first := DecodeBlock(x, table, lastMax, true, leftover + fragments[0]);
            if |fragments| == 1 || !Tolerated(first.outcome) then all == first
            else
              var rest := DecodeFragments(x, first.table, lastMax, first.leftover, fragments[1..]);
              all.(headers := headers + all.headers) == rest.(headers := headers + first.headers + rest.headers)
  {
    hide DecodeBlock;
    var first := DecodeBlock(x, table, lastMax, true, leftover + fragments[0]);
    if |fragments| > 1 && Tolerated(first.outcome) {
      var rest := DecodeFragments(x, first.table, lastMax, first.leftover, fragments[1..]);
      assert headers + (first.headers + rest.headers) == headers + first.headers + rest.headers;
    }
  }

  /** Encodes a block, and decodes it again in the fragments in which it arrives. */
  method Transfer(x: Params, enc: HpackEncoder.Encoder, dec: HpackDecoder.Decoder, items: seq<Item>, lens: seq<nat>)
    returns (headers: seq<Header>)
    requires Usable(x) && Paired(x, enc, dec) && AllSendable(x, None, items)
    modifies enc, enc.table, dec, dec.table
    ensures Starts(false, items) && headers == Received(None, items)
    ensures Paired(x, enc, dec) && State(enc, dec) == Advance(x, old(State(enc, dec)), Send(items, lens)).0
  {
    hide Huffman.Good, EncoderTable.Table.Valid, DynamicTable.Table.Valid, BlockReps, RepsBytes, DecodeBlock,
         DecodeFragments, AllSendable, Received, InBounds, EncoderTable.Table.Contents, Cut;
    ghost var c := State(enc, dec);
    ghost var lastMax := if c.queued.Some? then c.queued.value else c.lastMax;
    BlockLockstep(x, c.enc, lastMax, c.pending, items);
    ItemsWritable(x, None, items);
    var bytes := enc.Encode(items, []);
    EventLockstep(x, c, Send(items, lens));
    assert bytes == RepsBytes(x.codes, BlockReps(c.enc, c.pending, items).0);
    var leftover, r;
    headers, leftover, r := DecodeAll(dec, Cut(bytes, lens));
  }

  /** Both sides are told of a new maximum size. */
  method Agree(x: Params, enc: HpackEncoder.Encoder, dec: HpackDecoder.Decoder, size: nat)
    requires Usable(x) && Paired(x, enc, dec) && size <= MaxInt(5)
    modifies enc`sizeUpdate, dec`maxSizeUpdate
    ensures Paired(x, enc, dec) && State(enc, dec) == Advance(x, old(State(enc, dec)), Update(size)).0
  {
    hide Huffman.Good, EncoderTable.Table.Valid, DynamicTable.Table.Valid, EncoderTable.Table.Contents, InStep,
         DynamicTable.Table.Contents, ResizeAll;
    UpdateLockstep(x, State(enc, dec), size);
    Pow2Values();
    enc.UpdateMaxSize(size);
    dec.QueueSizeUpdate(size);
  }

  /**
   A whole connection: the two objects go through any events, with every block cut up at will, and what the decoder
   hands on are the fields that were sent, block by block. Afterwards the two are still in step.
   */
  method Converse(x: Params, enc: HpackEncoder.Encoder, dec: HpackDecoder.Decoder, evs: seq<Event>)
    returns (blocks: seq<seq<Header>>)
    requires Usable(x) && Paired(x, enc, dec) && AllAllowed(x, evs)
    modifies enc, enc.table, dec, dec.table
    ensures forall i :: 0 <= i < |evs| ==> evs[i].Send? ==> Starts(false, evs[i].items)
    ensures blocks == Sent(evs) && Paired(x, enc, dec) && enc.table.Contents() == dec.table.Contents()
    ensures State(enc, dec) == Run(x, old(State(enc, dec)), evs).0
  {
    hide Huffman.Good, EncoderTable.Table.Valid, DynamicTable.Table.Valid, EncoderTable.Table.Contents, InStep,
         DynamicTable.Table.Contents, Advance, Received, Allowed;
    ghost var c := State(enc, dec);
    blocks := [];
    AllowedStarts(x, evs);
    assert evs[0..] == evs;
    for n := 0 to |evs|
      invariant Paired(x, enc, dec)
      invariant blocks + Sent(evs[n..]) == Sent(evs)
      invariant Run(x, State(enc, dec), evs[n..]).0 == Run(x, c, evs).0
    {
      assert Allowed(x, evs[n]) && evs[n..][0] == evs[n] && evs[n..][1..] == evs[n + 1..];
      match evs[n]
      case Update(size) =>
        AllowedIs(x, evs[n]);
        Agree(x, enc, dec, size);
      case Send(items, lens) =>
        AllowedIs(x, evs[n]);
        var headers := Transfer(x, enc, dec, items, lens);
        assert blocks + ([headers] + Sent(evs[n + 1..])) == blocks + [headers] + Sent(evs[n + 1..]);
        blocks := blocks + [headers];
    }
    assert Sent(evs[|evs|..]) == [];
    InStepTables(State(enc, dec));
  }

  lemma AllowedIs(x: Params, ev: Event)
    requires |x.codes| == 257 && Allowed(x, ev)
    ensures if ev.Update? then ev.size <= MaxInt(5) else AllSendable(x, None, ev.items)
  {
  }

  lemma {:induction false} ItemsWritable(x: Params, name: Option<Name>, items: seq<Item>)
    requires |x.codes| == 257 && AllSendable(x, name, items)
    ensures AllWritable(x.codes, items)
    decreases |items|
  {
    hide WellFormed, Huffman.HuffBytes;
    if items != [] {
      match items[0]
      case Named(h) => ItemsWritable(x, Some(h.name), items[1..]);
      case Nameless(_) => ItemsWritable(x, name, items[1..]);
      Pow2Values();
      assert forall i :: 1 <= i < |items| ==> items[i] == items[1..][i - 1];
    }
  }

  // ===== where lockstep ends =====

  /** A string too long for the decoder's integer codec is refused at its length. */
  lemma StringUnreadable(t: CodeTable, s: Bytes, rest: Bytes)
    requires |t| == 257 && Huffman.Good(t) && !EncodableString(t, s)
    ensures ReadString(t, StrBytes(t, s) + rest) == Err(IntegerOverflow)
  {
    hide Pow2, Shl, And, ReadGroups, Groups, Huffman.HuffBytes, ReadInt, IntBytes, Huffman.Good;
    FirstOctets();
    NoOctets(t);
    var h := Huffman.HuffBytes(t, s);
    IntCodec.DecodeEncode(|h|, 7, 0x80, h + rest);
    assert StrBytes(t, s) + rest == IntBytes(|h|, 7, 0x80) + (h + rest);
  }

  lemma NoOctets(t: CodeTable)
    requires |t| == 257
    ensures EncodableString(t, [])
  {
    hide Pow2;
    Pow2Values();
  }

  /** A literal with such a string does not decode. */
  lemma LiteralUnreadable(x: Params, t: Fifo, k: Kind, i: nat, name: Bytes, value: Bytes, rest: Bytes)
    requires Usable(x) && i <= MaxInt(k.Prefix()) && (i > 0 ==> Get(t, i).Ok?)
    requires !Encodable(x.codes, LiteralRep(k, i, name, value))
    ensures var bytes := RepBytes(x.codes, LiteralRep(k, i, name, value)) + rest;
            && bytes != [] && Load(bytes[0]) == Ok(LiteralKind(k))
            && DecodeLiteral(x, t, k, bytes) == Failed(IntegerOverflow, 0)
  {
    hide Pow2, Shl, And, ReadInt, IntBytes, MaxInt, Get, Insert, NewHeader, IntoEntry, ReadString, StrBytes, Load,
         EncodableString, Huffman.Good;
    FirstOctets();
    var bytes := RepBytes(x.codes, LiteralRep(k, i, name, value)) + rest;
    var head, tail := IntBytes(i, k.Prefix(), k.First()), StrBytes(x.codes, value) + rest;
    LoadRanges(head[0]);
    if i == 0 {
      var named := StrBytes(x.codes, name) + tail;
      IntCodec.DecodeEncode(i, k.Prefix(), k.First(), named);
      assert bytes == head + named && bytes[|head|..] == named;
      if EncodableString(x.codes, name) {
        ReadWritten(x.codes, name, tail);
        StringUnreadable(x.codes, value, rest);
        assert bytes[|head| + |StrBytes(x.codes, name)|..] == tail;
      } else {
        StringUnreadable(x.codes, name, tail);
      }
    } else {
      IntCodec.DecodeEncode(i, k.Prefix(), k.First(), tail);
      StringUnreadable(x.codes, value, rest);
      assert bytes == head + tail && bytes[|head|..] == tail;
    }
  }

  /** A representation that would mean a field, but whose strings cannot be read, ends the block. */
  lemma FieldUnreadable(x: Params, t: Fifo, lastMax: nat, canResize: bool, rep: Rep, tail: Bytes)
    requires Usable(x) && IndexFits(rep) && !Encodable(x.codes, rep) && !rep.SizeUpdateRep?
    requires Meaning(x, t, lastMax, canResize, rep).Done?
    ensures DecodeBlock(x, t, lastMax, canResize, RepBytes(x.codes, rep) + tail).outcome == Err(IntegerOverflow)
  {
    hide Huffman.Good, RepBytes, Load, DecodeLiteral, MaxInt, EncodableString, NewHeader, IntoEntry, Get;
    LiteralUnreadable(x, t, rep.kind, rep.nameIdx, rep.name, rep.value, tail);
  }

  /** Fields of any length decode exactly if each of their representations can be read. */
  lemma {:induction false} ItemsBound(x: Params, t: Fifo, lastMax: nat, canResize: bool,
      last: Option<EncoderTable.Index>, name: Option<Name>, items: seq<Item>)
    requires Usable(x) && InBounds(t) && AllWellFormed(x, name, items)
    requires last.Some? == name.Some? && (last.Some? ==> Refers(t, last.value, name.value))
    ensures Starts(last.Some?, items)
    ensures var reps := ItemReps(t, last, items).0;
            DecodeBlock(x, t, lastMax, canResize, RepsBytes(x.codes, reps)).outcome
            == if AllEncodable(x.codes, reps) then Ok(()) else Err(IntegerOverflow)
    decreases |items|
  {
    hide Huffman.Good, InBounds, Refers, Meaning, RepBytes, Encodable, EncoderTable.IndexSpec, HeaderRep, NamelessRep,
         Sendable, Normalize, RepsBytes, DecodeBlock, IndexFits, AllEncodable, WellFormed;
    if items == [] {
      EmptyBlock(x, t, lastMax, canResize);
      NoneEncodable(x.codes);
    } else {
      match items[0]
      case Named(h) =>
        var (index, t') := EncoderTable.IndexSpec(t, h);
        NamedStep(x, t, lastMax, canResize, h);
        ItemsBound(x, t', lastMax, false, Some(index), Some(h.name), items[1..]);
        var reps := ItemReps(t', Some(index), items[1..]).0;
        FieldBound(x, t, lastMax, canResize, HeaderRep(index, h), Normalize(h), t', reps);
      case Nameless(value) =>
        NamelessStep(x, t, lastMax, canResize, last.value, name.value, value);
        ItemsBound(x, t, lastMax, false, last, name, items[1..]);
        var reps := ItemReps(t, last, items[1..]).0;
        FieldBound(x, t, lastMax, canResize, NamelessRep(last.value, value), Header(name.value, value), t, reps);
    }
  }

  predicate AllEncodable(t: CodeTable, reps: seq<Rep>)
    requires |t| == 257
  {
    forall i :: 0 <= i < |reps| ==> Encodable(t, reps[i])
  }

  lemma NoneEncodable(t: CodeTable)
    requires |t| == 257
    ensures AllEncodable(t, [])
  {
  }

  lemma EncodableCons(t: CodeTable, rep: Rep, reps: seq<Rep>)
    requires |t| == 257
    ensures AllEncodable(t, [rep] + reps) <==> Encodable(t, rep) && AllEncodable(t, reps)
  {
    hide Encodable;
    var all := [rep] + reps;
    assert all[0] == rep;
    assert forall i :: 0 <= i < |reps| ==> reps[i] == all[i + 1];
    assert forall i :: 1 <= i < |all| ==> all[i] == reps[i - 1];
  }

  /** One field in front of the rest of a block. */
  lemma FieldBound(x: Params, t: Fifo, lastMax: nat, canResize: bool, rep: Rep, h: Header, t': Fifo, reps: seq<Rep>)
    requires Usable(x) && IndexFits(rep)
    requires Meaning(x, t, lastMax, canResize, rep) == Done(|RepBytes(x.codes, rep)|, Some(h), t')
    requires DecodeBlock(x, t', lastMax, false, RepsBytes(x.codes, reps)).outcome
             == if AllEncodable(x.codes, reps) then Ok(()) else Err(IntegerOverflow)
    ensures DecodeBlock(x, t, lastMax, canResize, RepsBytes(x.codes, [rep] + reps)).outcome
            == if AllEncodable(x.codes, [rep] + reps) then Ok(()) else Err(IntegerOverflow)
  {
    hide Huffman.Good, RepBytes, RepsBytes, DecodeBlock, Encodable, AllEncodable, IndexFits;
    RepsCons(x.codes, rep, reps);
    EncodableCons(x.codes, rep, reps);
    if Encodable(x.codes, rep) {
      BlockCons(x, t, lastMax, canResize, rep, RepsBytes(x.codes, reps));
    } else {
      FieldUnreadable(x, t, lastMax, canResize, rep, RepsBytes(x.codes, reps));
    }
  }

  /** Size updates in front of a block: each has to be read as well. */
  lemma {:induction false} UpdateBound(x: Params, t: Fifo, lastMax: nat, sizes: seq<nat>, reps: seq<Rep>)
    requires Usable(x) && forall i :: 0 <= i < |sizes| ==> sizes[i] <= lastMax
    requires DecodeBlock(x, ResizeAll(t, sizes), lastMax, true, RepsBytes(x.codes, reps)).outcome
             == if AllEncodable(x.codes, reps) then Ok(()) else Err(IntegerOverflow)
    ensures var all := UpdateReps(sizes) + reps;
            DecodeBlock(x, t, lastMax, true, RepsBytes(x.codes, all)).outcome
            == if AllEncodable(x.codes, all) then Ok(()) else Err(IntegerOverflow)
    decreases |sizes|
  {
    hide Huffman.Good, RepBytes, RepsBytes, DecodeBlock, Resize, MaxInt, AllEncodable;
    if sizes == [] {
      assert UpdateReps(sizes) + reps == reps;
    } else {
      var rep, rest := SizeUpdateRep(sizes[0]), UpdateReps(sizes[1..]) + reps;
      assert UpdateReps(sizes) + reps == [rep] + rest;
      RepsCons(x.codes, rep, rest);
      EncodableCons(x.codes, rep, rest);
      UpdateBound(x, Resize(t, sizes[0]), lastMax, sizes[1..], reps);
      if sizes[0] <= MaxInt(5) {
        BlockCons(x, t, lastMax, true, rep, RepsBytes(x.codes, rest));
      } else {
        OversizeUpdate(x, t, lastMax, sizes[0], RepsBytes(x.codes, rest));
      }
    }
  }

  lemma OversizeUpdate(x: Params, t: Fifo, lastMax: nat, size: nat, tail: Bytes)
    requires |x.codes| == 257 && size > MaxInt(5)
    ensures DecodeBlock(x, t, lastMax, true, RepBytes(x.codes, SizeUpdateRep(size)) + tail).outcome
            == Err(IntegerOverflow)
  {
    hide MaxInt, Load, ReadInt, IntBytes;
    FirstOctets();
    IntCodec.DecodeEncode(size, 5, 0x20, tail);
    LoadRanges(IntBytes(size, 5, 0x20)[0]);
  }

  /**
   A block of well-formed fields of any length, with size updates the decoder's bound admits, decodes exactly if the
   decoder's integer codec can hold every size and every length in it; otherwise it is an IntegerOverflow.
   */
  lemma BlockBound(x: Params, t: Fifo, lastMax: nat, p: Option<SizeUpdate>, items: seq<Item>)
    requires Usable(x) && InBounds(t) && AllWellFormed(x, None, items)
    requires forall i :: 0 <= i < |Sizes(p)| ==> Sizes(p)[i] <= lastMax <= EncoderTable.MAX_U32
    ensures Starts(false, items)
    ensures var reps := BlockReps(t, p, items).0;
            DecodeBlock(x, t, lastMax, true, RepsBytes(x.codes, reps)).outcome
            == if AllEncodable(x.codes, reps) then Ok(()) else Err(IntegerOverflow)
  {
    hide Huffman.Good, InBounds, Sizes, ResizeAll, ItemReps, RepsBytes, DecodeBlock, Pow2, AllWellFormed, AllEncodable;
    var t' := ResizeAll(t, Sizes(p));
    ResizeInBounds(t, Sizes(p));
    ItemsBound(x, t', lastMax, true, None, None, items);
    UpdateBound(x, t, lastMax, Sizes(p), ItemReps(t', None, items).0);
  }
}
