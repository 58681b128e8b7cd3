/** Header blocks cut into HEADERS and CONTINUATION frames and put together again, sections 4.1, 6.2 and 6.10
    of RFC 7540. */
module HeaderFraming {
  import opened Bits
  import opened Errors
  import opened Headers
  import opened Representation
  import opened Resumption
  import BlockSize
  import DynamicTable
  import EncoderTable
  import HpackDecoder
  import HpackEncoder
  import Huffman
  import IntCodec
  import Lockstep

  const HEADER_LEN := 9
  const HEADERS := 1
  const CONTINUATION := 9
  const END_HEADERS := 4
  const MAX_MAX_FRAME_SIZE := 0xFF_FFFF

  datatype WireFrame = WireFrame(kind: byte, flag: byte, id: nat, payload: Bytes)

  /** The frame's fields fit their places in the frame header. */
  predicate Writable(f: WireFrame) {
    f.id < 0x8000_0000 && |f.payload| <= MAX_MAX_FRAME_SIZE
  }

  // ===== bytes =====

  /** `n` in `k` octets, most significant first. */
  function BigEndian(n: nat, k: nat): (r: Bytes)
    ensures |r| == k
  {
    if k == 0 then [] else BigEndian(n / 256, k - 1) + [n % 256]
  }

  function FromBigEndian(b: Bytes): nat {
    if b == [] then 0 else 256 * FromBigEndian(b[..|b| - 1]) + b[|b| - 1]
  }

  lemma {:induction false} BigEndianInverse(n: nat, k: nat)
    requires n < Pow2(8 * k)
    ensures FromBigEndian(BigEndian(n, k)) == n
  {
    if k > 0 {
      Pow2Add(8, 8 * (k - 1));
      Pow2Values();
      BigEndianInverse(n / 256, k - 1);
    }
  }

  /** A number below 2^24 has five zero octets in front of its last three. */
  lemma LengthOctets(n: nat)
    requires n <= MAX_MAX_FRAME_SIZE
    ensures BigEndian(n, 8) == [0, 0, 0, 0, 0] + BigEndian(n, 3)
  {
    Pow2Add(16, 8);
    Pow2Values();
    assert Pow2(8 * 3) == 0x100_0000;
    BigEndianZero(5);
    BigEndianSplit(n, 5, 3);
    assert BigEndian(0, 5) == [0, 0, 0, 0, 0];
  }

  lemma {:induction false} BigEndianZero(k: nat)
    ensures forall i :: 0 <= i < k ==> BigEndian(0, k)[i] == 0
  {
    if k > 0 {
      BigEndianZero(k - 1);
    }
  }

  lemma {:induction false} BigEndianSplit(n: nat, j: nat, k: nat)
    requires n < Pow2(8 * k)
    ensures BigEndian(n, j + k) == BigEndian(0, j) + BigEndian(n, k)
  {
    if k == 0 {
      assert Pow2(0) == 1;
      assert BigEndian(0, j) + BigEndian(0, 0) == BigEndian(0, j);
    } else {
      Pow2Add(8, 8 * (k - 1));
      Pow2Values();
      BigEndianSplit(n / 256, j, k - 1);
      assert BigEndian(0, j) + (BigEndian(n / 256, k - 1) + [n % 256])
        == BigEndian(0, j) + BigEndian(n / 256, k - 1) + [n % 256];
    }
  }

  function HeadBytes(kind: byte, flag: byte, id: nat, len: nat): (r: Bytes)
    ensures |r| == HEADER_LEN
  {
    BigEndian(len, 3) + [kind, flag] + BigEndian(id, 4)
  }

  function FrameBytes(f: WireFrame): Bytes {
    HeadBytes(f.kind, f.flag, f.id, |f.payload|) + f.payload
  }

  /** The frame at the front of the input, if it is complete, and what follows it. */
  function ReadFrame(b: Bytes): (r: Option<(WireFrame, Bytes)>)
    ensures r.Some? ==> |r.value.1| < |b|
  {
    if |b| < HEADER_LEN then None
    else
      var len := FromBigEndian(b[..3]);
      if |b| < HEADER_LEN + len then None
      else
        Some((WireFrame(b[3], b[4], FromBigEndian(b[5..9]) % 0x8000_0000, b[HEADER_LEN..HEADER_LEN + len]),
              b[HEADER_LEN + len..]))
  }

  /** Frames are read back as they were written. */
  lemma ReadWritten(f: WireFrame, rest: Bytes)
    requires Writable(f)
    ensures ReadFrame(FrameBytes(f) + rest) == Some((f, rest))
  {
    hide BigEndian, FromBigEndian, Pow2;
    var b := FrameBytes(f) + rest;
    Pow2Add(16, 8);
    Pow2Values();
    BigEndianInverse(|f.payload|, 3);
    BigEndianInverse(f.id, 4);
    assert b[..3] == BigEndian(|f.payload|, 3) && b[5..9] == BigEndian(f.id, 4);
    assert b[HEADER_LEN..HEADER_LEN + |f.payload|] == f.payload && b[HEADER_LEN + |f.payload|..] == rest;
  }

  // ===== splitting =====

  /** The END_HEADERS flag of a frame's flags. */
  predicate EndsHeaders(flag: byte) {
    And(flag, END_HEADERS) == END_HEADERS
  }

  /** A block in frames of at most `max` octets; `flag` belongs to the first frame if that is also the last. */
  function Split(kind: byte, flag: byte, id: nat, hpack: Bytes, max: nat): (r: seq<WireFrame>)
    requires 0 < max && END_HEADERS <= flag
    ensures r != []
    decreases |hpack|
  {
    if |hpack| <= max then [WireFrame(kind, flag, id, hpack)]
    else
      [WireFrame(kind, flag - END_HEADERS, id, hpack[..max])]
      + Split(CONTINUATION, END_HEADERS, id, hpack[max..], max)
  }

  function Payloads(fs: seq<WireFrame>): (r: seq<Bytes>)
    ensures |r| == |fs| && forall i :: 0 <= i < |fs| ==> r[i] == fs[i].payload
  {
    seq(|fs|, i requires 0 <= i < |fs| => fs[i].payload)
  }

  lemma EndFlag(flag: byte)
    requires EndsHeaders(flag)
    ensures END_HEADERS <= flag && !EndsHeaders(flag - END_HEADERS)
  {
    hide And, Shl;
    var h, m := flag / 8, flag % 8;
    assert flag == h * 8 + m;
    BitTwo(h, m);
    assert m >= 4;
    BitTwo(h, m - 4);
  }

  /** The flag is bit 2. */
  lemma BitTwo(h: nat, m: nat)
    requires m < 8
    ensures And(h * 8 + m, 4) == if m >= 4 then 4 else 0
  {
    And8(h, m);
    assert And(0, 0) == 0;
    assert And(4, 4) == And(5, 4) == And(6, 4) == And(7, 4) == 4;
    assert And(0, 4) == And(1, 4) == And(2, 4) == And(3, 4) == 0;
  }

  lemma And8(h: nat, m: nat)
    requires m < 8
    ensures And(h * 8 + m, 4) == And(m, 4)
  {
    hide And, Pow2, Shl;
    Pow2Values();
    ShlIsMul(h, 3);
    ShlIsMul(0, 3);
    AndSplit(3, h, m, 0, 4);
    AndZero(h);
    ShlIsMul(And(h, 0), 3);
  }

  lemma {:induction false} ConcatCons(first: Bytes, rest: seq<Bytes>)
    ensures Concat([first] + rest) == first + Concat(rest)
  {
    assert ([first] + rest)[1..] == rest;
  }

  /** Frame `i` fits the limit, is of the right kind and stream, and ends the block exactly if it is the last. */
  ghost predicate FrameAt(fs: seq<WireFrame>, i: nat, id: nat, max: nat)
    requires i < |fs|
  {
    && |fs[i].payload| <= max && fs[i].id == id && (i > 0 ==> fs[i].kind == CONTINUATION)
    && (EndsHeaders(fs[i].flag) <==> i == |fs| - 1)
  }

  lemma FrameCons(f: WireFrame, rest: seq<WireFrame>, id: nat, max: nat)
    requires rest != [] && rest[0].kind == CONTINUATION && forall i :: 0 <= i < |rest| ==> FrameAt(rest, i, id, max)
    requires |f.payload| <= max && f.id == id && !EndsHeaders(f.flag)
    ensures forall i :: 0 <= i < |rest| + 1 ==> FrameAt([f] + rest, i, id, max)
    ensures Concat(Payloads([f] + rest)) == f.payload + Concat(Payloads(rest))
  {
    hide EndsHeaders, Concat;
    forall i | 0 <= i < |rest| + 1
      ensures FrameAt([f] + rest, i, id, max)
    {
      assert i > 0 ==> FrameAt(rest, i - 1, id, max);
    }
    assert Payloads([f] + rest) == [f.payload] + Payloads(rest);
    ConcatCons(f.payload, Payloads(rest));
  }

  /**
   The payloads concatenate to the block, each fits the limit, all frames after the first are CONTINUATION frames
   of the same stream, and the last frame alone carries END_HEADERS.
   */
  lemma {:induction false} SplitLaws(kind: byte, flag: byte, id: nat, hpack: Bytes, max: nat)
    requires 0 < max && EndsHeaders(flag)
    ensures END_HEADERS <= flag
    ensures var fs := Split(kind, flag, id, hpack, max);
            && Concat(Payloads(fs)) == hpack && fs[0].kind == kind
            && forall i :: 0 <= i < |fs| ==> FrameAt(fs, i, id, max)
    decreases |hpack|
  {
    hide EndsHeaders, Concat, Payloads;
    EndFlag(flag);
    if |hpack| <= max {
      OnePayload(WireFrame(kind, flag, id, hpack));
    } else {
      EndFlagOnly();
      SplitLaws(CONTINUATION, END_HEADERS, id, hpack[max..], max);
      FrameCons(WireFrame(kind, flag - END_HEADERS, id, hpack[..max]),
                Split(CONTINUATION, END_HEADERS, id, hpack[max..], max), id, max);
      assert hpack[..max] + hpack[max..] == hpack;
    }
  }

  lemma OnePayload(f: WireFrame)
    ensures Concat(Payloads([f])) == f.payload
  {
    assert Payloads([f]) == [f.payload] + [];
    ConcatCons(f.payload, []);
    assert Concat([]) == [];
  }

  lemma EndFlagOnly()
    ensures EndsHeaders(END_HEADERS)
  {
    assert And(0, 0) == 0;
  }

  // ===== the writer =====

  /** What is left of a header block after a frame of it. */
  datatype Rest = Rest(id: nat, hpack: Bytes)

  /** Appends one frame with as much of the block as `limit` octets hold; its length is filled in afterwards. */
  method EncodeBlock(kind: byte, flag: byte, id: nat, hpack: Bytes, dst: Bytes, limit: nat)
    returns (r: Bytes, rest: Option<Rest>)
    requires HEADER_LEN < limit <= HEADER_LEN + MAX_MAX_FRAME_SIZE && EndsHeaders(flag)
    ensures END_HEADERS <= flag
    ensures var max := limit - HEADER_LEN;
            var fs := Split(kind, flag, id, hpack, max);
            && r == dst + FrameBytes(fs[0])
            && (rest.None? <==> |hpack| <= max)
            && (rest.Some? ==> rest.value == Rest(id, hpack[max..]))
  {
    hide BigEndian, EndsHeaders;
    EndFlag(flag);
    var headPos := |dst|;
    r := dst + HeadBytes(kind, flag, id, 0);
    var payloadPos := |r|;
    var remaining: nat := limit - HEADER_LEN;
    if |hpack| > remaining {
      r := r + hpack[..remaining];
      rest := Some(Rest(id, hpack[remaining..]));
    } else {
      r := r + hpack;
      rest := None;
    }
    var payloadLen: nat := |r| - payloadPos;
    var be := BigEndian(payloadLen, 8);
    LengthOctets(payloadLen);
    assert forall i :: 0 <= i < 5 ==> be[i] == 0;
    r := r[headPos := be[5]][headPos + 1 := be[6]][headPos + 2 := be[7]];
    if rest.Some? {
      assert r[headPos + 4] == flag;
      r := r[headPos + 4 := r[headPos + 4] - END_HEADERS];
    }
    ghost var f := Split(kind, flag, id, hpack, remaining)[0];
    assert BigEndian(payloadLen, 3) == [be[5], be[6], be[7]];
    assert r == dst + FrameBytes(f);
  }

  /** The octets of the frames, one after the other. */
  function AllBytes(fs: seq<WireFrame>): Bytes {
    if fs == [] then [] else FrameBytes(fs[0]) + AllBytes(fs[1..])
  }

  lemma AllCons(f: WireFrame, fs: seq<WireFrame>)
    ensures AllBytes([f] + fs) == FrameBytes(f) + AllBytes(fs)
  {
    assert ([f] + fs)[1..] == fs;
  }

  class FramedWrite {
    var buf: Bytes
    /** How much of the buffer has been written to the transport. */
    var pos: nat
    var next: Option<Rest>
    const maxFrameSize: nat

    ghost predicate Valid()
      reads this
    {
      pos <= |buf| && 0 < maxFrameSize <= MAX_MAX_FRAME_SIZE
    }

    constructor (maxFrameSize: nat)
      requires 0 < maxFrameSize <= MAX_MAX_FRAME_SIZE
      ensures Valid() && Unwritten() == [] && this.maxFrameSize == maxFrameSize
    {
      buf, pos, next := [], 0, None;
      this.maxFrameSize := maxFrameSize;
    }

    /** Everything that is still to be written: the buffer, and the frames of the rest of the block. */
    ghost function Unwritten(): Bytes
      requires Valid()
      reads this
    {
      buf[pos..] + match next
                   case None => []
                   case Some(rest) => AllBytes(Split(CONTINUATION, END_HEADERS, rest.id, rest.hpack, maxFrameSize))
    }

    /** Buffers a header block, the first frame of it at once. */
    method BufferHeaders(flag: byte, id: nat, hpack: Bytes)
      requires Valid() && next.None? && EndsHeaders(flag)
      modifies this
      ensures Valid() && END_HEADERS <= flag
      ensures Unwritten() == old(Unwritten()) + AllBytes(Split(HEADERS, flag, id, hpack, maxFrameSize))
    {
      hide EndsHeaders, FrameBytes, Split;
      ghost var before := buf[pos..];
      SplitStep(HEADERS, flag, id, hpack, maxFrameSize);
      EndFlagOnly();
      buf, next := EncodeBlock(HEADERS, flag, id, hpack, buf, maxFrameSize + HEADER_LEN);
      assert buf[pos..] == before + FrameBytes(Split(HEADERS, flag, id, hpack, maxFrameSize)[0]);
    }

    /** The buffer has been written out; puts the next frame in it and says whether there was one. */
    method UnsetFrame() returns (more: bool)
      requires Valid() && pos == |buf|
      modifies this
      ensures Valid() && Unwritten() == old(Unwritten())
      ensures more == old(next).Some? && (!more ==> next.None? && Unwritten() == [])
      ensures more && next.Some? ==> |next.value.hpack| < |old(next).value.hpack|
    {
      hide EndsHeaders, FrameBytes, Split;
      pos := 0;
      buf := [];
      if next.None? {
        return false;
      }
      var rest := next.value;
      EndFlagOnly();
      SplitStep(CONTINUATION, END_HEADERS, rest.id, rest.hpack, maxFrameSize);
      buf, next := EncodeBlock(CONTINUATION, END_HEADERS, rest.id, rest.hpack, buf, maxFrameSize + HEADER_LEN);
      assert buf[pos..] == FrameBytes(Split(CONTINUATION, END_HEADERS, rest.id, rest.hpack, maxFrameSize)[0]);
      return true;
    }

    /** Hands the transport what it accepts of the buffer. */
    method PollWrite(accept: nat) returns (chunk: Bytes)
      requires Valid() && pos < |buf| && accept > 0
      modifies `pos
      ensures Valid() && pos > old(pos) && chunk != [] && chunk + Unwritten() == old(Unwritten())
    {
      hide EndsHeaders, FrameBytes, Split, AllBytes;
      var n := if accept < |buf| - pos then accept else |buf| - pos;
      assert buf[pos..] == buf[pos..pos + n] + buf[pos + n..];
      chunk := buf[pos..pos + n];
      pos := pos + n;
    }

    /**
     Writes until nothing is left or the transport takes no more. `accepts` is how much it takes each time it is
     asked; once it takes nothing, or that runs out, the rest is written by the next flush.
     */
    method Flush(accepts: seq<nat>) returns (out: Bytes, done: bool)
      requires Valid()
      modifies this
      ensures Valid() && out + Unwritten() == old(Unwritten())
      ensures done ==> Unwritten() == [] && next.None? && out == old(Unwritten())
      ensures !done ==> |accepts| <= |out| || exists i :: 0 <= i < |accepts| && accepts[i] == 0
    {
      hide EndsHeaders, Unwritten;
      out := [];
      var asked := 0;
      while true
        invariant Valid() && out + Unwritten() == old(Unwritten())
        invariant asked <= |accepts| && asked <= |out|
        decreases if next.Some? then |next.value.hpack| + 1 else 0
      {
        ghost var rest := next;
        while pos < |buf|
          invariant Valid() && out + Unwritten() == old(Unwritten()) && next == rest
          invariant asked <= |accepts| && asked <= |out|
          decreases |buf| - pos
        {
          if asked == |accepts| || accepts[asked] == 0 {
            return out, false;
          }
          var chunk := PollWrite(accepts[asked]);
          out := out + chunk;
          asked := asked + 1;
        }
        var more := UnsetFrame();
        if !more {
          return out, true;
        }
      }
    }
  }

  lemma SplitStep(kind: byte, flag: byte, id: nat, hpack: Bytes, max: nat)
    requires 0 < max && EndsHeaders(flag)
    ensures END_HEADERS <= flag
    ensures var fs := Split(kind, flag, id, hpack, max);
            AllBytes(fs) == FrameBytes(fs[0]) + if |hpack| <= max then []
                                                else AllBytes(Split(CONTINUATION, END_HEADERS, id, hpack[max..], max))
  {
    hide FrameBytes, EndsHeaders;
    EndFlag(flag);
    var fs := Split(kind, flag, id, hpack, max);
    if |hpack| <= max {
      assert fs == [fs[0]] + [];
      AllCons(fs[0], []);
    } else {
      AllCons(fs[0], Split(CONTINUATION, END_HEADERS, id, hpack[max..], max));
    }
  }

  // ===== the reader =====

  /** A header block that is not complete: the octets left over, and what has been decoded of it. */
  datatype Partial = Partial(id: nat, leftover: Bytes, count: nat, headers: seq<Header>)

  /** What a frame comes to: more to follow, a complete block, or a connection error. */
  datatype Received = More | Complete(id: nat, headers: seq<Header>) | Bad(error: ReadError)

  datatype ReadError = ProtocolError | TooManyContinuations

  /** How many frames a block may be cut into. */
  function MaxContinuations(headerMax: nat, frameMax: nat): nat
    requires frameMax > 0
  {
    var least := if headerMax / frameMax == 0 then 1 else headerMax / frameMax;
    var padded := least + least / 4;
    if padded < 5 then 5 else padded
  }

  /** The state of the reader: its tables and the block it is in the middle of. */
  datatype ReadState = ReadState(table: Fifo, partial: Option<Partial>)

  type Fifo = DynamicTable.Fifo

  /** Decodes one more fragment of a header block. */
  function ReadFragment(x: Params, st: ReadState, lastMax: nat, p: Partial, fragment: Bytes, end: bool)
    : (ReadState, Received)
    requires |x.codes| == 257
  {
    var block := DecodeBlock(x, st.table, lastMax, true, p.leftover + fragment);
    var headers := p.headers + block.headers;
    if block.outcome.Err? && !(block.outcome.error.NeedMore? && !end)
      then (ReadState(block.table, None), Bad(ProtocolError))
    else if end then (ReadState(block.table, None), Complete(p.id, headers))
    else (ReadState(block.table, Some(p.(leftover := block.leftover, headers := headers))), More)
  }

  /** Frames of a header block must follow each other, on one stream, and not too many of them. */
  function ReadHeaderFrame(x: Params, st: ReadState, lastMax: nat, maxContinuations: nat, f: WireFrame)
    : (ReadState, Received)
    requires |x.codes| == 257
  {
    var end := EndsHeaders(f.flag);
    if st.partial.Some? != (f.kind == CONTINUATION) then (st, Bad(ProtocolError))
    else if f.kind != CONTINUATION then ReadFragment(x, st, lastMax, Partial(f.id, [], 0, []), f.payload, end)
    else
      var p := st.partial.value;
      if p.id != f.id then (st.(partial := None), Bad(ProtocolError))
      else if !end && p.count + 1 > maxContinuations then (st.(partial := None), Bad(TooManyContinuations))
      else ReadFragment(x, st, lastMax, p.(count := if end then 0 else p.count + 1), f.payload, end)
  }

  class FramedRead {
    const hpack: HpackDecoder.Decoder
    const maxContinuations: nat
    var partial: Option<Partial>

    constructor (hpack: HpackDecoder.Decoder, maxContinuations: nat)
      ensures this.hpack == hpack && this.maxContinuations == maxContinuations && partial == None
    {
      this.hpack, this.maxContinuations := hpack, maxContinuations;
      partial := None;
    }

    /** Decodes a HEADERS or CONTINUATION frame. */
    method DecodeFrame(f: WireFrame) returns (r: Received)
      requires hpack.Valid()
      modifies this, hpack, hpack.table
      ensures hpack.Valid()
      ensures var lastMax := old(hpack.maxSizeUpdate).GetOr(old(hpack.lastMaxUpdate));
              (ReadState(hpack.table.Contents(), partial), r)
              == ReadHeaderFrame(hpack.params, ReadState(old(hpack.table.Contents()), old(partial)),
                                 lastMax, maxContinuations, f)
    {
      hide DecodeBlock, EndsHeaders, Huffman.Good;
      var end := EndsHeaders(f.flag);
      if partial.Some? && f.kind != CONTINUATION {
        return Bad(ProtocolError);
      }
      if f.kind != CONTINUATION {
        r := LoadHpack(Partial(f.id, [], 0, []), f.payload, end);
        return;
      }
      if partial.None? {
        return Bad(ProtocolError);
      }
      var p := partial.value;
      partial := None;
      if p.id != f.id {
        return Bad(ProtocolError);
      }
      if end {
        p := p.(count := 0);
      } else {
        var cnt := p.count + 1;
        if cnt > maxContinuations {
          return Bad(TooManyContinuations);
        }
        p := p.(count := cnt);
      }
      r := LoadHpack(p, f.payload, end);
    }

    /** Decodes what was left over together with the new fragment. */
    method LoadHpack(p: Partial, fragment: Bytes, end: bool) returns (r: Received)
      requires hpack.Valid() && partial.None?
      modifies this, hpack, hpack.table
      ensures hpack.Valid()
      ensures var lastMax := old(hpack.maxSizeUpdate).GetOr(old(hpack.lastMaxUpdate));
              (ReadState(hpack.table.Contents(), partial), r)
              == ReadFragment(hpack.params, ReadState(old(hpack.table.Contents()), None), lastMax, p, fragment, end)
    {
      hide DecodeBlock, Huffman.Good;
      var src := new HpackDecoder.Cursor(p.leftover + fragment);
      var headers, outcome := hpack.Decode(src);
      if outcome.Err? && !(outcome.error.NeedMore? && !end) {
        return Bad(ProtocolError);
      }
      if end {
        return Complete(p.id, p.headers + headers);
      }
      partial := Some(p.(leftover := src.buf, headers := p.headers + headers));
      return More;
    }
  }

  /** Reading frames until a block is complete or an error ends the connection. */
  function ReadFrames(x: Params, st: ReadState, lastMax: nat, maxContinuations: nat, fs: seq<WireFrame>)
    : (ReadState, Received)
    requires |x.codes| == 257
    decreases |fs|
  {
    if fs == [] then (st, More)
    else
      var (st', r) := ReadHeaderFrame(x, st, lastMax, maxContinuations, fs[0]);
      if r.More? then ReadFrames(x, st', lastMax, maxContinuations, fs[1..]) else (st', r)
  }

  /** The rest of a block that has been cut up is read as if it had come in one piece. */
  lemma {:induction false} RestReassembled(x: Params, table: Fifo, lastMax: nat, maxContinuations: nat, p: Partial,
      hpack: Bytes, max: nat)
    requires |x.codes| == 257 && 0 < max
    requires DecodeBlock(x, table, lastMax, true, p.leftover + hpack).outcome.Ok?
    ensures var fs := Split(CONTINUATION, END_HEADERS, p.id, hpack, max);
            var whole := DecodeBlock(x, table, lastMax, true, p.leftover + hpack);
            var (st, r) := ReadFrames(x, ReadState(table, Some(p)), lastMax, maxContinuations, fs);
            if p.count + (|fs| - 1) <= maxContinuations || |fs| == 1
            then r == Complete(p.id, p.headers + whole.headers) && st == ReadState(whole.table, None)
            else r == Bad(TooManyContinuations)
    decreases |hpack|
  {
    hide DecodeBlock, EndsHeaders;
    EndFlagOnly();
    EndFlag(END_HEADERS);
    var st := ReadState(table, Some(p));
    var fs := Split(CONTINUATION, END_HEADERS, p.id, hpack, max);
    if |hpack| <= max {
      assert p.leftover + hpack == p.leftover + fs[0].payload;
    } else if p.count + 1 <= maxContinuations {
      var a, b := p.leftover + hpack[..max], hpack[max..];
      assert p.leftover + hpack == a + b;
      CutInTwo(x, table, lastMax, true, a, b);
      var first := DecodeBlock(x, table, lastMax, true, a);
      var p' := p.(leftover := first.leftover, headers := p.headers + first.headers, count := p.count + 1);
      RestReassembled(x, first.table, lastMax, maxContinuations, p', b, max);
      assert fs[1..] == Split(CONTINUATION, END_HEADERS, p.id, b, max);
      var second := DecodeBlock(x, first.table, lastMax, true, first.leftover + b);
      assert p'.headers + second.headers == p.headers + (first.headers + second.headers);
    }
  }

  /**
   A block that decodes in one piece decodes to the same headers and leaves the same table after having been cut
   into frames, unless there are more frames than the reader allows.
   */
  lemma Reassembled(x: Params, table: Fifo, lastMax: nat, maxContinuations: nat, flag: byte, id: nat, hpack: Bytes,
                    max: nat)
    requires |x.codes| == 257 && 0 < max && EndsHeaders(flag)
    requires DecodeBlock(x, table, lastMax, true, hpack).outcome.Ok?
    ensures END_HEADERS <= flag
    ensures var fs := Split(HEADERS, flag, id, hpack, max);
            var whole := DecodeBlock(x, table, lastMax, true, hpack);
            var (st, r) := ReadFrames(x, ReadState(table, None), lastMax, maxContinuations, fs);
            if |fs| <= maxContinuations + 2 then r == Complete(id, whole.headers) && st == ReadState(whole.table, None)
            else r == Bad(TooManyContinuations)
  {
    hide DecodeBlock, EndsHeaders;
    EndFlagOnly();
    EndFlag(flag);
    var fs := Split(HEADERS, flag, id, hpack, max);
    var st := ReadState(table, None);
    if |hpack| <= max {
      assert [] + fs[0].payload == hpack;
      var whole := DecodeBlock(x, table, lastMax, true, hpack);
      assert [] + whole.headers == whole.headers;
    } else {
      var a, b := hpack[..max], hpack[max..];
      assert hpack == a + b && [] + a == a;
      CutInTwo(x, table, lastMax, true, a, b);
      var first := DecodeBlock(x, table, lastMax, true, a);
      assert [] + first.headers == first.headers;
      RestReassembled(x, first.table, lastMax, maxContinuations, Partial(id, first.leftover, 0, first.headers), b, max);
      assert fs[1..] == Split(CONTINUATION, END_HEADERS, id, b, max);
      var second := DecodeBlock(x, first.table, lastMax, true, first.leftover + b);
    }
  }

  lemma {:induction false} SplitCount(kind: byte, flag: byte, id: nat, hpack: Bytes, max: nat)
    requires 0 < max && END_HEADERS <= flag
    ensures |Split(kind, flag, id, hpack, max)| == if hpack == [] then 1 else (|hpack| - 1) / max + 1
    decreases |hpack|
  {
    if |hpack| > max {
      SplitCount(CONTINUATION, END_HEADERS, id, hpack[max..], max);
      DivStep(|hpack| - 1, max);
    } else if hpack != [] {
      DivSmall(|hpack| - 1, max);
    }
  }

  lemma DivStep(n: nat, d: nat)
    requires 0 < d <= n
    ensures n / d == (n - d) / d + 1
  {
    var q, r := (n - d) / d, (n - d) % d;
    assert n == (q + 1) * d + r;
    ModUnique(n, d, q + 1, r);
  }

  lemma DivSmall(n: nat, d: nat)
    requires n < d
    ensures n / d == 0
  {
  }

  /** A block is cut into at most `k` frames exactly if it is no longer than `k` full ones. */
  lemma FramesWithin(kind: byte, flag: byte, id: nat, hpack: Bytes, max: nat, k: nat)
    requires 0 < max && END_HEADERS <= flag && 0 < k
    ensures |Split(kind, flag, id, hpack, max)| <= k <==> |hpack| <= k * max
  {
    SplitCount(kind, flag, id, hpack, max);
    if hpack != [] {
      DivBelow(|hpack| - 1, max, k);
    }
  }

  lemma DivBelow(n: nat, d: nat, k: nat)
    requires 0 < d
    ensures n / d < k <==> n < k * d
  {
    var q := n / d;
    assert q * d <= n < (q + 1) * d;
    if q < k {
      MulAtMost(q + 1, k, d);
    } else {
      MulAtMost(k, q, d);
    }
  }

  lemma MulAtMost(a: nat, b: nat, d: nat)
    requires a <= b
    ensures a * d <= b * d
  {
  }

  lemma MulMore(a: nat, b: nat, c: nat)
    requires b <= c
    ensures a * b <= a * c
  {
  }

  // ===== from one end to the other =====

  /** Reads the frames of a byte stream, one after the other. */
  function ParseAll(b: Bytes): seq<WireFrame>
    decreases |b|
  {
    match ReadFrame(b)
    case None => []
    case Some((f, rest)) => [f] + ParseAll(rest)
  }

  lemma {:induction false} ParseWritten(fs: seq<WireFrame>)
    requires forall i :: 0 <= i < |fs| ==> Writable(fs[i])
    ensures ParseAll(AllBytes(fs)) == fs
  {
    hide FrameBytes, ReadFrame, Writable;
    if fs == [] {
      NothingRead();
    } else {
      ReadWritten(fs[0], AllBytes(fs[1..]));
      ParseWritten(fs[1..]);
    }
  }

  lemma NothingRead()
    ensures ReadFrame([]) == None
  {
  }

  /**
   Fields go in at the encoder, are compressed, framed, written, parsed, put together and decompressed: what comes
   out is what went in, and the two dynamic tables agree; unless the block is longer than the frames that the reader
   allows can carry, as its integers and codes are long: then, and only then, it is refused.
   */
  lemma EndToEnd(x: Params, table: Fifo, lastMax: nat, pending: Option<HpackEncoder.SizeUpdate>,
                 items: seq<HpackEncoder.Item>, flag: byte, id: nat, max: nat, maxContinuations: nat)
    requires Lockstep.Usable(x) && Lockstep.InBounds(table) && Lockstep.AllSendable(x, None, items)
    requires forall i :: 0 <= i < |HpackEncoder.Sizes(pending)| ==>
               HpackEncoder.Sizes(pending)[i] <= lastMax && HpackEncoder.Sizes(pending)[i] <= IntCodec.MaxInt(5)
    requires 0 < max <= MAX_MAX_FRAME_SIZE && EndsHeaders(flag) && id < 0x8000_0000
    ensures HpackEncoder.Starts(false, items) && END_HEADERS <= flag
    ensures var (st, r) := Sent(x, table, lastMax, pending, items, flag, id, max, maxContinuations);
            if BlockSize.BlockOctets(x, table, pending, items) <= (maxContinuations + 2) * max
            then
              && r == Complete(id, Lockstep.Received(None, items))
              && st == ReadState(HpackEncoder.BlockReps(table, pending, items).1, None)
            else r == Bad(TooManyContinuations)
  {
    hide DecodeBlock, EndsHeaders, HpackEncoder.BlockReps, HpackEncoder.RepsBytes, Lockstep.Received, ReadFrames,
         Lockstep.InBounds, Lockstep.AllSendable, ParseAll, AllBytes, Split, IntCodec.MaxInt, HpackEncoder.Sizes,
         BlockSize.RepsOctets;
    Lockstep.BlockLockstep(x, table, lastMax, pending, items);
    var reps := HpackEncoder.BlockReps(table, pending, items).0;
    var hpack := HpackEncoder.RepsBytes(x.codes, reps);
    EndFlag(flag);
    var fs := Split(HEADERS, flag, id, hpack, max);
    SplitLaws(HEADERS, flag, id, hpack, max);
    forall i | 0 <= i < |fs|
      ensures Writable(fs[i])
    {
      assert FrameAt(fs, i, id, max);
    }
    ParseWritten(fs);
    Reassembled(x, table, lastMax, maxContinuations, flag, id, hpack, max);
    FramesWithin(HEADERS, flag, id, hpack, max, maxContinuations + 2);
    BlockSize.RepsOctetsIs(x.codes, reps);
  }

  /** What the reader makes of the frames of a block that the writer cuts at `max`. */
  function Sent(x: Params, table: Fifo, lastMax: nat, pending: Option<HpackEncoder.SizeUpdate>,
                items: seq<HpackEncoder.Item>, flag: byte, id: nat, max: nat, maxContinuations: nat)
    : (ReadState, Received)
    requires |x.codes| == 257 && HpackEncoder.Starts(false, items) && 0 < max && END_HEADERS <= flag
  {
    var hpack := HpackEncoder.RepsBytes(x.codes, HpackEncoder.BlockReps(table, pending, items).0);
    ReadFrames(x, ReadState(table, None), lastMax, maxContinuations,
               ParseAll(AllBytes(Split(HEADERS, flag, id, hpack, max))))
  }

  // ===== the limit on header lists, and the number of frames =====

  /**
   The limit on header lists counts decoded octets, the limit on frames encoded ones. If no octet of the fields has a
   code longer than `l` bits, a list within the first limit is within the second, as long as `l` bits for every octet
   of the limit fit the frames allowed. They do for codes of up to ten bits if the writer's frames are no smaller than
   those that the reader reckons with.
   */
  lemma WithinLimit(x: Params, table: Fifo, pending: Option<HpackEncoder.SizeUpdate>, items: seq<HpackEncoder.Item>,
                    max: nat, headerMax: nat, frameMax: nat, l: nat)
    requires Lockstep.Usable(x) && Lockstep.InBounds(table) && Lockstep.AllSendable(x, None, items)
    requires forall i :: 0 <= i < |HpackEncoder.Sizes(pending)| ==>
               HpackEncoder.Sizes(pending)[i] <= 0xFFFF_FFFF && HpackEncoder.Sizes(pending)[i] <= IntCodec.MaxInt(5)
    requires 0 < frameMax && 7 <= l && BlockSize.AllCoded(x.codes, items, l)
    ensures HpackEncoder.Starts(false, items)
    ensures var allowed := MaxContinuations(headerMax, frameMax) + 2;
            && (BlockSize.ListSize(Lockstep.Received(None, items)) <= headerMax
                && l * headerMax <= 8 * (allowed * max) && 10 <= allowed * max ==>
                  BlockSize.BlockOctets(x, table, pending, items) <= allowed * max)
            && (l <= 10 && 2 <= frameMax <= max ==> l * headerMax <= 8 * (allowed * max) && 10 <= allowed * max)
  {
    hide Huffman.Good, Lockstep.InBounds, Lockstep.AllSendable, Lockstep.Received, MaxContinuations,
         HpackEncoder.Sizes, BlockSize.AllCoded, BlockSize.ListSize, BlockSize.BlockOctets, IntCodec.MaxInt;
    BlockSize.BlockWithin(x, table, pending, items, l);
    var allowed := MaxContinuations(headerMax, frameMax) + 2;
    var size := BlockSize.ListSize(Lockstep.Received(None, items));
    if size <= headerMax {
      MulMore(l, size, headerMax);
    }
    if l <= 10 && 2 <= frameMax <= max {
      EnoughFrames(headerMax, frameMax);
      MulMore(allowed, frameMax, max);
      MulAtMost(l, 10, headerMax);
      MulAtMost(7, allowed, frameMax);
    }
  }

  lemma EnoughFrames(headerMax: nat, frameMax: nat)
    requires 0 < frameMax
    ensures MaxContinuations(headerMax, frameMax) >= 5
    ensures 10 * headerMax <= 8 * ((MaxContinuations(headerMax, frameMax) + 2) * frameMax)
  {
    var q := headerMax / frameMax;
    var allowed := MaxContinuations(headerMax, frameMax) + 2;
    DivAbove(headerMax, frameMax);
    assert 10 * (q + 1) <= 8 * allowed;
    MulAtMost(10 * (q + 1), 8 * allowed, frameMax);
    Regroup(10, q + 1, frameMax);
    Regroup(8, allowed, frameMax);
  }

  lemma DivAbove(n: nat, d: nat)
    requires 0 < d
    ensures n < (n / d + 1) * d
  {
  }

  lemma Regroup(a: nat, b: nat, c: nat)
    ensures a * b * c == a * (b * c)
  {
  }

  /** The one field of a list, under a name of one octet that is in no static entry. */
  function OneField(value: Bytes): seq<HpackEncoder.Item> {
    [HpackEncoder.Named(Header(Field([120]), value))]
  }

  /** A single field that is written out in more octets than the frames allowed can carry is refused. */
  lemma LongFieldRefused(x: Params, size: nat, lastMax: nat, value: Bytes, m: nat, flag: byte, id: nat, max: nat,
                         maxContinuations: nat)
    requires Lockstep.Usable(x) && size <= 0xFFFF_FFFF && 0 < max <= MAX_MAX_FRAME_SIZE
    requires EndsHeaders(flag) && id < 0x8000_0000
    requires 13 < |value| < 0x400_0000 && BlockSize.CodesFrom(x.codes, value, m)
    requires m * |value| > 8 * ((maxContinuations + 2) * max)
    ensures END_HEADERS <= flag && BlockSize.ListSize(Lockstep.Received(None, OneField(value))) == |value| + 33
    ensures Sent(x, DynamicTable.Fifo([], size), lastMax, None, OneField(value), flag, id, max, maxContinuations).1
            == Bad(TooManyContinuations)
  {
    hide Huffman.Good, EndsHeaders, IntCodec.MaxInt, EncodableString, BlockSize.CodesFrom, BlockSize.RepOctets,
         ReadFrames;
    var table := DynamicTable.Fifo([], size);
    OneFieldSendable(x, value);
    OneFieldReceived(value);
    assert DynamicTable.Size([]) == 0;
    EndToEnd(x, table, lastMax, None, OneField(value), flag, id, max, maxContinuations);
    BlockSize.ValueWritten(x.codes, table, Header(Field([120]), value), m);
    OneFieldOctets(x, table, value);
  }

  lemma OneFieldSendable(x: Params, value: Bytes)
    requires Lockstep.Usable(x) && |value| < 0x400_0000
    ensures Lockstep.AllSendable(x, None, OneField(value))
  {
    var h := Header(Field([120]), value);
    BlockSize.ShortEncodable(x.codes, [120]);
    BlockSize.ShortEncodable(x.codes, value);
    hide Huffman.Good, EncodableString;
    assert Lockstep.Sendable(x, h);
    assert OneField(value)[1..] == [];
  }

  lemma OneFieldReceived(value: Bytes)
    ensures BlockSize.ListSize(Lockstep.Received(None, OneField(value))) == |value| + 33
  {
    hide Normalize;
    var h := Header(Field([120]), value);
    BlockSize.NormalizeSize(h);
    assert OneField(value)[1..] == [];
    var headers := Lockstep.Received(None, OneField(value));
    assert headers == [Normalize(h)] && headers[1..] == [];
  }

  lemma OneFieldOctets(x: Params, table: Fifo, value: Bytes)
    requires |x.codes| == 257
    ensures var h := Header(Field([120]), value);
            BlockSize.BlockOctets(x, table, None, OneField(value))
            == BlockSize.RepOctets(x.codes, HpackEncoder.HeaderRep(EncoderTable.IndexSpec(table, h).0, h))
  {
    hide BlockSize.RepOctets, EncoderTable.IndexSpec, HpackEncoder.HeaderRep;
    var h := Header(Field([120]), value);
    assert OneField(value)[1..] == [];
    assert HpackEncoder.Sizes(None) == [] && HpackEncoder.ResizeAll(table, []) == table;
    var (index, t) := EncoderTable.IndexSpec(table, h);
    var rep := HpackEncoder.HeaderRep(index, h);
    assert HpackEncoder.ItemReps(t, Some(index), []).0 == [];
    assert HpackEncoder.ItemReps(table, None, OneField(value)).0 == [rep] + [] == [rep];
    assert HpackEncoder.BlockReps(table, None, OneField(value)).0 == HpackEncoder.UpdateReps([]) + [rep] == [rep];
    assert [rep][1..] == [];
    assert BlockSize.RepsOctets(x.codes, []) == 0;
  }

  /**
   Octets with long codes: the longest codes have thirty bits, and the newline has such a one in Appendix B of
   RFC 7541. Six million newlines are well within a limit of 16 MB, and take more octets than the frames that go with
   that limit can carry, though writer and reader agree on their size.
   */
  lemma LongCodesRefused(x: Params, size: nat, lastMax: nat, value: Bytes, flag: byte, id: nat)
    requires Lockstep.Usable(x) && x.codes[10].0 == 30 && size <= 0xFFFF_FFFF
    requires EndsHeaders(flag) && id < 0x8000_0000
    requires |value| == 6_000_000 && forall i :: 0 <= i < |value| ==> value[i] == 10
    ensures END_HEADERS <= flag && BlockSize.ListSize(Lockstep.Received(None, OneField(value))) < 16_777_216
    ensures Sent(x, DynamicTable.Fifo([], size), lastMax, None, OneField(value), flag, id, 16_384,
                 MaxContinuations(16_777_216, 16_384)).1
            == Bad(TooManyContinuations)
  {
    hide Huffman.Good, EndsHeaders, Sent;
    assert MaxContinuations(16_777_216, 16_384) == 1280;
    LongFieldRefused(x, size, lastMax, value, 30, flag, id, 16_384, 1280);
  }

  /** Small frames: any field of 200,000 octets is refused if the reader reckons with the largest frames there are. */
  lemma SmallFramesRefused(x: Params, size: nat, lastMax: nat, value: Bytes, flag: byte, id: nat)
    requires Lockstep.Usable(x) && size <= 0xFFFF_FFFF
    requires EndsHeaders(flag) && id < 0x8000_0000 && |value| == 200_000
    ensures END_HEADERS <= flag && BlockSize.ListSize(Lockstep.Received(None, OneField(value))) < 16_777_216
    ensures Sent(x, DynamicTable.Fifo([], size), lastMax, None, OneField(value), flag, id, 16_384,
                 MaxContinuations(16_777_216, 16_777_215)).1
            == Bad(TooManyContinuations)
  {
    BlockSize.FiveBits(x.codes, value);
    hide Huffman.Good, EndsHeaders, Sent;
    assert MaxContinuations(16_777_216, 16_777_215) == 5;
    LongFieldRefused(x, size, lastMax, value, 5, flag, id, 16_384, 5);
  }
}
