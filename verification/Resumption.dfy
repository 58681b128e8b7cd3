/** Decoding a whole header block, in one piece or in fragments. */
module Resumption {
  import opened Bits
  import opened Errors
  import opened Headers
  import opened IntCodec
  import opened DynamicTable
  import opened Representation
  import Huffman

  /** What decoding a block emits and leaves behind. */
  datatype Block = Block(headers: seq<Header>, table: Fifo, leftover: Bytes, outcome: Result<()>)

  /** Decodes representations until the input is used up or one of them fails. */
  function DecodeBlock(x: Params, table: Fifo, lastMax: nat, canResize: bool, buf: Bytes): Block
    requires |x.codes| == 257
    decreases |buf|
  {
    if buf == [] then Block([], table, [], Ok(()))
    else
      match DecodeStep(x, table, lastMax, canResize, buf)
      case Failed(e, lost) => Block([], table, buf[lost..], Err(e))
      case Done(used, emitted, table') =>
        var rest := DecodeBlock(x, table', lastMax, canResize && emitted.None?, buf[used..]);
        if emitted.None? then rest else rest.(headers := [emitted.value] + rest.headers)
  }

  /** More input is needed; what is left over will be decoded again with the input that follows. */
  predicate Tolerated(outcome: Result<()>) {
    outcome.Ok? || outcome.error.NeedMore?
  }

  /** Decodes the fragments of a block as they arrive: each together with what the previous ones left over. */
  function DecodeFragments(x: Params, table: Fifo, lastMax: nat, leftover: Bytes, fragments: seq<Bytes>): Block
    requires |x.codes| == 257 && fragments != []
    decreases |fragments|
  {
    var first := DecodeBlock(x, table, lastMax, true, leftover + fragments[0]);
    if |fragments| == 1 || !Tolerated(first.outcome) then first
    else
      var rest := DecodeFragments(x, first.table, lastMax, first.leftover, fragments[1..]);
      rest.(headers := first.headers + rest.headers)
  }

  function Concat(fragments: seq<Bytes>): Bytes {
    if fragments == [] then [] else fragments[0] + Concat(fragments[1..])
  }

  // ===== one representation cut short =====

  lemma ReadStringPrefix(t: CodeTable, a: Bytes, b: Bytes)
    requires |t| == 257 && ReadString(t, a + b).Ok?
    ensures if ReadString(t, a + b).value.used <= |a| then ReadString(t, a) == ReadString(t, a + b)
            else ReadString(t, a).Err? && ReadString(t, a).error.NeedMore?
  {
    hide ReadInt, Huffman.HuffDecode;
    if a != [] {
      assert (a + b)[0] == a[0];
      ReadPrefix(a, b, 7);
      var (len, n) := ReadInt(a + b, 7).value;
      if n + len <= |a| {
        assert (a + b)[n..n + len] == a[n..n + len];
      }
    }
  }

  lemma DropPrefix(a: Bytes, b: Bytes, n: nat)
    requires n <= |a|
    ensures (a + b)[n..] == a[n..] + b
  {
  }

  /** A representation cut short is reported as missing input, and nothing is consumed. */
  ghost predicate CutShort(s: Step) {
    s.Failed? && s.error.NeedMore? && s.lost == 0
  }

  lemma NewNamePrefix(x: Params, table: Fifo, kind: Kind, a: Bytes, b: Bytes, n: nat)
    requires |x.codes| == 257 && 1 <= n <= |a| && DecodeNewName(x, table, kind, a + b, n).Done?
    ensures var s := DecodeNewName(x, table, kind, a + b, n);
            if s.used <= |a| then DecodeNewName(x, table, kind, a, n) == s
              else CutShort(DecodeNewName(x, table, kind, a, n))
  {
    hide ReadString, NewHeader, Insert;
    DropPrefix(a, b, n);
    ReadStringPrefix(x.codes, a[n..], b);
    var name := ReadString(x.codes, (a + b)[n..]).value;
    if n + name.used <= |a| {
      DropPrefix(a, b, n + name.used);
      ReadStringPrefix(x.codes, a[n + name.used..], b);
    }
  }

  lemma OldNamePrefix(x: Params, table: Fifo, kind: Kind, a: Bytes, b: Bytes, i: nat, n: nat)
    requires |x.codes| == 257 && 1 <= n <= |a| && DecodeOldName(x, table, kind, a + b, i, n).Done?
    ensures var s := DecodeOldName(x, table, kind, a + b, i, n);
            if s.used <= |a| then DecodeOldName(x, table, kind, a, i, n) == s
            else CutShort(DecodeOldName(x, table, kind, a, i, n))
  {
    hide ReadString, IntoEntry, Insert, Get;
    DropPrefix(a, b, n);
    ReadStringPrefix(x.codes, a[n..], b);
  }

  lemma LiteralPrefix(x: Params, table: Fifo, kind: Kind, a: Bytes, b: Bytes)
    requires |x.codes| == 257 && DecodeLiteral(x, table, kind, a + b).Done?
    ensures var s := DecodeLiteral(x, table, kind, a + b);
            if s.used <= |a| then DecodeLiteral(x, table, kind, a) == s else CutShort(DecodeLiteral(x, table, kind, a))
  {
    hide ReadInt, DecodeNewName, DecodeOldName;
    ReadPrefix(a, b, kind.Prefix());
    var (i, n) := ReadInt(a + b, kind.Prefix()).value;
    if n <= |a| {
      if i == 0 {
        NewNamePrefix(x, table, kind, a, b, n);
      } else {
        OldNamePrefix(x, table, kind, a, b, i, n);
      }
    }
  }

  /** A representation that decodes from `a + b` decodes from `a` alone if it ends there, and is cut short if not. */
  lemma StepPrefix(x: Params, table: Fifo, lastMax: nat, canResize: bool, a: Bytes, b: Bytes)
    requires |x.codes| == 257 && a != [] && DecodeStep(x, table, lastMax, canResize, a + b).Done?
    ensures var s := DecodeStep(x, table, lastMax, canResize, a + b);
            if s.used <= |a| then DecodeStep(x, table, lastMax, canResize, a) == s
            else CutShort(DecodeStep(x, table, lastMax, canResize, a))
  {
    hide Load, ReadInt, DecodeLiteral, Get, Resize;
    assert (a + b)[0] == a[0];
    match Load(a[0])
    case Err(_) =>
    case Ok(IndexedKind) => ReadPrefix(a, b, 7);
    case Ok(LiteralKind(kind)) => LiteralPrefix(x, table, kind, a, b);
    case Ok(SizeUpdateKind) => ReadPrefix(a, b, 5);
  }

  // ===== one representation, decoded or not =====

  lemma ReadStringAhead(t: CodeTable, a: Bytes, b: Bytes)
    requires |t| == 257
    ensures ReadString(t, a) == ReadString(t, a + b) || (ReadString(t, a).Err? && ReadString(t, a).error.NeedMore?)
  {
    hide ReadInt, Huffman.HuffDecode;
    if a != [] {
      assert (a + b)[0] == a[0];
      ReadAhead(a, b, 7);
      if ReadInt(a, 7).Ok? {
        var (len, n) := ReadInt(a, 7).value;
        if n + len <= |a| {
          assert (a + b)[n..n + len] == a[n..n + len];
        }
      }
    }
  }

  lemma NewNameAhead(x: Params, table: Fifo, kind: Kind, a: Bytes, b: Bytes, n: nat)
    requires |x.codes| == 257 && 1 <= n <= |a|
    ensures var s := DecodeNewName(x, table, kind, a, n);
            CutShort(s) || s == DecodeNewName(x, table, kind, a + b, n)
  {
    hide ReadString, NewHeader, Insert;
    DropPrefix(a, b, n);
    ReadStringAhead(x.codes, a[n..], b);
    if ReadString(x.codes, a[n..]).Ok? {
      var used := ReadString(x.codes, a[n..]).value.used;
      DropPrefix(a, b, n + used);
      ReadStringAhead(x.codes, a[n + used..], b);
    }
  }

  lemma OldNameAhead(x: Params, table: Fifo, kind: Kind, a: Bytes, b: Bytes, i: nat, n: nat)
    requires |x.codes| == 257 && 1 <= n <= |a|
    ensures var s := DecodeOldName(x, table, kind, a, i, n);
            CutShort(s) || s == DecodeOldName(x, table, kind, a + b, i, n)
  {
    hide ReadString, IntoEntry, Insert, Get;
    DropPrefix(a, b, n);
    ReadStringAhead(x.codes, a[n..], b);
  }

  /** What decoding a representation comes to, once it is not missing input, does not depend on what follows. */
  lemma StepAhead(x: Params, table: Fifo, lastMax: nat, canResize: bool, a: Bytes, b: Bytes)
    requires |x.codes| == 257 && a != []
    ensures var s := DecodeStep(x, table, lastMax, canResize, a);
            CutShort(s) || s == DecodeStep(x, table, lastMax, canResize, a + b)
  {
    hide Load, ReadInt, DecodeNewName, DecodeOldName, Get, Resize;
    assert (a + b)[0] == a[0];
    match Load(a[0])
    case Err(_) =>
    case Ok(IndexedKind) => ReadAhead(a, b, 7);
    case Ok(LiteralKind(kind)) =>
      ReadAhead(a, b, kind.Prefix());
      if ReadInt(a, kind.Prefix()).Ok? {
        var (i, n) := ReadInt(a, kind.Prefix()).value;
        if i == 0 {
          NewNameAhead(x, table, kind, a, b, n);
        } else {
          OldNameAhead(x, table, kind, a, b, i, n);
        }
      }
    case Ok(SizeUpdateKind) => ReadAhead(a, b, 5);
  }

  /** `buf` starts with a literal whose name is empty, not both of whose strings are Huffman-coded. */
  predicate EmptyName(x: Params, buf: Bytes)
    requires |x.codes| == 257
  {
    && buf != []
    && Load(buf[0]).Ok? && Load(buf[0]).value.LiteralKind?
    && var head := ReadInt(buf, Load(buf[0]).value.kind.Prefix());
    && head.Ok? && head.value.0 == 0
    && var name := ReadString(x.codes, buf[head.value.1..]);
    && name.Ok? && name.value.value == []
    && var value := ReadString(x.codes, buf[head.value.1 + name.value.used..]);
    && value.Ok? && (name.value.raw || value.value.raw)
  }

  /** A literal with an empty name, and nothing else, is reported as missing input after its octets are gone. */
  lemma OnlyEmptyName(x: Params, table: Fifo, lastMax: nat, canResize: bool, buf: Bytes)
    requires |x.codes| == 257 && buf != []
    ensures var s := DecodeStep(x, table, lastMax, canResize, buf);
            && (EmptyName(x, buf) <==> s.Failed? && s.error.NeedMore? && s.lost > 0)
            && (EmptyName(x, buf) ==> s.error == NeedMore(UnexpectedEndOfStream))
  {
    hide Load, ReadInt, ReadString, PseudoName, ValidValue, Insert, Get, Resize;
  }

  // ===== a block cut in two =====

  /** Size updates that are in order stay so when more of them would have been allowed. */
  lemma {:induction false} ResizeMono(x: Params, table: Fifo, lastMax: nat, canResize: bool, buf: Bytes)
    requires |x.codes| == 257 && DecodeBlock(x, table, lastMax, canResize, buf).outcome.Ok?
    ensures DecodeBlock(x, table, lastMax, true, buf) == DecodeBlock(x, table, lastMax, canResize, buf)
    decreases |buf|
  {
    hide Load, DecodeIndexed, DecodeLiteral, DecodeSizeUpdate;
    if buf != [] {
      var s := DecodeStep(x, table, lastMax, canResize, buf);
      var c := canResize && s.emitted.None?;
      ResizeMono(x, s.table, lastMax, c, buf[s.used..]);
      StepResize(x, table, lastMax, buf);
    }
  }

  /** Only a size update emits no header. */
  lemma StepResize(x: Params, table: Fifo, lastMax: nat, buf: Bytes)
    requires |x.codes| == 257 && buf != []
    ensures var s := DecodeStep(x, table, lastMax, false, buf);
            s.Done? ==> s.emitted.Some? && DecodeStep(x, table, lastMax, true, buf) == s
  {
    hide Load, ReadInt, ReadString, NewHeader, IntoEntry, Get, Insert, Resize;
  }

  /** Cutting a decodable block in two loses nothing: the second call takes up where the first left off. */
  lemma {:induction false} CutInTwo(x: Params, table: Fifo, lastMax: nat, canResize: bool, a: Bytes, b: Bytes)
    requires |x.codes| == 257 && DecodeBlock(x, table, lastMax, canResize, a + b).outcome.Ok?
    ensures var whole := DecodeBlock(x, table, lastMax, canResize, a + b);
            var first := DecodeBlock(x, table, lastMax, canResize, a);
            var second := DecodeBlock(x, first.table, lastMax, true, first.leftover + b);
            && Tolerated(first.outcome)
            && whole.headers == first.headers + second.headers
            && second == whole.(headers := second.headers)
    decreases |a|
  {
    hide DecodeStep;
    if a == [] {
      assert a + b == b && [] + b == b;
      ResizeMono(x, table, lastMax, canResize, b);
    } else {
      StepPrefix(x, table, lastMax, canResize, a, b);
      var s := DecodeStep(x, table, lastMax, canResize, a + b);
      if s.used <= |a| {
        DropPrefix(a, b, s.used);
        CutInTwo(x, s.table, lastMax, canResize && s.emitted.None?, a[s.used..], b);
      } else {
        assert a[0..] == a;
        ResizeMono(x, table, lastMax, canResize, a + b);
      }
    }
  }

  /** Any fragmentation of a decodable block yields the same headers in order and the same final table. */
  lemma {:induction false} Fragmentation(x: Params, table: Fifo, lastMax: nat, leftover: Bytes, fragments: seq<Bytes>)
    requires |x.codes| == 257 && fragments != []
    requires DecodeBlock(x, table, lastMax, true, leftover + Concat(fragments)).outcome.Ok?
    ensures DecodeFragments(x, table, lastMax, leftover, fragments)
            == DecodeBlock(x, table, lastMax, true, leftover + Concat(fragments))
    decreases |fragments|
  {
    hide DecodeBlock;
    if |fragments| == 1 {
      assert Concat(fragments[1..]) == [];
      assert leftover + Concat(fragments) == leftover + fragments[0];
    } else {
      var a, b := leftover + fragments[0], Concat(fragments[1..]);
      assert leftover + Concat(fragments) == a + b;
      CutInTwo(x, table, lastMax, true, a, b);
      var first := DecodeBlock(x, table, lastMax, true, a);
      Fragmentation(x, first.table, lastMax, first.leftover, fragments[1..]);
    }
  }

  // ===== blocks that may not decode =====

  /** How far decoding gets: the octets decoded, and the state in which the next representation is missing or fails. */
  datatype Stop = Stop(at: nat, table: Fifo, canResize: bool)

  function StopOf(x: Params, table: Fifo, lastMax: nat, canResize: bool, buf: Bytes): (r: Stop)
    requires |x.codes| == 257
    ensures r.at <= |buf|
    decreases |buf|
  {
    if buf == [] then Stop(0, table, canResize)
    else
      match DecodeStep(x, table, lastMax, canResize, buf)
      case Failed(_, _) => Stop(0, table, canResize)
      case Done(used, emitted, table') =>
        var rest := StopOf(x, table', lastMax, canResize && emitted.None?, buf[used..]);
        Stop(used + rest.at, rest.table, rest.canResize)
  }

  /** Where decoding of `a` stops there is, wholly in `a`, a literal with an empty name. */
  predicate SwallowsName(x: Params, table: Fifo, lastMax: nat, canResize: bool, a: Bytes)
    requires |x.codes| == 257
  {
    EmptyName(x, a[StopOf(x, table, lastMax, canResize, a).at..])
  }

  /** All of `a` decodes, to a field among others, and what follows it is a size update. */
  predicate RevivesUpdate(x: Params, table: Fifo, lastMax: nat, canResize: bool, a: Bytes, b: Bytes)
    requires |x.codes| == 257
  {
    var stop := StopOf(x, table, lastMax, canResize, a);
    stop.at == |a| && !stop.canResize && b != [] && Load(b[0]) == Ok(SizeUpdateKind)
  }

  /** The same headers, table and outcome. */
  predicate Agree(p: Block, q: Block) {
    p.headers == q.headers && p.table == q.table && p.outcome == q.outcome
  }

  /** What the second of two calls does, after the first one. */
  function Second(x: Params, first: Block, lastMax: nat, b: Bytes): Block
    requires |x.codes| == 257
  {
    var second := DecodeBlock(x, first.table, lastMax, true, first.leftover + b);
    second.(headers := first.headers + second.headers)
  }

  /** A field, or a size update where one is allowed, starts a new call just as it goes on an old one. */
  lemma SameStart(x: Params, table: Fifo, lastMax: nat, canResize: bool, buf: Bytes)
    requires |x.codes| == 257 && buf != [] && (canResize || Load(buf[0]) != Ok(SizeUpdateKind))
    ensures DecodeBlock(x, table, lastMax, true, buf) == DecodeBlock(x, table, lastMax, canResize, buf)
  {
    hide Load, ReadInt, ReadString, NewHeader, IntoEntry, Get, Insert, Resize;
    var s := DecodeStep(x, table, lastMax, canResize, buf);
    assert s == DecodeStep(x, table, lastMax, true, buf);
    if s.Done? && !canResize {
      StepResize(x, table, lastMax, buf);
    }
  }

  /** A size update where none is allowed is refused by its first octet. */
  lemma LateUpdate(x: Params, table: Fifo, lastMax: nat, b: Bytes)
    requires |x.codes| == 257 && b != [] && Load(b[0]) == Ok(SizeUpdateKind)
    ensures DecodeBlock(x, table, lastMax, false, b) == Block([], table, b, Err(InvalidMaxDynamicSize))
  {
    hide Load;
    assert b[0..] == b;
  }

  function Prepend(emitted: Option<Header>, rest: Block): Block {
    if emitted.None? then rest else rest.(headers := [emitted.value] + rest.headers)
  }

  lemma BlockAfterStep(x: Params, table: Fifo, lastMax: nat, canResize: bool, buf: Bytes)
    requires |x.codes| == 257 && buf != [] && DecodeStep(x, table, lastMax, canResize, buf).Done?
    ensures var s := DecodeStep(x, table, lastMax, canResize, buf);
            DecodeBlock(x, table, lastMax, canResize, buf)
            == Prepend(s.emitted, DecodeBlock(x, s.table, lastMax, canResize && s.emitted.None?, buf[s.used..]))
  {
    hide DecodeStep;
  }

  lemma StopAfterStep(x: Params, table: Fifo, lastMax: nat, canResize: bool, a: Bytes)
    requires |x.codes| == 257 && a != [] && DecodeStep(x, table, lastMax, canResize, a).Done?
    ensures var s := DecodeStep(x, table, lastMax, canResize, a);
            var here := StopOf(x, table, lastMax, canResize, a);
            var there := StopOf(x, s.table, lastMax, canResize && s.emitted.None?, a[s.used..]);
            && here == Stop(s.used + there.at, there.table, there.canResize)
            && a[here.at..] == a[s.used..][there.at..]
  {
    hide DecodeStep;
  }

  /** Both ways decode the representation that ends before the cut. */
  lemma CutAfterStep(x: Params, table: Fifo, lastMax: nat, canResize: bool, a: Bytes, b: Bytes)
    requires |x.codes| == 257 && a != [] && DecodeStep(x, table, lastMax, canResize, a).Done?
    requires DecodeStep(x, table, lastMax, canResize, a) == DecodeStep(x, table, lastMax, canResize, a + b)
    ensures var s := DecodeStep(x, table, lastMax, canResize, a);
            var c, rest := canResize && s.emitted.None?, a[s.used..];
            && DecodeBlock(x, table, lastMax, canResize, a + b)
               == Prepend(s.emitted, DecodeBlock(x, s.table, lastMax, c, rest + b))
            && DecodeBlock(x, table, lastMax, canResize, a)
               == Prepend(s.emitted, DecodeBlock(x, s.table, lastMax, c, rest))
            && SwallowsName(x, table, lastMax, canResize, a) == SwallowsName(x, s.table, lastMax, c, rest)
            && RevivesUpdate(x, table, lastMax, canResize, a, b) == RevivesUpdate(x, s.table, lastMax, c, rest, b)
  {
    hide DecodeStep, EmptyName, DecodeBlock, StopOf, Prepend;
    DropPrefix(a, b, DecodeStep(x, table, lastMax, canResize, a).used);
    BlockAfterStep(x, table, lastMax, canResize, a);
    BlockAfterStep(x, table, lastMax, canResize, a + b);
    StopAfterStep(x, table, lastMax, canResize, a);
  }

  lemma PrependSecond(x: Params, emitted: Option<Header>, first: Block, lastMax: nat, b: Bytes)
    requires |x.codes| == 257
    ensures Second(x, Prepend(emitted, first), lastMax, b) == Prepend(emitted, Second(x, first, lastMax, b))
  {
    hide DecodeBlock;
    var second := DecodeBlock(x, first.table, lastMax, true, first.leftover + b);
    if emitted.Some? {
      assert [emitted.value] + first.headers + second.headers == [emitted.value] + (first.headers + second.headers);
    }
  }

  /** The representation before the cut is cut short, or fails for good. */
  lemma CutAtFailure(x: Params, table: Fifo, lastMax: nat, canResize: bool, a: Bytes, b: Bytes)
    requires |x.codes| == 257 && a != [] && DecodeStep(x, table, lastMax, canResize, a).Failed?
    ensures var s := DecodeStep(x, table, lastMax, canResize, a);
            var whole := DecodeBlock(x, table, lastMax, canResize, a + b);
            var first := DecodeBlock(x, table, lastMax, canResize, a);
            && first == Block([], table, a[s.lost..], Err(s.error))
            && SwallowsName(x, table, lastMax, canResize, a) == EmptyName(x, a)
            && !RevivesUpdate(x, table, lastMax, canResize, a, b)
            && if CutShort(s) then whole == Second(x, first, lastMax, b) else Agree(whole, first)
  {
    hide Load, DecodeIndexed, DecodeLiteral, DecodeSizeUpdate, EmptyName;
    assert a[0..] == a && (a + b)[0] == a[0];
    StepAhead(x, table, lastMax, canResize, a, b);
    if CutShort(DecodeStep(x, table, lastMax, canResize, a)) {
      SameStart(x, table, lastMax, canResize, a + b);
    }
  }

  /**
   Any block, cut anywhere. Where an empty name is swallowed, both ways stop there with missing input, and the
   octets that are left over have lost it. Where a size update is revived, the whole is refused there, but nothing
   has failed before the cut. In all other cases the first call has failed as the whole does, or the second goes on
   to the same end.
   */
  lemma {:induction false} CutAnywhere(x: Params, table: Fifo, lastMax: nat, canResize: bool, a: Bytes, b: Bytes)
    requires |x.codes| == 257
    ensures var whole := DecodeBlock(x, table, lastMax, canResize, a + b);
            var first := DecodeBlock(x, table, lastMax, canResize, a);
            if SwallowsName(x, table, lastMax, canResize, a) then
              Agree(whole, first) && first.outcome == Err(NeedMore(UnexpectedEndOfStream))
            else if RevivesUpdate(x, table, lastMax, canResize, a, b) then
              && first.outcome.Ok? && first.leftover == []
              && whole == Block(first.headers, first.table, b, Err(InvalidMaxDynamicSize))
            else if Tolerated(first.outcome) then whole == Second(x, first, lastMax, b)
            else Agree(whole, first)
    decreases |a|
  {
    hide DecodeStep, EmptyName;
    var first := DecodeBlock(x, table, lastMax, canResize, a);
    if a == [] {
      CutAtStart(x, table, lastMax, canResize, b);
    } else {
      StepAhead(x, table, lastMax, canResize, a, b);
      OnlyEmptyName(x, table, lastMax, canResize, a);
      var s := DecodeStep(x, table, lastMax, canResize, a);
      if s.Done? {
        CutAfterStep(x, table, lastMax, canResize, a, b);
        CutAnywhere(x, s.table, lastMax, canResize && s.emitted.None?, a[s.used..], b);
        var rest := DecodeBlock(x, s.table, lastMax, canResize && s.emitted.None?, a[s.used..]);
        PrependSecond(x, s.emitted, rest, lastMax, b);
      } else {
        CutAtFailure(x, table, lastMax, canResize, a, b);
      }
    }
  }

  lemma CutAtStart(x: Params, table: Fifo, lastMax: nat, canResize: bool, b: Bytes)
    requires |x.codes| == 257
    ensures !SwallowsName(x, table, lastMax, canResize, [])
    ensures var whole := DecodeBlock(x, table, lastMax, canResize, [] + b);
            if RevivesUpdate(x, table, lastMax, canResize, [], b) then
              whole == Block([], table, b, Err(InvalidMaxDynamicSize))
            else whole == Second(x, Block([], table, [], Ok(())), lastMax, b)
    ensures DecodeBlock(x, table, lastMax, canResize, []) == Block([], table, [], Ok(()))
  {
    hide DecodeStep, Load;
    assert [] + b == b;
    assert EmptyName(x, []) == false;
    if b != [] {
      if RevivesUpdate(x, table, lastMax, canResize, [], b) {
        LateUpdate(x, table, lastMax, b);
      } else {
        SameStart(x, table, lastMax, canResize, b);
      }
    }
  }

  /**
   Decoding any block in two calls gives the headers, the table and the outcome that decoding it whole gives, unless
   an empty name is swallowed or a size update revived, and the second call then does not get stuck where it starts.
   */
  lemma AnyCut(x: Params, table: Fifo, lastMax: nat, a: Bytes, b: Bytes)
    requires |x.codes| == 257
    ensures var whole := DecodeBlock(x, table, lastMax, true, a + b);
            var first := DecodeBlock(x, table, lastMax, true, a);
            var two := DecodeFragments(x, table, lastMax, [], [a, b]);
            var swallows := SwallowsName(x, table, lastMax, true, a);
            var revives := RevivesUpdate(x, table, lastMax, true, a, b);
            && (Agree(whole, two)
                <==> (swallows || revives ==> Stuck(x, first.table, lastMax, whole.outcome, first.leftover + b)))
            && (swallows || revives ==>
                  && whole.headers == first.headers && whole.table == first.table && whole.outcome.Err?
                  && two == Second(x, first, lastMax, b))
  {
    hide DecodeBlock, SwallowsName, RevivesUpdate;
    CutAnywhere(x, table, lastMax, true, a, b);
    assert [] + a == a && [a, b][1..] == [b];
    var first := DecodeBlock(x, table, lastMax, true, a);
    assert DecodeFragments(x, first.table, lastMax, first.leftover, [b])
           == DecodeBlock(x, first.table, lastMax, true, first.leftover + b);
    assert forall second: seq<Header> :: first.headers + second == first.headers ==> |second| == 0;
  }

  /** Decoding `buf` emits nothing, leaves the table as it is and ends with `outcome`. */
  predicate Stuck(x: Params, table: Fifo, lastMax: nat, outcome: Result<()>, buf: Bytes)
    requires |x.codes| == 257
  {
    var block := DecodeBlock(x, table, lastMax, true, buf);
    block.headers == [] && block.table == table && block.outcome == outcome
  }

  /** What is left over after a swallowed name is less than what was still to be decoded. */
  lemma {:induction false} SwallowedName(x: Params, table: Fifo, lastMax: nat, canResize: bool, a: Bytes)
    requires |x.codes| == 257 && SwallowsName(x, table, lastMax, canResize, a)
    ensures var leftover := DecodeBlock(x, table, lastMax, canResize, a).leftover;
            |leftover| < |a| - StopOf(x, table, lastMax, canResize, a).at && leftover == a[|a| - |leftover|..]
    decreases |a|
  {
    hide DecodeStep, EmptyName, DecodeBlock, StopOf;
    if a == [] {
      CutAtStart(x, table, lastMax, canResize, a);
    }
    var s := DecodeStep(x, table, lastMax, canResize, a);
    OnlyEmptyName(x, table, lastMax, canResize, a);
    if s.Done? {
      assert a + [] == a;
      CutAfterStep(x, table, lastMax, canResize, a, []);
      StopAfterStep(x, table, lastMax, canResize, a);
      SwallowedName(x, s.table, lastMax, canResize && s.emitted.None?, a[s.used..]);
    } else {
      SwallowedHere(x, table, lastMax, canResize, a);
    }
  }

  lemma SwallowedHere(x: Params, table: Fifo, lastMax: nat, canResize: bool, a: Bytes)
    requires |x.codes| == 257 && a != [] && DecodeStep(x, table, lastMax, canResize, a).Failed?
    ensures StopOf(x, table, lastMax, canResize, a).at == 0 && a[0..] == a
    ensures var lost := DecodeStep(x, table, lastMax, canResize, a).lost;
            DecodeBlock(x, table, lastMax, canResize, a).leftover == a[lost..]
  {
    hide DecodeStep;
  }

  /** A revived size update is carried out, as if it stood at the start of a block. */
  lemma RevivedUpdate(x: Params, table: Fifo, lastMax: nat, a: Bytes, b: Bytes)
    requires |x.codes| == 257 && RevivesUpdate(x, table, lastMax, true, a, b)
    ensures var first := DecodeBlock(x, table, lastMax, true, a);
            var update := DecodeSizeUpdate(first.table, lastMax, b);
            var two := DecodeFragments(x, table, lastMax, [], [a, b]);
            && DecodeBlock(x, table, lastMax, true, a + b).outcome == Err(InvalidMaxDynamicSize)
            && (update.Failed? ==> two.outcome == Err(update.error))
            && (update.Done? ==>
                  two == Second(x, Block(first.headers, update.table, [], Ok(())), lastMax, b[update.used..]))
  {
    hide Load, ReadInt, Resize, SwallowsName, DecodeFragments;
    CutAnywhere(x, table, lastMax, true, a, b);
    AnyCut(x, table, lastMax, a, b);
    assert [] + b == b && b[0..] == b;
    RevivesOnly(x, table, lastMax, a, b);
    var update := DecodeSizeUpdate(DecodeBlock(x, table, lastMax, true, a).table, lastMax, b);
    if update.Done? {
      assert [] + b[update.used..] == b[update.used..];
    }
  }

  /** Nothing is swallowed where all of `a` decodes. */
  lemma RevivesOnly(x: Params, table: Fifo, lastMax: nat, a: Bytes, b: Bytes)
    requires |x.codes| == 257 && RevivesUpdate(x, table, lastMax, true, a, b)
    ensures !SwallowsName(x, table, lastMax, true, a)
  {
    hide StopOf;
    assert a[|a|..] == [];
  }

  /** No cut between the fragments swallows a name or revives a size update. */
  predicate CleanCuts(x: Params, table: Fifo, lastMax: nat, leftover: Bytes, fragments: seq<Bytes>)
    requires |x.codes| == 257
    decreases |fragments|
  {
    |fragments| > 1 ==>
      var a, b := leftover + fragments[0], Concat(fragments[1..]);
      var first := DecodeBlock(x, table, lastMax, true, a);
      && !SwallowsName(x, table, lastMax, true, a) && !RevivesUpdate(x, table, lastMax, true, a, b)
      && (Tolerated(first.outcome) ==> CleanCuts(x, first.table, lastMax, first.leftover, fragments[1..]))
  }

  /** Any block, in any fragmentation that neither swallows nor revives anything, decodes as it does in one piece. */
  lemma {:induction false} AnyFragmentation(x: Params, table: Fifo, lastMax: nat, leftover: Bytes,
                                            fragments: seq<Bytes>)
    requires |x.codes| == 257 && fragments != [] && CleanCuts(x, table, lastMax, leftover, fragments)
    ensures Agree(DecodeFragments(x, table, lastMax, leftover, fragments),
                  DecodeBlock(x, table, lastMax, true, leftover + Concat(fragments)))
    decreases |fragments|
  {
    hide DecodeBlock, SwallowsName, RevivesUpdate;
    if |fragments| == 1 {
      assert Concat(fragments[1..]) == [];
      assert leftover + Concat(fragments) == leftover + fragments[0];
    } else {
      var a, b := leftover + fragments[0], Concat(fragments[1..]);
      assert leftover + Concat(fragments) == a + b;
      CutAnywhere(x, table, lastMax, true, a, b);
      var first := DecodeBlock(x, table, lastMax, true, a);
      if Tolerated(first.outcome) {
        AnyFragmentation(x, first.table, lastMax, first.leftover, fragments[1..]);
      }
    }
  }

  /**
   Blocks that do not decode in one piece may decode in two: a literal with an empty name is reported as missing
   input after its octets are gone, so an empty fragment after it completes the block without it.
   */
  lemma EmptyNameSwallowed(x: Params, table: Fifo, lastMax: nat)
    requires |x.codes| == 257
    ensures var b := [0x40, 0, 0];
            && DecodeBlock(x, table, lastMax, true, b) == Block([], table, [], Err(NeedMore(UnexpectedEndOfStream)))
            && DecodeFragments(x, table, lastMax, [], [b, []]) == Block([], table, [], Ok(()))
  {
    var b: Bytes := [0x40, 0, 0];
    EmptyNameStep(x, table, lastMax);
    assert [] + b == b && [b, []][1..] == [[]] && [] + [] == b[3..] == [];
    assert DecodeFragments(x, table, lastMax, [], [[]]) == Block([], table, [], Ok(()));
  }

  /**
   A size update after a field is refused in one piece, and carried out if a fragment ends between the two: every
   call allows size updates until it has decoded a field.
   */
  lemma LateUpdateRevived(x: Params, table: Fifo, lastMax: nat)
    requires |x.codes| == 257
    ensures var (field, update) := ([0x82], [0x20]);
            && DecodeBlock(x, table, lastMax, true, field + update)
               == Block([GetStatic(2)], table, update, Err(InvalidMaxDynamicSize))
            && DecodeFragments(x, table, lastMax, [], [field, update])
               == Block([GetStatic(2)], Resize(table, 0), [], Ok(()))
  {
    hide GetStatic, Resize, Load;
    var field: Bytes, update: Bytes := [0x82], [0x20];
    FieldStep(x, table, lastMax, []);
    FieldStep(x, table, lastMax, update);
    UpdateStep(x, table, lastMax);
    LateUpdate(x, table, lastMax, update);
    assert field + [] == field && [] + field == field && [] + update == update && [field, update][1..] == [update];
    assert field[1..] == [] && (field + update)[1..] == update && update[1..] == [];
    assert DecodeFragments(x, table, lastMax, [], [update]) == Block([], Resize(table, 0), [], Ok(()));
  }

  lemma FieldStep(x: Params, table: Fifo, lastMax: nat, rest: Bytes)
    requires |x.codes| == 257
    ensures DecodeStep(x, table, lastMax, true, [0x82] + rest) == Done(1, Some(GetStatic(2)), table)
  {
    hide And, Pow2, Load, ReadGroups, GetStatic;
    var b: Bytes := [0x82] + rest;
    LoadRanges(0x82);
    Pow2Values();
    AndLowBits(0x82, 7);
    assert b[0] == 0x82;
  }

  lemma UpdateStep(x: Params, table: Fifo, lastMax: nat)
    requires |x.codes| == 257
    ensures Load(0x20) == Ok(SizeUpdateKind)
    ensures DecodeStep(x, table, lastMax, true, [0x20]) == Done(1, None, Resize(table, 0))
  {
    hide And, Pow2, Load, ReadGroups, Resize;
    LoadRanges(0x20);
    Pow2Values();
    AndLowBits(0x20, 5);
  }

  lemma EmptyNameStep(x: Params, table: Fifo, lastMax: nat)
    requires |x.codes| == 257
    ensures DecodeStep(x, table, lastMax, true, [0x40, 0, 0]) == Failed(NeedMore(UnexpectedEndOfStream), 3)
  {
    hide And, Pow2, Load, ReadGroups;
    var b: Bytes := [0x40, 0, 0];
    LoadRanges(0x40);
    Pow2Values();
    AndLowBits(0x40, 6);
    ZeroByte([0]);
    ZeroByte([]);
    assert b[1..] == [0] + [0] && b[2..] == [0] + [];
    assert ReadInt(b, 6) == Ok((0, 1));
  }
}
