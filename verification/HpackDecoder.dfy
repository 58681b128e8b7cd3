/** The HPACK decoder, which consumes its input in place. */
module HpackDecoder {
  import opened Bits
  import opened Errors
  import opened Headers
  import opened IntCodec
  import opened Representation
  import opened Resumption
  import DynamicTable
  import Huffman

  /** A read position over a buffer from whose front octets can be cut off for good. */
  class Cursor {
    var buf: Bytes
    var pos: nat

    constructor (buf: Bytes)
      ensures this.buf == buf && pos == 0
    {
      this.buf := buf;
      pos := 0;
    }

    ghost predicate Valid()
      reads this
    {
      pos <= |buf|
    }

    function Rest(): Bytes
      requires Valid()
      reads this
    {
      buf[pos..]
    }

    method Peek() returns (r: Option<byte>)
      requires Valid()
      ensures r == if Rest() == [] then None else Some(Rest()[0])
    {
      r := if pos < |buf| then Some(buf[pos]) else None;
    }

    method Advance(n: nat)
      requires Valid() && n <= |Rest()|
      modifies `pos
      ensures pos == old(pos) + n
    {
      pos := pos + n;
    }

    /** Returns the next `n` octets and cuts off everything up to their end. */
    method Take(n: nat) returns (r: Bytes)
      requires Valid() && n <= |Rest()|
      modifies this
      ensures r == old(Rest())[..n] && buf == old(Rest())[n..] && pos == 0
    {
      r := buf[pos..pos + n];
      buf := buf[pos + n..];
      pos := 0;
    }
  }

  /** Where a string literal was found, and its decoded value if it was Huffman-coded. */
  datatype StringMarker = StringMarker(offset: nat, len: nat, decoded: Option<Bytes>)

  /** The marker describes the string literal at the start of `buf`. */
  ghost predicate Marks(m: StringMarker, buf: Bytes, s: Str) {
    && m.offset + m.len == s.used <= |buf|
    && m.decoded.None? == s.raw
    && s.value == if m.decoded.Some? then m.decoded.value else buf[m.offset..s.used]
  }

  lemma DropTwice(buf: Bytes, a: nat, b: nat)
    requires a + b <= |buf|
    ensures buf[a..][b..] == buf[a + b..]
  {
  }

  lemma BlockEnd(x: Params, table: DynamicTable.Fifo, lastMax: nat, canResize: bool, headers: seq<Header>)
    requires |x.codes| == 257
    ensures var rest := DecodeBlock(x, table, lastMax, canResize, []);
            rest.(headers := headers + rest.headers) == Block(headers, table, [], Ok(()))
  {
  }

  /** One round of the decoding loop. */
  lemma BlockStep(x: Params, table: DynamicTable.Fifo, lastMax: nat, canResize: bool, buf: Bytes, headers: seq<Header>)
    requires |x.codes| == 257 && buf != []
    ensures var all := DecodeBlock(x, table, lastMax, canResize, buf);
            match DecodeStep(x, table, lastMax, canResize, buf)
            case Failed(e, lost) => all.(headers := headers + all.headers) == Block(headers, table, buf[lost..], Err(e))
            case Done(used, emitted, table') =>
              var rest := DecodeBlock(x, table', lastMax, canResize && emitted.None?, buf[used..]);
              var headers' := if emitted.None? then headers else headers + [emitted.value];
              all.(headers := headers + all.headers) == rest.(headers := headers' + rest.headers)
  {
    hide DecodeStep;
    match DecodeStep(x, table, lastMax, canResize, buf)
    case Failed(_, _) =>
    case Done(used, emitted, table') =>
      if emitted.Some? {
        var rest := DecodeBlock(x, table', lastMax, false, buf[used..]);
        assert headers + ([emitted.value] + rest.headers) == headers + [emitted.value] + rest.headers;
      }
  }

  class Decoder {
    const params: Params
    var maxSizeUpdate: Option<nat>
    var lastMaxUpdate: nat
    const table: DynamicTable.Table

    ghost predicate Valid()
      reads this, table
    {
      |params.codes| == 257 && Huffman.Good(params.codes) && table.Valid()
    }

    constructor (params: Params, size: nat)
      requires Huffman.Good(params.codes)
      ensures Valid() && fresh(table) && table.Contents() == DynamicTable.Fifo([], size)
      ensures this.params == params && lastMaxUpdate == size && maxSizeUpdate == None
    {
      this.params := params;
      maxSizeUpdate := None;
      lastMaxUpdate := size;
      table := new DynamicTable.Table(size);
    }

    /** Remembers the largest size queued since the last block. */
    method QueueSizeUpdate(size: nat)
      modifies `maxSizeUpdate
      ensures maxSizeUpdate == Some(match old(maxSizeUpdate)
                                    case None => size
                                    case Some(v) => if v < size then size else v)
    {
      var s := size;
      if maxSizeUpdate.Some? && maxSizeUpdate.value > size {
        s := maxSizeUpdate.value;
      }
      maxSizeUpdate := Some(s);
    }

    method ReadInteger(src: Cursor, prefix: nat) returns (r: Result<nat>)
      requires src.Valid()
      modifies src`pos
      ensures src.Valid()
      ensures match ReadInt(old(src.Rest()), prefix)
              case Err(e) => r == Err(e) && src.pos == old(src.pos)
              case Ok((v, n)) => r == Ok(v) && src.pos == old(src.pos) + n
    {
      var res := DecodeInt(src.Rest(), prefix);
      if res.Err? {
        return Err(res.error);
      }
      src.Advance(res.value.1);
      return Ok(res.value.0);
    }

    method TryDecodeString(src: Cursor) returns (r: Result<StringMarker>)
      requires Valid() && src.Valid()
      modifies src`pos
      ensures src.Valid()
      ensures match ReadString(params.codes, old(src.Rest()))
              case Err(e) => r == Err(e)
              case Ok(s) => r.Ok? && Marks(r.value, old(src.Rest()), s) && src.pos == old(src.pos) + s.used
    {
      hide ReadInt, Huffman.HuffDecode;
      var oldPos := src.pos;
      ghost var buf := src.Rest();
      var head := src.Peek();
      if head.None? {
        return Err(NeedMore(UnexpectedEndOfStream));
      }
      ByteMasks(head.value);
      var huff := And(head.value, 0x80) == 0x80;
      var len :- ReadInteger(src, 7);
      if len > |src.Rest()| {
        return Err(NeedMore(StringUnderflow));
      }
      var offset := src.pos - oldPos;
      assert src.Rest()[..len] == buf[offset..offset + len];
      if huff {
        var res := Huffman.Decode(params.codes, src.Rest()[..len]);
        if res.Err? {
          return Err(res.error);
        }
        src.Advance(len);
        return Ok(StringMarker(offset, len, Some(res.value)));
      }
      src.Advance(len);
      return Ok(StringMarker(offset, len, None));
    }

    /** Reads a marked string again, cutting a raw one out of the buffer. */
    method Consume(m: StringMarker, src: Cursor, ghost s: Str) returns (r: Bytes)
      requires src.Valid() && Marks(m, src.Rest(), s)
      modifies src
      ensures r == s.value && src.Valid() && src.Rest() == old(src.Rest())[s.used..]
      ensures if s.raw then src.buf == old(src.Rest())[s.used..] && src.pos == 0
              else src.buf == old(src.buf) && src.pos == old(src.pos) + s.used
    {
      ghost var rest := src.Rest();
      src.Advance(m.offset);
      assert src.Rest() == rest[m.offset..];
      if m.decoded.Some? {
        src.Advance(m.len);
        return m.decoded.value;
      }
      r := src.Take(m.len);
    }

    /** Decodes a literal up to its header; the caller inserts the header if it is to be indexed. */
    method DecodeLiteral(src: Cursor, kind: Kind) returns (r: Result<Header>)
      requires Valid() && src.Valid() && src.pos == 0
      modifies src
      ensures src.Valid()
      ensures match Representation.DecodeLiteral(params, table.Contents(), kind, old(src.buf))
              case Failed(e, lost) => r == Err(e) && src.buf == old(src.buf)[lost..]
              case Done(used, emitted, t) =>
                && r.Ok? && emitted == Some(r.value) && src.Rest() == old(src.buf)[used..]
                && t == if kind.WithIndexing? then DynamicTable.Insert(table.Contents(), r.value) else table.Contents()
    {
      hide ReadInt, Representation.DecodeNewName, Representation.DecodeOldName, DynamicTable.Insert, Huffman.Good,
           DynamicTable.Table.Contents, DynamicTable.Table.Valid;
      ghost var buf := src.buf;
      assert src.Rest() == buf == buf[0..];
      var tableIdx :- ReadInteger(src, kind.Prefix());
      if tableIdx == 0 {
        r := DecodeNewName(src, kind, buf);
      } else {
        r := DecodeOldName(src, kind, tableIdx, buf);
      }
    }

    /** The value of a literal whose name is in the table. */
    method DecodeOldName(src: Cursor, kind: Kind, tableIdx: nat, ghost buf: Bytes) returns (r: Result<Header>)
      requires Valid() && src.Valid() && 1 <= src.pos && src.buf == buf
      modifies src
      ensures src.Valid()
      ensures match Representation.DecodeOldName(params, table.Contents(), kind, buf, tableIdx, old(src.pos))
              case Failed(e, lost) => r == Err(e) && src.buf == buf[lost..]
              case Done(used, emitted, t) =>
                && r.Ok? && emitted == Some(r.value) && src.Rest() == buf[used..]
                && t == if kind.WithIndexing? then DynamicTable.Insert(table.Contents(), r.value) else table.Contents()
    {
      hide ReadString, IntoEntry, DynamicTable.Insert, DynamicTable.Get, Huffman.Good, Marks,
           DynamicTable.Table.Contents, DynamicTable.Table.Valid;
      assert buf[0..] == buf;
      var entry :- table.GetEntry(tableIdx);
      ghost var n := src.pos;
      var value :- DecodeString(src);
      DropTwice(buf, n, ReadString(params.codes, buf[n..]).value.used);
      r := IntoEntry(params.values, entry.name, value);
    }

    /** The name and the value of a literal are both checked to be complete before either is consumed. */
    method DecodeNewName(src: Cursor, kind: Kind, ghost buf: Bytes) returns (r: Result<Header>)
      requires Valid() && src.Valid() && 1 <= src.pos && src.buf == buf
      modifies src
      ensures src.Valid()
      ensures match Representation.DecodeNewName(params, table.Contents(), kind, buf, old(src.pos))
              case Failed(e, lost) => r == Err(e) && src.buf == buf[lost..]
              case Done(used, emitted, t) =>
                && r.Ok? && emitted == Some(r.value) && src.Rest() == buf[used..]
                && t == if kind.WithIndexing? then DynamicTable.Insert(table.Contents(), r.value) else table.Contents()
    {
      hide ReadString, NewHeader, DynamicTable.Insert, DynamicTable.Table.Contents, DynamicTable.Table.Valid,
           Huffman.Good, Marks;
      ghost var n := src.pos;
      assert buf[0..] == buf;
      var markers :- MarkBoth(src, buf);
      ghost var name := ReadString(params.codes, buf[n..]).value;
      ghost var value := ReadString(params.codes, buf[n + name.used..]).value;
      var nameBytes := Consume(markers.0, src, name);
      DropTwice(buf, n, name.used);
      var valueBytes := Consume(markers.1, src, value);
      DropTwice(buf, n + name.used, value.used);
      r := NewHeader(params.values, nameBytes, valueBytes);
    }

    /** Finds the two strings of a literal, and goes back to where they start. */
    method MarkBoth(src: Cursor, ghost buf: Bytes) returns (r: Result<(StringMarker, StringMarker)>)
      requires Valid() && src.Valid() && src.buf == buf
      modifies src`pos
      ensures src.Valid()
      ensures var n := old(src.pos);
              match ReadString(params.codes, buf[n..])
              case Err(e) => r == Err(e)
              case Ok(name) =>
                match ReadString(params.codes, buf[n + name.used..])
                case Err(e) => r == Err(e)
                case Ok(value) =>
                  && r.Ok? && src.pos == n
                  && Marks(r.value.0, buf[n..], name) && Marks(r.value.1, buf[n + name.used..], value)
    {
      hide ReadString, DynamicTable.Table.Contents, DynamicTable.Table.Valid, Huffman.Good, Marks;
      var oldPos := src.pos;
      var name :- TryDecodeString(src);
      var value :- TryDecodeString(src);
      src.pos := oldPos;
      return Ok((name, value));
    }

    method DecodeString(src: Cursor) returns (r: Result<Bytes>)
      requires Valid() && src.Valid()
      modifies src
      ensures src.Valid()
      ensures match ReadString(params.codes, old(src.Rest()))
              case Err(e) => r == Err(e) && src.buf == old(src.buf)
              case Ok(s) =>
                && r == Ok(s.value) && src.Rest() == old(src.Rest())[s.used..]
                && src.buf == if s.raw then old(src.Rest())[s.used..] else old(src.buf)
    {
      hide ReadString, Marks;
      var oldPos := src.pos;
      var marker :- TryDecodeString(src);
      src.pos := oldPos;
      var value := Consume(marker, src, ReadString(params.codes, src.Rest()).value);
      return Ok(value);
    }

    method DecodeIndexed(src: Cursor) returns (r: Result<Header>)
      requires Valid() && src.Valid() && src.pos == 0
      modifies src`pos
      ensures src.Valid()
      ensures match Representation.DecodeIndexed(table.Contents(), src.buf)
              case Failed(e, _) => r == Err(e)
              case Done(used, emitted, t) =>
                r.Ok? && emitted == Some(r.value) && src.pos == used && t == table.Contents()
    {
      hide ReadInt, DynamicTable.Get;
      assert src.Rest() == src.buf;
      var index :- ReadInteger(src, 7);
      r := table.GetEntry(index);
    }

    method ProcessSizeUpdate(src: Cursor) returns (r: Result<()>)
      requires Valid() && src.Valid() && src.pos == 0
      modifies src`pos, table
      ensures Valid() && src.Valid()
      ensures match DecodeSizeUpdate(old(table.Contents()), lastMaxUpdate, src.buf)
              case Failed(e, _) => r == Err(e) && table.Contents() == old(table.Contents())
              case Done(used, emitted, t) => r.Ok? && emitted == None && src.pos == used && table.Contents() == t
    {
      hide ReadInt, DynamicTable.Resize;
      assert src.Rest() == src.buf;
      var newSize :- ReadInteger(src, 5);
      if newSize > lastMaxUpdate {
        return Err(InvalidMaxDynamicSize);
      }
      table.SetMaxSize(newSize);
      return Ok(());
    }

    /** Decodes as many representations as the input holds, handing every header on as it comes. */
    method Decode(src: Cursor) returns (headers: seq<Header>, r: Result<()>)
      requires Valid() && src.Valid() && src.pos == 0
      modifies this, table, src
      ensures Valid() && src.Valid() && maxSizeUpdate == None
      ensures lastMaxUpdate == match old(maxSizeUpdate) case Some(v) => v case None => old(lastMaxUpdate)
      ensures Block(headers, table.Contents(), src.buf, r)
              == DecodeBlock(params, old(table.Contents()), lastMaxUpdate, true, old(src.buf))
    {
      hide Load, Representation.DecodeIndexed, Representation.DecodeLiteral, DecodeSizeUpdate, DynamicTable.Insert,
           Huffman.Good, DynamicTable.Table.Valid, DecodeBlock;
      var canResize := true;
      if maxSizeUpdate.Some? {
        lastMaxUpdate := maxSizeUpdate.value;
        maxSizeUpdate := None;
      }
      headers := [];
      ghost var whole := DecodeBlock(params, table.Contents(), lastMaxUpdate, true, src.buf);
      while true
        invariant Valid() && src.Valid() && src.pos == 0
        invariant maxSizeUpdate == None
                  && lastMaxUpdate == match old(maxSizeUpdate) case Some(v) => v case None => old(lastMaxUpdate)
        invariant var rest := DecodeBlock(params, table.Contents(), lastMaxUpdate, canResize, src.buf);
                  whole == rest.(headers := headers + rest.headers)
        decreases |src.buf|
      {
        var ty := src.Peek();
        assert src.Rest() == src.buf;
        if ty.None? {
          BlockEnd(params, table.Contents(), lastMaxUpdate, canResize, headers);
          return headers, Ok(());
        }
        ghost var buf, step := src.buf, DecodeStep(params, table.Contents(), lastMaxUpdate, canResize, src.buf);
        BlockStep(params, table.Contents(), lastMaxUpdate, canResize, src.buf, headers);
        var loaded := Load(ty.value);
        if loaded.Err? {
          return headers, Err(loaded.error);
        }
        match loaded.value
        case IndexedKind =>
          canResize := false;
          var entry := DecodeIndexed(src);
          if entry.Err? {
            return headers, Err(entry.error);
          }
          var _ := src.Take(0);
          assert src.buf == buf[step.used..];
          headers := headers + [entry.value];
        case LiteralKind(kind) =>
          canResize := false;
          var entry := DecodeLiteral(src, kind);
          if entry.Err? {
            return headers, Err(entry.error);
          }
          if kind.WithIndexing? {
            table.InsertEntry(entry.value);
          }
          var _ := src.Take(0);
          assert src.buf == buf[step.used..];
          headers := headers + [entry.value];
        case SizeUpdateKind =>
          if !canResize {
            return headers, Err(InvalidMaxDynamicSize);
          }
          var done := ProcessSizeUpdate(src);
          if done.Err? {
            return headers, Err(done.error);
          }
          var _ := src.Take(0);
          assert src.buf == buf[step.used..];
      }
    }
  }
}
