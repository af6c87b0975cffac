/**
  The buffered message reader, proved against the plain cursor of module Cursor.

  The buffer is a window of the stream; `base` is the stream position of its first byte.  Pointers
  are offsets into the buffer; `contentEnd` may lie far behind it.  A step that throws promises
  nothing about the state it leaves.
 */
module DataReader {
  import opened Words
  import opened Streams
  import opened Alphanumeric
  import Cursor

  // Room for wide loads and stores behind the buffer.
  const GUARD := 8
  // `contentEnd` outside a message.
  const FAR := 0x7FFF_FFFF_FFFF_FFFF

  /** From `pos` on, the stream is what is unread in a buffer and then the rest of the source. */
  ghost predicate Ahead(stream: seq<byte>, pos: nat, unread: seq<byte>, rest: seq<byte>)
  {
    pos <= |stream| && stream[pos..] == unread + rest
  }

  lemma MoveAhead(stream: seq<byte>, pos: nat, unread: seq<byte>, rest: seq<byte>, n: nat)
    requires Ahead(stream, pos, unread, rest) && n <= |unread|
    ensures pos + |unread| + |rest| == |stream|
    ensures stream[pos..pos + n] == unread[..n] && Ahead(stream, pos + n, unread[n..], rest)
  {
    assert stream[pos + n..] == stream[pos..][n..] == unread[n..] + rest;
    assert stream[pos..pos + n] == stream[pos..][..n] == unread[..n];
  }

  lemma FetchAhead(stream: seq<byte>, pos: nat, unread: seq<byte>, bytes: seq<byte>, rest: seq<byte>)
    requires Ahead(stream, pos, unread, bytes + rest)
    ensures pos + |unread| + |bytes| + |rest| == |stream|
    ensures Ahead(stream, pos, unread + bytes, rest)
  {
    assert unread + (bytes + rest) == (unread + bytes) + rest;
  }

  function LittleEndian(r: Cursor.Read<seq<byte>>): Cursor.Read<nat> {
    if r.Got? then Cursor.Got(LE(r.value), r.cursor) else Cursor.Threw
  }

  /** The header bytes decide the length, whatever a wider load finds behind them. */
  lemma LengthBits(load: seq<byte>, header: seq<byte>, sizeBits: nat)
    requires |load| == 4 && header <= load && sizeBits <= 8 * |header|
    ensures Shr(BE(load), 32 - sizeBits) == Bits(header, 0, sizeBits)
    ensures Bits(header, 0, sizeBits) < Pow2(sizeBits)
  {
    hide BE, Shr, Bits, Pow2;
    FirstLoad(load, sizeBits);
    assert load[..4] == load;
    BitsPrefix(header, load, 0, sizeBits);
    BitsBound(header, 0, sizeBits);
  }

  /** The longest field a length can announce fits the buffer. */
  lemma FieldFits(sizeBits: nat, len: nat)
    requires 1 <= sizeBits <= 14 && len < Pow2(sizeBits)
    ensures FieldBytes(sizeBits, len) + GUARD <= READ_BUFFER_SIZE
  {
    Pow2Monotone(sizeBits, 14);
    Pow2By8(6);
  }

  lemma Glue(stream: seq<byte>, a: nat, b: nat, c: nat)
    requires a <= b <= c
    ensures c <= |stream| ==> stream[a..c] == stream[a..b] + stream[b..c]
  {
  }

  /** The field sizes the reader's assertions and its fixed-width readers admit. */
  predicate Readable(leaf: Cursor.Leaf) {
    match leaf
    case Int(width) => width in {1, 2, 4, 6, 8}
    case Alphanumeric(size) => size + 1 <= READ_BUFFER_SIZE
    case _ => true
  }

  /** A view into the buffer cannot be longer than it. */
  predicate Allowed(op: Cursor.Op, bufferSize: nat) {
    match op
    case OpBytes(n) => n <= bufferSize
    case OpPeek(n) => n <= bufferSize
    case OpRead(leaf) => Readable(leaf)
    case OpReadWord(size, width) => size + 1 <= READ_BUFFER_SIZE && width in {4, 8}
    case OpSkipField(leaf) => Readable(leaf)
    case _ => true
  }

  /** The slots of the container stack after a step: opening fills the one it pushes, and nothing
      clears a slot. */
  function Slots(slots: seq<nat>, before: Cursor.Cursor, after: Cursor.Cursor): (r: seq<nat>)
    ensures |r| == |slots|
  {
    var d := |before.ofs|;
    if d < |after.ofs| && d < |slots| then slots[d := after.ofs[d]] else slots
  }

  function RunSlots(s: seq<byte>, c: Cursor.Cursor, slots: seq<nat>, ops: seq<Cursor.Op>): (r: seq<nat>)
    requires c.Valid()
    ensures |r| == |slots|
    decreases |ops|
  {
    if ops == [] || Cursor.Step(s, c, ops[0]).Threw? then slots
    else
      var c' := Cursor.Step(s, c, ops[0]).cursor;
      Cursor.StepKeepsEnds(s, c, ops[0]);
      RunSlots(s, c', Slots(slots, c, c'), ops[1..])
  }

  lemma {:induction false} RunSlotsSnoc(s: seq<byte>, c: Cursor.Cursor, slots: seq<nat>, ops: seq<Cursor.Op>,
                                        op: Cursor.Op)
    requires c.Valid() && Cursor.Run(s, c, ops + [op]).Got? && Cursor.Run(s, c, ops).Got?
    ensures RunSlots(s, c, slots, ops + [op])
      == Slots(RunSlots(s, c, slots, ops), Cursor.Run(s, c, ops).cursor, Cursor.Run(s, c, ops + [op]).cursor)
    decreases |ops|
  {
    hide Cursor.Step, Slots;
    if ops == [] {
      assert ops + [op] == [op] && [op][1..] == [];
      assert RunSlots(s, Cursor.Step(s, c, op).cursor, Slots(slots, c, Cursor.Step(s, c, op).cursor), [])
        == Slots(slots, c, Cursor.Step(s, c, op).cursor);
      assert Cursor.Run(s, Cursor.Step(s, c, op).cursor, []).cursor == Cursor.Step(s, c, op).cursor;
    } else {
      assert (ops + [op])[0] == ops[0] && (ops + [op])[1..] == ops[1..] + [op];
      Cursor.StepKeepsEnds(s, c, ops[0]);
      var first := Cursor.Step(s, c, ops[0]).cursor;
      RunSlotsSnoc(s, first, Slots(slots, c, first), ops[1..], op);
    }
  }

  function WordFor(width: nat): nat {
    if width == 6 then 8 else width
  }

  lemma PushedStack<T>(stack: seq<T>, depth: nat, x: T)
    requires depth < |stack|
    ensures stack[depth := x][..depth + 1] == stack[..depth] + [x]
  {
  }

  lemma PoppedStack<T>(stack: seq<T>, depth: nat)
    requires 0 < depth <= |stack|
    ensures stack[..depth][..depth - 1] == stack[..depth - 1] && stack[..depth][depth - 1] == stack[depth - 1]
  {
  }

  class DataReaderMsg {
    const buffer: array<byte>
    const bufferSize: nat
    // Whether an exhausted buffer is refilled behind its old content, to exercise the move.
    const debugRefill: bool
    const s: InputStream
    ghost const stream: seq<byte>

    var dataPtr: nat
    var dataEnd: nat
    var contentEnd: nat
    var streamDataEnd: nat
    var dataEnd0: nat
    var depth: nat
    var eOfs: seq<nat>
    var containerIsArray: seq<bool>
    ghost var base: nat

    // ---- The window ----

    /** From `from` on, the buffer holds the stream, and the source the rest of it. */
    ghost predicate Buffered(from: nat)
      reads `base, `streamDataEnd, buffer, s
    {
      && buffer.Length == bufferSize + GUARD
      && from <= streamDataEnd <= bufferSize
      && Ahead(stream, base + from, buffer[from..streamDataEnd], s.rest)
    }

    /** What links the four pointers, with the read pointer at `from`. */
    ghost predicate Linked(from: nat)
      reads this, buffer, s
    {
      && Buffered(from)
      && dataEnd0 == streamDataEnd
      && dataEnd == Min(contentEnd, streamDataEnd)
      && from <= dataEnd
    }

    ghost predicate Stacked()
      reads this
    {
      depth <= Cursor.MAX_NESTED == |eOfs| == |containerIsArray|
    }

    ghost predicate Valid()
      reads this, buffer, s
    {
      Linked(dataPtr) && Stacked() && READ_BUFFER_SIZE <= bufferSize <= FAR
    }

    /** The cursor this reader stands for. */
    ghost function At(): Cursor.Cursor
      requires Stacked()
      reads this
    {
      Cursor.Cursor(base + dataPtr, base + contentEnd, eOfs[..depth], containerIsArray[..depth])
    }

    /** The call did what the cursor does: it threw when the cursor throws, or got the same value
        and stands where the cursor stands. */
    ghost predicate Meets<T(!new)>(ok: bool, v: T, r: Cursor.Read<T>)
      reads this, buffer, s
    {
      && (ok <==> r.Got?)
      && (ok ==> Valid() && r == Cursor.Got(v, At()))
    }

    constructor (content: seq<byte>, dataSize: nat, bufferSize: nat, debugRefill: bool, s: InputStream)
      requires READ_BUFFER_SIZE <= bufferSize <= FAR && dataSize <= bufferSize && dataSize <= |content|
      requires s.rest == content[dataSize..]
      ensures Valid() && fresh(buffer) && this.s == s && stream == content
      ensures At() == Cursor.Cursor(0, FAR, [], [])
    {
      this.bufferSize := bufferSize;
      this.debugRefill := debugRefill;
      this.s := s;
      stream := content;
      buffer := new byte[bufferSize + GUARD](i => if 0 <= i < dataSize then content[i] else 0);
      dataPtr, dataEnd, dataEnd0, streamDataEnd := 0, dataSize, dataSize, dataSize;
      contentEnd, depth, base := FAR, 0, 0;
      eOfs := seq(Cursor.MAX_NESTED, _ => 0);
      containerIsArray := seq(Cursor.MAX_NESTED, _ => false);
    }

    // ---- The stream layer ----

    /** Writes what a read delivered, and the terminating zero. */
    method Store(at: nat, bytes: seq<byte>)
      requires at + |bytes| < buffer.Length
      modifies buffer
      ensures buffer[..at] == old(buffer[..at])
      ensures buffer[at..at + |bytes|] == bytes && buffer[at + |bytes|] == 0
    {
      forall i | 0 <= i < |bytes| {
        buffer[at + i] := bytes[i];
      }
      buffer[at + |bytes|] := 0;
    }

    /** Moves `n` bytes from `from` to the start: eight of them always, by a single word, and the rest. */
    method MoveToStart(from: nat, n: nat)
      requires from + n <= buffer.Length && from + 8 <= buffer.Length
      modifies buffer
      ensures buffer[..n] == old(buffer[from..from + n])
    {
      forall i | 0 <= i < 8 {
        buffer[i] := buffer[from + i];
      }
      if n > 8 {
        forall i | 8 <= i < n {
          buffer[i] := buffer[from + i];
        }
      }
    }

    /** Makes room for `size` bytes at `from`, which may move together with its unread bytes. */
    method MakeRoom(from: nat, size: nat) returns (p: nat, end: nat)
      requires Buffered(from) && streamDataEnd - from < size <= bufferSize
      modifies `dataPtr, `base, buffer
      ensures p <= end <= p + size <= bufferSize
      ensures base + p == old(base) + from && buffer[p..end] == old(buffer[from..streamDataEnd])
      ensures dataPtr == p || (dataPtr == old(dataPtr) && p == from && base == old(base))
    {
      p, end := from, streamDataEnd;
      var nBytesRemaining := end - from;
      // Any chance is taken to start over at the front of the buffer.
      if nBytesRemaining == 0 && !debugRefill {
        base := base + from;
        dataPtr, end, p := 0, 0, 0;
      } else if size - nBytesRemaining > bufferSize - end {
        MoveToStart(from, nBytesRemaining);
        base := base + from;
        dataPtr, p, end := 0, 0, nBytesRemaining;
      }
    }

    /** Makes `size` bytes available at `from`, which may move. */
    method GetFromStream(from: nat, size: nat) returns (ok: bool, p: nat)
      requires Buffered(from) && 0 < size <= bufferSize
      modifies `dataPtr, `streamDataEnd, `base, buffer, s
      ensures ok <==> old(base) + from + size <= |stream|
      ensures ok ==> Buffered(p) && base + p == old(base) + from && p + size <= streamDataEnd
      ensures ok ==> dataPtr == p || (dataPtr == old(dataPtr) && p == from && base == old(base))
      ensures old(from + size <= streamDataEnd) ==>
        p == from && unchanged(`dataPtr, `streamDataEnd, `base, buffer, s)
    {
      hide Ahead;
      var nBytesRemaining := streamDataEnd - from;
      ghost var unread := buffer[from..streamDataEnd];
      MoveAhead(stream, base + from, unread, s.rest, 0);
      if size <= nBytesRemaining {
        return true, from;
      }
      var end;
      p, end := MakeRoom(from, size);
      var bytes := s.Read(size - nBytesRemaining, bufferSize - end);
      if bytes.None? {
        return false, p;
      }
      Append(p, end, unread, bytes.value);
      streamDataEnd := end + |bytes.value|;
      FetchAhead(stream, base + p, unread, bytes.value, s.rest);
      ok := true;
    }

    method Append(p: nat, end: nat, ghost unread: seq<byte>, bytes: seq<byte>)
      requires p <= end && end + |bytes| < buffer.Length && buffer[p..end] == unread
      modifies buffer
      ensures buffer[p..end + |bytes|] == unread + bytes && buffer[end + |bytes|] == 0
    {
      ghost var kept := buffer[..end];
      Store(end, bytes);
      assert buffer[p..end] == buffer[..end][p..] == kept[p..];
      assert buffer[p..end + |bytes|] == buffer[p..end] + buffer[end..end + |bytes|];
    }

    /** Reads whole buffers and forgets them, until no more than one buffer of `size` bytes is left. */
    method DropBlocks(size: nat) returns (ok: bool, left: nat)
      requires 0 < bufferSize < buffer.Length && size > 0
      requires Ahead(stream, base, [], s.rest)
      modifies `base, buffer, s
      ensures !ok ==> old(base) + size > |stream|
      ensures ok ==> 0 < left <= bufferSize && base + left == old(base) + size && Ahead(stream, base, [], s.rest)
    {
      left := size;
      while left > bufferSize
        invariant left > 0 && base + left == old(base) + size
        invariant Ahead(stream, base, [], s.rest)
      {
        assert |stream| == base + |s.rest|;
        var block := s.Read(bufferSize, bufferSize);
        if block.None? {
          return false, left;
        }
        Store(0, block.value);
        FetchAhead(stream, base, [], block.value, s.rest);
        MoveAhead(stream, base, [] + block.value, s.rest, bufferSize);
        base := base + bufferSize;
        left := left - bufferSize;
      }
      ok := true;
    }

    /** Ignores `size` bytes from `from` on, buffered or yet to come. */
    method SkipStream(from: nat, size: nat) returns (ok: bool)
      requires Buffered(from) && bufferSize > 0
      modifies `dataPtr, `streamDataEnd, `base, buffer, s
      ensures ok <==> old(base) + from + size <= |stream|
      ensures ok ==> Buffered(dataPtr) && base + dataPtr == old(base) + from + size
    {
      var nBytesRemaining := streamDataEnd - from;
      ghost var unread := buffer[from..streamDataEnd];
      if size <= nBytesRemaining {
        MoveAhead(stream, base + from, unread, s.rest, size);
        dataPtr := from + size;
        assert buffer[dataPtr..streamDataEnd] == unread[size..];
        return true;
      }
      MoveAhead(stream, base + from, unread, s.rest, nBytesRemaining);
      base := base + streamDataEnd;
      var left;
      ok, left := DropBlocks(size - nBytesRemaining);
      if ok {
        ok := SkipIntoBlock(left);
      }
    }

    /** Refills the empty buffer behind the last `size` bytes to skip. */
    method SkipIntoBlock(size: nat) returns (ok: bool)
      requires size <= bufferSize && buffer.Length == bufferSize + GUARD
      requires Ahead(stream, base, [], s.rest)
      modifies `dataPtr, `streamDataEnd, buffer, s
      ensures ok <==> base + size <= |stream|
      ensures ok ==> Buffered(dataPtr) && dataPtr == size
    {
      hide Ahead;
      MoveAhead(stream, base, [], s.rest, 0);
      var bytes := s.Read(size, bufferSize);
      if bytes.None? {
        return false;
      }
      Store(0, bytes.value);
      dataPtr := size;
      streamDataEnd := |bytes.value|;
      FetchAhead(stream, base, [], bytes.value, s.rest);
      MoveAhead(stream, base, [] + bytes.value, s.rest, size);
      assert ([] + bytes.value)[size..] == buffer[size..streamDataEnd];
      ok := true;
    }

    // ---- The content barrier ----

    method Get(from: nat, size: nat) returns (ok: bool, p: nat)
      requires Linked(from) && 0 < size <= bufferSize
      modifies `dataPtr, `dataEnd, `dataEnd0, `contentEnd, `streamDataEnd, `base, buffer, s
      ensures ok <==> old(from + size <= contentEnd) && old(base) + from + size <= |stream|
      ensures ok ==> Linked(p) && base + p == old(base) + from && p + size <= dataEnd
      ensures ok ==> base + contentEnd == old(base + contentEnd)
      ensures old(from + size <= streamDataEnd) ==> unchanged(s, buffer)
    {
      hide Buffered;
      if from + size > contentEnd {
        return false, from;
      }
      ok, p := GetFromStream(from, size);
      if ok {
        dataEnd := streamDataEnd;
        contentEnd := contentEnd + p - from;
        dataEnd0 := dataEnd;
        dataEnd := Min(contentEnd, dataEnd);
      }
    }

    method SkipBarrier(from: nat, size: nat) returns (ok: bool)
      requires Linked(from) && bufferSize > 0
      modifies `dataPtr, `dataEnd, `dataEnd0, `contentEnd, `streamDataEnd, `base, buffer, s
      ensures ok <==> old(from + size <= contentEnd) && old(base) + from + size <= |stream|
      ensures ok ==> Linked(dataPtr) && base + dataPtr == old(base) + from + size
      ensures ok ==> base + contentEnd == old(base + contentEnd)
    {
      hide Buffered;
      if from + size > contentEnd {
        return false;
      }
      var remaining := contentEnd - from - size;
      ok := SkipStream(from, size);
      if ok {
        dataEnd := streamDataEnd;
        contentEnd := dataPtr + remaining;
        dataEnd0 := dataEnd;
        dataEnd := Min(contentEnd, dataEnd);
      }
    }

    /** `n` bytes of the window from `p` on. */
    ghost function Window(p: nat, n: nat): seq<byte>
      requires p + n <= buffer.Length
      reads buffer
    {
      buffer[p..p + n]
    }

    /** What the window shows at the read pointer is what the stream holds there. */
    lemma WindowIsStream(p: nat, n: nat)
      requires Buffered(p) && p + n <= streamDataEnd
      ensures p + n <= bufferSize && buffer.Length == bufferSize + GUARD
      ensures base + p + n <= |stream| && stream[base + p..base + p + n] == Window(p, n)
      ensures Buffered(p + n)
    {
      var unread := buffer[p..streamDataEnd];
      MoveAhead(stream, base + p, unread, s.rest, n);
      assert unread[..n] == Window(p, n) && unread[n..] == buffer[p + n..streamDataEnd];
    }

    /** Standing `n` bytes behind where `c` stands is what taking `n` bytes comes to. */
    lemma Taken(c: Cursor.Cursor, n: nat, v: seq<byte>)
      requires Valid() && At() == c.(pos := c.pos + n)
      requires c.pos + n <= |stream| && v == stream[c.pos..c.pos + n]
      ensures Meets(true, v, Cursor.Take(stream, c, n))
      ensures Meets(true, (), Cursor.Skip(stream, c, n))
    {
    }

    method OnReadBarrier(from: nat, size: nat) returns (ok: bool, p: nat)
      requires Linked(from) && 0 < size <= bufferSize
      modifies `dataPtr, `dataEnd, `dataEnd0, `contentEnd, `streamDataEnd, `base, buffer, s
      ensures ok <==> old(from + size <= contentEnd) && old(base) + from + size <= |stream|
      ensures ok ==> Linked(dataPtr) && base + p == old(base) + from && p + size == dataPtr
      ensures ok ==> p + size <= bufferSize && buffer.Length == bufferSize + GUARD
      ensures ok ==> base + contentEnd == old(base + contentEnd)
      ensures ok ==> Window(p, size) == stream[old(base) + from..old(base) + from + size]
      ensures old(from + size <= streamDataEnd) ==> unchanged(s, buffer)
    {
      hide Buffered;
      ok, p := Get(from, size);
      if ok {
        dataPtr := p + size;
        WindowIsStream(p, size);
      }
    }

    method Bytes(n: nat) returns (ok: bool, p: nat)
      requires Valid() && n <= bufferSize
      modifies `dataPtr, `dataEnd, `dataEnd0, `contentEnd, `streamDataEnd, `base, buffer, s
      ensures ok ==> p + n <= bufferSize && buffer.Length == bufferSize + GUARD
      ensures Meets(ok, if ok then Window(p, n) else [], Cursor.Take(stream, old(At()), n))
      ensures old(dataPtr + n <= streamDataEnd) ==> unchanged(s, buffer)
    {
      hide Buffered;
      ok, p := true, dataPtr;
      ghost var c := At();
      dataPtr := p + n;
      if dataPtr > dataEnd {
        ok, p := OnReadBarrier(p, n);
      } else {
        WindowIsStream(p, n);
      }
      if ok {
        Taken(c, n, Window(p, n));
      }
    }

    method Peek(n: nat) returns (ok: bool, p: nat)
      requires Valid() && n <= bufferSize
      modifies `dataPtr, `dataEnd, `dataEnd0, `contentEnd, `streamDataEnd, `base, buffer, s
      ensures ok ==> p == dataPtr && p + n <= bufferSize && buffer.Length == bufferSize + GUARD
      ensures Meets(ok, if ok then Window(p, n) else [], Cursor.Peek(stream, old(At()), n))
      ensures old(dataPtr + n <= streamDataEnd) ==> unchanged(s, buffer)
    {
      hide Buffered;
      ok, p := true, dataPtr;
      if p + n > dataEnd {
        ok, p := Get(p, n);
        if !ok {
          return;
        }
        dataPtr := p;
      }
      WindowIsStream(p, n);
    }

    method Skip(n: nat) returns (ok: bool)
      requires Valid()
      modifies `dataPtr, `dataEnd, `dataEnd0, `contentEnd, `streamDataEnd, `base, buffer, s
      ensures Meets(ok, (), Cursor.Skip(stream, old(At()), n))
      ensures old(dataPtr + n <= dataEnd) ==> unchanged(s, buffer)
    {
      hide Buffered;
      ok := true;
      var p := dataPtr;
      dataPtr := p + n;
      if dataPtr > dataEnd {
        ok := SkipBarrier(p, n);
      } else {
        WindowIsStream(p, n);
      }
    }

    /** Takes all there is from `from` on and fetches at least one byte more. */
    method Drain(from: nat) returns (ok: bool, p: nat, chunk: seq<byte>)
      requires Linked(from) && bufferSize > 0
      modifies `dataPtr, `dataEnd, `dataEnd0, `contentEnd, `streamDataEnd, `base, buffer, s
      ensures ok <==> old(dataEnd < contentEnd) && old(base + dataEnd) < |stream|
      ensures ok ==> Linked(p) && base + p == old(base + dataEnd) && p < dataEnd
      ensures ok ==> base + contentEnd == old(base + contentEnd)
      ensures old(base) + from <= old(base + dataEnd) <= |stream|
      ensures chunk == stream[old(base) + from..old(base + dataEnd)]
    {
      hide Buffered;
      var n := dataEnd - from;
      WindowIsStream(from, n);
      chunk := buffer[from..from + n];
      ok, p := Get(from + n, 1);
    }

    /** Copies bytes out of the window, refilling it by at least one byte at a time, until it holds
        the last `left` of them. */
    method CopyToLast(n: nat) returns (ok: bool, p: nat, left: nat, destination: seq<byte>)
      requires Linked(dataPtr) && bufferSize > 0 && base + dataPtr <= |stream|
      modifies `dataPtr, `dataEnd, `dataEnd0, `contentEnd, `streamDataEnd, `base, buffer, s
      ensures ok <==> old(dataPtr + n <= contentEnd) && old(base + dataPtr) + n <= |stream|
      ensures ok ==> Linked(p) && p + left <= dataEnd && base + p + left == old(base + dataPtr) + n
      ensures ok ==> base + contentEnd == old(base + contentEnd)
      ensures ok ==> old(base + dataPtr) <= base + p <= |stream|
      ensures ok ==> destination == stream[old(base + dataPtr)..base + p]
      ensures old(dataPtr + n <= dataEnd) ==> unchanged(s, buffer)
    {
      hide Buffered;
      p, left, destination := dataPtr, n, [];
      ghost var start, end, enough := base + dataPtr, base + contentEnd, dataPtr + n <= dataEnd;
      ghost var pos := start;
      Glue(stream, start, start, start);
      while dataEnd - p < left
        invariant Linked(p) && base + contentEnd == end
        invariant base + p == pos && pos + left == start + n && start <= pos <= |stream|
        invariant destination == stream[start..pos]
        invariant enough ==> left <= dataEnd - p && unchanged(s, buffer)
        decreases left, if dataEnd == p then 1 else 0
      {
        left := left - (dataEnd - p);
        Glue(stream, start, pos, base + dataEnd);
        pos := base + dataEnd;
        var chunk;
        ok, p, chunk := Drain(p);
        if !ok {
          return;
        }
        destination := destination + chunk;
      }
      WindowIsStream(p, left);
      ok := true;
    }

    method GetBytes(n: nat) returns (ok: bool, destination: seq<byte>)
      requires Valid()
      modifies `dataPtr, `dataEnd, `dataEnd0, `contentEnd, `streamDataEnd, `base, buffer, s
      ensures Meets(ok, destination, Cursor.Take(stream, old(At()), n))
      ensures old(dataPtr + n <= dataEnd) ==> unchanged(s, buffer)
    {
      hide Buffered;
      ghost var c := At();
      var p, left;
      WindowIsStream(dataPtr, 0);
      ok, p, left, destination := CopyToLast(n);
      if ok {
        WindowIsStream(p, left);
        Glue(stream, c.pos, base + p, base + p + left);
        destination := destination + buffer[p..p + left];
        dataPtr := p + left;
        Taken(c, n, destination);
      }
    }

    // ---- Integers ----

    /** The first `n` bytes of a big-endian word of `word` bytes. */
    method LoadBE(word: nat, n: nat) returns (ok: bool, v: nat)
      requires Valid() && n <= word <= 8
      modifies `dataPtr, `dataEnd, `dataEnd0, `contentEnd, `streamDataEnd, `base, buffer, s
      ensures Meets(ok, v, Cursor.UInt(stream, old(At()), n))
    {
      var p;
      hide Buffered, BE, LE, Shr, Low;
      ok, p := Bytes(n);
      v := 0;
      if ok {
        var load := buffer[p..p + word];
        ShiftedLoad(load, n, 8 * (word - n));
        assert load[..n] == Window(p, n);
        v := Shr(BE(load), 8 * (word - n));
      }
    }

    method GetByte() returns (ok: bool, v: nat)
      requires Valid()
      modifies `dataPtr, `dataEnd, `dataEnd0, `contentEnd, `streamDataEnd, `base, buffer, s
      ensures Meets(ok, v, Cursor.UInt(stream, old(At()), 1))
      ensures ok ==> v < 256
    {
      ghost var c := At();
      ok, v := LoadBE(1, 1);
      if ok {
        BEBound(stream[c.pos..c.pos + 1]);
        Pow2By8(0);
      }
    }

    /** The low `n` bytes of a little-endian word of `word` bytes, by a mask. */
    method LoadMasked(word: nat, n: nat) returns (ok: bool, v: nat)
      requires Valid() && n <= word <= 8
      modifies `dataPtr, `dataEnd, `dataEnd0, `contentEnd, `streamDataEnd, `base, buffer, s
      ensures Meets(ok, v, LittleEndian(Cursor.Take(stream, old(At()), n)))
    {
      var p;
      hide Buffered, BE, LE, Shr, Low;
      ok, p := Bytes(n);
      v := 0;
      if ok {
        var load := buffer[p..p + word];
        MaskedLoad(load, n);
        assert load[..n] == Window(p, n);
        v := Low(LE(load), 8 * n);
      }
    }

    method GetPackedUInt61() returns (ok: bool, v: nat)
      requires Valid()
      modifies `dataPtr, `dataEnd, `dataEnd0, `contentEnd, `streamDataEnd, `base, buffer, s
      ensures Meets(ok, v, Cursor.PackedUInt61(stream, old(At())))
    {
      hide Buffered, BE, LE;
      var header, x;
      ok, header := GetByte();
      v := 0;
      if ok {
        ok, x := LoadMasked(8, header / 32);
        v := header % 32 + 32 * x;
      }
    }

    method GetPackedUInt30() returns (ok: bool, v: nat)
      requires Valid()
      modifies `dataPtr, `dataEnd, `dataEnd0, `contentEnd, `streamDataEnd, `base, buffer, s
      ensures Meets(ok, v, Cursor.PackedUInt30(stream, old(At())))
    {
      hide Buffered, BE, LE;
      var header, x;
      ok, header := GetByte();
      v := 0;
      if ok {
        ok, x := LoadMasked(4, header / 64);
        v := header % 64 + 64 * x;
      }
    }

    method GetPackedUInt22() returns (ok: bool, v: nat)
      requires Valid()
      modifies `dataPtr, `dataEnd, `dataEnd0, `contentEnd, `streamDataEnd, `base, buffer, s
      ensures Meets(ok, v, Cursor.PackedUInt22(stream, old(At())))
    {
      hide Buffered, BE, LE;
      var header, x;
      ok, header := GetByte();
      v := header;
      if ok && header >= 0x80 {
        ok, x := LoadMasked(4, header / 64 - 1);
        v := header % 64 + 64 * x;
      }
    }

    // ---- Fields ----

    method GetInterval() returns (ok: bool, v: nat)
      requires Valid()
      modifies `dataPtr, `dataEnd, `dataEnd0, `contentEnd, `streamDataEnd, `base, buffer, s
      ensures Meets(ok, v, Cursor.ReadInterval(stream, old(At())))
    {
      hide Buffered, BE;
      var header;
      ok, header := GetByte();
      v := 0;
      if ok {
        var x := header % 64;
        match header / 64 {
          case 0 => v := x * 1000;
          case 1 => v := x * 60000;
          case 2 => v := x * 3600000;
          case _ => ok, v := LoadBE(4, 4);
        }
      }
    }

    /** Header and mantissa of a decimal. */
    method GetDecimal() returns (ok: bool, v: Cursor.Value)
      requires Valid()
      modifies `dataPtr, `dataEnd, `dataEnd0, `contentEnd, `streamDataEnd, `base, buffer, s
      ensures Meets(ok, v, Cursor.ReadDecimal(stream, old(At())))
    {
      hide Buffered, BE;
      var header, p;
      ok, header := GetByte();
      v := Cursor.DecimalBits(header, []);
      if !ok || header in {0x1F, 0x2F, 0x3F} {
        return;
      }
      var numBytes := if header == 0x0F then 8 else header / 16 % 8;
      ok, p := Bytes(numBytes);
      if ok {
        v := Cursor.DecimalBits(header, buffer[p..p + numBytes]);
      }
    }

    method GetText() returns (ok: bool, v: Cursor.Value)
      requires Valid()
      modifies `dataPtr, `dataEnd, `dataEnd0, `contentEnd, `streamDataEnd, `base, buffer, s
      ensures Meets(ok, v, Cursor.ReadText(stream, old(At())))
    {
      hide Buffered, BE;
      var len, bytes;
      ok, len := LoadBE(2, 2);
      v := Cursor.Null;
      if !ok || len == 0xFFFF {
        return;
      }
      ok, bytes := GetBytes(len);
      v := Cursor.Bytes(bytes);
    }

    method GetBinary() returns (ok: bool, v: Cursor.Value)
      requires Valid()
      modifies `dataPtr, `dataEnd, `dataEnd0, `contentEnd, `streamDataEnd, `base, buffer, s
      ensures Meets(ok, v, Cursor.ReadBinary(stream, old(At())))
    {
      hide Buffered, BE, Cursor.PackedUInt30;
      var flag, len, bytes;
      ok, flag := GetByte();
      v := Cursor.Null;
      if !ok || flag != 0 {
        return;
      }
      ok, len := GetPackedUInt30();
      if ok {
        ok, bytes := GetBytes(len);
        v := Cursor.Bytes(bytes);
      }
    }

    /** The length of an alphanumeric field, read without moving. */
    method PeekLength(sizeBits: nat) returns (ok: bool, len: nat)
      requires Valid() && 1 <= sizeBits <= 14
      modifies `dataPtr, `dataEnd, `dataEnd0, `contentEnd, `streamDataEnd, `base, buffer, s
      ensures Meets(ok, len, Cursor.PeekBits(stream, old(At()), sizeBits))
      ensures ok ==> len < Pow2(sizeBits)
    {
      hide Buffered, BE, Bits, Shr, Pow2;
      var p;
      ok, p := Peek((sizeBits + 7) / 8);
      len := 0;
      if ok {
        ghost var load := buffer[p..p + 4];
        LengthBits(load, Window(p, (sizeBits + 7) / 8), sizeBits);
        assert load[..4] == load;
        len := Shr(BE(buffer[p..p + 4]), 32 - sizeBits);
      }
    }

    method GetAlphanumeric(size: nat) returns (ok: bool, v: Cursor.Value)
      requires Valid() && size + 1 <= READ_BUFFER_SIZE
      modifies `dataPtr, `dataEnd, `dataEnd0, `contentEnd, `streamDataEnd, `base, buffer, s
      ensures Meets(ok, v, Cursor.ReadAlphanumeric(stream, old(At()), size))
    {
      hide Buffered, BE, Bits, Shr, Pow2, Bsr, Alphanumeric.Chars, FieldBytes;
      BsrOfReadable(size);
      var sizeBits := Bsr(size + 1);
      var len, p;
      ok, len := PeekLength(sizeBits);
      v := Cursor.Null;
      if !ok {
        return;
      }
      if len == size + 1 {
        ok := Skip((sizeBits + 7) / 8);
        return;
      }
      FieldFits(sizeBits, len);
      var n := FieldBytes(sizeBits, len);
      ok, p := Bytes(n);
      if ok {
        var chars := DecodeChars(buffer[p..p + n + 4], sizeBits, len);
        assert buffer[p..p + n + 4][..n] == Window(p, n);
        v := Cursor.Chars(chars);
      }
    }

    /** `highbytemask64LUT[n]` over a load of four or eight bytes, whatever stands behind the `n` bytes. */
    method LoadHighBytes(n: nat, width: nat) returns (ok: bool, v: nat, ghost field: seq<byte>)
      requires Valid() && n <= 8 && width in {4, 8}
      modifies `dataPtr, `dataEnd, `dataEnd0, `contentEnd, `streamDataEnd, `base, buffer, s
      ensures Meets(ok, field, Cursor.Take(stream, old(At()), n))
      ensures ok ==> |field| == n && v == if width == 4 then NarrowWord(field) else FieldWord(field, 8)
    {
      hide Buffered, BE, HighBytes, NarrowWord, FieldWord;
      var p;
      ok, p := Bytes(n);
      v, field := 0, [];
      if ok {
        ghost var mem := buffer[p..p + 8];
        field := Window(p, n);
        assert mem[..n] == field && mem[..4] == buffer[p..p + 4];
        WideLoadIsField(mem, n, 64 - 8 * n);
        NarrowLoad(mem, n, 64 - 8 * n);
        v := HighBytes(BE(buffer[p..p + width]), n);
      }
    }

    /** A field read as a word: a masked load of four or eight bytes, whatever stands behind the field. */
    method GetAlphanumericAs(size: nat, width: nat) returns (ok: bool, v: nat)
      requires Valid() && size + 1 <= READ_BUFFER_SIZE && width in {4, 8} && dataPtr != contentEnd
      modifies `dataPtr, `dataEnd, `dataEnd0, `contentEnd, `streamDataEnd, `base, buffer, s
      ensures Meets(ok, v, Cursor.ReadAlphanumericAs(stream, old(At()), size, width))
    {
      hide Buffered, BE, Bits, Shr, Pow2, Bsr, FieldBytes, NarrowWord, FieldWord;
      if size > 10 {
        return false, 0;
      }
      BsrOfShort(size);
      var sizeBits := Bsr(size + 1);
      var p;
      v := 0;
      ok, p := Peek(1);
      if !ok {
        return;
      }
      BitsOfBytePrefix(Window(p, 1), 0, sizeBits);
      var len := Shr(buffer[p], 8 - sizeBits);
      if len > size {
        if len == size + 1 {
          ok := Skip(1);
          return ok, if width == 4 then ALPHANUMERIC_NULL32 else ALPHANUMERIC_NULL;
        }
        return false, 0;
      }
      ShortField(size, len);
      ghost var field;
      ok, v, field := LoadHighBytes(FieldBytes(sizeBits, len), width);
    }

    method ReadAlphanumericAs(size: nat, width: nat) returns (ok: bool, v: nat)
      requires Valid() && size + 1 <= READ_BUFFER_SIZE && width in {4, 8}
      modifies `dataPtr, `dataEnd, `dataEnd0, `contentEnd, `streamDataEnd, `base, buffer, s
      ensures Meets(ok, v, Cursor.ReadAlphanumericAs(stream, old(At()), size, width))
    {
      hide Buffered, BE, Bits, Pow2, Bsr, FieldBytes, NarrowWord, FieldWord;
      if dataPtr == contentEnd {
        return true, if width == 4 then ALPHANUMERIC_NULL32 else ALPHANUMERIC_NULL;
      }
      ok, v := GetAlphanumericAs(size, width);
    }

    method ReadLeaf(leaf: Cursor.Leaf) returns (ok: bool, v: Cursor.Value)
      requires Valid() && Readable(leaf)
      modifies `dataPtr, `dataEnd, `dataEnd0, `contentEnd, `streamDataEnd, `base, buffer, s
      ensures Meets(ok, v, Cursor.ReadLeaf(stream, old(At()), leaf))
    {
      hide Buffered, BE, LE, Cursor.ReadAlphanumeric, Cursor.ReadBinary, Cursor.ReadText, Cursor.ReadDecimal,
        Cursor.ReadInterval, Cursor.PackedUInt30, Cursor.PackedUInt61, Cursor.Signed, Cursor.IntNull;
      if dataPtr == contentEnd && !leaf.Binary? {
        return true, Cursor.EndValue(leaf);
      }
      var n: nat;
      match leaf {
        case Int(width) =>
          ok, n := LoadBE(WordFor(width), width);
          v := Cursor.Number(Cursor.Signed(n, width));
        case PUInt30 =>
          ok, n := GetPackedUInt30();
          v := Cursor.Number(Cursor.Nullable(n, Cursor.UINT30_NULL));
        case PUInt61 =>
          ok, n := GetPackedUInt61();
          v := Cursor.Number(Cursor.Nullable(n, Cursor.UINT61_NULL));
        case Interval =>
          ok, n := GetInterval();
          v := Cursor.Number(n);
        case Decimal => ok, v := GetDecimal();
        case Utf8 => ok, v := GetText();
        case Alphanumeric(size) => ok, v := GetAlphanumeric(size);
        case Binary => ok, v := GetBinary();
      }
    }

    method SkipAlphanumeric(size: nat) returns (ok: bool)
      requires Valid() && size + 1 <= READ_BUFFER_SIZE
      modifies `dataPtr, `dataEnd, `dataEnd0, `contentEnd, `streamDataEnd, `base, buffer, s
      ensures Meets(ok, (), Cursor.SkipLeaf(stream, old(At()), Cursor.Alphanumeric(size)))
    {
      hide Buffered, BE, LE, Bits, Pow2, Bsr, FieldBytes;
      if dataPtr == contentEnd {
        return true;
      }
      BsrOfReadable(size);
      var sizeBits := Bsr(size + 1);
      var len;
      ok, len := PeekLength(sizeBits);
      if ok {
        ok := Skip(if len != size + 1 then FieldBytes(sizeBits, len) else (sizeBits + 7) / 8);
      }
    }

    method SkipDecimal() returns (ok: bool)
      requires Valid()
      modifies `dataPtr, `dataEnd, `dataEnd0, `contentEnd, `streamDataEnd, `base, buffer, s
      ensures Meets(ok, (), Cursor.SkipLeaf(stream, old(At()), Cursor.Decimal))
    {
      hide Buffered, BE, LE;
      if dataPtr == contentEnd {
        return true;
      }
      var header;
      ok, header := GetByte();
      if ok && header !in {0x1F, 0x2F, 0x3F} {
        ok := Skip(if header == 0x0F then 8 else header / 16 % 8);
      }
    }

    method SkipBinary() returns (ok: bool)
      requires Valid()
      modifies `dataPtr, `dataEnd, `dataEnd0, `contentEnd, `streamDataEnd, `base, buffer, s
      ensures Meets(ok, (), Cursor.SkipLeaf(stream, old(At()), Cursor.Binary))
    {
      hide Buffered, BE, LE, Cursor.PackedUInt30;
      if dataPtr == contentEnd {
        return true;
      }
      var flag, len;
      ok, flag := GetByte();
      if ok && flag == 0 {
        ok, len := GetPackedUInt30();
        if ok {
          ok := Skip(len);
        }
      }
    }

    method SkipLeaf(leaf: Cursor.Leaf) returns (ok: bool)
      requires Valid() && Readable(leaf)
      modifies `dataPtr, `dataEnd, `dataEnd0, `contentEnd, `streamDataEnd, `base, buffer, s
      ensures Meets(ok, (), Cursor.SkipLeaf(stream, old(At()), leaf))
    {
      hide Buffered, BE, LE;
      match leaf {
        case Alphanumeric(size) => ok := SkipAlphanumeric(size);
        case Decimal => ok := SkipDecimal();
        case Binary => ok := SkipBinary();
        case Utf8 => ok := SkipText();
        case Int(width) =>
          ok := true;
          if dataPtr != contentEnd {
            ok := Skip(width);
          }
        case PUInt30 => ok := SkipPacked(leaf);
        case PUInt61 => ok := SkipPacked(leaf);
        case Interval => ok := SkipPacked(leaf);
      }
    }

    method SkipText() returns (ok: bool)
      requires Valid()
      modifies `dataPtr, `dataEnd, `dataEnd0, `contentEnd, `streamDataEnd, `base, buffer, s
      ensures Meets(ok, (), Cursor.SkipLeaf(stream, old(At()), Cursor.Utf8))
    {
      hide Buffered, BE, LE;
      if dataPtr == contentEnd {
        return true;
      }
      var l;
      ok, l := LoadBE(2, 2);
      if ok {
        ok := Skip(if l == 0xFFFF then 0 else l);
      }
    }

    /** The fields whose first byte says how much follows. */
    method SkipPacked(leaf: Cursor.Leaf) returns (ok: bool)
      requires Valid() && (leaf.PUInt30? || leaf.PUInt61? || leaf.Interval?)
      modifies `dataPtr, `dataEnd, `dataEnd0, `contentEnd, `streamDataEnd, `base, buffer, s
      ensures Meets(ok, (), Cursor.SkipLeaf(stream, old(At()), leaf))
    {
      hide Buffered, BE, LE;
      if dataPtr == contentEnd {
        return true;
      }
      var header;
      ok, header := GetByte();
      if ok {
        ok := Skip(if leaf.PUInt30? then header / 64 else if leaf.PUInt61? then header / 32
                   else if header >= 0xC0 then 4 else 0);
      }
    }

    // ---- Containers ----

    method OpenContainer(isArray: bool) returns (ok: bool, notNull: bool)
      requires Valid()
      modifies this, buffer, s
      ensures Meets(ok, notNull, Cursor.Open(stream, old(At()), isArray))
      ensures ok ==> eOfs == Slots(old(eOfs), old(At()), At())
    {
      hide Buffered, BE, LE, Cursor.PackedUInt22;
      var size;
      Cursor.PackedUInt22Moves(stream, At());
      ok, size := GetPackedUInt22();
      notNull := false;
      if !ok || size == 0 {
        return;
      }
      var remaining := contentEnd - dataPtr;
      if depth >= Cursor.MAX_NESTED {
        return false, false;
      }
      size := if size <= remaining then size else remaining;
      PushedStack(eOfs, depth, remaining - size);
      PushedStack(containerIsArray, depth, isArray);
      containerIsArray := containerIsArray[depth := isArray];
      eOfs := eOfs[depth := remaining - size];
      depth := depth + 1;
      contentEnd := contentEnd - (remaining - size);
      dataEnd := Min(contentEnd, dataEnd0);
      notNull := true;
    }

    method CloseContainer(isArray: bool) returns (ok: bool)
      requires Valid()
      modifies `dataPtr, `dataEnd, `dataEnd0, `contentEnd, `streamDataEnd, `base, `depth, buffer, s
      ensures Meets(ok, (), Cursor.Close(stream, old(At()), isArray))
    {
      hide Buffered;
      if depth == 0 {
        return false;
      }
      if containerIsArray[depth - 1] != isArray {
        return false;
      }
      ok := Skip(contentEnd - dataPtr);
      if ok {
        PoppedStack(eOfs, depth);
        PoppedStack(containerIsArray, depth);
        depth := depth - 1;
        contentEnd := contentEnd + eOfs[depth];
        dataEnd := Min(contentEnd, dataEnd0);
      }
    }

    method SkipContainer() returns (ok: bool)
      requires Valid()
      modifies `dataPtr, `dataEnd, `dataEnd0, `contentEnd, `streamDataEnd, `base, buffer, s
      ensures Meets(ok, (), Cursor.SkipContainer(stream, old(At())))
    {
      hide Buffered, BE, LE, Cursor.PackedUInt22;
      var size;
      ok, size := GetPackedUInt22();
      if ok {
        var remaining := contentEnd - dataPtr;
        ok := Skip(if size <= remaining then size else remaining);
      }
    }

    /** The start of an object or an array: its type index or its number of items, or NULL. */
    method ReadStart(isArray: bool) returns (ok: bool, head: Option<nat>)
      requires Valid()
      modifies this, buffer, s
      ensures Meets(ok, head, Cursor.ReadStart(stream, old(At()), isArray))
      ensures ok ==> eOfs == Slots(old(eOfs), old(At()), At())
    {
      hide Buffered, BE, LE, Cursor.PackedUInt22, Cursor.Open;
      if dataPtr == contentEnd {
        return true, None;
      }
      var notNull, n;
      ok, notNull := OpenContainer(isArray);
      head := None;
      if !ok || !notNull {
        return;
      }
      if isArray {
        ok, n := GetPackedUInt22();
      } else {
        ok, n := GetByte();
      }
      head := Some(n);
    }

    // ---- Runs ----

    /** One call of the reader's user. */
    method Step(op: Cursor.Op) returns (ok: bool, v: Cursor.Value)
      requires Valid() && Allowed(op, bufferSize)
      modifies this, buffer, s
      ensures Meets(ok, v, Cursor.Step(stream, old(At()), op))
      ensures ok ==> eOfs == Slots(old(eOfs), old(At()), At())
    {
      hide Buffered, BE, LE, Cursor.ReadLeaf, Cursor.SkipLeaf, Cursor.ReadStart, Cursor.Close, Cursor.SkipContainer,
        Cursor.Take, Cursor.ReadAlphanumericAs;
      var bytes, p, head, n;
      v := Cursor.Skipped;
      match op {
        case OpBytes(n) =>
          ok, p := Bytes(n);
          v := Cursor.Bytes(if ok then buffer[p..p + n] else []);
        case OpPeek(n) =>
          ok, p := Peek(n);
          v := Cursor.Bytes(if ok then buffer[p..p + n] else []);
        case OpSkip(n) => ok := Skip(n);
        case OpGetBytes(n) =>
          ok, bytes := GetBytes(n);
          v := Cursor.Bytes(bytes);
        case OpRead(leaf) => ok, v := ReadLeaf(leaf);
        case OpReadWord(size, width) =>
          ok, n := ReadAlphanumericAs(size, width);
          v := Cursor.Number(n);
        case OpSkipField(leaf) => ok := SkipLeaf(leaf);
        case OpStart(isArray) =>
          ok, head := ReadStart(isArray);
          v := if head.None? then Cursor.Null else Cursor.Number(head.value);
        case OpEnd(isArray) => ok := CloseContainer(isArray);
        case OpSkipWhole =>
          ok := true;
          if dataPtr != contentEnd {
            ok := SkipContainer();
          }
      }
    }

    /**
      Any sequence of calls returns what the plain cursor returns and ends where it ends, however
      the buffer was refilled and moved on the way.
     */
    method Run(ops: seq<Cursor.Op>) returns (ok: bool, values: seq<Cursor.Value>)
      requires Valid() && forall i :: 0 <= i < |ops| ==> Allowed(ops[i], bufferSize)
      modifies this, buffer, s
      ensures Meets(ok, values, Cursor.Run(stream, old(At()), ops))
      ensures ok ==> eOfs == RunSlots(stream, old(At()), old(eOfs), ops)
    {
      hide Buffered, Cursor.Step, Slots;
      ghost var start := At();
      ok, values := true, [];
      assert ops[..0] == [];
      for i := 0 to |ops|
        invariant ok && Meets(true, values, Cursor.Run(stream, start, ops[..i]))
        invariant eOfs == RunSlots(stream, start, old(eOfs), ops[..i])
      {
        var v;
        ghost var before := At();
        ok, v := Step(ops[i]);
        Cursor.RunSnoc(stream, start, ops[..i], ops[i]);
        assert ops[..i + 1] == ops[..i] + [ops[i]];
        if !ok {
          Cursor.RunCut(stream, start, ops, i + 1);
          return;
        }
        RunSlotsSnoc(stream, start, old(eOfs), ops[..i], ops[i]);
        values := values + [v];
      }
      assert ops[..|ops|] == ops;
    }

    // ---- Messages ----

    method ResetMessageSize()
      requires Valid() && depth == 0
      modifies `dataEnd, `contentEnd
      ensures Valid() && At() == old(At()).(end := base + FAR) && base == old(base) && contentEnd == FAR
    {
      contentEnd := FAR;
      dataEnd := dataEnd0;
    }

    method SetMessageSize(size: nat)
      requires Valid() && contentEnd >= streamDataEnd
      modifies `dataEnd, `dataEnd0, `contentEnd, `depth
      ensures Valid() && At() == Cursor.Cursor(old(At()).pos, old(At()).pos + size, [], [])
    {
      hide Buffered;
      contentEnd := dataPtr + size;
      dataEnd0 := dataEnd;
      dataEnd := Min(dataEnd, contentEnd);
      depth := 0;
    }

    /** Skips to where unwinding the container stack says the message ends. */
    method SkipUnreadMessageBody() returns (ok: bool)
      requires Valid() && depth < Cursor.MAX_NESTED
      modifies `dataPtr, `dataEnd, `dataEnd0, `contentEnd, `streamDataEnd, `base, `depth, buffer, s
      ensures var c := old(At());
        Meets(ok, (), Cursor.Skip(stream, Cursor.Cursor(c.pos, old(base) + FAR, [], []),
                                  c.end + Unwound(old(eOfs), old(depth)) - c.pos))
    {
      hide Buffered;
      while depth != 0
        invariant unchanged(`base, `dataPtr, `dataEnd, `dataEnd0, `streamDataEnd, `eOfs, `containerIsArray, s, buffer)
        invariant contentEnd >= old(contentEnd) && depth <= old(depth)
        invariant contentEnd + Unwound(eOfs, depth) == old(contentEnd + Unwound(eOfs, depth))
      {
        contentEnd := contentEnd + eOfs[depth];
        depth := depth - 1;
      }
      var n := contentEnd - dataPtr;
      contentEnd := FAR;
      dataEnd := dataEnd0;
      NoMessage();
      ok := Skip(n);
    }

    lemma NoMessage()
      requires Buffered(dataPtr) && dataEnd == dataEnd0 == streamDataEnd && contentEnd == FAR
      requires bufferSize <= FAR && dataPtr <= dataEnd
      ensures Linked(dataPtr)
    {
    }

    /** Leaves the current message for the next one. */
    method NextMessage() returns (ok: bool)
      requires Valid() && depth < Cursor.MAX_NESTED
      modifies `dataPtr, `dataEnd, `dataEnd0, `contentEnd, `streamDataEnd, `base, `depth, buffer, s
      ensures var target := old(At()).end + Unwound(old(eOfs), old(depth));
        && (ok <==> target <= |stream| && target <= old(base) + FAR)
        && (ok ==> Valid() && At() == Cursor.Cursor(target, base + FAR, [], []) && contentEnd == FAR)
    {
      ok := true;
      WindowIsStream(dataPtr, 0);
      hide Buffered;
      if contentEnd != dataPtr || depth != 0 {
        ok := SkipUnreadMessageBody();
      }
      if ok {
        ResetMessageSize();
      }
    }
  }

  /** What the unwinding adds to the end of the content: the entries from `depth` down to 1. */
  function Unwound(eOfs: seq<nat>, depth: nat): nat
    requires depth < |eOfs|
  {
    if depth == 0 then 0 else eOfs[depth] + Unwound(eOfs, depth - 1)
  }

  lemma {:induction false} UnwoundIsShifted(c: Cursor.Cursor, eOfs: seq<nat>, d: nat)
    requires d <= |c.ofs| < |eOfs| && c.ofs == eOfs[..|c.ofs|]
    ensures c.end + Unwound(eOfs, |c.ofs|) + eOfs[d] == c.EndAt(d) + Unwound(eOfs, d) + eOfs[|c.ofs|]
    decreases |c.ofs| - d
  {
    if d < |c.ofs| {
      UnwoundIsShifted(c, eOfs, d + 1);
    }
  }

  /**
    The next message is found exactly when no container is open, or the slot above the stack happens
    to hold what the outermost container left: the unwinding is one slot too high.
   */
  lemma UnwindExactDomain(c: Cursor.Cursor, eOfs: seq<nat>)
    requires |c.ofs| < |eOfs| && c.ofs == eOfs[..|c.ofs|]
    ensures c.end + Unwound(eOfs, |c.ofs|) == c.EndAt(0) <==> |c.ofs| == 0 || eOfs[|c.ofs|] == eOfs[0]
  {
    UnwoundIsShifted(c, eOfs, 0);
  }
}
