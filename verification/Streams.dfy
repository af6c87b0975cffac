/**
  Input streams and the preloader that buffers the front of one.
 */
module Streams {
  import opened Words

  /**
    A source of bytes whose reads may return any amount between the two limits.  `rest` is what it
    will still deliver before the peer disconnects.
   */
  class InputStream {
    var rest: seq<byte>
    var nBytesRead: nat
    var closed: bool

    constructor (content: seq<byte>)
      ensures rest == content && nBytesRead == 0 && !closed
    {
      rest, nBytesRead, closed := content, 0, false;
    }

    /** None stands for the disconnection exception. */
    method Read(minSize: nat, maxSize: nat) returns (bytes: Option<seq<byte>>)
      requires minSize <= maxSize
      modifies this
      ensures bytes.None? <==> |old(rest)| < minSize
      ensures bytes.Some? ==> minSize <= |bytes.value| <= maxSize
      ensures bytes.Some? ==> bytes.value + rest == old(rest) && nBytesRead == old(nBytesRead) + |bytes.value|
      ensures bytes.None? ==> rest == [] && nBytesRead == old(nBytesRead) + |old(rest)|
      ensures closed == old(closed)
    {
      if |rest| < minSize {
        nBytesRead := nBytesRead + |rest|;
        rest := [];
        return None;
      }
      var n: nat :| minSize <= n <= maxSize && n <= |rest|;
      bytes := Some(rest[..n]);
      rest := rest[n..];
      nBytesRead := nBytesRead + n;
    }

    method CloseInput()
      modifies this
      ensures closed && rest == old(rest) && nBytesRead == old(nBytesRead)
    {
      closed := true;
    }
  }

  datatype ReadResult = Got(bytes: seq<byte>) | Closed | Disconnected

  /** What a preload that runs out of input leaves in the buffer: `got` bytes from its start. */
  function CutBuffer(unread: seq<byte>, got: seq<byte>): seq<byte>
  {
    (unread + got)[..|got|]
  }

  /** So the buffered bytes survive a disconnection exactly when there were none before. */
  lemma DisconnectKeepsBuffer(unread: seq<byte>, got: seq<byte>)
    ensures CutBuffer(unread, got) == unread + got <==> unread == []
  {
    if unread == [] {
      assert unread + got == got;
    } else {
      assert |CutBuffer(unread, got)| < |unread + got|;
    }
  }

  lemma DisconnectLosesLastByte()
    ensures CutBuffer([0x41], [0x42]) == [0x41]
  {
  }

  /** The buffer after a preload: everything asked for, or what is left when the source ends first. */
  function Preloaded(unread: seq<byte>, rest: seq<byte>, n: nat): seq<byte>
  {
    if n <= |rest| then unread + rest[..n] else CutBuffer(unread, rest)
  }

  lemma StreamAfterPreload(unread: seq<byte>, rest: seq<byte>, n: nat)
    ensures Preloaded(unread, rest, n) + rest[Min(n, |rest|)..] == unread + rest
      <==> n <= |rest| || unread == []
  {
    DisconnectKeepsBuffer(unread, rest);
    if n <= |rest| {
      assert unread + rest[..n] + rest[n..] == unread + rest;
    } else {
      assert CutBuffer(unread, rest) + [] == CutBuffer(unread, rest);
    }
  }

  class InputStreamPreloader {
    var data: seq<byte>
    var readPtr: nat
    var dataSize: nat
    const readBlockSize: nat
    const source: InputStream?
    var nBytesRead: nat
    var closed: bool

    ghost predicate Valid()
      reads this
    {
      readPtr <= dataSize == |data| && readBlockSize > 0
    }

    /** The buffered bytes not yet read. */
    ghost function Unread(): seq<byte>
      requires Valid()
      reads this
    {
      data[readPtr..]
    }

    ghost function SourceRest(): seq<byte>
      reads this, source
    {
      if source == null then [] else source.rest
    }

    /** The stream a reader sees: the buffer, then the source. */
    ghost function Stream(): seq<byte>
      requires Valid()
      reads this, source
    {
      Unread() + SourceRest()
    }

    constructor (source: InputStream?, readBlockSize: nat)
      ensures Valid() && !closed && Unread() == [] && this.source == source
      ensures nBytesRead == if source == null then 0 else source.nBytesRead
    {
      this.source := source;
      this.readBlockSize := if readBlockSize != 0 then readBlockSize else 0x2000;
      data, readPtr, dataSize, closed := [], 0, 0, false;
      nBytesRead := if source == null then 0 else source.nBytesRead;
    }

    /** Removes a prefix of the stream, the buffer's bytes before the source's. */
    method Read(minSize: nat, maxSize: nat) returns (result: ReadResult)
      requires Valid() && minSize <= maxSize
      modifies this, source
      ensures Valid() && closed == old(closed)
      ensures result.Closed? <==> old(closed)
      ensures result.Disconnected? <==> !old(closed) && |old(Stream())| < minSize
      ensures result.Got? ==>
        && minSize <= |result.bytes| <= maxSize
        && |result.bytes| >= Min(|old(Unread())|, maxSize)
        && (|old(Unread())| >= minSize ==> |result.bytes| == Min(|old(Unread())|, maxSize))
        && result.bytes + Stream() == old(Stream())
        && nBytesRead == old(nBytesRead) + |result.bytes|
      ensures |old(Unread())| >= minSize ==> SourceRest() == old(SourceRest())
    {
      if closed {
        return Closed;
      }
      ghost var rest := SourceRest();
      var to := TakeBuffered(maxSize);
      Associate(to, Unread(), rest);
      if minSize > |to| {
        if source == null {
          return Disconnected;
        }
        var more := source.Read(minSize - |to|, maxSize - |to|);
        if more.None? {
          return Disconnected;
        }
        NothingUnread(to, Unread(), more.value, source.rest, rest);
        to := to + more.value;
      }
      nBytesRead := nBytesRead + |to|;
      result := Got(to);
    }

    /** Takes up to `maxSize` bytes out of the buffer. */
    method TakeBuffered(maxSize: nat) returns (to: seq<byte>)
      requires Valid()
      modifies `readPtr
      ensures Valid() && |to| == Min(maxSize, |old(Unread())|) && to + Unread() == old(Unread())
    {
      var sizeRead := Min(dataSize - readPtr, maxSize);
      to := data[readPtr..readPtr + sizeRead];
      readPtr := readPtr + sizeRead;
    }

    static lemma NothingUnread(to: seq<byte>, unread: seq<byte>, more: seq<byte>, left: seq<byte>, rest: seq<byte>)
      requires more + left == rest
      ensures unread == [] ==> (to + more) + (unread + left) == to + (unread + rest)
    {
      Associate(to, more, left);
      if unread == [] {
        assert unread + left == left && unread + rest == rest;
      }
    }

    /** Reads what is buffered; it neither counts the bytes nor turns to the source. */
    method TryRead(maxSize: nat) returns (result: ReadResult)
      requires Valid()
      modifies this
      ensures Valid() && closed == old(closed) && nBytesRead == old(nBytesRead)
      ensures result.Closed? <==> old(closed)
      ensures result.Disconnected? <==> !old(closed) && old(Unread()) == []
      ensures result.Got? ==>
        && |result.bytes| == Min(maxSize, |old(Unread())|)
        && result.bytes + Unread() == old(Unread())
      ensures !result.Got? ==> Unread() == old(Unread())
    {
      if closed {
        return Closed;
      }
      var remaining := dataSize - readPtr;
      if remaining == 0 {
        return Disconnected;
      }
      var to := TakeBuffered(maxSize);
      result := Got(to);
    }

    /** Moves the unread bytes to the start of the buffer. */
    method Cleanup()
      requires Valid()
      modifies this
      ensures Valid() && readPtr == 0 && data == old(Unread())
      ensures nBytesRead == old(nBytesRead) && closed == old(closed)
    {
      if readPtr != 0 {
        var newSize := |data| - readPtr;
        data := data[readPtr..];
        readPtr, dataSize := 0, newSize;
      }
    }

    /** Puts bytes at an offset of the buffer and ends it there, which may be before the read pointer. */
    method Set(startOffset: nat, src: seq<byte>)
      requires Valid()
      modifies `data, `dataSize
      ensures dataSize == |data| == startOffset + |src| && data[startOffset..] == src
      ensures Valid() <==> readPtr <= startOffset + |src|
      ensures startOffset == old(dataSize) ==> Stream() == old(Unread()) + src + old(SourceRest())
    {
      data := Resized(data, startOffset) + src;
      dataSize := startOffset + |src|;
    }

    static function Resized(s: seq<byte>, n: nat): (r: seq<byte>)
      ensures |r| == n && (n == |s| ==> r == s)
    {
      if n <= |s| then s[..n] else s + seq(n - |s|, _ => 0)
    }

    /**
      Appends up to `nBytesToPreload` bytes of the source to the buffer.  The stream is unchanged
      unless the source ends early while unread bytes are buffered: then the last of them are lost.
     */
    method Preload(nBytesToPreload: nat) returns (count: nat)
      requires Valid()
      modifies this, source
      ensures Valid() && closed == old(closed) && nBytesRead == old(nBytesRead)
      ensures count == if source == null then 0 else Min(nBytesToPreload, |old(SourceRest())|)
      ensures SourceRest() == old(SourceRest())[count..]
      ensures Unread() == if source == null || count == nBytesToPreload
        then old(Unread()) + old(SourceRest())[..count] else CutBuffer(old(Unread()), old(SourceRest()))
      ensures Stream() == old(Stream()) <==>
        source == null || nBytesToPreload <= |old(SourceRest())| || old(Unread()) == []
    {
      Cleanup();
      ghost var unread, rest := data, SourceRest();
      if source == null {
        return 0;
      }
      count := Append(nBytesToPreload);
      StreamAfterPreload(unread, rest, nBytesToPreload);
    }

    /** Writes bytes into the buffer, behind those unread before and those got since. */
    method Store(writePtr: nat, bytes: seq<byte>, ghost unread: seq<byte>, ghost got: seq<byte>)
      requires writePtr + |bytes| <= |data| && data[..writePtr] == unread + got
      modifies `data
      ensures |data| == old(|data|) && data[..writePtr + |bytes|] == unread + (got + bytes)
    {
      data := data[..writePtr] + bytes + data[writePtr + |bytes|..];
    }

    /** The loop of `preload`, behind the unread bytes. */
    method Append(nBytesToPreload: nat) returns (count: nat)
      requires Valid() && readPtr == 0 && source != null
      modifies `data, `dataSize, source
      ensures Valid() && count == Min(nBytesToPreload, |old(source.rest)|)
      ensures source.rest == old(source.rest)[count..]
      ensures data == Preloaded(old(data), old(source.rest), nBytesToPreload)
    {
      hide Preloaded;
      ghost var unread, stream := data, source.rest;
      var sizeBefore := |data|;
      dataSize := sizeBefore + nBytesToPreload;
      data := Resized(data, dataSize);
      var writePtr := sizeBefore;
      var nBytesLeft: nat := nBytesToPreload;
      ghost var got: seq<byte> := [];
      while nBytesLeft != 0
        invariant |data| == dataSize == sizeBefore + nBytesToPreload == writePtr + nBytesLeft
        invariant writePtr == sizeBefore + |got| && data[..writePtr] == unread + got
        invariant got + source.rest == stream
      {
        var n := Min(nBytesLeft, readBlockSize);
        var bytes := source.Read(1, n);
        if bytes.None? {
          CutShort(data, unread, got, nBytesToPreload);
          dataSize := writePtr - sizeBefore;
          data := Resized(data, dataSize);
          break;
        }
        Store(writePtr, bytes.value, unread, got);
        Associate(got, bytes.value, source.rest);
        got := got + bytes.value;
        writePtr := writePtr + |bytes.value|;
        nBytesLeft := nBytesLeft - |bytes.value|;
      }
      count := nBytesToPreload - nBytesLeft;
      PartsOf(got, source.rest, stream);
      if nBytesLeft == 0 {
        Filled(data, unread, got, source.rest);
      }
    }

    static lemma Filled(data: seq<byte>, unread: seq<byte>, got: seq<byte>, rest: seq<byte>)
      requires |data| == |unread| + |got| && data[..|data|] == unread + got
      ensures data == Preloaded(unread, got + rest, |got|)
    {
      assert (got + rest)[..|got|] == got;
    }

    static lemma CutShort(data: seq<byte>, unread: seq<byte>, got: seq<byte>, n: nat)
      requires |unread| + |got| <= |data| && data[..|unread| + |got|] == unread + got && |got| < n
      ensures Resized(data, |got|) == Preloaded(unread, got + [], n)
    {
      assert got + [] == got;
      assert data[..|got|] == data[..|unread| + |got|][..|got|];
    }

    static lemma PartsOf(got: seq<byte>, rest: seq<byte>, stream: seq<byte>)
      requires got + rest == stream
      ensures got == stream[..|got|] && rest == stream[|got|..]
    {
    }

    method CloseInput()
      requires Valid()
      modifies this, source
      ensures Valid() && closed && Unread() == []
      ensures source != null ==> source.closed
    {
      closed := true;
      readPtr := dataSize;
      if source != null {
        source.CloseInput();
      }
    }
  }
}
