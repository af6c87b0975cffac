/**
  The TCP relay: two byte queues between a client and a host, a preload gate before the client, and
  an orderly end.

  Sockets are nondeterministic and remember what went over them.  A ghost log puts the events of both
  in order; what it says was received and sent is what the sockets gave and accepted.
 */
module Relay {
  import opened Words

  const MAX_READ_SIZE := 0x400
  const MAX_WRITE_SIZE := 0x2000

  // ---- The byte queue ----

  class Buffer {
    var data: seq<byte>
    var readOffset: nat
    var writeOffset: nat
    var maxSize: nat
    var nBytesWritten: nat
    var nBytesRead: nat

    /** There is always room for one whole read. */
    ghost predicate Valid()
      reads this
    {
      && readOffset <= writeOffset && writeOffset + MAX_READ_SIZE <= |data|
      && writeOffset - readOffset <= nBytesWritten - nBytesRead
    }

    /** The queue: written and not yet read. */
    ghost function Contents(): seq<byte>
      requires Valid()
      reads this
    {
      data[readOffset..writeOffset]
    }

    constructor ()
      ensures Valid() && Contents() == [] && nBytesWritten == nBytesRead == maxSize == 0
    {
      data := seq(MAX_READ_SIZE, _ => 0);
      readOffset, writeOffset, maxSize, nBytesWritten, nBytesRead := 0, 0, 0, 0, 0;
    }

    method WriteSize() returns (n: nat)
      requires Valid()
      ensures n == MAX_READ_SIZE
    {
      n := Min(|data| - writeOffset, MAX_READ_SIZE);
    }

    method ReadSize() returns (n: nat)
      requires Valid()
      ensures n == Min(|Contents()|, MAX_WRITE_SIZE)
    {
      n := Min(writeOffset - readOffset, MAX_WRITE_SIZE);
    }

    /** What a receive call does to the memory behind the queue. */
    method Place(bytes: seq<byte>)
      requires Valid() && |bytes| <= MAX_READ_SIZE
      modifies `data
      ensures Valid() && Contents() == old(Contents())
      ensures |data| == old(|data|) && data[writeOffset..writeOffset + |bytes|] == bytes
    {
      data := data[..writeOffset] + bytes + data[writeOffset + |bytes|..];
    }

    /** Makes the next bytes part of the queue, and room for the next read. */
    method CommitWrite(nBytesAdded: nat)
      requires Valid() && nBytesAdded <= MAX_READ_SIZE
      modifies this
      ensures Valid()
      ensures Contents() == old(Contents() + data[writeOffset..writeOffset + nBytesAdded])
      ensures nBytesWritten == old(nBytesWritten) + nBytesAdded && nBytesRead == old(nBytesRead)
      ensures maxSize == if old(maxSize) >= writeOffset then old(maxSize) else writeOffset
    {
      ghost var before := data;
      assert data[readOffset..writeOffset + nBytesAdded]
        == data[readOffset..writeOffset] + data[writeOffset..writeOffset + nBytesAdded];
      nBytesWritten := nBytesWritten + nBytesAdded;
      writeOffset := writeOffset + nBytesAdded;
      if writeOffset > maxSize {
        maxSize := writeOffset;
      }
      if |data| < writeOffset + MAX_READ_SIZE {
        data := data + seq(writeOffset + MAX_READ_SIZE - |data|, _ => 0);
      }
      assert data[readOffset..writeOffset] == before[readOffset..writeOffset];
    }

    method CommitRead(n: nat)
      requires Valid() && n <= |Contents()|
      modifies this
      ensures Valid() && Contents() == old(Contents())[n..]
      ensures nBytesRead == old(nBytesRead) + n && nBytesWritten == old(nBytesWritten)
    {
      nBytesRead := nBytesRead + n;
      readOffset := readOffset + n;
    }

    /** Discards what is queued; the counters remember it. */
    method Reset()
      requires Valid()
      modifies this
      ensures Valid() && Contents() == [] && readOffset == writeOffset == 0 && data == old(data)
      ensures nBytesWritten == old(nBytesWritten) && nBytesRead == old(nBytesRead)
    {
      readOffset, writeOffset := 0, 0;
    }

    method Clear()
      requires Valid()
      modifies this
      ensures Valid() && Contents() == [] && |data| == MAX_READ_SIZE && maxSize == 0
      ensures nBytesWritten == old(nBytesWritten) && nBytesRead == old(nBytesRead)
    {
      Reset();
      data := data[..MAX_READ_SIZE];
      maxSize := 0;
    }

    /** `memcpy` is defined only where source and destination do not overlap. */
    method MemCpy(from: nat, n: nat)
      requires from + n <= |data| && n <= from
      modifies `data
      ensures |data| == old(|data|) && data[..n] == old(data[from..from + n])
    {
      data := data[from..from + n] + data[n..];
    }

    method MemMove(from: nat, n: nat)
      requires from + n <= |data|
      modifies `data
      ensures |data| == old(|data|) && data[..n] == old(data[from..from + n])
    {
      data := data[from..from + n] + data[n..];
    }

    /** Moves the queue to the front of the buffer, with the cheap copy only where it may be used. */
    method Compact()
      requires Valid()
      modifies this
      ensures Valid() && Contents() == old(Contents()) && readOffset == 0
      ensures nBytesWritten == old(nBytesWritten) && nBytesRead == old(nBytesRead)
    {
      var nBytesUnread := writeOffset - readOffset;
      if nBytesUnread != 0 {
        if readOffset >= nBytesUnread {
          MemCpy(readOffset, nBytesUnread);
        } else {
          MemMove(readOffset, nBytesUnread);
        }
      }
      readOffset := 0;
      writeOffset := nBytesUnread;
    }
  }

  // ---- The log of a session ----

  datatype Side = Client | Host {
    function Other(): Side {
      if this == Client then Host else Client
    }
  }

  /** Why a socket was closed: its own error or disconnection, or because the other side had ended. */
  datatype Cause = Broken | Drained

  datatype Event =
    | Received(from: Side, bytes: seq<byte>)
    | Sent(from: Side, bytes: seq<byte>)
    | Closed(side: Side, cause: Cause)
    | PreloadDropped

  function ReceivedFrom(log: seq<Event>, side: Side): seq<byte>
  {
    if log == [] then [] else
      var last := log[|log| - 1];
      ReceivedFrom(log[..|log| - 1], side) + (if last.Received? && last.from == side then last.bytes else [])
  }

  /** What came from `side` and was sent on to the other. */
  function SentFrom(log: seq<Event>, side: Side): seq<byte>
  {
    if log == [] then [] else
      var last := log[|log| - 1];
      SentFrom(log[..|log| - 1], side) + (if last.Sent? && last.from == side then last.bytes else [])
  }

  predicate IsClosed(log: seq<Event>, side: Side)
  {
    exists i :: 0 <= i < |log| && log[i].Closed? && log[i].side == side
  }

  /** The client may be sent host data. */
  predicate GateOpen(log: seq<Event>, preload: nat)
  {
    PreloadDropped in log || IsClosed(log, Host) || |ReceivedFrom(log, Host)| >= preload
  }

  /** What the relay may do after `log`. */
  predicate Allowed(log: seq<Event>, e: Event, preload: nat)
  {
    match e
    case Received(side, bytes) =>
      && !IsClosed(log, side) && bytes != []
      && (side == Host ==>
            PreloadDropped in log || SentFrom(log, Host) == [] || |SentFrom(log, Host)| >= preload)
    case Sent(side, bytes) =>
      && !IsClosed(log, side.Other()) && bytes != []
      && SentFrom(log, side) + bytes <= ReceivedFrom(log, side)
      && (side == Host ==> GateOpen(log, preload))
    case Closed(side, cause) =>
      && !IsClosed(log, side)
      && (cause == Drained ==>
            && IsClosed(log, side.Other())
            && SentFrom(log, side.Other()) == ReceivedFrom(log, side.Other()))
    case PreloadDropped => true
  }

  /** Every event of the run was allowed when it happened. */
  predicate Safe(log: seq<Event>, preload: nat)
  {
    log == [] || (Safe(log[..|log| - 1], preload) && Allowed(log[..|log| - 1], log[|log| - 1], preload))
  }

  lemma After(log: seq<Event>, e: Event, preload: nat)
    ensures var longer := log + [e];
      && (forall side :: ReceivedFrom(longer, side) ==
            ReceivedFrom(log, side) + (if e.Received? && e.from == side then e.bytes else []))
      && (forall side :: SentFrom(longer, side) ==
            SentFrom(log, side) + (if e.Sent? && e.from == side then e.bytes else []))
      && (forall side :: IsClosed(longer, side) <==> IsClosed(log, side) || (e.Closed? && e.side == side))
      && (PreloadDropped in longer <==> PreloadDropped in log || e.PreloadDropped?)
      && (Safe(longer, preload) <==> Safe(log, preload) && Allowed(log, e, preload))
  {
    var longer := log + [e];
    assert longer[..|longer| - 1] == log && longer[|longer| - 1] == e;
    forall side | IsClosed(log, side)
      ensures IsClosed(longer, side)
    {
      var i :| 0 <= i < |log| && log[i].Closed? && log[i].side == side;
      assert longer[i] == log[i];
    }
    forall side | e.Closed? && e.side == side
      ensures IsClosed(longer, side)
    {
      assert longer[|log|] == e;
    }
  }

  // ---- What a safe log says about the whole run ----

  /** At every moment, what a side was sent is a prefix of what the other side had sent. */
  lemma {:induction false} SentIsPrefix(log: seq<Event>, preload: nat, k: nat, side: Side)
    requires Safe(log, preload) && k <= |log|
    ensures SentFrom(log[..k], side) <= ReceivedFrom(log[..k], side)
    decreases |log|
  {
    if k < |log| {
      SentIsPrefix(log[..|log| - 1], preload, k, side);
      assert log[..|log| - 1][..k] == log[..k];
    } else if log != [] {
      var init := log[..|log| - 1];
      assert log[..k] == log;
      SentIsPrefix(init, preload, |init|, side);
      assert init[..|init|] == init;
    }
  }

  /** A safe log is safe up to every event. */
  lemma {:induction false} SafeAt(log: seq<Event>, preload: nat, k: nat)
    requires Safe(log, preload) && k < |log|
    ensures Safe(log[..k], preload) && Allowed(log[..k], log[k], preload)
  {
    hide Allowed;
    if k < |log| - 1 {
      SafeAt(log[..|log| - 1], preload, k);
      assert log[..|log| - 1][..k] == log[..k];
    }
  }

  /** No socket is closed twice, and nothing is received from or sent to a closed one. */
  lemma ClosedIsFinal(log: seq<Event>, preload: nat, i: nat, k: nat)
    requires Safe(log, preload) && i < k < |log| && log[i].Closed?
    ensures !(log[k].Closed? && log[k].side == log[i].side)
    ensures !(log[k].Received? && log[k].from == log[i].side)
    ensures !(log[k].Sent? && log[k].from.Other() == log[i].side)
  {
    SafeAt(log, preload, k);
    assert log[..k][i] == log[i];
    hide Safe, SentFrom, ReceivedFrom;
  }

  /** A side is closed in good order only after the other one has ended and all of its bytes went out. */
  lemma DrainedBeforeClose(log: seq<Event>, preload: nat, k: nat)
    requires Safe(log, preload) && k < |log| && log[k].Closed? && log[k].cause == Drained
    ensures var other := log[k].side.Other();
      IsClosed(log[..k], other) && SentFrom(log[..k], other) == ReceivedFrom(log[..k], other)
  {
    SafeAt(log, preload, k);
  }

  /** No host byte reaches the client before the gate is open. */
  lemma NothingBeforeThePreload(log: seq<Event>, preload: nat, k: nat)
    requires Safe(log, preload) && k < |log| && log[k].Sent? && log[k].from == Host
    ensures GateOpen(log[..k], preload)
  {
    SafeAt(log, preload, k);
  }

  // ---- The session ----

  /** The results of the foreign calls. */
  datatype RecvResult = Data(bytes: seq<byte>) | Disconnected | RecvFailed | RecvLater
  datatype SendResult = Accepted(n: nat) | SendFailed | SendLater
  /** What the client's first bytes are: not a request to hold back, one not yet complete, a select
      request to preload for, or another one. */
  datatype Request = Plain | Incomplete | Select | NotSelect
  datatype Health = Fine | Recoverable | Unrecoverable
  datatype Iteration = FAILURE | SUCCESS | FINISHED | IDLE

  /** One end of a connection, with all that ever went over it and its last calls. */
  class Socket {
    // Whether every send is accepted in part at least.
    const willing: bool
    ghost var consumed: seq<byte>
    ghost var delivered: seq<byte>
    ghost var closed: bool
    ghost var recvs: nat
    ghost var sends: nat
    ghost var asked: nat
    ghost var offered: seq<byte>

    constructor (willing: bool)
      ensures this.willing == willing && consumed == delivered == [] && !closed
    {
      this.willing := willing;
      consumed, delivered, closed, recvs, sends, asked, offered := [], [], false, 0, 0, 0, [];
    }

    method Recv(maxSize: nat) returns (r: RecvResult)
      requires !closed && maxSize > 0
      modifies `consumed, `recvs, `asked
      ensures r.Data? ==> 0 < |r.bytes| <= maxSize
      ensures consumed == if r.Data? then old(consumed) + r.bytes else old(consumed)
      ensures recvs == old(recvs) + 1 && asked == maxSize
    {
      r :| r.Data? ==> 0 < |r.bytes| <= maxSize;
      consumed := if r.Data? then consumed + r.bytes else consumed;
      recvs, asked := recvs + 1, maxSize;
    }

    method Send(bytes: seq<byte>) returns (r: SendResult)
      requires !closed && bytes != []
      modifies `delivered, `sends, `offered
      ensures r.Accepted? ==> 0 < r.n <= |bytes|
      ensures willing ==> r.Accepted?
      ensures delivered == if r.Accepted? then old(delivered) + bytes[..r.n] else old(delivered)
      ensures sends == old(sends) + 1 && offered == bytes
    {
      var n: nat :| 0 < n <= |bytes|;
      r := Accepted(n);
      if !willing {
        r :| r == Accepted(n) || r == SendFailed || r == SendLater;
      }
      delivered := if r.Accepted? then delivered + bytes[..r.n] else delivered;
      sends, offered := sends + 1, bytes;
    }

    method Close()
      requires !closed
      modifies `closed
      ensures closed
    {
      closed := true;
    }
  }

  // ---- What a session keeps ----

  /** The buffer of a side, its counters and the sockets agree with the log. */
  ghost predicate Ledger(log: seq<Event>, side: Side, isOpen: bool, otherOpen: bool,
      written: nat, read: nat, contents: seq<byte>)
  {
    && (isOpen <==> !IsClosed(log, side)) && (otherOpen <==> !IsClosed(log, side.Other()))
    && written == |ReceivedFrom(log, side)| && read == |SentFrom(log, side)|
    && SentFrom(log, side) <= ReceivedFrom(log, side)
    && (otherOpen ==> ReceivedFrom(log, side) == SentFrom(log, side) + contents)
  }

  /** The preload target only falls to 0; host bytes were sent only through an open gate. */
  ghost predicate Gate(log: seq<Event>, preload: nat, target: nat, finished: bool)
  {
    && target == (if PreloadDropped in log then 0 else preload)
    && (finished ==> GateOpen(log, preload))
    && (SentFrom(log, Host) != [] ==> finished)
  }

  lemma GateAfter(log: seq<Event>, e: Event, preload: nat, target: nat, finished: bool)
    requires Gate(log, preload, target, finished)
    requires e.Sent? && e.from == Host ==> finished
    ensures Gate(log + [e], preload, if e.PreloadDropped? then 0 else target, finished)
  {
    hide ReceivedFrom, SentFrom, IsClosed, Safe, Allowed;
    After(log, e, preload);
  }

  lemma LedgerReceived(log: seq<Event>, side: Side, bytes: seq<byte>, t: Side, isOpen: bool, otherOpen: bool,
      written: nat, read: nat, contents: seq<byte>)
    requires Ledger(log, t, isOpen, otherOpen, written, read, contents)
    ensures var longer := log + [Received(side, bytes)];
      if t == side then Ledger(longer, t, isOpen, otherOpen, written + |bytes|, read, contents + bytes)
      else Ledger(longer, t, isOpen, otherOpen, written, read, contents)
  {
    hide ReceivedFrom, SentFrom, IsClosed, Safe, Allowed;
    After(log, Received(side, bytes), 0);
    Associate(SentFrom(log, t), contents, bytes);
  }

  lemma LedgerSent(log: seq<Event>, side: Side, n: nat, t: Side, isOpen: bool, otherOpen: bool,
      written: nat, read: nat, contents: seq<byte>, bytes: seq<byte>)
    requires Ledger(log, t, isOpen, otherOpen, written, read, contents)
    requires t == side ==> otherOpen && n <= |contents| && bytes == contents[..n]
    ensures var longer := log + [Sent(side, bytes)];
      if t == side then Ledger(longer, t, isOpen, otherOpen, written, read + n, contents[n..])
      else Ledger(longer, t, isOpen, otherOpen, written, read, contents)
  {
    hide ReceivedFrom, SentFrom, IsClosed, Safe, Allowed;
    After(log, Sent(side, bytes), 0);
    if t == side {
      assert contents == contents[..n] + contents[n..];
      Associate(SentFrom(log, t), contents[..n], contents[n..]);
    }
  }

  lemma LedgerClosed(log: seq<Event>, side: Side, cause: Cause, t: Side, isOpen: bool, otherOpen: bool,
      written: nat, read: nat, contents: seq<byte>)
    requires Ledger(log, t, isOpen, otherOpen, written, read, contents)
    ensures var longer := log + [Closed(side, cause)];
      if t == side then Ledger(longer, t, false, otherOpen, written, read, contents)
      else Ledger(longer, t, isOpen, false, written, read, contents)
  {
    hide ReceivedFrom, SentFrom, IsClosed, Safe, Allowed;
    After(log, Closed(side, cause), 0);
  }

  lemma LedgerDropped(log: seq<Event>, t: Side, isOpen: bool, otherOpen: bool,
      written: nat, read: nat, contents: seq<byte>)
    requires Ledger(log, t, isOpen, otherOpen, written, read, contents)
    ensures Ledger(log + [PreloadDropped], t, isOpen, otherOpen, written, read, contents)
  {
    hide ReceivedFrom, SentFrom, IsClosed, Safe, Allowed;
    After(log, PreloadDropped, 0);
  }

  /** What is queued for a closed socket may be thrown away. */
  lemma LedgerDiscards(log: seq<Event>, t: Side, isOpen: bool, written: nat, read: nat, contents: seq<byte>)
    requires Ledger(log, t, isOpen, false, written, read, contents)
    ensures Ledger(log, t, isOpen, false, written, read, [])
  {
  }

  /** What went over the two sockets, and which are closed. */
  datatype Traffic = Traffic(clientConsumed: seq<byte>, clientDelivered: seq<byte>, clientClosed: bool,
                             hostConsumed: seq<byte>, hostDelivered: seq<byte>, hostClosed: bool)

  function Carry(t: Traffic, e: Event): Traffic
  {
    match e
    case Received(Client, bytes) => t.(clientConsumed := t.clientConsumed + bytes)
    case Received(Host, bytes) => t.(hostConsumed := t.hostConsumed + bytes)
    case Sent(Client, bytes) => t.(hostDelivered := t.hostDelivered + bytes)
    case Sent(Host, bytes) => t.(clientDelivered := t.clientDelivered + bytes)
    case Closed(Client, _) => t.(clientClosed := true)
    case Closed(Host, _) => t.(hostClosed := true)
    case PreloadDropped => t
  }

  /** What the sockets gave and accepted is what the log says. */
  ghost predicate Link(log: seq<Event>, t: Traffic)
  {
    && ReceivedFrom(log, Client) == t.clientConsumed && ReceivedFrom(log, Host) == t.hostConsumed
    && SentFrom(log, Client) == t.hostDelivered && SentFrom(log, Host) == t.clientDelivered
    && (IsClosed(log, Client) <==> t.clientClosed) && (IsClosed(log, Host) <==> t.hostClosed)
  }

  lemma LinkAfter(log: seq<Event>, e: Event, t: Traffic)
    requires Link(log, t)
    ensures Link(log + [e], Carry(t, e))
  {
    hide ReceivedFrom, SentFrom, IsClosed, Safe, Allowed;
    After(log, e, 0);
    assert t.clientConsumed + [] == t.clientConsumed && t.hostConsumed + [] == t.hostConsumed;
    assert t.clientDelivered + [] == t.clientDelivered && t.hostDelivered + [] == t.hostDelivered;
  }

  /** After an orderly close of a side nothing more comes for it: it got all there was. */
  lemma {:induction false} DrainedGotAll(log: seq<Event>, preload: nat, k: nat)
    requires Safe(log, preload) && k < |log| && log[k].Closed? && log[k].cause == Drained
    ensures var other := log[k].side.Other(); SentFrom(log, other) == ReceivedFrom(log, other)
    decreases |log|
  {
    hide Safe, Allowed, SentFrom, ReceivedFrom, IsClosed;
    var init, last := log[..|log| - 1], log[|log| - 1];
    assert log == init + [last];
    After(init, last, preload);
    if k == |log| - 1 {
      DrainedBeforeClose(log, preload, k);
      assert log[..k] == init;
    } else {
      DrainedGotAll(init, preload, k);
      DrainedBeforeClose(log, preload, k);
      ClosedStays(log, k, |log| - 1, log[k].side.Other());
      ClosedIsFinal(log, preload, k, |log| - 1);
      NothingFromClosed(log, preload, |log| - 1, log[k].side.Other());
    }
  }

  lemma ClosedStays(log: seq<Event>, k: nat, n: nat, side: Side)
    requires k <= n <= |log| && IsClosed(log[..k], side)
    ensures IsClosed(log[..n], side)
  {
    var i :| 0 <= i < k && log[..k][i].Closed? && log[..k][i].side == side;
    assert log[..n][i] == log[..k][i];
  }

  lemma NothingFromClosed(log: seq<Event>, preload: nat, k: nat, side: Side)
    requires Safe(log, preload) && k < |log| && IsClosed(log[..k], side)
    ensures !(log[k].Received? && log[k].from == side)
  {
    SafeAt(log, preload, k);
    hide Safe, IsClosed;
  }

  lemma SplitFront(front: seq<byte>, queue: seq<byte>, n: nat)
    requires n <= |front| && front <= queue
    ensures front[..n] == queue[..n] && queue == queue[..n] + queue[n..]
  {
  }

  lemma MayReceive(log: seq<Event>, preload: nat, target: nat, finished: bool, side: Side, otherOpen: bool,
      written: nat, read: nat, contents: seq<byte>, bytes: seq<byte>)
    requires Ledger(log, side, true, otherOpen, written, read, contents) && bytes != []
    requires Gate(log, preload, target, finished)
    requires !(side == Host && finished && read < target)
    ensures Allowed(log, Received(side, bytes), preload)
  {
  }

  lemma MaySend(log: seq<Event>, preload: nat, target: nat, finished: bool, side: Side, isOpen: bool,
      written: nat, read: nat, contents: seq<byte>, n: nat)
    requires Ledger(log, side, isOpen, true, written, read, contents) && 0 < n <= |contents|
    requires Gate(log, preload, target, finished)
    requires side == Host ==> finished
    ensures Allowed(log, Sent(side, contents[..n]), preload)
  {
  }

  lemma MayClose(log: seq<Event>, preload: nat, side: Side, otherOpen: bool, written: nat, read: nat,
      contents: seq<byte>)
    requires Ledger(log, side.Other(), otherOpen, true, written, read, contents)
    ensures Allowed(log, Closed(side, Broken), preload)
    ensures !otherOpen && contents == [] ==> Allowed(log, Closed(side, Drained), preload)
  {
  }

  /** The gate opens when enough has been written, or the host has ended. */
  lemma OpenGate(log: seq<Event>, preload: nat, target: nat, finished: bool, isOpen: bool, otherOpen: bool,
      written: nat, read: nat, contents: seq<byte>)
    requires Gate(log, preload, target, finished) && Ledger(log, Host, isOpen, otherOpen, written, read, contents)
    requires written >= target || !isOpen
    ensures Gate(log, preload, target, true)
  {
  }

  /** Once the gate has opened, an open host has written the preload target. */
  lemma WrittenBehindGate(log: seq<Event>, preload: nat, target: nat, otherOpen: bool,
      written: nat, read: nat, contents: seq<byte>)
    requires Gate(log, preload, target, true) && Ledger(log, Host, true, otherOpen, written, read, contents)
    ensures written >= target
    ensures otherOpen && read < target ==> contents != []
  {
  }

  class Session {
    const client: Buffer
    const host: Buffer
    const clientSocket: Socket
    const hostSocket: Socket
    // What the first bytes of a client are; any function of them.
    const classify: seq<byte> -> Request
    var nBytesToPreload: nat
    var isPreloadFinished: bool
    var clientOpen: bool
    var hostOpen: bool
    var clientReady: bool
    var hostReady: bool
    ghost const preload: nat
    ghost var log: seq<Event>

    function Buf(side: Side): Buffer
    {
      if side == Client then client else host
    }

    function Sock(side: Side): Socket
    {
      if side == Client then clientSocket else hostSocket
    }

    function Open(side: Side): bool
      reads `clientOpen, `hostOpen
    {
      if side == Client then clientOpen else hostOpen
    }

    function Ready(side: Side): bool
      reads `clientReady, `hostReady
    {
      if side == Client then clientReady else hostReady
    }

    /** What came from a side and is not yet sent on. */
    ghost function Queue(side: Side): seq<byte>
      requires Buf(side).Valid()
      reads Buf(side)
    {
      Buf(side).Contents()
    }

    ghost predicate Agrees(side: Side)
      reads this, client, host
    {
      var buffer := Buf(side);
      && buffer.Valid() && (Ready(side) ==> Open(side))
      && Ledger(log, side, Open(side), Open(side.Other()), buffer.nBytesWritten, buffer.nBytesRead, buffer.Contents())
    }

    /** Queues, counters and flags agree with the log. */
    ghost predicate Sound()
      reads this, client, host
    {
      && client != host && Agrees(Client) && Agrees(Host)
      && Gate(log, preload, nBytesToPreload, isPreloadFinished) && Safe(log, preload)
    }

    ghost function Carried(): Traffic
      reads clientSocket, hostSocket
    {
      Traffic(clientSocket.consumed, clientSocket.delivered, clientSocket.closed,
              hostSocket.consumed, hostSocket.delivered, hostSocket.closed)
    }

    ghost predicate Valid()
      reads this, client, host, clientSocket, hostSocket
    {
      clientSocket != hostSocket && Sound() && Link(log, Carried())
    }

    constructor (nBytesToPreload: nat, clientSocket: Socket, hostSocket: Socket, classify: seq<byte> -> Request)
      requires clientSocket != hostSocket && !clientSocket.closed && !hostSocket.closed
      requires clientSocket.consumed == clientSocket.delivered == hostSocket.consumed == hostSocket.delivered == []
      ensures Valid() && log == [] && preload == nBytesToPreload && clientOpen && hostOpen
      ensures this.clientSocket == clientSocket && this.hostSocket == hostSocket && this.classify == classify
      ensures fresh(client) && fresh(host)
    {
      client := new Buffer();
      host := new Buffer();
      this.clientSocket, this.hostSocket, this.classify := clientSocket, hostSocket, classify;
      this.nBytesToPreload, preload := nBytesToPreload, nBytesToPreload;
      isPreloadFinished, clientOpen, hostOpen, clientReady, hostReady := false, true, true, false, false;
      log := [];
    }

    lemma SocketIsOpen(side: Side)
      requires Valid()
      ensures Sock(side).closed <==> !Open(side)
    {
      hide ReceivedFrom, SentFrom, IsClosed, Safe;
    }

    // ---- Calls on the sockets ----

    method CloseSocket(side: Side, ghost cause: Cause)
      requires clientSocket != hostSocket && Link(log, Carried()) && !Sock(side).closed
      modifies Sock(side)`closed
      ensures Link(log + [Closed(side, cause)], Carried())
    {
      LinkAfter(log, Closed(side, cause), Carried());
      hide Link;
      Sock(side).Close();
    }

    method RecvFrom(side: Side, maxSize: nat) returns (r: RecvResult)
      requires clientSocket != hostSocket && Link(log, Carried()) && !Sock(side).closed && maxSize > 0
      modifies Sock(side)`consumed, Sock(side)`recvs, Sock(side)`asked
      ensures r.Data? ==> 0 < |r.bytes| <= maxSize && Link(log + [Received(side, r.bytes)], Carried())
      ensures !r.Data? ==> Link(log, Carried())
      ensures Sock(side).consumed == if r.Data? then old(Sock(side).consumed) + r.bytes else old(Sock(side).consumed)
      ensures Sock(side).recvs == old(Sock(side).recvs) + 1 && Sock(side).asked == maxSize
    {
      ghost var before := Carried();
      r := Sock(side).Recv(maxSize);
      if r.Data? {
        LinkAfter(log, Received(side, r.bytes), before);
      }
      hide Link;
    }

    method SendTo(side: Side, bytes: seq<byte>) returns (r: SendResult)
      requires clientSocket != hostSocket && Link(log, Carried()) && !Sock(side).closed && bytes != []
      modifies Sock(side)`delivered, Sock(side)`sends, Sock(side)`offered
      ensures r.Accepted? ==>
        0 < r.n <= |bytes| && Link(log + [Sent(side.Other(), bytes[..r.n])], Carried())
      ensures !r.Accepted? ==> Link(log, Carried()) && !Sock(side).willing
      ensures Sock(side).delivered
        == if r.Accepted? then old(Sock(side).delivered) + bytes[..r.n] else old(Sock(side).delivered)
      ensures Sock(side).sends == old(Sock(side).sends) + 1 && Sock(side).offered == bytes
    {
      ghost var before := Carried();
      r := Sock(side).Send(bytes);
      if r.Accepted? {
        LinkAfter(log, Sent(side.Other(), bytes[..r.n]), before);
      }
      hide Link;
    }

    /** Closes an open socket. */
    method KillConnection(side: Side, ghost cause: Cause)
      requires Valid() && Open(side)
      requires Allowed(log, Closed(side, cause), preload)
      modifies `log, `clientOpen, `clientReady, `hostOpen, `hostReady, Sock(side)`closed
      ensures Valid() && log == old(log) + [Closed(side, cause)]
      ensures !Open(side) && Open(side.Other()) == old(Open(side.Other()))
      ensures !Ready(side) && Ready(side.Other()) == old(Ready(side.Other()))
    {
      hide Sound, Link, Allowed, Carried;
      SocketIsOpen(side);
      CloseSocket(side, cause);
      MarkClosed(side, cause);
    }

    method MarkClosed(side: Side, ghost cause: Cause)
      requires Sound() && Open(side) && Allowed(log, Closed(side, cause), preload)
      modifies `log, `clientOpen, `clientReady, `hostOpen, `hostReady
      ensures Sound() && log == old(log) + [Closed(side, cause)]
      ensures !Open(side) && Open(side.Other()) == old(Open(side.Other()))
      ensures !Ready(side) && Ready(side.Other()) == old(Ready(side.Other()))
    {
      hide Ledger, Gate, Safe, Allowed;
      ghost var e := Closed(side, cause);
      LedgerClosed(log, side, cause, Client, clientOpen, hostOpen, client.nBytesWritten, client.nBytesRead,
        client.Contents());
      LedgerClosed(log, side, cause, Host, hostOpen, clientOpen, host.nBytesWritten, host.nBytesRead, host.Contents());
      GateAfter(log, e, preload, nBytesToPreload, isPreloadFinished);
      Extend(e);
      log := log + [e];
      if side == Client {
        clientOpen, clientReady := false, false;
      } else {
        hostOpen, hostReady := false, false;
      }
    }

    /** An open socket may be closed when it breaks, and when the other one has ended and nothing is left for it. */
    lemma MayEnd(side: Side)
      requires Sound() && Open(side)
      ensures Allowed(log, Closed(side, Broken), preload)
      ensures Buf(side.Other()).Valid()
      ensures !Open(side.Other()) && Queue(side.Other()) == [] ==> Allowed(log, Closed(side, Drained), preload)
    {
      hide Ledger, Gate, Safe, Allowed;
      var other := Buf(side.Other());
      MayClose(log, preload, side, Open(side.Other()), other.nBytesWritten, other.nBytesRead, other.Contents());
    }

    /** Gives up an open socket that is broken or at its end. */
    method Drop(side: Side)
      requires Valid() && Open(side)
      modifies `log, `clientOpen, `clientReady, `hostOpen, `hostReady, Sock(side)`closed
      ensures Valid() && old(log) <= log && !Open(side) && !Ready(side)
      ensures Open(side.Other()) == old(Open(side.Other())) && Ready(side.Other()) == old(Ready(side.Other()))
    {
      hide Sound, Allowed, Link, Carried;
      MayEnd(side);
      KillConnection(side, Broken);
    }

    lemma MayTake(side: Side, bytes: seq<byte>)
      requires Sound() && Open(side) && !Paused(side) && bytes != []
      ensures Allowed(log, Received(side, bytes), preload)
    {
      hide Ledger, Gate, Safe, Allowed;
      var buffer := Buf(side);
      MayReceive(log, preload, nBytesToPreload, isPreloadFinished, side, Open(side.Other()),
        buffer.nBytesWritten, buffer.nBytesRead, buffer.Contents(), bytes);
    }

    lemma BehindGate()
      requires Sound() && Open(Host) && Paused(Host)
      ensures host.nBytesWritten >= nBytesToPreload
    {
      hide Ledger, Gate, Safe;
      WrittenBehindGate(log, preload, nBytesToPreload, clientOpen, host.nBytesWritten, host.nBytesRead,
        host.Contents());
    }

    lemma BuffersAreValid()
      requires Sound()
      ensures client.Valid() && host.Valid() && client != host
      ensures forall side: Side :: Ready(side) ==> Open(side)
    {
      hide Ledger, Gate, Safe;
    }

    lemma Extend(e: Event)
      requires Safe(log, preload) && Allowed(log, e, preload)
      ensures Safe(log + [e], preload)
    {
      hide Allowed;
      After(log, e, preload);
    }

    /** Whether reads from a side have to wait for the preloaded bytes to be sent. */
    function Paused(side: Side): bool
      reads `isPreloadFinished, `nBytesToPreload, host
    {
      side == Host && isPreloadFinished && host.nBytesRead < nBytesToPreload
    }

    /** Queues what a receive call delivered, or closes the socket that is at its end. */
    method TakeIn(side: Side, result: RecvResult) returns (ghost got: seq<byte>)
      requires clientSocket != hostSocket && Sound() && Ready(side) && !Paused(side)
      requires result.Data? ==>
        0 < |result.bytes| <= MAX_READ_SIZE && Link(log + [Received(side, result.bytes)], Carried())
      requires !result.Data? ==> Link(log, Carried())
      modifies `log, `clientOpen, `clientReady, `hostOpen, `hostReady, Buf(side), Sock(side)`closed
      ensures Valid() && old(log) <= log && got == if result.Data? then result.bytes else []
      ensures Ready(side.Other()) == old(Ready(side.Other())) && Open(side.Other()) == old(Open(side.Other()))
      ensures Queue(side) == old(Queue(side)) + got && Buf(side).nBytesRead == old(Buf(side).nBytesRead)
    {
      hide Sound, Allowed, Link, Carried, Paused;
      BuffersAreValid();
      got := [];
      assert Queue(side) + [] == Queue(side);
      match result {
        case Data(bytes) =>
          got := bytes;
          MayTake(side, bytes);
          Accept(side, bytes);
        case Disconnected => Drop(side);
        case RecvFailed => Drop(side);
        case RecvLater =>
      }
    }

    method Accept(side: Side, bytes: seq<byte>)
      requires clientSocket != hostSocket && Sound() && Link(log + [Received(side, bytes)], Carried())
      requires 0 < |bytes| <= MAX_READ_SIZE
      requires Allowed(log, Received(side, bytes), preload)
      modifies `log, Buf(side)
      ensures Valid() && log == old(log) + [Received(side, bytes)]
      ensures Queue(side) == old(Queue(side)) + bytes && Buf(side).nBytesRead == old(Buf(side).nBytesRead)
    {
      hide Ledger, Gate, Safe, Allowed, Link, Carried;
      var buffer := Buf(side);
      ghost var e := Received(side, bytes);
      LedgerReceived(log, side, bytes, Client, clientOpen, hostOpen, client.nBytesWritten, client.nBytesRead,
        client.Contents());
      LedgerReceived(log, side, bytes, Host, hostOpen, clientOpen, host.nBytesWritten, host.nBytesRead,
        host.Contents());
      GateAfter(log, e, preload, nBytesToPreload, isPreloadFinished);
      Extend(e);
      buffer.Place(bytes);
      buffer.CommitWrite(|bytes|);
      log := log + [e];
    }

    /** Reads once from a side, as much as one read may bring. */
    method ReadOnce(side: Side) returns (ghost got: seq<byte>)
      requires Valid() && Ready(side) && !Paused(side)
      modifies `log, `clientOpen, `clientReady, `hostOpen, `hostReady, Buf(side)
      modifies Sock(side)`consumed, Sock(side)`recvs, Sock(side)`asked, Sock(side)`closed
      ensures Valid() && old(log) <= log
      ensures Ready(side.Other()) == old(Ready(side.Other())) && Open(side.Other()) == old(Open(side.Other()))
      ensures Sock(side).recvs == old(Sock(side).recvs) + 1 && Sock(side).asked == MAX_READ_SIZE
      ensures Sock(side).consumed == old(Sock(side).consumed) + got && Queue(side) == old(Queue(side)) + got
      ensures Buf(side).nBytesRead == old(Buf(side).nBytesRead)
    {
      hide Sound, Allowed, Link, Carried, Paused;
      BuffersAreValid();
      SocketIsOpen(side);
      var size := Buf(side).WriteSize();
      var result := RecvFrom(side, size);
      got := TakeIn(side, result);
    }

    /** Reads once from a side, unless it is paused. */
    method ReadFrom(side: Side) returns (paused: bool, ghost got: seq<byte>)
      requires Valid() && Ready(side)
      modifies `log, `clientOpen, `clientReady, `hostOpen, `hostReady, Buf(side)
      modifies Sock(side)`consumed, Sock(side)`recvs, Sock(side)`asked, Sock(side)`closed
      ensures Valid() && old(log) <= log
      ensures Ready(side.Other()) == old(Ready(side.Other())) && Open(side.Other()) == old(Open(side.Other()))
      ensures paused <==> old(Paused(side))
      ensures paused ==> log == old(log) && host.nBytesWritten >= nBytesToPreload
      ensures Sock(side).recvs == old(Sock(side).recvs) + (if paused then 0 else 1)
      ensures !paused ==> Sock(side).asked == MAX_READ_SIZE
      ensures Sock(side).consumed == old(Sock(side).consumed) + got && Queue(side) == old(Queue(side)) + got
      ensures Buf(side).nBytesRead == old(Buf(side).nBytesRead)
    {
      hide Sound, Allowed, Link, Carried;
      BuffersAreValid();
      paused, got := Paused(side), [];
      if paused {
        assert Queue(side) + [] == Queue(side);
        BehindGate();
      } else {
        got := ReadOnce(side);
      }
    }

    /** Bytes that may have to wait: of a host before the preload is complete, of a client before any of
        its request was sent. */
    predicate MayWait(side: Side)
      reads this, client
    {
      if side == Host then !isPreloadFinished else client.nBytesRead == 0
    }

    /**
      Sends once what came from `side`, or discards it when nobody is left to send it to.  What is sent
      off leaves the queue, and what is neither sent nor offered may wait.
     */
    method Relay(side: Side) returns (attempted: bool, ghost gone: seq<byte>)
      requires Valid()
      modifies `log, `clientOpen, `clientReady, `hostOpen, `hostReady, `nBytesToPreload, `isPreloadFinished
      modifies Buf(side)
      modifies Sock(side.Other())`delivered, Sock(side.Other())`sends, Sock(side.Other())`offered
      modifies Sock(side.Other())`closed
      ensures Valid() && old(log) <= log && Open(side) == old(Open(side))
      ensures Open(side.Other()) ==> old(Open(side.Other()))
      ensures old(Queue(side)) == [] ==> !attempted && log == old(log)
      ensures old(!Open(side.Other())) ==> !attempted && Queue(side) == [] && log == old(log)
      ensures old(Open(side.Other())) ==> old(Queue(side)) == gone + Queue(side)
      ensures Sock(side.Other()).delivered == old(Sock(side.Other()).delivered) + gone
      ensures Sock(side.Other()).sends == old(Sock(side.Other()).sends) + (if attempted then 1 else 0)
      ensures attempted ==>
        Sock(side.Other()).offered == old(Queue(side))[..Min(|old(Queue(side))|, MAX_WRITE_SIZE)]
      ensures attempted && Sock(side.Other()).willing ==> gone != []
      ensures old(Open(side.Other()) && Queue(side) != []) && !attempted ==> MayWait(side) && Open(side)
      ensures side == Host && old(clientOpen && Queue(Host) != []) ==>
        (attempted <==> old(isPreloadFinished || host.nBytesWritten >= nBytesToPreload || !hostOpen))
      ensures side == Client && old(hostOpen && Queue(Client) != []) ==>
        (attempted <==> old(client.nBytesRead > 0 || !clientOpen || classify(Queue(Client)) != Incomplete))
      ensures side == Client && old(hostOpen && Queue(Client) != []) ==>
        nBytesToPreload
        == if !attempted || old(client.nBytesRead > 0 || KeepsPreload()) then old(nBytesToPreload) else 0
    {
      hide Ledger, Gate, Safe, Allowed, Link, Carried;
      attempted, gone := false, [];
      var buffer := Buf(side);
      assert [] + Queue(side) == Queue(side);
      if buffer.readOffset == buffer.writeOffset {
        return;
      }
      if !Open(side.Other()) {
        LedgerDiscards(log, side, Open(side), buffer.nBytesWritten, buffer.nBytesRead, buffer.Contents());
        buffer.Reset();
        return;
      }
      var holdBack := HoldBack(side);
      if holdBack {
        return;
      }
      attempted := true;
      gone := Forward(side);
    }

    /** The client is there and asks for what is to be preloaded. */
    predicate KeepsPreload()
      requires client.Valid()
      reads `clientOpen, client
    {
      clientOpen && classify(client.data[client.readOffset..client.writeOffset]) == Select
    }

    /** Whether the bytes of `side` have to wait: host bytes for the preload, a request for its end. */
    method HoldBack(side: Side) returns (wait: bool)
      requires Valid() && Open(side.Other())
      modifies `log, `nBytesToPreload, `isPreloadFinished
      ensures Valid() && old(log) <= log
      ensures side == Host ==>
        && (wait <==> old(!isPreloadFinished && host.nBytesWritten < nBytesToPreload && hostOpen))
        && (!wait ==> isPreloadFinished) && log == old(log) && nBytesToPreload == old(nBytesToPreload)
      ensures side == Client && old(client.nBytesRead) > 0 ==>
        !wait && log == old(log) && nBytesToPreload == old(nBytesToPreload)
      ensures side == Client && old(client.nBytesRead) == 0 ==>
        && (wait <==> clientOpen && classify(Queue(Client)) == Incomplete)
        && nBytesToPreload == if wait || KeepsPreload() then old(nBytesToPreload) else 0
      ensures wait ==> MayWait(side) && Open(side)
    {
      hide Ledger, Gate, Safe, Allowed, Link, Carried;
      wait := false;
      if side == Host {
        if !isPreloadFinished {
          if host.nBytesWritten < nBytesToPreload && hostOpen {
            return true;
          }
          OpenGate(log, preload, nBytesToPreload, isPreloadFinished, hostOpen, clientOpen,
            host.nBytesWritten, host.nBytesRead, host.Contents());
          isPreloadFinished := true;
        }
      } else if client.nBytesRead == 0 {
        var request := classify(client.data[client.readOffset..client.writeOffset]);
        if clientOpen && request == Incomplete {
          return true;
        }
        if !clientOpen || request != Select {
          DropPreload();
        }
      }
    }

    method DropPreload()
      requires Valid()
      modifies `log, `nBytesToPreload
      ensures Valid() && log == old(log) + [PreloadDropped] && nBytesToPreload == 0
    {
      hide Ledger, Gate, Safe, Link, Carried;
      ghost var e := PreloadDropped;
      LinkAfter(log, e, Carried());
      LedgerDropped(log, Client, clientOpen, hostOpen, client.nBytesWritten, client.nBytesRead, client.Contents());
      LedgerDropped(log, Host, hostOpen, clientOpen, host.nBytesWritten, host.nBytesRead, host.Contents());
      GateAfter(log, e, preload, nBytesToPreload, isPreloadFinished);
      Extend(e);
      nBytesToPreload := 0;
      log := log + [e];
    }

    /** Offers the front of a queue to the other socket; what it accepts, and nothing else, is gone. */
    method Forward(side: Side) returns (ghost gone: seq<byte>)
      requires Valid() && Open(side.Other()) && Queue(side) != []
      requires side == Host ==> isPreloadFinished
      modifies `log, `clientOpen, `clientReady, `hostOpen, `hostReady, Buf(side)
      modifies Sock(side.Other())`delivered, Sock(side.Other())`sends, Sock(side.Other())`offered
      modifies Sock(side.Other())`closed
      ensures Valid() && old(log) <= log && Open(side) == old(Open(side))
      ensures old(Queue(side)) == gone + Queue(side)
      ensures Sock(side.Other()).delivered == old(Sock(side.Other()).delivered) + gone
      ensures Sock(side.Other()).sends == old(Sock(side.Other()).sends) + 1
      ensures Sock(side.Other()).offered == old(Queue(side))[..Min(|old(Queue(side))|, MAX_WRITE_SIZE)]
      ensures Sock(side.Other()).willing ==> gone != []
    {
      hide Ledger, Gate, Safe, Link, Carried;
      var size := Buf(side).ReadSize();
      var front := Front(side, size);
      gone := Offer(side, front);
      Tidy(side);
    }

    /** The bytes of a queue that a send call is given. */
    method Front(side: Side, size: nat) returns (front: seq<byte>)
      requires Buf(side).Valid() && size <= |Queue(side)|
      ensures front == Queue(side)[..size]
    {
      var buffer := Buf(side);
      front := buffer.data[buffer.readOffset..buffer.readOffset + size];
    }

    /** An empty queue starts over at the front of its buffer. */
    method Tidy(side: Side)
      requires Valid()
      modifies Buf(side)
      ensures Valid() && Queue(side) == old(Queue(side))
    {
      hide Ledger, Gate, Safe, Link, Carried;
      var buffer := Buf(side);
      if buffer.readOffset == buffer.writeOffset {
        assert buffer.Contents() == [];
        buffer.Reset();
      }
    }

    method Offer(side: Side, front: seq<byte>) returns (ghost gone: seq<byte>)
      requires Valid() && Open(side.Other()) && front != [] && front <= Queue(side)
      requires side == Host ==> isPreloadFinished
      modifies `log, `clientOpen, `clientReady, `hostOpen, `hostReady, Buf(side)
      modifies Sock(side.Other())`delivered, Sock(side.Other())`sends, Sock(side.Other())`offered
      modifies Sock(side.Other())`closed
      ensures Valid() && old(log) <= log && Open(side) == old(Open(side))
      ensures old(Queue(side)) == gone + Queue(side)
      ensures Sock(side.Other()).delivered == old(Sock(side.Other()).delivered) + gone
      ensures Sock(side.Other()).sends == old(Sock(side.Other()).sends) + 1
      ensures Sock(side.Other()).offered == front && (Sock(side.Other()).willing ==> gone != [])
    {
      BuffersAreValid();
      hide Sound, Allowed, Link, Carried;
      SocketIsOpen(side.Other());
      var result := SendTo(side.Other(), front);
      gone := Settle(side, front, result);
    }

    /** Takes what a send call accepted out of the queue, or gives up the socket that refused it. */
    method Settle(side: Side, front: seq<byte>, result: SendResult) returns (ghost gone: seq<byte>)
      requires clientSocket != hostSocket && Sound() && Open(side.Other()) && front <= Queue(side)
      requires side == Host ==> isPreloadFinished
      requires result.Accepted? ==> 0 < result.n <= |front| && Link(log + [Sent(side, front[..result.n])], Carried())
      requires !result.Accepted? ==> Link(log, Carried())
      modifies `log, `clientOpen, `clientReady, `hostOpen, `hostReady, Buf(side), Sock(side.Other())`closed
      ensures Valid() && old(log) <= log && Open(side) == old(Open(side))
      ensures gone == if result.Accepted? then front[..result.n] else []
      ensures old(Queue(side)) == gone + Queue(side)
    {
      hide Sound, Allowed, Link, Carried;
      BuffersAreValid();
      gone := [];
      ghost var queue := Queue(side);
      assert [] + queue == queue;
      match result {
        case Accepted(n) =>
          SplitFront(front, queue, n);
          gone := queue[..n];
          Deliver(side, n);
        case SendFailed => Drop(side.Other());
        case SendLater =>
      }
    }

    method Deliver(side: Side, n: nat)
      requires clientSocket != hostSocket && Sound() && Open(side.Other()) && 0 < n <= |Queue(side)|
      requires Link(log + [Sent(side, Queue(side)[..n])], Carried())
      requires side == Host ==> isPreloadFinished
      modifies `log, Buf(side)
      ensures Valid() && log == old(log) + [Sent(side, old(Queue(side))[..n])] && Queue(side) == old(Queue(side))[n..]
    {
      hide Ledger, Gate, Safe, Allowed, Link, Carried;
      var buffer := Buf(side);
      ghost var bytes := buffer.Contents()[..n];
      ghost var e := Sent(side, bytes);
      MaySend(log, preload, nBytesToPreload, isPreloadFinished, side, Open(side),
        buffer.nBytesWritten, buffer.nBytesRead, buffer.Contents(), n);
      LedgerSent(log, side, n, Client, clientOpen, hostOpen, client.nBytesWritten, client.nBytesRead,
        client.Contents(), bytes);
      LedgerSent(log, side, n, Host, hostOpen, clientOpen, host.nBytesWritten, host.nBytesRead, host.Contents(), bytes);
      GateAfter(log, e, preload, nBytesToPreload, isPreloadFinished);
      Extend(e);
      buffer.CommitRead(n);
      log := log + [e];
    }

    /** What a readiness call reports: only open sockets are asked about. */
    method Poll() returns (clientHealth: Health, hostHealth: Health)
      requires Valid()
      modifies `clientReady, `hostReady
      ensures Valid()
    {
      hide Ledger, Gate, Safe, Link, Carried;
      var clientFlag: bool :| clientFlag ==> clientOpen;
      var hostFlag: bool :| hostFlag ==> hostOpen;
      clientReady, hostReady := clientFlag, hostFlag;
      clientHealth :| true;
      hostHealth :| true;
    }

    /** A side with a lasting error is closed. */
    method CheckError(side: Side, health: Health) returns (failed: bool)
      requires Valid()
      modifies `log, `clientOpen, `clientReady, `hostOpen, `hostReady, Sock(side)`closed
      ensures Valid() && old(log) <= log && (failed <==> health != Fine && old(Open(side)))
      ensures log == old(log) + (if failed && health == Unrecoverable then [Closed(side, Broken)] else [])
      ensures Open(side) == (old(Open(side)) && health != Unrecoverable)
      ensures Ready(side) == (old(Ready(side)) && health != Unrecoverable)
      ensures Open(side.Other()) == old(Open(side.Other())) && Ready(side.Other()) == old(Ready(side.Other()))
    {
      hide Ledger, Gate, Safe, Allowed, Link, Carried;
      failed := health != Fine && Open(side);
      if failed && health == Unrecoverable {
        ghost var other := Buf(side.Other());
        MayClose(log, preload, side, Open(side.Other()), other.nBytesWritten, other.nBytesRead, other.Contents());
        KillConnection(side, Broken);
      }
    }

    method CheckErrors(clientHealth: Health, hostHealth: Health) returns (failed: bool)
      requires Valid()
      modifies `log, `clientOpen, `clientReady, `hostOpen, `hostReady, clientSocket`closed, hostSocket`closed
      ensures Valid() && old(log) <= log
      ensures failed <==> (clientHealth != Fine && old(clientOpen)) || (hostHealth != Fine && old(hostOpen))
      ensures clientOpen == (old(clientOpen) && clientHealth != Unrecoverable)
      ensures clientReady == (old(clientReady) && clientHealth != Unrecoverable)
      ensures hostOpen == (old(hostOpen) && hostHealth != Unrecoverable)
      ensures hostReady == (old(hostReady) && hostHealth != Unrecoverable)
    {
      hide Ledger, Gate, Safe, Allowed, Link, Carried;
      var failedClient := CheckError(Client, clientHealth);
      var failedHost := CheckError(Host, hostHealth);
      failed := failedClient || failedHost;
    }

    /** Closes the other side of an ended one that has nothing left to deliver. */
    method CloseDrained(side: Side) returns (closed: bool)
      requires Valid()
      modifies `log, `clientOpen, `clientReady, `hostOpen, `hostReady, Sock(side.Other())`closed
      ensures Valid() && log == old(log) + (if closed then [Closed(side.Other(), Drained)] else [])
      ensures closed <==> old(!Open(side) && Open(side.Other()) && Queue(side) == [])
      ensures Open(side) == old(Open(side)) && Open(side.Other()) == (old(Open(side.Other())) && !closed)
    {
      hide Ledger, Gate, Safe, Allowed, Link, Carried;
      var buffer := Buf(side);
      closed := !Open(side) && Open(side.Other()) && buffer.readOffset == buffer.writeOffset;
      if closed {
        MayClose(log, preload, side.Other(), Open(side), buffer.nBytesWritten, buffer.nBytesRead, buffer.Contents());
        KillConnection(side.Other(), Drained);
      }
    }

    /** A side that has ended, with a socket on the other one that takes something of every send. */
    predicate Draining(side: Side)
      reads this
    {
      !Open(side) && Open(side.Other()) && Sock(side.Other()).willing
    }

    /** How many calls were made on the sockets. */
    ghost function Calls(): nat
      reads clientSocket, hostSocket
    {
      clientSocket.recvs + clientSocket.sends + hostSocket.recvs + hostSocket.sends
    }

    /** The one receive call of a round, if any. */
    function Receives(side: Side, health: Health): nat
      reads this, host
    {
      if Ready(side) && health != Unrecoverable && !Paused(side) then 1 else 0
    }

    /** Reads from both sides that are ready. */
    method ReadBoth() returns (success: bool)
      requires Valid()
      modifies this, client, host, clientSocket, hostSocket
      ensures Valid() && old(log) <= log
      ensures success <==> Calls() > old(Calls())
      ensures forall side: Side :: Sock(side).recvs == old(Sock(side).recvs) + old(Receives(side, Fine))
      ensures forall side: Side :: Sock(side).sends == old(Sock(side).sends)
      ensures forall side: Side :: Open(side) ==> old(Open(side))
      ensures forall side: Side :: old(!Open(side)) ==> Queue(side) == old(Queue(side))
      ensures forall side: Side :: Buf(side).nBytesRead == old(Buf(side).nBytesRead)
    {
      hide Ledger, Gate, Safe, Allowed, Link, Carried;
      success := clientReady;
      if clientReady {
        var paused, got := ReadFrom(Client);
      }
      if hostReady {
        var paused, got := ReadFrom(Host);
        success := success || !paused;
      }
    }

    /** Offers both queues once to the sockets they are for. */
    method SendBoth() returns (attempted: bool)
      requires Valid()
      modifies this, client, host, clientSocket, hostSocket
      ensures Valid() && old(log) <= log
      ensures attempted <==> Calls() > old(Calls())
      ensures forall side: Side :: Sock(side).recvs == old(Sock(side).recvs)
      ensures forall side: Side :: old(Sock(side).sends) <= Sock(side).sends <= old(Sock(side).sends) + 1
      ensures forall side: Side :: Open(side) ==> old(Open(side))
      ensures forall side: Side :: Open(side.Other()) && Queue(side) != [] ==>
        Sock(side.Other()).sends > old(Sock(side.Other()).sends) || MayWait(side)
      ensures forall side: Side :: |Queue(side)| <= |old(Queue(side))|
      ensures forall side: Side :: old(Draining(side) && Queue(side) != []) ==> |Queue(side)| < |old(Queue(side))|
    {
      hide Ledger, Gate, Safe, Allowed, Link, Carried;
      var attemptedClient, goneClient := Relay(Client);
      var attemptedHost, goneHost := Relay(Host);
      attempted := attemptedClient || attemptedHost;
    }

    /**
      Errors, one receive call on every side that is ready and not paused, and one send call at most on
      every side; whatever is then still queued for an open socket was offered to it, or may wait.
     */
    method Exchange(clientHealth: Health, hostHealth: Health) returns (result: Iteration)
      requires Valid()
      modifies this, client, host, clientSocket, hostSocket
      ensures Valid() && old(log) <= log
      ensures result == SUCCESS <==> Calls() > old(Calls())
      ensures result != SUCCESS ==> result == if (clientHealth != Fine && old(clientOpen)) ||
        (hostHealth != Fine && old(hostOpen)) then FAILURE else IDLE
      ensures Sock(Client).recvs == old(Sock(Client).recvs + Receives(Client, clientHealth))
      ensures Sock(Host).recvs == old(Sock(Host).recvs + Receives(Host, hostHealth))
      ensures forall side: Side :: old(Sock(side).sends) <= Sock(side).sends <= old(Sock(side).sends) + 1
      ensures forall side: Side :: Open(side) ==> old(Open(side))
      ensures forall side: Side :: Open(side.Other()) && Queue(side) != [] ==>
        Sock(side.Other()).sends > old(Sock(side.Other()).sends) || MayWait(side)
      ensures forall side: Side :: old(!Open(side)) ==> |Queue(side)| <= |old(Queue(side))|
      ensures forall side: Side :: old(Draining(side) && Queue(side) != []) ==>
        !Open(side.Other()) || |Queue(side)| < |old(Queue(side))|
    {
      hide Ledger, Gate, Safe, Allowed, Link, Carried;
      var failed := CheckErrors(clientHealth, hostHealth);
      result := if failed then FAILURE else IDLE;
      var success := ReadBoth();
      var attempted := SendBoth();
      if success || attempted {
        result := SUCCESS;
      }
    }

    /** One round over both sides: errors, reads, sends, and the orderly end. */
    method Process(clientHealth: Health, hostHealth: Health) returns (result: Iteration)
      requires Valid()
      modifies this, client, host, clientSocket, hostSocket
      ensures Valid() && old(log) <= log
      ensures result == FINISHED <==> !clientOpen && !hostOpen
      ensures result == IDLE ==>
        forall side: Side :: Sock(side).recvs == old(Sock(side).recvs) && Sock(side).sends == old(Sock(side).sends)
      ensures forall side: Side :: !Open(side) && Open(side.Other()) ==> Queue(side) != []
      ensures Sock(Client).recvs == old(Sock(Client).recvs + Receives(Client, clientHealth))
      ensures Sock(Host).recvs == old(Sock(Host).recvs + Receives(Host, hostHealth))
      ensures forall side: Side :: old(Sock(side).sends) <= Sock(side).sends <= old(Sock(side).sends) + 1
      ensures forall side: Side :: Open(side.Other()) && Queue(side) != [] ==>
        Sock(side.Other()).sends > old(Sock(side.Other()).sends) || MayWait(side)
      ensures forall side: Side :: old(Draining(side)) ==>
        result == FINISHED || (Draining(side) && |Queue(side)| < |old(Queue(side))|)
    {
      hide Ledger, Gate, Safe, Allowed, Link, Carried;
      result := Exchange(clientHealth, hostHealth);
      var closedHost := CloseDrained(Client);
      var closedClient := CloseDrained(Host);
      if closedHost || closedClient {
        result := SUCCESS;
      }
      if !hostOpen && !clientOpen {
        result := FINISHED;
      }
    }

    // ---- What the sockets see ----

    /** At every moment a socket was given a prefix of what the other one had to say. */
    lemma DeliveredIsPrefix(side: Side)
      requires Valid()
      ensures Sock(side.Other()).delivered <= Sock(side).consumed
      ensures Open(side.Other()) ==> Sock(side).consumed == Sock(side.Other()).delivered + Queue(side)
    {
      hide ReceivedFrom, SentFrom, IsClosed, Safe, Gate;
    }

    /** A socket that was closed in good order was given everything. */
    lemma DrainedSocketGotAll(side: Side)
      requires Valid() && Closed(side, Drained) in log
      ensures Sock(side).delivered == Sock(side.Other()).consumed && Sock(side.Other()).closed
    {
      hide ReceivedFrom, SentFrom, Safe, Gate, Ledger, Allowed;
      var k :| 0 <= k < |log| && log[k] == Closed(side, Drained);
      DrainedGotAll(log, preload, k);
      DrainedBeforeClose(log, preload, k);
      ClosedStays(log, k, |log|, side.Other());
      assert log[..|log|] == log;
    }

    /** The client socket is given nothing before the preload has come, or is not waited for. */
    lemma GateOnSockets()
      requires Valid() && clientSocket.delivered != []
      ensures PreloadDropped in log || hostSocket.closed || |hostSocket.consumed| >= preload
    {
      hide ReceivedFrom, SentFrom, IsClosed, Safe;
    }

    /** The counters tell what was not delivered. */
    lemma Undelivered(side: Side)
      requires Valid()
      ensures Buf(side).nBytesWritten - Buf(side).nBytesRead
        == |Sock(side).consumed| - |Sock(side.Other()).delivered|
      ensures Open(side) <==> !Sock(side).closed
    {
      hide ReceivedFrom, SentFrom, IsClosed, Safe;
    }

    /**
      A run of any length.  Once a side has ended and the other socket takes something of every send, the
      session ends within as many rounds as bytes are queued, and one; at the end both sockets are
      closed, each was given a prefix of what the other one said, and the counters tell the rest.
     */
    method Serve(rounds: nat) returns (finished: bool)
      requires Valid()
      modifies this, client, host, clientSocket, hostSocket
      ensures Valid() && old(log) <= log
      ensures finished ==> clientSocket.closed && hostSocket.closed
      ensures forall side: Side :: Sock(side.Other()).delivered <= Sock(side).consumed
      ensures forall side: Side ::
        Buf(side).nBytesWritten - Buf(side).nBytesRead == |Sock(side).consumed| - |Sock(side.Other()).delivered|
      ensures forall side: Side :: old(Draining(side)) && rounds > |old(Queue(side))| ==> finished
    {
      hide Ledger, Gate, Safe, Link, Carried;
      finished := false;
      for i := 0 to rounds
        invariant Valid() && old(log) <= log && !finished
        invariant forall side: Side :: old(Draining(side)) ==>
          Draining(side) && |Queue(side)| + i <= |old(Queue(side))|
      {
        ghost var before := log;
        var clientHealth, hostHealth := Poll();
        var result := Process(clientHealth, hostHealth);
        assert before <= log;
        if result == FINISHED {
          finished := true;
          break;
        }
      }
      DeliveredIsPrefix(Client);
      DeliveredIsPrefix(Host);
      Undelivered(Client);
      Undelivered(Host);
    }
  }
}
