/**
  Blocks of messages: a length and a message, again and again, up to a terminating length.

  The slots of the reader's container stack are never cleared, so what an earlier message left in
  them takes part in where a later one is looked for.
 */
module MessageBlock {
  import opened Words
  import opened DataReader
  import Containers
  import Cursor

  const TERMINATOR := 0xFFFF_FFFF
  // Lengths of the shortest and the longest message that is accepted.
  const MIN_MESSAGE := 14
  const MAX_MESSAGE := 0x40_0000

  /** A reader between two messages, with what it returned so far, or behind the last one, or after an
      exception. */
  datatype Progress =
    | Failed
    | Ended(values: seq<seq<Cursor.Value>>, pos: nat)
    | Between(values: seq<seq<Cursor.Value>>, pos: nat, slots: seq<nat>)

  /** The length that stands at a position. */
  function LengthAt(s: seq<byte>, pos: nat): Option<nat>
  {
    if pos + 4 <= |s| then Some(BE(s[pos..pos + 4])) else None
  }

  /** The calls of a user inside the message whose length stands at `pos`. */
  function Inside(s: seq<byte>, pos: nat, size: nat, ops: seq<Cursor.Op>): (r: Cursor.Read<seq<Cursor.Value>>)
    ensures r.Got? ==> r.cursor.Valid()
  {
    Cursor.Run(s, Cursor.Cursor(pos + 4, pos + 4 + size, [], []), ops)
  }

  function SlotsInside(s: seq<byte>, pos: nat, size: nat, slots: seq<nat>, ops: seq<Cursor.Op>): (r: seq<nat>)
    ensures |r| == |slots|
  {
    RunSlots(s, Cursor.Cursor(pos + 4, pos + 4 + size, [], []), slots, ops)
  }

  /**
    The calls inside the next message, and the way out.  A message left with all sixteen containers
    open counts as failed: the source then reads behind its array of slots.
   */
  function Visited(s: seq<byte>, p: Progress, size: nat, ops: seq<Cursor.Op>): (next: Progress)
    requires p.Between? && |p.slots| == Cursor.MAX_NESTED
    ensures !next.Ended? && (next.Between? ==> |next.slots| == Cursor.MAX_NESTED)
  {
    var r, slots := Inside(s, p.pos, size, ops), SlotsInside(s, p.pos, size, p.slots, ops);
    if r.Threw? || |r.cursor.ofs| == Cursor.MAX_NESTED then Failed
    else
      var target := r.cursor.end + Unwound(slots, |r.cursor.ofs|);
      if target <= |s| then Between(p.values + [r.value], target, slots) else Failed
  }

  /** The next message, found by the length that stands in front of it. */
  function Turn(s: seq<byte>, p: Progress, ops: seq<Cursor.Op>): (next: Progress)
    requires p.Between? ==> |p.slots| == Cursor.MAX_NESTED
    ensures next.Between? ==> |next.slots| == Cursor.MAX_NESTED
  {
    if !p.Between? then p
    else
      match LengthAt(s, p.pos)
      case None => Failed
      case Some(size) =>
        if size == TERMINATOR then Ended(p.values, p.pos + 4)
        else if !(MIN_MESSAGE <= size <= MAX_MESSAGE) then Failed
        else Visited(s, p, size, ops)
  }

  /** A turn for every list of calls. */
  function Block(s: seq<byte>, pos: nat, slots: seq<nat>, plans: seq<seq<Cursor.Op>>): (p: Progress)
    requires |slots| == Cursor.MAX_NESTED
    ensures p.Between? ==> |p.slots| == Cursor.MAX_NESTED
  {
    if plans == [] then Between([], pos, slots)
    else Turn(s, Block(s, pos, slots, plans[..|plans| - 1]), plans[|plans| - 1])
  }

  class TickCursor {
    const reader: DataReaderMsg
    var isWithinMessageBlock: bool

    constructor (reader: DataReaderMsg)
      ensures this.reader == reader && !isWithinMessageBlock
    {
      this.reader := reader;
      isWithinMessageBlock := false;
    }

    /** The reader is where the progress says, outside any message. */
    ghost predicate Stands(p: Progress)
      reads this, reader, reader.buffer, reader.s
    {
      && reader.Valid() && reader.depth == 0
      && |reader.stream| <= FAR <= reader.base + reader.contentEnd
      && isWithinMessageBlock == p.Between?
      && (p.Between? ==> reader.base + reader.dataPtr == p.pos && reader.eOfs == p.slots)
      && (p.Ended? ==> reader.base + reader.dataPtr == p.pos)
    }

    /** Makes the given calls inside a message whose length was just read, and leaves it. */
    method VisitMessage(size: nat, ops: seq<Cursor.Op>, ghost p: Progress) returns (ok: bool, values: seq<Cursor.Value>)
      requires p.Between? && isWithinMessageBlock && p.slots == reader.eOfs
      requires reader.Valid() && |reader.stream| <= FAR <= reader.base + reader.contentEnd
      requires reader.base + reader.dataPtr == p.pos + 4
      requires forall i :: 0 <= i < |ops| ==> Allowed(ops[i], reader.bufferSize)
      modifies reader, reader.buffer, reader.s
      ensures var next := Visited(reader.stream, p, size, ops);
        && (ok <==> next.Between?)
        && (ok ==> Stands(next) && next.values == p.values + [values])
    {
      hide Cursor.Run, RunSlots, BE, Unwound, DataReaderMsg.Buffered;
      reader.WindowIsStream(reader.dataPtr, reader.streamDataEnd - reader.dataPtr);
      reader.SetMessageSize(size);
      ok, values := reader.Run(ops);
      if !ok || reader.depth == Cursor.MAX_NESTED {
        return false, [];
      }
      ok := reader.NextMessage();
    }

    /** Reads the next message, making the given calls inside it. */
    method ReadMessageInBlock(ops: seq<Cursor.Op>, ghost p: Progress) returns (ok: bool, values: seq<Cursor.Value>)
      requires p.Between? && Stands(p)
      requires forall i :: 0 <= i < |ops| ==> Allowed(ops[i], reader.bufferSize)
      modifies `isWithinMessageBlock, reader, reader.buffer, reader.s
      ensures var next := Turn(reader.stream, p, ops);
        && (ok <==> !next.Failed?)
        && (ok ==> Stands(next) && next.values == if next.Between? then p.values + [values] else p.values)
    {
      hide Visited, BE, DataReaderMsg.Buffered, DataReaderMsg.Linked, DataReaderMsg.Stacked;
      values := [];
      var size;
      ok, size := reader.LoadBE(4, 4);
      if !ok {
        return;
      }
      if size == TERMINATOR {
        isWithinMessageBlock := false;
        return;
      }
      if !(MIN_MESSAGE <= size <= MAX_MESSAGE) {
        return false, [];
      }
      ok, values := VisitMessage(size, ops, p);
    }

    /** Reads message after message, until there are no calls left to make or the block ends. */
    method ReadBlock(plans: seq<seq<Cursor.Op>>) returns (ok: bool, values: seq<seq<Cursor.Value>>)
      requires isWithinMessageBlock && Stands(Between([], reader.base + reader.dataPtr, reader.eOfs))
      requires forall i, k :: 0 <= i < |plans| && 0 <= k < |plans[i]| ==> Allowed(plans[i][k], reader.bufferSize)
      modifies `isWithinMessageBlock, reader, reader.buffer, reader.s
      ensures var p := Block(reader.stream, old(reader.base + reader.dataPtr), old(reader.eOfs), plans);
        && (ok <==> !p.Failed?)
        && (ok ==> Stands(p) && values == p.values)
    {
      hide Turn, DataReaderMsg.Valid;
      ok, values := true, [];
      ghost var pos, slots := reader.base + reader.dataPtr, reader.eOfs;
      var i := 0;
      while i < |plans| && isWithinMessageBlock && ok
        invariant i <= |plans| && |slots| == Cursor.MAX_NESTED
        invariant var p := Block(reader.stream, pos, slots, plans[..i]);
          && (ok <==> !p.Failed?)
          && (ok ==> Stands(p) && values == p.values)
      {
        ghost var p := Block(reader.stream, pos, slots, plans[..i]);
        assert plans[..i + 1][..i] == plans[..i];
        var v;
        ok, v := ReadMessageInBlock(plans[i], p);
        if ok && isWithinMessageBlock {
          values := values + [v];
        }
        i := i + 1;
      }
      BlockStays(reader.stream, pos, slots, plans, i);
    }

    /** Skips what is left of a block by the lengths of its messages. */
    method SkipMessageBlock() returns (ok: bool)
      requires isWithinMessageBlock && Stands(Between([], reader.base + reader.dataPtr, reader.eOfs))
      modifies `isWithinMessageBlock, reader, reader.buffer, reader.s
      ensures var end := BlockEnd(reader.stream, old(reader.base + reader.dataPtr));
        && (ok <==> end.Some?)
        && (ok ==> Stands(Ended([], end.value)))
    {
      hide BE, BlockEnd, DataReaderMsg.Buffered, DataReaderMsg.Linked, DataReaderMsg.Stacked;
      ghost var pos := reader.base + reader.dataPtr;
      ok := true;
      while true
        invariant isWithinMessageBlock && Stands(Between([], reader.base + reader.dataPtr, reader.eOfs))
        invariant BlockEnd(reader.stream, reader.base + reader.dataPtr) == BlockEnd(reader.stream, pos)
        decreases |reader.stream| - (reader.base + reader.dataPtr)
      {
        var messageSize;
        NextInBlock(reader.stream, reader.base + reader.dataPtr);
        ok, messageSize := reader.LoadBE(4, 4);
        if !ok {
          return;
        }
        if messageSize == TERMINATOR {
          isWithinMessageBlock := false;
          return;
        }
        ok := reader.Skip(messageSize);
        if !ok {
          return;
        }
      }
    }
  }

  /** What the length that is read next says about the end of the block. */
  lemma NextInBlock(s: seq<byte>, pos: nat)
    ensures pos + 4 > |s| ==> BlockEnd(s, pos) == None
    ensures pos + 4 <= |s| ==> var size := BE(s[pos..pos + 4]);
      BlockEnd(s, pos) == if size == TERMINATOR then Some(pos + 4)
                          else if pos + 4 + size > |s| then None else BlockEnd(s, pos + 4 + size)
  {
  }

  /** Nothing is read behind the end of a block. */
  lemma {:induction false} BlockStays(s: seq<byte>, pos: nat, slots: seq<nat>, plans: seq<seq<Cursor.Op>>, n: nat)
    requires |slots| == Cursor.MAX_NESTED && n <= |plans|
    requires n == |plans| || !Block(s, pos, slots, plans[..n]).Between?
    ensures Block(s, pos, slots, plans) == Block(s, pos, slots, plans[..n])
    decreases |plans|
  {
    hide Turn;
    if n < |plans| {
      var shorter := plans[..|plans| - 1];
      assert shorter[..n] == plans[..n];
      BlockStays(s, pos, slots, shorter, n);
      NoTurn(s, Block(s, pos, slots, shorter), plans[|plans| - 1]);
    } else {
      assert plans[..n] == plans;
    }
  }

  lemma NoTurn(s: seq<byte>, p: Progress, ops: seq<Cursor.Op>)
    requires !p.Between?
    ensures Turn(s, p, ops) == p
  {
  }

  // ---- Where messages are looked for ----

  /** The stack of the cursor is what the slots hold below its depth. */
  lemma {:induction false} RunFitsSlots(s: seq<byte>, c: Cursor.Cursor, slots: seq<nat>, ops: seq<Cursor.Op>)
    requires c.Valid() && Cursor.Run(s, c, ops).Got?
    requires |slots| == Cursor.MAX_NESTED && c.ofs == slots[..|c.ofs|]
    ensures var c' := Cursor.Run(s, c, ops).cursor; c'.ofs == RunSlots(s, c, slots, ops)[..|c'.ofs|]
    decreases |ops|
  {
    hide Cursor.Step;
    if ops != [] {
      Cursor.StepKeepsEnds(s, c, ops[0]);
      var c' := Cursor.Step(s, c, ops[0]).cursor;
      StepFitsSlots(c, c', slots);
      RunFitsSlots(s, c', Slots(slots, c, c'), ops[1..]);
    }
  }

  lemma StepFitsSlots(c: Cursor.Cursor, c': Cursor.Cursor, slots: seq<nat>)
    requires c'.Valid() && |c'.ofs| <= |c.ofs| + 1 && Cursor.Within(c, c', Min(|c.ofs|, |c'.ofs|))
    requires |slots| == Cursor.MAX_NESTED && c.ofs == slots[..|c.ofs|]
    ensures c'.ofs == Slots(slots, c, c')[..|c'.ofs|]
  {
    var d := Min(|c.ofs|, |c'.ofs|);
    assert forall i :: 0 <= i < d ==> c'.ofs[i] == c'.ofs[..d][i] == c.ofs[..d][i] == slots[i];
  }

  /**
    After a message the next one is looked for right behind it exactly when no container was left
    open in it, or the slot above the stack happens to hold what the outermost container left.
   */
  lemma TurnExactDomain(s: seq<byte>, p: Progress, ops: seq<Cursor.Op>)
    requires p.Between? && |p.slots| == Cursor.MAX_NESTED && Turn(s, p, ops).Between?
    ensures var size, next := LengthAt(s, p.pos).value, Turn(s, p, ops);
      var open := |Inside(s, p.pos, size, ops).cursor.ofs|;
      next.pos == p.pos + 4 + size <==> open == 0 || next.slots[open] == next.slots[0]
  {
    hide Cursor.Run, RunSlots, BE, Unwound;
    var start := Cursor.Cursor(p.pos + 4, p.pos + 4 + LengthAt(s, p.pos).value, [], []);
    Containers.RunKeepsMessageEnd(s, start, ops);
    RunFitsSlots(s, start, p.slots, ops);
    UnwindExactDomain(Cursor.Run(s, start, ops).cursor, RunSlots(s, start, p.slots, ops));
  }

  /** Where `n` messages end when they are skipped by their lengths. */
  function Skipped(s: seq<byte>, pos: nat, n: nat): Option<nat>
  {
    if n == 0 then Some(pos)
    else
      match Skipped(s, pos, n - 1)
      case None => None
      case Some(p) =>
        match LengthAt(s, p)
        case None => None
        case Some(size) => if size == TERMINATOR || p + 4 + size > |s| then None else Some(p + 4 + size)
  }

  /** The calls in the message at `pos` are answered, and close what they open. */
  predicate Answered(s: seq<byte>, pos: nat, ops: seq<Cursor.Op>)
  {
    && LengthAt(s, pos).Some? && MIN_MESSAGE <= LengthAt(s, pos).value <= MAX_MESSAGE
    && Inside(s, pos, LengthAt(s, pos).value, ops).Got?
    && Inside(s, pos, LengthAt(s, pos).value, ops).cursor.ofs == []
  }

  /** What a message answers when its calls are made on it alone. */
  function Answer(s: seq<byte>, pos: nat, ops: seq<Cursor.Op>): seq<Cursor.Value>
    requires Answered(s, pos, ops)
  {
    Inside(s, pos, LengthAt(s, pos).value, ops).value
  }

  /** The same for every message of a block, found by the lengths. */
  predicate AllAnswered(s: seq<byte>, pos: nat, plans: seq<seq<Cursor.Op>>)
  {
    forall i :: 0 <= i < |plans| ==>
      Skipped(s, pos, i).Some? && Answered(s, Skipped(s, pos, i).value, plans[i])
  }

  /**
    When the calls in every message close what they open, every message is answered as if it were
    the only one, from its own bytes, and the reader ends where skipping by the lengths ends,
    however much of each message the calls left unread.
   */
  lemma {:induction false} BlockIsRead(s: seq<byte>, pos: nat, slots: seq<nat>, plans: seq<seq<Cursor.Op>>)
    requires |slots| == Cursor.MAX_NESTED && Skipped(s, pos, |plans|).Some?
    requires AllAnswered(s, pos, plans)
    ensures var p := Block(s, pos, slots, plans);
      && p.Between? && p.pos == Skipped(s, pos, |plans|).value && |p.values| == |plans|
      && forall i :: 0 <= i < |plans| ==> p.values[i] == Answer(s, Skipped(s, pos, i).value, plans[i])
    decreases |plans|
  {
    hide Answered, Answer, LengthAt, Turn;
    if plans != [] {
      var n := |plans| - 1;
      var shorter := plans[..n];
      BlockIsRead(s, pos, slots, shorter);
      AnsweredTurn(s, Block(s, pos, slots, shorter), plans[n]);
    }
  }

  lemma AnsweredTurn(s: seq<byte>, p: Progress, ops: seq<Cursor.Op>)
    requires p.Between? && |p.slots| == Cursor.MAX_NESTED && Answered(s, p.pos, ops)
    requires p.pos + 4 + LengthAt(s, p.pos).value <= |s|
    ensures var size, next := LengthAt(s, p.pos).value, Turn(s, p, ops);
      && next.Between? && next.pos == p.pos + 4 + size
      && next.values == p.values + [Answer(s, p.pos, ops)]
  {
    hide Cursor.Run, RunSlots, BE;
    var size := LengthAt(s, p.pos).value;
    Containers.RunKeepsMessageEnd(s, Cursor.Cursor(p.pos + 4, p.pos + 4 + size, [], []), ops);
    assert Unwound(SlotsInside(s, p.pos, size, p.slots, ops), 0) == 0;
  }

  /** Four bytes with all bits set end a block. */
  lemma TerminatorEndsBlock(s: seq<byte>, p: Progress, ops: seq<Cursor.Op>)
    requires p.Between? && |p.slots| == Cursor.MAX_NESTED && p.pos + 4 <= |s|
    requires s[p.pos..p.pos + 4] == [0xFF, 0xFF, 0xFF, 0xFF]
    ensures Turn(s, p, ops) == Ended(p.values, p.pos + 4)
  {
    hide Visited;
    var length: seq<byte> := s[p.pos..p.pos + 4];
    assert length[..3] == [0xFF, 0xFF, 0xFF] && [0xFF, 0xFF, 0xFF][..2] == [0xFF, 0xFF];
    assert [0xFF, 0xFF][..1] == [0xFF];
    assert BE([0xFF]) == 0xFF && BE([0xFF, 0xFF]) == 0xFFFF;
    assert BE([0xFF, 0xFF, 0xFF]) == 0xFF_FFFF && BE(length) == 0xFFFF_FFFF;
  }

  /** A message is visited when it is from 14 bytes to four megabytes long, and refused otherwise. */
  lemma LengthsAdmitted(s: seq<byte>, p: Progress, ops: seq<Cursor.Op>, size: nat)
    requires p.Between? && |p.slots| == Cursor.MAX_NESTED && LengthAt(s, p.pos) == Some(size)
    requires size != 0xFFFF_FFFF
    ensures Turn(s, p, ops) == if 14 <= size <= 0x40_0000 then Visited(s, p, size, ops) else Failed
  {
    hide Visited, LengthAt;
  }

  // ---- Skipping a whole block ----

  /** The position behind the terminator, by the lengths alone. */
  function BlockEnd(s: seq<byte>, pos: nat): Option<nat>
    decreases |s| - pos
  {
    match LengthAt(s, pos)
    case None => None
    case Some(size) =>
      if size == TERMINATOR then Some(pos + 4)
      else if pos + 4 + size > |s| then None
      else BlockEnd(s, pos + 4 + size)
  }

  lemma {:induction false} SkippedThenEnd(s: seq<byte>, pos: nat, n: nat)
    requires Skipped(s, pos, n).Some?
    ensures BlockEnd(s, pos) == BlockEnd(s, Skipped(s, pos, n).value)
  {
    hide LengthAt;
    if n > 0 {
      SkippedThenEnd(s, pos, n - 1);
    }
  }

  /** A block read to its terminator, with calls that close what they open, ends where skipping the
      block ends. */
  lemma EndIsBlockEnd(s: seq<byte>, pos: nat, slots: seq<nat>, plans: seq<seq<Cursor.Op>>, ops: seq<Cursor.Op>)
    requires |slots| == Cursor.MAX_NESTED && Skipped(s, pos, |plans|).Some?
    requires AllAnswered(s, pos, plans)
    ensures var p := Block(s, pos, slots, plans + [ops]);
      p.Ended? ==> BlockEnd(s, pos) == Some(p.pos) && |p.values| == |plans|
  {
    hide Inside, SlotsInside, LengthAt, Unwound;
    BlockIsRead(s, pos, slots, plans);
    assert (plans + [ops])[..|plans|] == plans;
    SkippedThenEnd(s, pos, |plans|);
  }

  /** A message with an object left open, eight bytes before the end of the message: those bytes are
      taken for the next message. */
  lemma UnwindFails()
    ensures var message: seq<byte> := [0, 0, 0, 14, 5, 1, 0, 0, 0, 0, 0, 0, 0, 0, 0, 0, 0, 0];
      var slots := seq(Cursor.MAX_NESTED, _ => 0);
      && Skipped(message, 0, 1) == Some(18)
      && Turn(message, Between([], 0, slots), [Cursor.OpStart(false)])
        == Between([[Cursor.Number(1)]], 10, slots[0 := 8])
  {
    hide LengthAt, Inside, SlotsInside, Skipped;
    var message: seq<byte> := [0, 0, 0, 14, 5, 1, 0, 0, 0, 0, 0, 0, 0, 0, 0, 0, 0, 0];
    var slots: seq<nat> := seq(Cursor.MAX_NESTED, _ => 0);
    LengthIs14(message);
    ObjectLeftOpen(message, slots);
    SkippedOne(message, 0, 14);
    NothingAbove(slots[0 := 8]);
  }

  lemma LengthIs14(s: seq<byte>)
    requires |s| >= 4 && s[0..4] == [0, 0, 0, 14]
    ensures LengthAt(s, 0) == Some(14)
  {
    var length: seq<byte> := s[0..4];
    assert length[..3] == [0, 0, 0] && [0, 0, 0][..2] == [0, 0] && [0, 0][..1] == [0];
    assert BE([0]) == 0 && BE([0, 0]) == 0;
    assert BE([0, 0, 0]) == 0 && BE(length) == 14;
  }

  lemma NothingAbove(slots: seq<nat>)
    requires |slots| > 1 && slots[1] == 0
    ensures Unwound(slots, 1) == 0
  {
    assert Unwound(slots, 0) == 0;
  }

  lemma SkippedOne(s: seq<byte>, pos: nat, size: nat)
    requires LengthAt(s, pos) == Some(size) && size != TERMINATOR && pos + 4 + size <= |s|
    ensures Skipped(s, pos, 1) == Some(pos + 4 + size)
  {
    hide LengthAt;
    var n: nat := 1;
    assert Skipped(s, pos, n - 1) == Some(pos);
    assert Skipped(s, pos, n) == Some(pos + 4 + size);
  }

  lemma ObjectLeftOpen(message: seq<byte>, slots: seq<nat>)
    requires |message| == 18 && message[4..6] == [5, 1] && |slots| == Cursor.MAX_NESTED
    ensures Inside(message, 0, 14, [Cursor.OpStart(false)])
      == Cursor.Got([Cursor.Number(1)], Cursor.Cursor(6, 10, [8], [false]))
    ensures SlotsInside(message, 0, 14, slots, [Cursor.OpStart(false)]) == slots[0 := 8]
  {
    var c, op, inside := Cursor.Cursor(4, 18, [], []), Cursor.OpStart(false), Cursor.Cursor(6, 10, [8], [false]);
    assert message[4] == message[4..6][0] && message[5] == message[4..6][1];
    assert message[4..5] == [5] && message[5..6] == [1] && BE([5]) == 5 && BE([1]) == 1;
    assert Cursor.PackedUInt22(message, c) == Cursor.Got(5, c.(pos := 5));
    assert Cursor.Open(message, c, false) == Cursor.Got(true, inside.(pos := 5));
    assert Cursor.Step(message, c, op) == Cursor.Got(Cursor.Number(1), inside);
    Cursor.StepKeepsEnds(message, c, op);
    assert [op][1..] == [] && Cursor.Run(message, inside, []) == Cursor.Got([], inside);
    assert [Cursor.Number(1)] + [] == [Cursor.Number(1)];
    assert RunSlots(message, inside, Slots(slots, c, inside), []) == Slots(slots, c, inside);
  }
}
