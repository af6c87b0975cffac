/**
  The message reader as a plain cursor over an immutable byte sequence: no buffer, no refills.

  `pos` and `end` are positions in the stream; `ofs` holds, for every open container, how far its
  end lies before the end of its parent, and `kinds` whether it is an array.
 */
module Cursor {
  import opened Words
  import opened Alphanumeric

  const MAX_NESTED := 16
  const UINT30_NULL := 0x7FFF_FFFF
  const UINT61_NULL := 0x7FFF_FFFF_FFFF_FFFF
  const INTERVAL_NULL := 0

  datatype Cursor = Cursor(pos: nat, end: nat, ofs: seq<nat>, kinds: seq<bool>) {
    predicate AtEnd() {
      pos == end
    }

    predicate Valid() {
      pos <= end && |ofs| == |kinds| <= MAX_NESTED
    }

    /** Where the container at depth `d` ends; depth 0 is the message. */
    function EndAt(d: nat): nat
      requires d <= |ofs|
      decreases |ofs| - d
    {
      if d == |ofs| then end else ofs[d] + EndAt(d + 1)
    }
  }

  /** A reading step: a value and the cursor behind it, or an exception. */
  datatype Read<+T> = Threw | Got(value: T, cursor: Cursor) {
    predicate IsFailure() {
      Threw?
    }
    function PropagateFailure<U>(): Read<U>
      requires Threw?
    {
      Threw
    }
    function Extract(): (T, Cursor)
      requires Got?
    {
      (value, cursor)
    }
    /** The step without its value. */
    function Erased(): Read<()> {
      if Threw? then Threw else Got((), cursor)
    }
  }

  // ---- Bytes ----

  function Take(s: seq<byte>, c: Cursor, n: nat): (r: Read<seq<byte>>)
    ensures r.Got? ==> |r.value| == n
  {
    if c.pos + n <= c.end && c.pos + n <= |s| then Got(s[c.pos..c.pos + n], c.(pos := c.pos + n)) else Threw
  }

  function Peek(s: seq<byte>, c: Cursor, n: nat): (r: Read<seq<byte>>)
    ensures r.Got? ==> |r.value| == n && r.cursor == c
  {
    var (bytes, _) :- Take(s, c, n);
    Got(bytes, c)
  }

  function Skip(s: seq<byte>, c: Cursor, n: nat): Read<()>
  {
    Take(s, c, n).Erased()
  }

  function UInt(s: seq<byte>, c: Cursor, n: nat): Read<nat>
  {
    var (bytes, c) :- Take(s, c, n);
    Got(BE(bytes), c)
  }

  /** An encoding stands in the stream at the cursor, inside the content. */
  ghost predicate StandsAt(s: seq<byte>, c: Cursor, encoding: seq<byte>)
  {
    && c.pos + |encoding| <= c.end
    && c.pos + |encoding| <= |s|
    && s[c.pos..c.pos + |encoding|] == encoding
  }

  // ---- Packed integers ----

  function PackedUInt61(s: seq<byte>, c: Cursor): Read<nat>
  {
    var (header, c) :- UInt(s, c, 1);
    var (bytes, c) :- Take(s, c, header / 32);
    Got(header % 32 + 32 * LE(bytes), c)
  }

  function PackedUInt30(s: seq<byte>, c: Cursor): Read<nat>
  {
    var (header, c) :- UInt(s, c, 1);
    var (bytes, c) :- Take(s, c, header / 64);
    Got(header % 64 + 64 * LE(bytes), c)
  }

  function PackedUInt22(s: seq<byte>, c: Cursor): Read<nat>
  {
    var (header, c) :- UInt(s, c, 1);
    if header < 0x80 then Got(header, c)
    else
      var (bytes, c) :- Take(s, c, header / 64 - 1);
      Got(header % 64 + 64 * LE(bytes), c)
  }

  // ---- Fields ----

  datatype Leaf =
    | Int(width: nat)
    | PUInt30
    | PUInt61
    | Interval
    | Decimal
    | Utf8
    | Alphanumeric(size: nat)
    | Binary

  datatype Value =
    | Null
    | Skipped
    | Number(n: int)
    | Bytes(bytes: seq<byte>)
    | Chars(chars: seq<nat>)
    | DecimalBits(header: nat, mantissa: seq<byte>)
    | Items(head: nat, items: seq<Value>)

  /** Two's complement of a word of `width` bytes. */
  function Signed(v: nat, width: nat): int
  {
    if v < Pow2(8 * width) / 2 then v else v - Pow2(8 * width)
  }

  function IntNull(width: nat): int
  {
    -(Pow2(8 * width) / 2)
  }

  /** `mask & (v - 1)`, where 0 wraps to the NULL value. */
  function Nullable(v: nat, null_: nat): nat
  {
    if v == 0 then null_ else v - 1
  }

  function ReadInterval(s: seq<byte>, c: Cursor): Read<nat>
  {
    var (header, c) :- UInt(s, c, 1);
    var x := header % 64;
    match header / 64
    case 0 => Got(x * 1000, c)
    case 1 => Got(x * 60000, c)
    case 2 => Got(x * 3600000, c)
    case _ => UInt(s, c, 4)
  }

  /** Header byte and mantissa bytes; the mantissa's numeric value is not modelled. */
  function ReadDecimal(s: seq<byte>, c: Cursor): Read<Value>
  {
    var (header, c) :- UInt(s, c, 1);
    if header in {0x1F, 0x2F, 0x3F} then Got(DecimalBits(header, []), c)
    else
      var numBytes := if header == 0x0F then 8 else header / 16 % 8;
      var (bytes, c) :- Take(s, c, numBytes);
      Got(DecimalBits(header, bytes), c)
  }

  function ReadText(s: seq<byte>, c: Cursor): Read<Value>
  {
    var (len, c) :- UInt(s, c, 2);
    if len == 0xFFFF then Got(Null, c)
    else
      var (bytes, c) :- Take(s, c, len);
      Got(Bytes(bytes), c)
  }

  function ReadBinary(s: seq<byte>, c: Cursor): Read<Value>
  {
    var (flag, c) :- UInt(s, c, 1);
    if flag != 0 then Got(Null, c)
    else
      var (len, c) :- PackedUInt30(s, c);
      var (bytes, c) :- Take(s, c, len);
      Got(Bytes(bytes), c)
  }

  /** The length of an alphanumeric field, without moving. */
  function PeekBits(s: seq<byte>, c: Cursor, sizeBits: nat): Read<nat>
  {
    var (header, _) :- Peek(s, c, (sizeBits + 7) / 8);
    Got(Bits(header, 0, sizeBits), c)
  }

  function ReadAlphanumeric(s: seq<byte>, c: Cursor, size: nat): Read<Value>
  {
    var sizeBits := Bsr(size + 1);
    var (len, _) :- PeekBits(s, c, sizeBits);
    if len == size + 1 then
      var (_, c) :- Take(s, c, (sizeBits + 7) / 8);
      Got(Null, c)
    else
      var (field, c) :- Take(s, c, FieldBytes(sizeBits, len));
      Got(Chars(Alphanumeric.Chars(field, sizeBits, len)), c)
  }

  /**
    A field of up to ten characters read as a word of four or eight bytes, NULL at the end of the
    content included.  The 32-bit instance returns a part of the field at most.
   */
  function ReadAlphanumericAs(s: seq<byte>, c: Cursor, size: nat, width: nat): (r: Read<nat>)
    ensures r.Got? && c.pos <= c.end ==> c.pos <= r.cursor.pos <= c.end && r.cursor == c.(pos := r.cursor.pos)
  {
    var null_ := if width == 4 then ALPHANUMERIC_NULL32 else ALPHANUMERIC_NULL;
    if c.AtEnd() then Got(null_, c)
    else if size > 10 then Threw
    else
      var sizeBits := Bsr(size + 1);
      var (len, _) :- PeekBits(s, c, sizeBits);
      if len == size + 1 then
        var (_, c) :- Take(s, c, 1);
        Got(null_, c)
      else if len > size then Threw
      else
        ShortField(size, len);
        var (field, c) :- Take(s, c, FieldBytes(sizeBits, len));
        Got(if width == 4 then NarrowWord(field) else FieldWord(field, 8), c)
  }

  /** What a field reads as when the content has ended; only a binary field does not look for it. */
  function EndValue(leaf: Leaf): Value
  {
    match leaf
    case Int(width) => Number(IntNull(width))
    case PUInt30 => Number(UINT30_NULL)
    case PUInt61 => Number(UINT61_NULL)
    case Interval => Number(INTERVAL_NULL)
    case Decimal => DecimalBits(0x1F, [])
    case _ => Null
  }

  function ReadLeaf(s: seq<byte>, c: Cursor, leaf: Leaf): Read<Value>
  {
    if c.AtEnd() && !leaf.Binary? then Got(EndValue(leaf), c)
    else
      match leaf
      case Int(width) => var (v, c) :- UInt(s, c, width); Got(Number(Signed(v, width)), c)
      case PUInt30 => var (v, c) :- PackedUInt30(s, c); Got(Number(Nullable(v, UINT30_NULL)), c)
      case PUInt61 => var (v, c) :- PackedUInt61(s, c); Got(Number(Nullable(v, UINT61_NULL)), c)
      case Interval => var (v, c) :- ReadInterval(s, c); Got(Number(v), c)
      case Decimal => ReadDecimal(s, c)
      case Utf8 => ReadText(s, c)
      case Alphanumeric(size) => ReadAlphanumeric(s, c, size)
      case Binary => ReadBinary(s, c)
  }

  /** The separate skipping routines; a packed integer is skipped by its header alone. */
  function SkipLeaf(s: seq<byte>, c: Cursor, leaf: Leaf): Read<()>
  {
    if c.AtEnd() then Got((), c)
    else
      match leaf
      case Int(width) => Skip(s, c, width)
      case PUInt30 => var (header, c) :- UInt(s, c, 1); Skip(s, c, header / 64)
      case PUInt61 => var (header, c) :- UInt(s, c, 1); Skip(s, c, header / 32)
      case Interval => var (header, c) :- UInt(s, c, 1); Skip(s, c, if header >= 0xC0 then 4 else 0)
      case Decimal =>
        var (header, c) :- UInt(s, c, 1);
        if header in {0x1F, 0x2F, 0x3F} then Got((), c)
        else if header == 0x0F then Skip(s, c, 8)
        else Skip(s, c, header / 16 % 8)
      case Utf8 => var (len, c) :- UInt(s, c, 2); Skip(s, c, if len == 0xFFFF then 0 else len)
      case Alphanumeric(size) =>
        var sizeBits := Bsr(size + 1);
        var (len, _) :- PeekBits(s, c, sizeBits);
        Skip(s, c, if len != size + 1 then FieldBytes(sizeBits, len) else (sizeBits + 7) / 8)
      case Binary =>
        var (flag, c) :- UInt(s, c, 1);
        if flag != 0 then Got((), c)
        else
          var (len, c) :- PackedUInt30(s, c);
          Skip(s, c, len)
  }

  /** Skipping a field ends where reading it ends, or throws where reading throws, except at the end of
      content, where a binary field is skipped but cannot be read. */
  lemma SkipIsRead(s: seq<byte>, c: Cursor, leaf: Leaf)
    ensures SkipLeaf(s, c, leaf) == ReadLeaf(s, c, leaf).Erased() <==> !(c.AtEnd() && leaf.Binary?)
  {
    hide SkipLeaf, ReadLeaf;
    match leaf
    case Alphanumeric(size) => SkipAlphanumericIsRead(s, c, size);
    case Binary => SkipBinaryIsRead(s, c);
    case Decimal => SkipDecimalIsRead(s, c);
    case _ => SkipSimpleIsRead(s, c, leaf);
  }

  lemma SkipAlphanumericIsRead(s: seq<byte>, c: Cursor, size: nat)
    ensures SkipLeaf(s, c, Alphanumeric(size)) == ReadLeaf(s, c, Alphanumeric(size)).Erased()
  {
    hide BE, Bits, Bsr, FieldBytes, Alphanumeric.Chars;
  }

  lemma SkipBinaryIsRead(s: seq<byte>, c: Cursor)
    ensures SkipLeaf(s, c, Binary) == ReadLeaf(s, c, Binary).Erased() <==> !c.AtEnd()
  {
    hide BE, LE, PackedUInt30;
  }

  lemma SkipDecimalIsRead(s: seq<byte>, c: Cursor)
    ensures SkipLeaf(s, c, Decimal) == ReadLeaf(s, c, Decimal).Erased()
  {
    hide BE;
  }

  lemma SkipSimpleIsRead(s: seq<byte>, c: Cursor, leaf: Leaf)
    requires leaf.Int? || leaf.PUInt30? || leaf.PUInt61? || leaf.Interval? || leaf.Utf8?
    ensures SkipLeaf(s, c, leaf) == ReadLeaf(s, c, leaf).Erased()
  {
    hide BE, LE, Pow2;
  }

  /** A binary field that the message no longer holds is skipped, and cannot be read. */
  lemma BinaryAtEndFails()
    ensures var c := Cursor(0, 0, [], []);
      SkipLeaf([], c, Binary) == Got((), c) && ReadLeaf([], c, Binary).Threw?
  {
    SkipIsRead([], Cursor(0, 0, [], []), Binary);
  }

  // ---- Containers ----

  /** Opens a container of the declared size, or of what is left when that is less; false for NULL. */
  function Open(s: seq<byte>, c: Cursor, isArray: bool): Read<bool>
    requires c.Valid()
  {
    var (size, c') :- PackedUInt22(s, c);
    if size == 0 then Got(false, c')
    else if |c.ofs| >= MAX_NESTED then Threw
    else
      var remaining := c'.end - c'.pos;
      var ofs := remaining - Min(size, remaining);
      Got(true, Cursor(c'.pos, c'.end - ofs, c'.ofs + [ofs], c'.kinds + [isArray]))
  }

  /** Skips to the end of the innermost container and restores its parent's end. */
  function Close(s: seq<byte>, c: Cursor, isArray: bool): Read<()>
    requires c.Valid()
  {
    var depth := |c.ofs|;
    if depth == 0 || c.kinds[depth - 1] != isArray then Threw
    else
      var (_, c) :- Skip(s, c, c.end - c.pos);
      Got((), Cursor(c.pos, c.end + c.ofs[depth - 1], c.ofs[..depth - 1], c.kinds[..depth - 1]))
  }

  function SkipContainer(s: seq<byte>, c: Cursor): Read<()>
    requires c.Valid()
  {
    var (size, c) :- PackedUInt22(s, c);
    Skip(s, c, Min(size, c.end - c.pos))
  }

  /** Object or array start: the type index or the item count, or NULL. */
  function ReadStart(s: seq<byte>, c: Cursor, isArray: bool): (r: Read<Option<nat>>)
    requires c.Valid()
  {
    if c.AtEnd() then Got(None, c)
    else
      var (notNull, c) :- Open(s, c, isArray);
      if !notNull then Got(None, c)
      else
        var (head, c) :- if isArray then PackedUInt22(s, c) else UInt(s, c, 1);
        Got(Some(head), c)
  }

  function SkipWhole(s: seq<byte>, c: Cursor): Read<()>
    requires c.Valid()
  {
    if c.AtEnd() then Got((), c) else SkipContainer(s, c)
  }

  // ---- Runs ----

  /** The calls a user of the reader makes, and the raw ones underneath them. */
  datatype Op =
    | OpBytes(n: nat)
    | OpPeek(n: nat)
    | OpSkip(n: nat)
    | OpGetBytes(n: nat)
    | OpRead(leaf: Leaf)
    | OpReadWord(size: nat, width: nat)
    | OpSkipField(leaf: Leaf)
    | OpStart(isArray: bool)
    | OpEnd(isArray: bool)
    | OpSkipWhole

  function Step(s: seq<byte>, c: Cursor, op: Op): Read<Value>
    requires c.Valid()
  {
    match op
    case OpBytes(n) => var (bytes, c) :- Take(s, c, n); Got(Bytes(bytes), c)
    case OpPeek(n) => var (bytes, c) :- Peek(s, c, n); Got(Bytes(bytes), c)
    case OpSkip(n) => var (_, c) :- Skip(s, c, n); Got(Skipped, c)
    case OpGetBytes(n) => var (bytes, c) :- Take(s, c, n); Got(Bytes(bytes), c)
    case OpRead(leaf) => ReadLeaf(s, c, leaf)
    case OpReadWord(size, width) => var (n, c) :- ReadAlphanumericAs(s, c, size, width); Got(Number(n), c)
    case OpSkipField(leaf) => var (_, c) :- SkipLeaf(s, c, leaf); Got(Skipped, c)
    case OpStart(isArray) =>
      var (head, c) :- ReadStart(s, c, isArray);
      Got(if head.None? then Null else Number(head.value), c)
    case OpEnd(isArray) => var (_, c) :- Close(s, c, isArray); Got(Skipped, c)
    case OpSkipWhole => var (_, c) :- SkipWhole(s, c); Got(Skipped, c)
  }

  function Run(s: seq<byte>, c: Cursor, ops: seq<Op>): (r: Read<seq<Value>>)
    requires c.Valid()
    ensures r.Got? ==> r.cursor.Valid()
    decreases |ops|
  {
    if ops == [] then Got([], c)
    else
      var (v, c') :- Step(s, c, ops[0]);
      StepKeepsEnds(s, c, ops[0]);
      var (vs, c'') :- Run(s, c', ops[1..]);
      Got([v] + vs, c'')
  }

  // ---- What every step keeps ----

  /** `after` is a later cursor whose containers down to depth `d` are those of `before`. */
  ghost predicate Within(before: Cursor, after: Cursor, d: nat)
  {
    && before.Valid() && after.Valid()
    && d <= |before.ofs| && d <= |after.ofs|
    && before.pos <= after.pos
    && before.ofs[..d] == after.ofs[..d] && before.kinds[..d] == after.kinds[..d]
    && before.EndAt(d) == after.EndAt(d)
  }

  lemma {:induction false} EndsFollow(before: Cursor, after: Cursor, d: nat, k: nat)
    requires k <= d && Within(before, after, d)
    ensures before.EndAt(k) == after.EndAt(k)
    decreases d - k
  {
    if k < d {
      EndsFollow(before, after, d, k + 1);
      assert before.ofs[k] == before.ofs[..d][k] == after.ofs[..d][k] == after.ofs[k];
    }
  }

  lemma ReadLeafMoves(s: seq<byte>, c: Cursor, leaf: Leaf)
    requires c.Valid() && ReadLeaf(s, c, leaf).Got?
    ensures var c' := ReadLeaf(s, c, leaf).cursor;
      c' == c.(pos := c'.pos) && c.pos <= c'.pos <= c.end
  {
    hide BE, LE;
  }

  lemma SkipLeafMoves(s: seq<byte>, c: Cursor, leaf: Leaf)
    requires c.Valid() && SkipLeaf(s, c, leaf).Got?
    ensures var c' := SkipLeaf(s, c, leaf).cursor;
      c' == c.(pos := c'.pos) && c.pos <= c'.pos <= c.end
  {
    hide BE, LE;
  }

  lemma SkipWholeMoves(s: seq<byte>, c: Cursor)
    requires c.Valid() && SkipWhole(s, c).Got?
    ensures var c' := SkipWhole(s, c).cursor;
      c' == c.(pos := c'.pos) && c.pos <= c'.pos <= c.end
  {
  }

  lemma PackedUInt22Moves(s: seq<byte>, c: Cursor)
    ensures var r := PackedUInt22(s, c); r.Got? ==> r.cursor == c.(pos := r.cursor.pos)
  {
    hide BE, LE;
  }

  lemma OpenPushes(s: seq<byte>, c: Cursor, isArray: bool)
    requires c.Valid() && Open(s, c, isArray).Got?
    ensures var notNull, c' := Open(s, c, isArray).value, Open(s, c, isArray).cursor;
      && c.pos <= c'.pos <= c'.end
      && if notNull
         then |c.ofs| < MAX_NESTED && c'.end <= c.end
           && c'.ofs == c.ofs + [c.end - c'.end] && c'.kinds == c.kinds + [isArray]
         else c' == c.(pos := c'.pos)
  {
    hide BE, LE;
  }

  /** Opening pushes a container inside the current one; nothing else about the stack changes. */
  lemma StartKeepsEnds(s: seq<byte>, c: Cursor, isArray: bool)
    requires c.Valid() && ReadStart(s, c, isArray).Got?
    ensures var r := ReadStart(s, c, isArray);
      && Within(c, r.cursor, |c.ofs|)
      && |r.cursor.ofs| == |c.ofs| + (if r.value.Some? then 1 else 0)
      && (r.value.Some? ==> r.cursor.kinds[|c.ofs|] == isArray)
  {
    if !c.AtEnd() {
      OpenPushes(s, c, isArray);
      hide BE, LE, Open;
      var d, c' := |c.ofs|, ReadStart(s, c, isArray).cursor;
      assert c'.ofs[..d] == c.ofs[..d] && c'.kinds[..d] == c.kinds[..d];
      assert |c'.ofs| > d ==> c'.EndAt(d + 1) == c'.end && c'.EndAt(d) == c'.ofs[d] + c'.end;
    }
  }

  lemma CloseKeepsEnds(s: seq<byte>, c: Cursor, isArray: bool)
    requires c.Valid() && Close(s, c, isArray).Got?
    ensures |c.ofs| > 0
    ensures var c' := Close(s, c, isArray).cursor;
      && Within(c, c', |c.ofs| - 1) && |c'.ofs| == |c.ofs| - 1
      && c'.pos == c.end <= c'.end
  {
    var d := |c.ofs| - 1;
    assert c.EndAt(d) == c.ofs[d] + c.EndAt(d + 1);
  }

  /** Every step keeps every container that is open before and after it, and its end. */
  lemma StepKeepsEnds(s: seq<byte>, c: Cursor, op: Op)
    requires c.Valid() && Step(s, c, op).Got?
    ensures var c' := Step(s, c, op).cursor;
      && |c.ofs| <= |c'.ofs| + 1 && |c'.ofs| <= |c.ofs| + 1
      && Within(c, c', Min(|c.ofs|, |c'.ofs|))
  {
    hide BE, LE;
    match op
    case OpRead(leaf) => ReadLeafMoves(s, c, leaf);
    case OpSkipField(leaf) => SkipLeafMoves(s, c, leaf);
    case OpStart(isArray) => StartKeepsEnds(s, c, isArray);
    case OpEnd(isArray) => CloseKeepsEnds(s, c, isArray);
    case _ =>
  }

  // ---- Runs, one step at a time ----

  lemma {:induction false} RunSnoc(s: seq<byte>, c: Cursor, ops: seq<Op>, op: Op)
    requires c.Valid() && Run(s, c, ops).Got?
    ensures var r := Run(s, c, ops); var step := Step(s, r.cursor, op);
      Run(s, c, ops + [op]) == if step.Got? then Got(r.value + [step.value], step.cursor) else Threw
    decreases |ops|
  {
    hide Step;
    if ops == [] {
      assert ops + [op] == [op] && [op][1..] == [];
      var first := Step(s, c, op);
      if first.Got? {
        StepKeepsEnds(s, c, op);
        assert Run(s, first.cursor, []) == Got([], first.cursor);
        assert [first.value] + [] == [] + [first.value];
      }
    } else {
      assert (ops + [op])[0] == ops[0] && (ops + [op])[1..] == ops[1..] + [op];
      StepKeepsEnds(s, c, ops[0]);
      var first := Step(s, c, ops[0]);
      RunSnoc(s, first.cursor, ops[1..], op);
      var r := Run(s, first.cursor, ops[1..]);
      var last := Step(s, r.cursor, op);
      assert last.Got? ==> [first.value] + (r.value + [last.value]) == ([first.value] + r.value) + [last.value];
    }
  }

  lemma {:induction false} RunConcat(s: seq<byte>, c: Cursor, a: seq<Op>, b: seq<Op>)
    requires c.Valid() && Run(s, c, a).Got? && Run(s, Run(s, c, a).cursor, b).Got?
    ensures Run(s, c, a + b)
      == Got(Run(s, c, a).value + Run(s, Run(s, c, a).cursor, b).value, Run(s, Run(s, c, a).cursor, b).cursor)
    decreases |a|
  {
    hide Step;
    if a == [] {
      assert a + b == b;
      assert [] + Run(s, c, b).value == Run(s, c, b).value;
    } else {
      assert (a + b)[0] == a[0] && (a + b)[1..] == a[1..] + b;
      StepKeepsEnds(s, c, a[0]);
      var first := Step(s, c, a[0]);
      RunConcat(s, first.cursor, a[1..], b);
      var rest := Run(s, first.cursor, a[1..]);
      var last := Run(s, rest.cursor, b);
      assert [first.value] + (rest.value + last.value) == ([first.value] + rest.value) + last.value;
    }
  }

  /** A run of one call. */
  lemma RunOne(s: seq<byte>, c: Cursor, op: Op)
    requires c.Valid() && Step(s, c, op).Got?
    ensures Run(s, c, [op]) == Got([Step(s, c, op).value], Step(s, c, op).cursor)
  {
    hide Step;
    StepKeepsEnds(s, c, op);
    assert [op][1..] == [];
    assert Run(s, Step(s, c, op).cursor, []) == Got([], Step(s, c, op).cursor);
    assert [Step(s, c, op).value] + [] == [Step(s, c, op).value];
  }

  /** A run that throws early throws. */
  lemma {:induction false} RunCut(s: seq<byte>, c: Cursor, ops: seq<Op>, n: nat)
    requires c.Valid() && n <= |ops| && Run(s, c, ops[..n]).Threw?
    ensures Run(s, c, ops).Threw?
    decreases |ops|
  {
    hide Step;
    if n > 0 && Step(s, c, ops[0]).Got? {
      StepKeepsEnds(s, c, ops[0]);
      assert ops[..n][1..] == ops[1..][..n - 1];
      RunCut(s, Step(s, c, ops[0]).cursor, ops[1..], n - 1);
    }
  }
}
