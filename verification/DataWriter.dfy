/**
  The message writer and the trimming of NULL fields at the end of a message.

  A write appends bytes to a buffer; some writes also tell the writer whether what they wrote was
  NULL.  The end of the last field known not to be NULL is where a finished message may be cut.
 */
module DataWriter {
  import opened Words
  import opened Cursor
  import opened Integers
  import opened PackedIntegers

  // Room for 64-bit stores behind the buffer.
  const GUARD := 8
  const TIMESTAMP_SIZE := 8

  // ---- Fields ----

  datatype Kind =
    | Int8 | Int16 | Int32 | Int48 | Int64 | Timestamp | TimeOfDay
    | Enum8 | Enum16 | Enum32 | Enum64 | WChar | NullableBoolean

  function Width(kind: Kind): (n: nat)
    ensures 1 <= n <= 8
  {
    match kind
    case Int8 => 1
    case Enum8 => 1
    case NullableBoolean => 1
    case Int16 => 2
    case Enum16 => 2
    case WChar => 2
    case Int32 => 4
    case Enum32 => 4
    case TimeOfDay => 4
    case Int48 => 6
    case _ => 8
  }

  /** The value that stands for NULL; for a nullable boolean, its 0xFF as the reader's signed byte. */
  function NullOf(kind: Kind): int
  {
    match kind
    case WChar => 0
    case TimeOfDay => -1
    case Enum8 => -1
    case Enum16 => -1
    case Enum32 => -1
    case Enum64 => -1
    case NullableBoolean => -1
    case _ => IntNull(Width(kind))
  }

  /** The low bytes of a value, as a word of the field's width. */
  function WordOf(kind: Kind, value: int): nat
  {
    value % Pow2(8 * Width(kind))
  }

  /** What a reader makes of the word. */
  function Decoded(kind: Kind, word: nat): int
  {
    if kind.WChar? then word else Signed(word, Width(kind))
  }

  /** The values a field of this kind can carry. */
  predicate InRange(kind: Kind, value: int)
  {
    if kind.WChar? then 0 <= value < 0x1_0000
    else -(Pow2(8 * Width(kind)) / 2) <= value < Pow2(8 * Width(kind)) / 2
  }

  /**
    The calls that write a field: with a value compared with NULL, with a flag that says NULL, a
    boolean, and four that say nothing about NULL.
   */
  datatype Write =
    | Plain(kind: Kind, value: int)
    | Flagged(kind: Kind, value: int, isNull: bool)
    | Boolean(b: bool)
    | UInt8(byte: byte)
    | UInt40(word: nat)
    | Text(text: Option<seq<byte>>)
    | BinaryArray(data: Option<seq<byte>>)

  predicate Writable(w: Write)
  {
    match w
    case UInt40(word) => word < Pow2(40)
    case Text(text) => text.Some? ==> |text.value| < 0xFFFF
    case BinaryArray(data) => data.Some? ==> |data.value| < MAX_UINT30
    case _ => true
  }

  /** The value that a fixed-width call puts into the buffer. */
  function Carried(w: Write): int
    requires w.Plain? || w.Flagged?
  {
    if w.Flagged? && w.isNull then NullOf(w.kind) else w.value
  }

  /** `writePackedUInt` of a length, which fits 30 bits when it is written. */
  function PackedLength(n: nat): (bytes: seq<byte>)
    ensures n < MAX_UINT30 ==> bytes == Packed(n, 64)
  {
    if n < MAX_UINT30 then Packed(n, 64) else []
  }

  function Encoded(w: Write): (bytes: seq<byte>)
    ensures |bytes| > 0
  {
    match w
    case Boolean(b) => [if b then 1 else 0]
    case UInt8(byte) => [byte]
    case UInt40(word) => BEBytes(word, 5)
    case Text(text) => if text.None? then BEBytes(0xFFFF, 2) else BEBytes(|text.value|, 2) + text.value
    case BinaryArray(data) => if data.None? then [1] else [0] + (PackedLength(|data.value|) + data.value)
    case _ => BEBytes(WordOf(w.kind, Carried(w)), Width(w.kind))
  }

  function EncodedAll(ws: seq<Write>): seq<byte>
  {
    if ws == [] then [] else Encoded(ws[0]) + EncodedAll(ws[1..])
  }

  /** The call moves the end of the known non-NULL data behind what it wrote. */
  predicate Marks(w: Write)
  {
    match w
    case Plain(kind, value) => value != NullOf(kind)
    case Flagged(_, _, isNull) => !isNull
    case Boolean(_) => true
    case _ => false
  }

  /** How many writes a cut leaves: those up to the last that marks. */
  function Kept(ws: seq<Write>): (k: nat)
    ensures k <= |ws|
    ensures forall i :: k <= i < |ws| ==> !Marks(ws[i])
    ensures k > 0 ==> Marks(ws[k - 1])
  {
    if ws == [] then 0
    else if Marks(ws[|ws| - 1]) then |ws|
    else Kept(ws[..|ws| - 1])
  }

  lemma {:induction false} EncodedSnoc(ws: seq<Write>, w: Write)
    ensures EncodedAll(ws + [w]) == EncodedAll(ws) + Encoded(w)
  {
    hide Encoded;
    if ws == [] {
      assert [w][1..] == [];
      assert ws + [w] == [w];
    } else {
      assert (ws + [w])[1..] == ws[1..] + [w];
      EncodedSnoc(ws[1..], w);
    }
  }

  lemma {:induction false} EncodedGrows(ws: seq<Write>, k: nat)
    requires k <= |ws|
    ensures |EncodedAll(ws[..k])| <= |EncodedAll(ws)|
    ensures |EncodedAll(ws[..k])| == |EncodedAll(ws)| ==> k == |ws|
  {
    hide Encoded;
    if k < |ws| {
      EncodedGrows(ws[..|ws| - 1], k);
      EncodedSnoc(ws[..|ws| - 1], ws[|ws| - 1]);
      assert ws == ws[..|ws| - 1] + [ws[|ws| - 1]];
      assert ws[..|ws| - 1][..k] == ws[..k];
    } else {
      assert ws[..k] == ws;
    }
  }

  // ---- Reading back ----

  /** The reader's call that matches a write. */
  datatype Schema = Fixed(kind: Kind) | Bool | Byte | Int40 | Str | Blob

  function SchemaOf(w: Write): Schema
  {
    match w
    case Boolean(_) => Bool
    case UInt8(_) => Byte
    case UInt40(_) => Int40
    case Text(_) => Str
    case BinaryArray(_) => Blob
    case _ => Fixed(w.kind)
  }

  function Schemas(ws: seq<Write>): (schemas: seq<Schema>)
    ensures |schemas| == |ws|
  {
    if ws == [] then [] else [SchemaOf(ws[0])] + Schemas(ws[1..])
  }

  /** Booleans, 40-bit integers and binary data are read without a test for the end of the content. */
  function ReadField(s: seq<byte>, c: Cursor, schema: Schema): Read<Value>
  {
    match schema
    case Fixed(kind) =>
      if c.AtEnd() then Got(Number(NullOf(kind)), c)
      else var (word, c) :- UInt(s, c, Width(kind)); Got(Number(Decoded(kind, word)), c)
    case Bool => var (v, c) :- UInt(s, c, 1); Got(Number(if v == 1 then 1 else 0), c)
    case Byte => if c.AtEnd() then Got(Number(0x80), c) else var (v, c) :- UInt(s, c, 1); Got(Number(v), c)
    case Int40 => var (v, c) :- UInt(s, c, 5); Got(Number(v), c)
    case Str => if c.AtEnd() then Got(Null, c) else ReadText(s, c)
    case Blob => ReadBinary(s, c)
  }

  function ReadFields(s: seq<byte>, c: Cursor, schemas: seq<Schema>): Read<seq<Value>>
    decreases |schemas|
  {
    if schemas == [] then Got([], c)
    else
      var (v, c) :- ReadField(s, c, schemas[0]);
      var (vs, c) :- ReadFields(s, c, schemas[1..]);
      Got([v] + vs, c)
  }

  /** What the untrimmed field reads as. */
  function ValueOf(w: Write): Value
  {
    match w
    case Boolean(b) => Number(if b then 1 else 0)
    case UInt8(byte) => Number(byte)
    case UInt40(word) => Number(word)
    case Text(text) => if text.None? then Null else Bytes(text.value)
    case BinaryArray(data) => if data.None? then Null else Bytes(data.value)
    case _ => Number(Decoded(w.kind, WordOf(w.kind, Carried(w))))
  }

  lemma StandsInParts(s: seq<byte>, c: Cursor, a: seq<byte>, b: seq<byte>)
    requires StandsAt(s, c, a + b)
    ensures StandsAt(s, c, a) && StandsAt(s, c.(pos := c.pos + |a|), b)
  {
    var all := s[c.pos..c.pos + |a + b|];
    assert all[..|a|] == a && all[|a|..] == b;
  }

  lemma ReadOneByte(s: seq<byte>, c: Cursor, v: byte)
    requires StandsAt(s, c, [v])
    ensures UInt(s, c, 1) == Got(v as nat, c.(pos := c.pos + 1))
  {
    assert BE([v]) == v by {
      assert [v][..0] == [];
    }
  }

  lemma ReadEncoded(s: seq<byte>, c: Cursor, w: Write)
    requires Writable(w) && StandsAt(s, c, Encoded(w))
    ensures ReadField(s, c, SchemaOf(w)) == Got(ValueOf(w), c.(pos := c.pos + |Encoded(w)|))
  {
    hide BE, BEBytes, Pow2;
    match w
    case Boolean(b) => ReadOneByte(s, c, if b then 1 else 0);
    case UInt8(byte) => ReadOneByte(s, c, byte);
    case UInt40(word) => ReadBytes(s, c, word, 5);
    case Text(text) => ReadEncodedText(s, c, text);
    case BinaryArray(data) => ReadEncodedBinary(s, c, data);
    case Plain(kind, value) => ReadBytes(s, c, WordOf(kind, value), Width(kind));
    case Flagged(kind, _, _) => ReadBytes(s, c, WordOf(kind, Carried(w)), Width(kind));
  }

  lemma ReadEncodedText(s: seq<byte>, c: Cursor, text: Option<seq<byte>>)
    requires Writable(Text(text)) && StandsAt(s, c, Encoded(Text(text)))
    ensures ReadField(s, c, Str) == Got(ValueOf(Text(text)), c.(pos := c.pos + |Encoded(Text(text))|))
  {
    hide BE, BEBytes, Pow2;
    BytePowers();
    if text.None? {
      ReadBytes(s, c, 0xFFFF, 2);
    } else {
      StandsInParts(s, c, BEBytes(|text.value|, 2), text.value);
      ReadBytes(s, c, |text.value|, 2);
    }
  }

  lemma ReadEncodedBinary(s: seq<byte>, c: Cursor, data: Option<seq<byte>>)
    requires Writable(BinaryArray(data)) && StandsAt(s, c, Encoded(BinaryArray(data)))
    ensures ReadField(s, c, Blob) == Got(ValueOf(BinaryArray(data)), c.(pos := c.pos + |Encoded(BinaryArray(data))|))
  {
    hide BE, Packed, PackedUInt30;
    if data.None? {
      ReadOneByte(s, c, 1);
    } else {
      var n := |data.value|;
      StandsInParts(s, c, [0], Packed(n, 64) + data.value);
      ReadOneByte(s, c, 0);
      var c' := c.(pos := c.pos + 1);
      StandsInParts(s, c', Packed(n, 64), data.value);
      PackedRoundTrip30(s, c', n);
    }
  }

  /** A value the field can carry is what an untrimmed reader gets. */
  lemma ValueSurvives(kind: Kind, value: int)
    requires InRange(kind, value)
    ensures ValueOf(Plain(kind, value)) == Number(value)
  {
    hide Pow2;
    BytePowers();
    Halves(8 * Width(kind));
    WrapAround(value, Pow2(8 * Width(kind)));
  }

  lemma NullInRange(kind: Kind)
    ensures InRange(kind, NullOf(kind))
  {
    hide Pow2;
    Halves(8 * Width(kind));
    Halves(8 * Width(kind) - 1);
  }

  /** The kinds that are plain signed integers are read as such, inside the content and past its end;
      strings and binary data are the fields of the same name. */
  lemma FieldsAreLeaves(s: seq<byte>, c: Cursor, kind: Kind)
    requires kind in {Int8, Int16, Int32, Int48, Int64, Timestamp}
    ensures ReadField(s, c, Fixed(kind)) == ReadLeaf(s, c, Int(Width(kind)))
    ensures ReadField(s, c, Str) == ReadLeaf(s, c, Utf8)
    ensures ReadField(s, c, Blob) == ReadLeaf(s, c, Leaf.Binary)
  {
    hide BE, LE, Pow2, ReadText, ReadBinary;
  }

  /** The widths of the kinds and the values that stand for NULL. */
  lemma KindTable()
    ensures Width(Int8) == Width(Enum8) == Width(NullableBoolean) == 1
    ensures Width(Int16) == Width(Enum16) == Width(WChar) == 2
    ensures Width(Int32) == Width(Enum32) == Width(TimeOfDay) == 4
    ensures Width(Int48) == 6 && Width(Int64) == Width(Timestamp) == Width(Enum64) == 8
    ensures NullOf(Int8) == -0x80 && NullOf(Int16) == -0x8000 && NullOf(Int32) == -0x8000_0000
    ensures NullOf(Int48) == -0x8000_0000_0000 && NullOf(Int64) == NullOf(Timestamp) == -0x8000_0000_0000_0000
    ensures NullOf(Enum8) == NullOf(Enum16) == NullOf(Enum32) == NullOf(Enum64) == -1
    ensures NullOf(TimeOfDay) == NullOf(NullableBoolean) == -1 && NullOf(WChar) == 0
  {
    hide Pow2;
    LowestValues();
  }

  // ---- Cutting the end of a message ----

  /** Reading the field past the end gives what reading it gives. */
  predicate Vanishes(w: Write)
  {
    match w
    case UInt8(byte) => byte == 0x80
    case UInt40(_) => false
    case Text(text) => text.None?
    case Boolean(_) => false
    case BinaryArray(_) => false
    case _ => Decoded(w.kind, WordOf(w.kind, Carried(w))) == NullOf(w.kind)
  }

  /** A NULL that was marked as one always does. */
  lemma NullVanishes(w: Write)
    requires (w.Plain? || w.Flagged?) && !Marks(w)
    ensures Vanishes(w)
  {
    NullInRange(w.kind);
    ValueSurvives(w.kind, NullOf(w.kind));
  }

  lemma ReadPastEnd(s: seq<byte>, c: Cursor, w: Write)
    requires c.AtEnd()
    ensures ReadField(s, c, SchemaOf(w)) == Got(ValueOf(w), c) <==> Vanishes(w)
    ensures ReadField(s, c, SchemaOf(w)).Got? ==> ReadField(s, c, SchemaOf(w)).cursor == c
  {
    hide BE, LE, Pow2;
  }

  /** The message of `ws` read at `c`, cut behind its first `k` writes and read at `d`. */
  ghost predicate Cut(s: seq<byte>, c: Cursor, t: seq<byte>, d: Cursor, ws: seq<Write>, k: nat)
  {
    && k <= |ws| && (forall i :: 0 <= i < |ws| ==> Writable(ws[i]))
    && StandsAt(s, c, EncodedAll(ws))
    && StandsAt(t, d, EncodedAll(ws[..k])) && d.end == d.pos + |EncodedAll(ws[..k])|
  }

  /**
    Reading the cut message gives the same values as reading the whole one exactly when every
    field that was cut off reads as what a reader past the end is given.
   */
  lemma {:induction false} CutExactDomain(s: seq<byte>, c: Cursor, t: seq<byte>, d: Cursor, ws: seq<Write>, k: nat)
    requires Cut(s, c, t, d, ws, k)
    ensures ReadFields(s, c, Schemas(ws)).Got?
    ensures var whole, cut := ReadFields(s, c, Schemas(ws)), ReadFields(t, d, Schemas(ws));
      cut.Got? && cut.value == whole.value <==> forall i :: k <= i < |ws| ==> Vanishes(ws[i])
    decreases |ws|
  {
    hide ReadField, ReadFields, Encoded, ValueOf, Vanishes, Writable;
    if ws == [] {
      NoFields(s, c);
      NoFields(t, d);
    } else {
      var w := ws[0];
      ReadAlike(s, c, t, d, Schemas(ws));
      StandsInParts(s, c, Encoded(w), EncodedAll(ws[1..]));
      ReadEncoded(s, c, w);
      var c' := c.(pos := c.pos + |Encoded(w)|);
      if k > 0 {
        assert ws[..k][0] == w && ws[..k][1..] == ws[1..][..k - 1];
        StandsInParts(t, d, Encoded(w), EncodedAll(ws[1..][..k - 1]));
        ReadEncoded(t, d, w);
        var d' := d.(pos := d.pos + |Encoded(w)|);
        CutExactDomain(s, c', t, d', ws[1..], k - 1);
        SameTail(ws, k);
      } else {
        assert ws[..0] == [] == ws[1..][..0];
        ReadPastEnd(t, d, w);
        CutExactDomain(s, c', t, d, ws[1..], 0);
        SplitFirst(ws);
      }
    }
  }

  /** Two lists of fields read alike exactly when their first fields and the others do. */
  lemma ReadAlike(s: seq<byte>, c: Cursor, t: seq<byte>, d: Cursor, schemas: seq<Schema>)
    requires schemas != []
    ensures var a, b := ReadFields(s, c, schemas), ReadFields(t, d, schemas);
      var x, y := ReadField(s, c, schemas[0]), ReadField(t, d, schemas[0]);
      && (a.Got? <==> x.Got? && ReadFields(s, x.cursor, schemas[1..]).Got?)
      && (a.Got? ==>
            (b.Got? && b.value == a.value <==>
               && y.Got? && y.value == x.value
               && var others := ReadFields(t, y.cursor, schemas[1..]);
                  others.Got? && others.value == ReadFields(s, x.cursor, schemas[1..]).value))
  {
    hide ReadField;
    var a, b := ReadFields(s, c, schemas), ReadFields(t, d, schemas);
    if a.Got? && b.Got? {
      var x, y := ReadField(s, c, schemas[0]), ReadField(t, d, schemas[0]);
      assert a.value == [x.value] + ReadFields(s, x.cursor, schemas[1..]).value;
      assert b.value == [y.value] + ReadFields(t, y.cursor, schemas[1..]).value;
      assert a.value[1..] == ReadFields(s, x.cursor, schemas[1..]).value;
      assert b.value[1..] == ReadFields(t, y.cursor, schemas[1..]).value;
    }
  }

  lemma NoFields(s: seq<byte>, c: Cursor)
    ensures ReadFields(s, c, []) == Got([], c) && Schemas([]) == []
  {
  }

  lemma SameTail(ws: seq<Write>, k: nat)
    requires 0 < k <= |ws|
    ensures (forall i :: k <= i < |ws| ==> Vanishes(ws[i]))
      <==> (forall i :: k - 1 <= i < |ws[1..]| ==> Vanishes(ws[1..][i]))
  {
    hide Vanishes;
    if forall i :: k - 1 <= i < |ws[1..]| ==> Vanishes(ws[1..][i]) {
      forall i | k <= i < |ws|
        ensures Vanishes(ws[i])
      {
        assert ws[i] == ws[1..][i - 1];
      }
    }
  }

  lemma SplitFirst(ws: seq<Write>)
    requires ws != []
    ensures (forall i :: 0 <= i < |ws| ==> Vanishes(ws[i]))
      <==> Vanishes(ws[0]) && forall i :: 0 <= i < |ws[1..]| ==> Vanishes(ws[1..][i])
  {
    hide Vanishes;
    if Vanishes(ws[0]) && forall i :: 0 <= i < |ws[1..]| ==> Vanishes(ws[1..][i]) {
      forall i | 0 <= i < |ws|
        ensures Vanishes(ws[i])
      {
        if i > 0 {
          assert ws[i] == ws[1..][i - 1];
        }
      }
    }
  }

  /** A write that says nothing about NULL and whose field does not read as one; a binary field never
      does, since its reader does not test for the end of the content. */
  predicate Unreported(w: Write)
  {
    (w.UInt8? || w.UInt40? || w.Text? || w.BinaryArray?) && !Vanishes(w)
  }

  lemma TwoFields(s: seq<byte>, c: Cursor, v: Value, w: Value, c': Cursor, c'': Cursor)
    requires ReadField(s, c, Str) == Got(v, c') && ReadField(s, c', Byte) == Got(w, c'')
    ensures ReadFields(s, c, [Str, Byte]) == Got([v, w], c'')
  {
    hide ReadField;
    assert [Str, Byte][1..] == [Byte] && [Byte][1..] == [];
    assert ReadFields(s, c'', []) == Got([], c'');
    assert ReadFields(s, c', [Byte]) == Got([w] + [], c'');
    assert [v] + ([w] + []) == [v, w];
  }

  /**
    Trimming preserves the meaning of a message exactly when no write behind the last known non-NULL
    field is one whose value nobody reported.
   */
  lemma TrimExactDomain(s: seq<byte>, c: Cursor, t: seq<byte>, d: Cursor, ws: seq<Write>)
    requires Cut(s, c, t, d, ws, Kept(ws))
    ensures ReadFields(s, c, Schemas(ws)).Got?
    ensures var whole, cut := ReadFields(s, c, Schemas(ws)), ReadFields(t, d, Schemas(ws));
      cut.Got? && cut.value == whole.value <==> forall i :: Kept(ws) <= i < |ws| ==> !Unreported(ws[i])
  {
    CutExactDomain(s, c, t, d, ws, Kept(ws));
    hide Vanishes, ReadFields, Schemas, EncodedAll;
    forall i | Kept(ws) <= i < |ws|
      ensures Vanishes(ws[i]) <==> !Unreported(ws[i])
    {
      if ws[i].Plain? || ws[i].Flagged? {
        NullVanishes(ws[i]);
      }
    }
  }

  /** With the fixed-width and boolean calls alone, trimming is always safe. */
  lemma TrimOfTrackedFields(s: seq<byte>, c: Cursor, t: seq<byte>, d: Cursor, ws: seq<Write>)
    requires Cut(s, c, t, d, ws, Kept(ws))
    requires forall i :: 0 <= i < |ws| ==> ws[i].Plain? || ws[i].Flagged? || ws[i].Boolean?
    ensures var whole, cut := ReadFields(s, c, Schemas(ws)), ReadFields(t, d, Schemas(ws));
      whole.Got? && cut.Got? && cut.value == whole.value
  {
    TrimExactDomain(s, c, t, d, ws);
  }

  /** A string and an unsigned integer that are lost. */
  lemma TrimLosesFields()
    ensures var ws := [Text(Some([0x41])), UInt8(5)];
      && Kept(ws) == 0
      && ReadFields([0, 1, 0x41, 5], Cursor(0, 4, [], []), Schemas(ws))
        == Got([Bytes([0x41]), Number(5)], Cursor(4, 4, [], []))
      && ReadFields([], Cursor(0, 0, [], []), Schemas(ws)) == Got([Null, Number(0x80)], Cursor(0, 0, [], []))
  {
    var ws := [Text(Some([0x41])), UInt8(5)];
    assert ws[..1] == [Text(Some([0x41]))] && ws[..1][..0] == [];
    assert Kept(ws[..1]) == 0;
    assert ws[1..] == [UInt8(5)] && [UInt8(5)][1..] == [];
    assert Schemas(ws[1..]) == [Byte] + [] == [Byte] && Schemas(ws) == [Str] + [Byte] == [Str, Byte];
    hide ReadField, Kept, Schemas;
    TextIsRead([0, 1, 0x41, 5]);
    TwoFields([0, 1, 0x41, 5], Cursor(0, 4, [], []), Bytes([0x41]), Number(5), Cursor(3, 4, [], []),
      Cursor(4, 4, [], []));
    NothingIsRead();
    TwoFields([], Cursor(0, 0, [], []), Null, Number(0x80), Cursor(0, 0, [], []), Cursor(0, 0, [], []));
  }

  lemma TextIsRead(s: seq<byte>)
    requires s == [0, 1, 0x41, 5]
    ensures ReadField(s, Cursor(0, 4, [], []), Str) == Got(Bytes([0x41]), Cursor(3, 4, [], []))
    ensures ReadField(s, Cursor(3, 4, [], []), Byte) == Got(Number(5), Cursor(4, 4, [], []))
  {
    assert s[0..2] == [0, 1] && [0, 1][..1] == [0] && BE([0]) == 0 && BE([0, 1]) == 1;
    assert s[2..3] == [0x41] && s[3..4] == [5] && BE([5]) == 5;
  }

  lemma NothingIsRead()
    ensures ReadField([], Cursor(0, 0, [], []), Str) == Got(Null, Cursor(0, 0, [], []))
    ensures ReadField([], Cursor(0, 0, [], []), Byte) == Got(Number(0x80), Cursor(0, 0, [], []))
  {
  }

  /** A NULL that makes the reader of the trimmed message throw. */
  lemma TrimmedNullThrows()
    ensures Kept([BinaryArray(None)]) == 0
    ensures ReadFields([], Cursor(0, 0, [], []), Schemas([BinaryArray(None)])).Threw?
  {
    assert [BinaryArray(None)][..0] == [] && [BinaryArray(None)][1..] == [];
    assert Schemas([BinaryArray(None)]) == [Blob];
  }

  // ---- Whole messages ----

  /**
    The length that a finished message is given.  Before the body only the timestamp is compared with NULL, and
    a timestamp that is not NULL moves the mark back to its own end.
   */
  function TrimLength(headerSize: nat, timestamp: int, ws: seq<Write>): nat
  {
    if Kept(ws) > 0 then headerSize + |EncodedAll(ws[..Kept(ws)])|
    else if timestamp == NullOf(Timestamp) then headerSize
    else TIMESTAMP_SIZE
  }

  lemma TrimIsShorter(headerSize: nat, timestamp: int, ws: seq<Write>)
    requires TIMESTAMP_SIZE < headerSize
    ensures TrimLength(headerSize, timestamp, ws) <= headerSize + |EncodedAll(ws)|
    ensures TrimLength(headerSize, timestamp, ws) >= headerSize <==> Kept(ws) > 0 || timestamp == NullOf(Timestamp)
  {
    EncodedGrows(ws, Kept(ws));
  }

  lemma {:induction false} TrimAfter(headerSize: nat, timestamp: int, ws: seq<Write>, w: Write)
    ensures TrimLength(headerSize, timestamp, ws + [w]) ==
      if Marks(w) then headerSize + |EncodedAll(ws + [w])| else TrimLength(headerSize, timestamp, ws)
  {
    assert (ws + [w])[..|ws|] == ws && (ws + [w])[..|ws| + 1] == ws + [w];
    assert Kept(ws + [w]) == if Marks(w) then |ws| + 1 else Kept(ws);
    assert (ws + [w])[..Kept(ws)] == ws[..Kept(ws)];
  }

  /** Header and fields of a message. */
  function ReadMessage(s: seq<byte>, c: Cursor, headerSize: nat, schemas: seq<Schema>): Read<(seq<byte>, seq<Value>)>
  {
    var (header, c) :- Take(s, c, headerSize);
    var (vs, c) :- ReadFields(s, c, schemas);
    Got((header, vs), c)
  }

  /**
    A trimmed message reads as the whole one exactly when the cut spared the header, which it does
    when a field was reported non-NULL or the timestamp was NULL, and no unreported value was lost.
   */
  lemma MessageTrimExactDomain(s: seq<byte>, c: Cursor, t: seq<byte>, d: Cursor, header: seq<byte>, timestamp: int,
      ws: seq<Write>)
    requires TIMESTAMP_SIZE < |header| && forall i :: 0 <= i < |ws| ==> Writable(ws[i])
    requires StandsAt(s, c, header + EncodedAll(ws))
    requires var n := TrimLength(|header|, timestamp, ws);
      && n <= |header + EncodedAll(ws)|
      && StandsAt(t, d, (header + EncodedAll(ws))[..n]) && d.end == d.pos + n
    ensures var whole, cut := ReadMessage(s, c, |header|, Schemas(ws)), ReadMessage(t, d, |header|, Schemas(ws));
      whole.Got? &&
      (cut.Got? && cut.value == whole.value <==>
        && (Kept(ws) > 0 || timestamp == NullOf(Timestamp))
        && forall i :: Kept(ws) <= i < |ws| ==> !Unreported(ws[i]))
  {
    hide ReadFields, Schemas, Unreported, Writable, EncodedAll, Kept, BE, NullOf;
    var k, body, n := Kept(ws), EncodedAll(ws), TrimLength(|header|, timestamp, ws);
    TrimIsShorter(|header|, timestamp, ws);
    StandsInParts(s, c, header, body);
    var c' := c.(pos := c.pos + |header|);
    WholeIsRead(s, c', ws);
    if n >= |header| {
      KeptAfterHeader(header, timestamp, ws);
      StandsInParts(t, d, header, EncodedAll(ws[..k]));
      TrimExactDomain(s, c', t, d.(pos := d.pos + |header|), ws);
    }
  }

  lemma KeptAfterHeader(header: seq<byte>, timestamp: int, ws: seq<Write>)
    requires |header| <= TrimLength(|header|, timestamp, ws) <= |header + EncodedAll(ws)|
    requires TIMESTAMP_SIZE < |header|
    ensures (header + EncodedAll(ws))[..TrimLength(|header|, timestamp, ws)] == header + EncodedAll(ws[..Kept(ws)])
    ensures TrimLength(|header|, timestamp, ws) == |header| + |EncodedAll(ws[..Kept(ws)])|
  {
    hide Encoded, Kept;
    KeptPrefix(ws, Kept(ws));
  }

  lemma {:induction false} KeptPrefix(ws: seq<Write>, k: nat)
    requires k <= |ws|
    ensures EncodedAll(ws[..k]) <= EncodedAll(ws)
  {
    hide Encoded;
    if k < |ws| {
      var init := ws[..|ws| - 1];
      KeptPrefix(init, k);
      EncodedSnoc(init, ws[|ws| - 1]);
      assert ws == init + [ws[|ws| - 1]] && init[..k] == ws[..k];
    } else {
      assert ws[..k] == ws;
    }
  }

  lemma WholeIsRead(s: seq<byte>, c: Cursor, ws: seq<Write>)
    requires StandsAt(s, c, EncodedAll(ws)) && forall i :: 0 <= i < |ws| ==> Writable(ws[i])
    ensures ReadFields(s, c, Schemas(ws)).Got?
  {
    assert ws[..|ws|] == ws;
    CutExactDomain(s, c, s, c.(end := c.pos + |EncodedAll(ws)|), ws, |ws|);
  }

  /**
    Finishing a message leaves the write pointer behind the untrimmed data, so the next message starts
    where the stored length says exactly when nothing was trimmed.
   */
  lemma FramingExactDomain(headerSize: nat, timestamp: int, ws: seq<Write>)
    requires TIMESTAMP_SIZE < headerSize
    ensures TrimLength(headerSize, timestamp, ws) == headerSize + |EncodedAll(ws)|
      <==> if ws == [] then timestamp == NullOf(Timestamp) else Marks(ws[|ws| - 1])
  {
    EncodedGrows(ws, Kept(ws));
    assert ws[..|ws|] == ws;
    if ws != [] {
      assert |EncodedAll(ws)| > 0;
    }
  }

  /** A message whose last field is NULL: the next message starts four bytes behind its stored end. */
  lemma FramingFails(timestamp: int)
    ensures var ws := [Plain(Int32, 0), Plain(Int32, NullOf(Int32))];
      TrimLength(11, timestamp, ws) == 15 && 11 + |EncodedAll(ws)| == 19
  {
    hide BEBytes, NullOf, WordOf;
    var ws := [Plain(Int32, 0), Plain(Int32, NullOf(Int32))];
    NullIsNotZero();
    assert ws[..1] == [Plain(Int32, 0)];
    assert ws[1..] == [Plain(Int32, NullOf(Int32))];
    assert ws[1..][1..] == [] == ws[..1][1..];
    assert |EncodedAll(ws[1..])| == 4 && |EncodedAll(ws[..1])| == 4;
  }

  lemma NullIsNotZero()
    ensures NullOf(Int32) != 0 && NullOf(Timestamp) != 0
  {
    hide Pow2;
    BytePowers();
    Halves(64);
  }

  /** A message of one NULL integer loses three bytes of its own header. */
  lemma TrimCutsHeader()
    ensures TrimLength(11, 0, [Plain(Int32, NullOf(Int32))]) == 8
  {
    NullInRange(Timestamp);
    var ws := [Plain(Int32, NullOf(Int32))];
    assert Kept(ws[..0]) == 0;
    assert IntNull(8) != 0 by {
      assert Pow2(64) == 2 * Pow2(63) && Pow2(63) >= 1;
    }
  }

  // ---- The writer ----

  lemma {:induction false} ShiftedStore(v: nat, n: nat, k: nat)
    ensures BEBytes(Shl(v, 8 * k), n + k)[..n] == BEBytes(v, n)
  {
    hide BEBytes, Shl;
    if k == 0 {
      ShlNone(v);
    } else {
      ShlBy8(v, 8 * (k - 1));
      ShiftedStore(v, n, k - 1);
      LastByte(Shl(v, 8 * k), n + k);
    }
  }

  lemma LastByte(v: nat, n: nat)
    requires n > 0
    ensures BEBytes(v, n) == BEBytes(v / 256, n - 1) + [v % 256]
  {
  }

  // ---- The header ----

  function EntityBytes(headerSize: nat, entityId: nat): seq<byte>
  {
    if headerSize == 13 then BEBytes(entityId / 0x1_0000 + 0x8000, 2) + BEBytes(entityId, 2) else BEBytes(entityId, 2)
  }

  function HeaderBytes(headerSize: nat, timestamp: int, entityId: nat, typeId: byte): seq<byte>
  {
    BEBytes(WordOf(Timestamp, timestamp), 8) + EntityBytes(headerSize, entityId) + [typeId]
  }

  /** `readEntityId`: two bytes, and two more when the first of them has its top bit set. */
  function ReadEntityId(s: seq<byte>, c: Cursor): Read<nat>
  {
    var (high, c) :- UInt(s, c, 2);
    if high < 0x8000 then Got(high, c)
    else
      var (low, c) :- UInt(s, c, 2);
      Got((high - 0x8000) * 0x1_0000 + low, c)
  }

  /** Timestamp, entity and type. */
  function ReadHeader(s: seq<byte>, c: Cursor): Read<(Value, nat, nat)>
  {
    var (timestamp, c) :- ReadLeaf(s, c, Int(8));
    var (entityId, c) :- ReadEntityId(s, c);
    var (typeId, c) :- UInt(s, c, 1);
    Got((timestamp, entityId, typeId), c)
  }

  /** The entities that fit the header: those below 2^15 in two bytes, and below 2^31 in four. */
  predicate EntityFits(headerSize: nat, entityId: nat)
  {
    headerSize in {11, 13} && entityId < (if headerSize == 11 then 0x8000 else 0x8000_0000)
  }

  lemma EntityIsRead(s: seq<byte>, c: Cursor, headerSize: nat, entityId: nat)
    requires EntityFits(headerSize, entityId) && StandsAt(s, c, EntityBytes(headerSize, entityId))
    ensures ReadEntityId(s, c) == Got(entityId, c.(pos := c.pos + headerSize - 9))
  {
    hide BE, BEBytes, Pow2;
    BytePowers();
    if headerSize == 13 {
      var high, low := entityId / 0x1_0000 + 0x8000, BEBytes(entityId, 2);
      StandsInParts(s, c, BEBytes(high, 2), low);
      ReadBytes(s, c, high, 2);
      LowWord(entityId);
      ReadBytes(s, c.(pos := c.pos + 2), entityId % 0x1_0000, 2);
    } else {
      ReadBytes(s, c, entityId, 2);
    }
  }

  /** A store of two bytes keeps the low word. */
  lemma LowWord(v: nat)
    ensures BEBytes(v, 2) == BEBytes(v % 0x1_0000, 2)
  {
    assert BEBytes(v, 2) == (BEBytes(v / 256 / 256, 0) + [v / 256 % 256]) + [v % 256];
    var w := v % 0x1_0000;
    assert BEBytes(w, 2) == (BEBytes(w / 256 / 256, 0) + [w / 256 % 256]) + [w % 256];
    assert w % 256 == v % 256 && w / 256 % 256 == v / 256 % 256;
  }

  /** A written header gives its parts back, and ends where it should. */
  lemma HeaderIsRead(s: seq<byte>, c: Cursor, headerSize: nat, timestamp: int, entityId: nat, typeId: byte)
    requires InRange(Timestamp, timestamp) && EntityFits(headerSize, entityId)
    requires StandsAt(s, c, HeaderBytes(headerSize, timestamp, entityId, typeId))
    ensures ReadHeader(s, c) == Got((Number(timestamp), entityId, typeId as nat), c.(pos := c.pos + headerSize))
  {
    hide BE, BEBytes, Pow2, EntityBytes, ReadEntityId;
    var first, second := BEBytes(WordOf(Timestamp, timestamp), 8), EntityBytes(headerSize, entityId);
    SizeOfEntity(headerSize, entityId);
    Associate(first, second, [typeId]);
    StandsInParts(s, c, first, second + [typeId]);
    StandsInParts(s, c.(pos := c.pos + 8), second, [typeId]);
    Halves(64);
    IntegerIsRead(s, c, timestamp, 8);
    EntityIsRead(s, c.(pos := c.pos + 8), headerSize, entityId);
    ReadOneByte(s, c.(pos := c.pos + headerSize - 1), typeId);
  }

  /** The header and the fields. */
  function ReadContent(s: seq<byte>, c: Cursor, schemas: seq<Schema>): Read<(Value, nat, nat, seq<Value>)>
  {
    var (header, c) :- ReadHeader(s, c);
    var (values, c) :- ReadFields(s, c, schemas);
    Got((header.0, header.1, header.2, values), c)
  }

  /** A message as a reader gets it: its length, and inside it the header and the fields. */
  function ReadWholeMessage(s: seq<byte>, c: Cursor, schemas: seq<Schema>): Read<(Value, nat, nat, seq<Value>)>
  {
    var (length, c) :- UInt(s, c, 4);
    ReadContent(s, c.(end := c.pos + length), schemas)
  }

  /** The values of some writes, as an untrimmed reader gets them. */
  function ValuesOf(ws: seq<Write>): (values: seq<Value>)
    ensures |values| == |ws|
  {
    if ws == [] then [] else [ValueOf(ws[0])] + ValuesOf(ws[1..])
  }

  lemma {:induction false} FieldsAreRead(s: seq<byte>, c: Cursor, ws: seq<Write>)
    requires StandsAt(s, c, EncodedAll(ws)) && forall i :: 0 <= i < |ws| ==> Writable(ws[i])
    ensures ReadFields(s, c, Schemas(ws)) == Got(ValuesOf(ws), c.(pos := c.pos + |EncodedAll(ws)|))
    decreases |ws|
  {
    hide ReadField, Encoded, ValueOf, Writable;
    if ws != [] {
      StandsInParts(s, c, Encoded(ws[0]), EncodedAll(ws[1..]));
      ReadEncoded(s, c, ws[0]);
      FieldsAreRead(s, c.(pos := c.pos + |Encoded(ws[0])|), ws[1..]);
    }
  }

  /** The length stands in front of what a reader gets. */
  lemma LengthIsRead(s: seq<byte>, c: Cursor, n: nat, content: seq<byte>, schemas: seq<Schema>)
    requires n == |content| < 0x1_0000_0000 && StandsAt(s, c, BEBytes(n, 4) + content)
    ensures var inside := c.(pos := c.pos + 4, end := c.pos + 4 + n);
      StandsAt(s, inside, content) && ReadWholeMessage(s, c, schemas) == ReadContent(s, inside, schemas)
  {
    hide BE, BEBytes, Pow2, ReadContent;
    StandsInParts(s, c, BEBytes(n, 4), content);
    BytePowers();
    ReadBytes(s, c, n, 4);
  }

  /**
    A message as it is sent, with its trimmed length in front, gives back its timestamp, entity, type and
    values exactly when the cut spared the header and no unreported value was lost.
   */
  lemma SentMessageExactDomain(s: seq<byte>, c: Cursor, headerSize: nat, timestamp: int, entityId: nat, typeId: byte,
      ws: seq<Write>)
    requires InRange(Timestamp, timestamp) && EntityFits(headerSize, entityId)
    requires forall i :: 0 <= i < |ws| ==> Writable(ws[i])
    requires TrimLength(headerSize, timestamp, ws) < 0x1_0000_0000
    requires StandsAt(s, c, SentMessage(headerSize, timestamp, entityId, typeId, ws))
    ensures var r := ReadWholeMessage(s, c, Schemas(ws));
      r.Got? && r.value == (Number(timestamp), entityId, typeId as nat, ValuesOf(ws)) <==>
        && (Kept(ws) > 0 || timestamp == NullOf(Timestamp))
        && forall i :: Kept(ws) <= i < |ws| ==> !Unreported(ws[i])
  {
    hide BEBytes, HeaderBytes, EncodedAll, ReadContent, ReadWholeMessage, Writable, InRange, Kept, NullOf, TrimLength,
      Unreported, Schemas, ValuesOf;
    var n, header := TrimLength(headerSize, timestamp, ws), HeaderBytes(headerSize, timestamp, entityId, typeId);
    HeaderSize(headerSize, timestamp, entityId, typeId);
    TrimIsShorter(headerSize, timestamp, ws);
    LengthIsRead(s, c, n, (header + EncodedAll(ws))[..n], Schemas(ws));
    var inside := c.(pos := c.pos + 4, end := c.pos + 4 + n);
    if n >= headerSize {
      KeptAfterHeader(header, timestamp, ws);
      KeptIsRead(s, inside, headerSize, timestamp, entityId, typeId, ws);
    } else {
      CutHeaderThrows(s, inside, headerSize, timestamp, ws);
    }
  }

  /** The header in full and the kept fields. */
  lemma KeptIsRead(s: seq<byte>, c: Cursor, headerSize: nat, timestamp: int, entityId: nat, typeId: byte,
      ws: seq<Write>)
    requires InRange(Timestamp, timestamp) && EntityFits(headerSize, entityId)
    requires forall i :: 0 <= i < |ws| ==> Writable(ws[i])
    requires StandsAt(s, c, HeaderBytes(headerSize, timestamp, entityId, typeId) + EncodedAll(ws[..Kept(ws)]))
    requires c.end == c.pos + headerSize + |EncodedAll(ws[..Kept(ws)])|
    ensures var r := ReadContent(s, c, Schemas(ws));
      r.Got? && r.value == (Number(timestamp), entityId, typeId as nat, ValuesOf(ws)) <==>
        forall i :: Kept(ws) <= i < |ws| ==> !Unreported(ws[i])
  {
    hide HeaderBytes, EncodedAll, ReadHeader, ReadFields, Writable, InRange, Kept, Unreported, Schemas, ValuesOf;
    HeaderSize(headerSize, timestamp, entityId, typeId);
    StandsInParts(s, c, HeaderBytes(headerSize, timestamp, entityId, typeId), EncodedAll(ws[..Kept(ws)]));
    HeaderIsRead(s, c, headerSize, timestamp, entityId, typeId);
    WholeOrCut(s, c.(pos := c.pos + headerSize), ws);
  }

  /** The bytes of a message on the wire. */
  function SentMessage(headerSize: nat, timestamp: int, entityId: nat, typeId: byte, ws: seq<Write>): seq<byte>
    requires headerSize in {11, 13}
  {
    var n := TrimLength(headerSize, timestamp, ws);
    TrimIsShorter(headerSize, timestamp, ws);
    HeaderSize(headerSize, timestamp, entityId, typeId);
    BEBytes(n, 4) + (HeaderBytes(headerSize, timestamp, entityId, typeId) + EncodedAll(ws))[..n]
  }

  /** The kept fields read as the values written exactly when nothing unreported was cut. */
  lemma WholeOrCut(s: seq<byte>, d: Cursor, ws: seq<Write>)
    requires forall i :: 0 <= i < |ws| ==> Writable(ws[i])
    requires StandsAt(s, d, EncodedAll(ws[..Kept(ws)])) && d.end == d.pos + |EncodedAll(ws[..Kept(ws)])|
    ensures var cut := ReadFields(s, d, Schemas(ws));
      cut.Got? && cut.value == ValuesOf(ws) <==> forall i :: Kept(ws) <= i < |ws| ==> !Unreported(ws[i])
  {
    hide Unreported, Writable, Kept, ReadFields, Schemas, ValuesOf, EncodedAll;
    var whole := EncodedAll(ws);
    var c := Cursor(0, |whole|, [], []);
    assert whole[0..|whole|] == whole;
    FieldsAreRead(whole, c, ws);
    TrimExactDomain(whole, c, s, d, ws);
  }

  /** When the cut takes the end of the header, there is no entity to read. */
  lemma CutHeaderThrows(s: seq<byte>, c: Cursor, headerSize: nat, timestamp: int, ws: seq<Write>)
    requires headerSize in {11, 13} && TrimLength(headerSize, timestamp, ws) < headerSize
    requires c.end == c.pos + TrimLength(headerSize, timestamp, ws)
    ensures ReadContent(s, c, Schemas(ws)).Threw?
  {
    hide BE, Pow2, Signed, EncodedAll, Kept, NullOf, Schemas, ReadFields;
    TrimIsShorter(headerSize, timestamp, ws);
  }

  lemma SizeOfEntity(headerSize: nat, entityId: nat)
    requires headerSize in {11, 13}
    ensures |EntityBytes(headerSize, entityId)| == headerSize - 9
  {
  }

  lemma HeaderSize(headerSize: nat, timestamp: int, entityId: nat, typeId: byte)
    requires headerSize in {11, 13}
    ensures |HeaderBytes(headerSize, timestamp, entityId, typeId)| == headerSize
  {
  }

  lemma NothingWritten(headerSize: nat, timestamp: int)
    ensures EncodedAll([]) == []
    ensures TrimLength(headerSize, timestamp, []) ==
      if timestamp == NullOf(Timestamp) then headerSize else TIMESTAMP_SIZE
  {
  }

  lemma TwoSlices(all: seq<byte>, start: nat, end: nat, last: nat)
    requires 4 <= start <= end <= last <= |all|
    ensures all[start - 4..end] == all[start - 4..start] + all[start..last][..end - start]
  {
  }

  lemma InFront(all: seq<byte>, before: seq<byte>, a: seq<byte>, b: seq<byte>, c: seq<byte>)
    requires all == before + a + b + c
    ensures all[..|before|] == before && all[|before|..] == a + b + c
  {
  }

  lemma ByteBytes(v: byte)
    ensures BEBytes(v, 1)[..1] == [v]
  {
    assert BEBytes(v, 1) == BEBytes(v / 256, 0) + [v % 256];
  }

  class Writer {
    const buffer: array<byte>
    const dataEnd: nat
    const headerSize: nat
    var dataPtr: nat
    var dataEndNotNull: nat
    var messageStart: nat
    ghost var header: seq<byte>
    ghost var timestamp: int
    ghost var written: seq<Write>

    ghost predicate HasRoom()
      reads `dataPtr
    {
      dataPtr <= dataEnd && buffer.Length == dataEnd + GUARD && TIMESTAMP_SIZE < headerSize
    }

    /** The writer stands in a message, whose bytes so far are its header and its fields. */
    ghost predicate Valid()
      reads this, buffer
    {
      && HasRoom()
      && 4 <= messageStart && messageStart + headerSize <= dataPtr
      && buffer[messageStart..messageStart + headerSize] == header
      && buffer[messageStart + headerSize..dataPtr] == EncodedAll(written)
      && dataEndNotNull == messageStart + TrimLength(headerSize, timestamp, written)
    }

    constructor (size: nat, headerSize: nat)
      requires TIMESTAMP_SIZE < headerSize
      ensures HasRoom() && dataPtr == 0 && this.headerSize == headerSize && fresh(buffer)
    {
      buffer := new byte[size + GUARD](_ => 0);
      dataEnd, dataPtr, dataEndNotNull := size, 0, 0;
      this.headerSize := headerSize;
      messageStart, header, timestamp, written := 0, [], 0, [];
    }

    /** Stores a big-endian word and advances by its first `n` bytes; what is behind them is scratch. */
    method PutBE(v: nat, word: nat, n: nat) returns (ok: bool)
      requires HasRoom() && n <= word <= GUARD
      modifies `dataPtr, buffer
      ensures dataPtr == old(dataPtr) + n
      ensures ok <==> dataPtr <= dataEnd
      ensures buffer[..old(dataPtr)] == old(buffer[..dataPtr])
      ensures buffer[old(dataPtr)..dataPtr] == BEBytes(v, word)[..n]
    {
      var p := dataPtr;
      var bytes := BEBytes(v, word);
      forall i | 0 <= i < word {
        buffer[p + i] := bytes[i];
      }
      dataPtr := p + n;
      ok := dataPtr <= dataEnd;
    }

    method PutBytes(data: seq<byte>) returns (ok: bool)
      requires HasRoom()
      modifies `dataPtr, buffer
      ensures dataPtr == old(dataPtr) + |data|
      ensures ok <==> dataPtr <= dataEnd
      ensures buffer[..old(dataPtr)] == old(buffer[..dataPtr])
      ensures ok ==> buffer[old(dataPtr)..dataPtr] == data
    {
      var p := dataPtr;
      dataPtr := p + |data|;
      ok := dataPtr <= dataEnd;
      var n := if ok then |data| else dataEnd - p;
      forall i | 0 <= i < n {
        buffer[p + i] := data[i];
      }
    }

    /** Bytes appended to a message that is being written are its next field. */
    twostate lemma Appended(w: Write)
      requires old(Valid()) && HasRoom()
      requires messageStart == old(messageStart) && header == old(header) && timestamp == old(timestamp)
      requires dataPtr == old(dataPtr) + |Encoded(w)|
      requires buffer[..old(dataPtr)] == old(buffer[..dataPtr])
      requires buffer[old(dataPtr)..dataPtr] == Encoded(w)
      ensures messageStart + headerSize <= dataPtr
      ensures buffer[messageStart..messageStart + headerSize] == header
      ensures buffer[messageStart + headerSize..dataPtr] == EncodedAll(old(written) + [w])
      ensures messageStart + TrimLength(headerSize, timestamp, old(written) + [w])
        == if Marks(w) then dataPtr else old(dataEndNotNull)
    {
      hide Encoded, EncodedAll, TrimLength, Marks;
      EncodedSnoc(old(written), w);
      TrimAfter(headerSize, timestamp, old(written), w);
      var from := messageStart + headerSize;
      var kept := buffer[..old(dataPtr)];
      var before := old(buffer[..dataPtr]);
      assert before[messageStart..from] == old(buffer[messageStart..messageStart + headerSize]);
      assert before[from..] == old(buffer[messageStart + headerSize..dataPtr]);
      assert kept == before;
      assert buffer[from..dataPtr] == kept[from..] + buffer[old(dataPtr)..dataPtr];
      assert buffer[messageStart..from] == kept[messageStart..from];
    }

    method CheckNull(isNull: bool)
      modifies `dataEndNotNull
      ensures dataEndNotNull == if isNull then old(dataEndNotNull) else dataPtr
    {
      dataEndNotNull := if isNull then dataEndNotNull else dataPtr;
    }

    method SetNotNull()
      modifies `dataEndNotNull
      ensures dataEndNotNull == dataPtr
    {
      dataEndNotNull := dataPtr;
    }

    /** The message goes on with one more field, and nothing before it has changed. */
    twostate predicate Continues(ws: seq<Write>)
      reads this, buffer
    {
      && Valid()
      && messageStart == old(messageStart) && header == old(header) && timestamp == old(timestamp)
      && written == old(written) + ws
      && old(dataPtr) <= dataPtr && old(dataPtr) <= buffer.Length
      && buffer[..old(dataPtr)] == old(buffer[..dataPtr])
    }

    twostate predicate HasWritten(w: Write)
      reads this, buffer
    {
      Continues([w]) && dataPtr == old(dataPtr) + |Encoded(w)|
    }

    /** Puts a word; 48-bit ones stand at the top of a 64-bit store. */
    method PutWord(kind: Kind, word: nat) returns (ok: bool)
      requires HasRoom()
      modifies `dataPtr, buffer
      ensures dataPtr == old(dataPtr) + Width(kind)
      ensures ok <==> dataPtr <= dataEnd
      ensures buffer[..old(dataPtr)] == old(buffer[..dataPtr])
      ensures buffer[old(dataPtr)..dataPtr] == BEBytes(word, Width(kind))
    {
      hide BEBytes, Shl;
      if kind == Int48 {
        ok := PutBE(Shl(word, 16), 8, 6);
        ShiftedStore(word, 6, 2);
      } else {
        ok := PutBE(word, Width(kind), Width(kind));
      }
    }

    method WritePlain(kind: Kind, value: int) returns (ok: bool)
      requires Valid()
      modifies this, buffer
      ensures ok <==> old(dataPtr) + |Encoded(Plain(kind, value))| <= dataEnd
      ensures ok ==> HasWritten(Plain(kind, value))
    {
      hide BEBytes, EncodedAll, TrimLength, Pow2;
      ghost var w := Plain(kind, value);
      ok := PutWord(kind, WordOf(kind, value));
      if ok {
        Appended(w);
        CheckNull(value == NullOf(kind));
        written := written + [w];
      }
    }

    method WriteFlagged(kind: Kind, value: int, isNull: bool) returns (ok: bool)
      requires Valid()
      modifies this, buffer
      ensures ok <==> old(dataPtr) + |Encoded(Flagged(kind, value, isNull))| <= dataEnd
      ensures ok ==> HasWritten(Flagged(kind, value, isNull))
    {
      hide BEBytes, EncodedAll, TrimLength, Pow2;
      ghost var w := Flagged(kind, value, isNull);
      ok := PutWord(kind, WordOf(kind, if isNull then NullOf(kind) else value));
      if ok {
        Appended(w);
        CheckNull(isNull);
        written := written + [w];
      }
    }

    method WriteBoolean(b: bool) returns (ok: bool)
      requires Valid()
      modifies this, buffer
      ensures ok <==> old(dataPtr) + 1 <= dataEnd
      ensures ok ==> HasWritten(Boolean(b))
    {
      hide EncodedAll, TrimLength;
      ghost var w := Boolean(b);
      var v := if b then 1 else 0;
      ByteBytes(v);
      ok := PutBE(v, 1, 1);
      if ok {
        Appended(w);
        SetNotNull();
        written := written + [w];
      }
    }

    method WriteUInt8(v: byte) returns (ok: bool)
      requires Valid()
      modifies this, buffer
      ensures ok <==> old(dataPtr) + 1 <= dataEnd
      ensures ok ==> HasWritten(UInt8(v))
    {
      hide EncodedAll, TrimLength;
      ghost var w := UInt8(v);
      ByteBytes(v);
      ok := PutBE(v, 1, 1);
      if ok {
        Appended(w);
        written := written + [w];
      }
    }

    method WriteUInt40(v: nat) returns (ok: bool)
      requires Valid() && v < Pow2(40)
      modifies this, buffer
      ensures ok <==> old(dataPtr) + 5 <= dataEnd
      ensures ok ==> HasWritten(UInt40(v))
    {
      hide BEBytes, Shl, EncodedAll, TrimLength, Pow2;
      ghost var w := UInt40(v);
      ok := PutBE(Shl(v, 24), 8, 5);
      ShiftedStore(v, 5, 3);
      if ok {
        Appended(w);
        written := written + [w];
      }
    }

    method PutText(text: Option<seq<byte>>) returns (ok: bool)
      requires HasRoom() && Writable(Text(text))
      modifies `dataPtr, buffer
      ensures ok <==> old(dataPtr) + |Encoded(Text(text))| <= dataEnd
      ensures ok ==> dataPtr == old(dataPtr) + |Encoded(Text(text))|
      ensures ok ==> buffer[..old(dataPtr)] == old(buffer[..dataPtr])
      ensures ok ==> buffer[old(dataPtr)..dataPtr] == Encoded(Text(text))
    {
      hide BEBytes;
      ok := PutBE(if text.None? then 0xFFFF else |text.value|, 2, 2);
      if ok && text.Some? {
        ghost var kept := buffer[..dataPtr];
        ok := PutBytes(text.value);
        if ok {
          assert buffer[old(dataPtr)..dataPtr] == kept[old(dataPtr)..] + text.value;
          assert buffer[..old(dataPtr)] == kept[..old(dataPtr)];
        }
      }
    }

    method WriteText(text: Option<seq<byte>>) returns (ok: bool)
      requires Valid() && (text.Some? ==> |text.value| < 0xFFFF)
      modifies this, buffer
      ensures ok <==> old(dataPtr) + |Encoded(Text(text))| <= dataEnd
      ensures ok ==> HasWritten(Text(text))
    {
      hide Encoded, EncodedAll, TrimLength;
      ok := PutText(text);
      if ok {
        Appended(Text(text));
        written := written + [Text(text)];
      }
    }

    /** `writePackedUInt` of a 32-bit value: a wide store behind the header byte, cut to its length. */
    method PutPacked(value: nat) returns (ok: bool)
      requires HasRoom() && value < MAX_UINT30
      modifies `dataPtr, buffer
      ensures dataPtr == old(dataPtr) + |Packed(value, 64)|
      ensures ok <==> dataPtr <= dataEnd
      ensures ok ==> buffer[..old(dataPtr)] == old(buffer[..dataPtr])
      ensures ok ==> buffer[old(dataPtr)..dataPtr] == Packed(value, 64)
    {
      hide LEBytes, ByteCount;
      BodyLength(value, 64);
      var headerPtr, v := dataPtr, value / 64;
      var bytes := LEBytes(v, 4);
      var length := ByteCount(v);
      LEBytesPrefix(v, 4, length);
      buffer[headerPtr] := 0;
      forall i | 0 <= i < 4 {
        buffer[headerPtr + 1 + i] := bytes[i];
      }
      dataPtr := headerPtr + length + 1;
      ok := dataPtr <= dataEnd;
      if ok {
        assert buffer[headerPtr + 1..dataPtr] == bytes[..length];
        buffer[headerPtr] := value % 64 + length * 64;
        assert buffer[headerPtr..dataPtr] == [buffer[headerPtr]] + buffer[headerPtr + 1..dataPtr];
      }
    }

    /** A packed length and that many bytes. */
    method PutSized(data: seq<byte>) returns (ok: bool)
      requires HasRoom() && |data| < MAX_UINT30
      modifies `dataPtr, buffer
      ensures ok <==> old(dataPtr) + |Packed(|data|, 64) + data| <= dataEnd
      ensures ok ==> dataPtr == old(dataPtr) + |Packed(|data|, 64) + data|
      ensures ok ==> buffer[..old(dataPtr)] == old(buffer[..dataPtr])
      ensures ok ==> buffer[old(dataPtr)..dataPtr] == Packed(|data|, 64) + data
    {
      hide Packed;
      ok := PutPacked(|data|);
      if ok {
        ghost var kept := buffer[..dataPtr];
        ok := PutBytes(data);
        if ok {
          assert buffer[old(dataPtr)..dataPtr] == kept[old(dataPtr)..] + data;
          assert buffer[..old(dataPtr)] == kept[..old(dataPtr)];
        }
      }
    }

    method PutBinary(data: Option<seq<byte>>) returns (ok: bool)
      requires HasRoom() && Writable(BinaryArray(data))
      modifies `dataPtr, buffer
      ensures ok <==> old(dataPtr) + |Encoded(BinaryArray(data))| <= dataEnd
      ensures ok ==> dataPtr == old(dataPtr) + |Encoded(BinaryArray(data))|
      ensures ok ==> buffer[..old(dataPtr)] == old(buffer[..dataPtr])
      ensures ok ==> buffer[old(dataPtr)..dataPtr] == Encoded(BinaryArray(data))
    {
      hide Packed, BEBytes;
      var isNull := if data.None? then 1 else 0;
      ByteBytes(isNull);
      ok := PutBE(isNull, 1, 1);
      if ok && data.Some? {
        ghost var kept := buffer[..dataPtr];
        ok := PutSized(data.value);
        if ok {
          assert buffer[old(dataPtr)..dataPtr] == kept[old(dataPtr)..] + (PackedLength(|data.value|) + data.value);
          assert buffer[..old(dataPtr)] == kept[..old(dataPtr)];
        }
      }
    }

    /** Binary data, or NULL, neither of which moves the mark. */
    method WriteBinary(data: Option<seq<byte>>) returns (ok: bool)
      requires Valid() && Writable(BinaryArray(data))
      modifies this, buffer
      ensures ok <==> old(dataPtr) + |Encoded(BinaryArray(data))| <= dataEnd
      ensures ok ==> HasWritten(BinaryArray(data))
    {
      hide Encoded, EncodedAll, TrimLength;
      ok := PutBinary(data);
      if ok {
        Appended(BinaryArray(data));
        written := written + [BinaryArray(data)];
      }
    }

    method WriteOne(w: Write) returns (ok: bool)
      requires Valid() && Writable(w)
      modifies this, buffer
      ensures ok <==> old(dataPtr) + |Encoded(w)| <= dataEnd
      ensures ok ==> HasWritten(w)
    {
      hide BEBytes, EncodedAll, TrimLength, Pow2;
      match w
      case Plain(kind, value) => ok := WritePlain(kind, value);
      case Flagged(kind, value, isNull) => ok := WriteFlagged(kind, value, isNull);
      case Boolean(b) => ok := WriteBoolean(b);
      case UInt8(v) => ok := WriteUInt8(v);
      case UInt40(v) => ok := WriteUInt40(v);
      case Text(text) => ok := WriteText(text);
      case BinaryArray(data) => ok := WriteBinary(data);
    }

    method WriteAll(ws: seq<Write>) returns (ok: bool)
      requires Valid() && forall i :: 0 <= i < |ws| ==> Writable(ws[i])
      modifies this, buffer
      ensures ok ==> Continues(ws)
      ensures ok <==> old(dataPtr) + |EncodedAll(ws)| <= dataEnd
    {
      hide Encoded, EncodedAll, TrimLength, Writable;
      ok := true;
      NothingWritten(headerSize, timestamp);
      assert ws[..0] == [];
      for i := 0 to |ws|
        invariant ok && Continues(ws[..i]) && dataPtr == old(dataPtr) + |EncodedAll(ws[..i])|
      {
        assert ws[..i + 1] == ws[..i] + [ws[i]];
        EncodedSnoc(ws[..i], ws[i]);
        EncodedGrows(ws, i + 1);
        ok := WriteOne(ws[i]);
        if !ok {
          return;
        }
      }
      assert ws[..|ws|] == ws;
    }

    /** Reserves the length of a message. */
    method StartMessage() returns (ok: bool)
      requires HasRoom()
      modifies this, buffer
      ensures dataPtr == messageStart == old(dataPtr) + 4 && dataEndNotNull == messageStart + headerSize
      ensures ok <==> dataPtr <= dataEnd
      ensures buffer[..old(dataPtr)] == old(buffer[..dataPtr])
    {
      ok := PutBE(0, 4, 4);
      messageStart := dataPtr;
      dataEndNotNull := dataPtr + headerSize;
    }

    /** Starts a message: the length to come, the timestamp, the entity in two or four bytes, the type. */
    method NextMessage(timestamp: int, entityId: nat, typeId: byte) returns (ok: bool)
      requires HasRoom() && headerSize in {11, 13}
      modifies this, buffer
      ensures ok <==> old(dataPtr) + 4 + headerSize <= dataEnd
      ensures ok ==>
        && Valid() && written == [] && this.timestamp == timestamp
        && header == HeaderBytes(headerSize, timestamp, entityId, typeId)
        && messageStart == old(dataPtr) + 4 && dataPtr == messageStart + headerSize
        && buffer[..old(dataPtr)] == old(buffer[..dataPtr])
    {
      hide BEBytes, HeaderBytes, EncodedAll, TrimLength, NullOf;
      ok := StartMessage();
      if ok {
        NothingWritten(headerSize, timestamp);
        ghost var before := buffer[..dataPtr];
        ok := WriteHeader(timestamp, entityId, typeId);
        header, this.timestamp, written := HeaderBytes(headerSize, timestamp, entityId, typeId), timestamp, [];
        if ok {
          assert buffer[..old(dataPtr)] == before[..old(dataPtr)];
        }
      }
    }

    method WriteHeader(timestamp: int, entityId: nat, typeId: byte) returns (ok: bool)
      requires HasRoom() && headerSize in {11, 13}
      modifies `dataPtr, `dataEndNotNull, buffer
      ensures ok <==> old(dataPtr) + headerSize <= dataEnd
      ensures ok ==> dataPtr == old(dataPtr) + headerSize
      ensures ok ==> buffer[..old(dataPtr)] == old(buffer[..dataPtr])
      ensures ok ==> buffer[old(dataPtr)..dataPtr] == HeaderBytes(headerSize, timestamp, entityId, typeId)
      ensures ok && timestamp == NullOf(Timestamp) ==> dataEndNotNull == old(dataEndNotNull)
      ensures ok && timestamp != NullOf(Timestamp) ==> dataEndNotNull == old(dataPtr) + TIMESTAMP_SIZE
    {
      hide BEBytes, Pow2, IntNull, EntityBytes;
      ghost var before := buffer[..dataPtr];
      ghost var first, second := BEBytes(WordOf(Timestamp, timestamp), 8), EntityBytes(headerSize, entityId);
      ok := PutWord(Timestamp, WordOf(Timestamp, timestamp));
      if !ok {
        return;
      }
      assert buffer[..dataPtr] == before + first;
      CheckNull(timestamp == NullOf(Timestamp));
      ok := PutEntity(entityId);
      if !ok {
        return;
      }
      assert buffer[..dataPtr] == before + first + second;
      ByteBytes(typeId);
      ok := PutBE(typeId, 1, 1);
      if ok {
        assert buffer[..dataPtr] == before + first + second + [typeId];
        InFront(buffer[..dataPtr], before, first, second, [typeId]);
      }
    }

    method PutEntity(entityId: nat) returns (ok: bool)
      requires HasRoom() && headerSize in {11, 13}
      modifies `dataPtr, buffer
      ensures dataPtr == old(dataPtr) + headerSize - 9 || !ok
      ensures ok <==> old(dataPtr) + headerSize - 9 <= dataEnd
      ensures ok ==> buffer[..old(dataPtr)] == old(buffer[..dataPtr])
      ensures ok ==> buffer[old(dataPtr)..dataPtr] == EntityBytes(headerSize, entityId)
    {
      hide BEBytes;
      if headerSize == 13 {
        ok := PutBE(entityId / 0x1_0000 + 0x8000, 2, 2);
        if ok {
          ghost var high := buffer[..dataPtr];
          ok := PutBE(entityId, 2, 2);
          assert ok ==> buffer[old(dataPtr)..dataPtr] == high[old(dataPtr)..] + BEBytes(entityId, 2);
          assert ok ==> buffer[..old(dataPtr)] == high[..old(dataPtr)];
        }
      } else {
        ok := PutBE(entityId, 2, 2);
      }
    }

    /**
      Finishes a message: stores its trimmed length before it and returns its trimmed end.  The write
      pointer stays behind the untrimmed bytes.
     */
    method EndMessage() returns (end: nat)
      requires Valid()
      modifies this, buffer
      ensures HasRoom() && dataPtr == old(dataPtr) && messageStart == old(messageStart)
      ensures end == messageStart + TrimLength(headerSize, timestamp, written) <= dataPtr
      ensures buffer[messageStart - 4..messageStart] == BEBytes(end - messageStart, 4)
      ensures buffer[messageStart..dataPtr] == header + EncodedAll(written)
      ensures buffer[..messageStart - 4] == old(buffer[..messageStart - 4])
      ensures header == old(header) && timestamp == old(timestamp) && written == old(written)
    {
      hide BEBytes, EncodedAll, TrimLength;
      TrimIsShorter(headerSize, timestamp, written);
      ghost var body := messageStart + headerSize;
      ghost var message := buffer[messageStart..dataPtr];
      assert message == buffer[messageStart..body] + buffer[body..dataPtr];
      end := if dataPtr <= dataEndNotNull then dataPtr else dataEndNotNull;
      StoreLength(messageStart - 4, end - messageStart);
    }

    /**
      Commits the current message and starts the next one.  The next one starts where the committed
      one is said to end exactly when nothing was trimmed.
     */
    method CommitAndStart(timestamp: int, entityId: nat, typeId: byte) returns (ok: bool, end: nat)
      requires Valid() && headerSize in {11, 13}
      modifies this, buffer
      ensures ok <==> old(dataPtr) + 4 + headerSize <= dataEnd
      ensures end == old(messageStart) + TrimLength(headerSize, old(this.timestamp), old(written)) <= old(dataPtr)
      ensures ok ==>
        && Valid() && written == [] && this.timestamp == timestamp
        && header == HeaderBytes(headerSize, timestamp, entityId, typeId)
        && dataPtr == messageStart + headerSize
        && buffer[..old(messageStart) - 4] == old(buffer[..messageStart - 4])
        && buffer[old(messageStart) - 4..old(messageStart)] == BEBytes(end - old(messageStart), 4)
        && buffer[old(messageStart)..old(dataPtr)] == old(header) + EncodedAll(old(written))
      ensures ok ==>
        (messageStart - 4 == end <==>
         if old(written) == [] then old(this.timestamp) == NullOf(Timestamp)
         else Marks(old(written)[|old(written)| - 1]))
    {
      hide BEBytes, HeaderBytes, EncodedAll, TrimLength, Marks, NullOf;
      FramingExactDomain(headerSize, this.timestamp, written);
      ghost var start, last := messageStart, dataPtr;
      end := EndMessage();
      ghost var done := buffer[..dataPtr];
      assert done[..start - 4] == buffer[..start - 4] && done[start - 4..start] == buffer[start - 4..start];
      assert done[start..last] == buffer[start..last];
      ok := NextMessage(timestamp, entityId, typeId);
      if ok {
        assert buffer[..last] == done;
        assert buffer[..start - 4] == done[..start - 4] && buffer[start - 4..start] == done[start - 4..start];
        assert buffer[start..last] == done[start..last];
      }
    }

    method StoreLength(at: nat, v: nat)
      requires at + 4 <= dataPtr <= buffer.Length
      modifies buffer
      ensures buffer[..at] == old(buffer[..at]) && buffer[at + 4..dataPtr] == old(buffer[at + 4..dataPtr])
      ensures buffer[at..at + 4] == BEBytes(v, 4)
    {
      var bytes := BEBytes(v, 4);
      forall i | 0 <= i < 4 {
        buffer[at + i] := bytes[i];
      }
    }

    /**
      A message from its start to its end: the buffer holds the header and every field, and `end` is
      where trimming cuts it.
     */
    method WriteMessage(timestamp: int, entityId: nat, typeId: byte, ws: seq<Write>) returns (ok: bool, end: nat)
      requires HasRoom() && headerSize in {11, 13}
      requires forall i :: 0 <= i < |ws| ==> Writable(ws[i])
      modifies this, buffer
      ensures ok <==> old(dataPtr) + 4 + headerSize + |EncodedAll(ws)| <= dataEnd
      ensures ok ==>
        var start, n := old(dataPtr) + 4, TrimLength(headerSize, timestamp, ws);
        && messageStart == start && start + n == end <= dataPtr <= buffer.Length
        && buffer[start - 4..start] == BEBytes(n, 4)
        && buffer[start - 4..end] == SentMessage(headerSize, timestamp, entityId, typeId, ws)
        && buffer[start..dataPtr] == HeaderBytes(headerSize, timestamp, entityId, typeId) + EncodedAll(ws)
        && buffer[..start - 4] == old(buffer[..dataPtr])
    {
      hide BEBytes, HeaderBytes, TrimLength, Encoded, EncodedAll, Writable;
      end := 0;
      ok := NextMessage(timestamp, entityId, typeId);
      if !ok {
        return;
      }
      ghost var before := buffer[..dataPtr];
      ok := WriteAll(ws);
      if ok {
        assert [] + ws == ws;
        assert buffer[..messageStart - 4] == before[..messageStart - 4];
        end := EndMessage();
        HeaderSize(headerSize, timestamp, entityId, typeId);
        TwoSlices(buffer[..], messageStart, end, dataPtr);
      }
    }
  }
}
