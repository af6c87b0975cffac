/**
  Alphanumeric(10) fields as 64-bit integers: packing, unpacking, storing and loading.
 */
module PackedAlphanumeric {
  import opened Words
  import opened Alphanumeric
  import Cursor

  // ---- Ten characters packed into a 64-bit word ----

  const MAX_PACKED := 10
  const EIGHT_SPACES: seq<nat> := [0x20, 0x20, 0x20, 0x20, 0x20, 0x20, 0x20, 0x20]

  predicate IsValid(chars: seq<nat>)
  {
    |chars| <= MAX_PACKED && forall i :: 0 <= i < |chars| ==> SPACE <= chars[i] < SPACE + 64
  }

  /** `(chars[i] - 0x20) & 0x3F`, and no bits for a character that is not there. */
  function SixBits(chars: seq<nat>, i: nat): (c: nat)
    ensures c < 64
  {
    if i < |chars| then (chars[i] - SPACE) % 64 else 0
  }

  /** The bits that characters `i` and later contribute to the packed word. */
  function Tail(chars: seq<nat>, i: nat): nat
    requires i <= MAX_PACKED
    decreases MAX_PACKED - i
  {
    if i == MAX_PACKED then 0 else Shl(SixBits(chars, i), 54 - 6 * i) + Tail(chars, i + 1)
  }

  /** The packed word: the length in the top four bits, the characters below it. */
  function Pack(chars: seq<nat>): nat
  {
    Shl(|chars|, 60) + Tail(chars, 0)
  }

  method ToAlphanumericInt64(chars: Option<seq<nat>>, length: nat) returns (value: nat)
    requires chars.Some? ==> length == |chars.value|
    ensures value == if chars.None? || length > MAX_PACKED then ALPHANUMERIC_NULL else Pack(chars.value)
  {
    hide Shl;
    if length > MAX_PACKED {
      return ALPHANUMERIC_NULL;
    }
    if chars.None? {
      return ALPHANUMERIC_NULL;
    }
    var str := chars.value;
    var acc: nat := 0;
    var i: nat := length;
    TailBeyond(str, length);
    while i != 0
      invariant i <= length
      invariant acc == Tail(str, i)
    {
      acc := acc + Shl((str[i - 1] - SPACE) % 64, (10 - i) * 6);
      i := i - 1;
    }
    value := Shl(length, 60) + acc;
  }

  lemma {:induction false} TailBeyond(chars: seq<nat>, i: nat)
    requires |chars| <= i <= MAX_PACKED
    ensures Tail(chars, i) == 0
    decreases MAX_PACKED - i
  {
    hide Shl;
    if i < MAX_PACKED {
      TailBeyond(chars, i + 1);
      ShlOfZero(54 - 6 * i);
    }
  }

  lemma {:induction false} TailBound(chars: seq<nat>, i: nat, room: nat)
    requires i <= MAX_PACKED && room == 60 - 6 * i
    ensures Tail(chars, i) < Pow2(room)
    decreases MAX_PACKED - i
  {
    if i < MAX_PACKED {
      TailBound(chars, i + 1, room - 6);
      assert Pow2(6) == 64;
      ShlBound(SixBits(chars, i), 6, room - 6);
    }
  }

  /** The leading `4 + 6i` bits of the packed word. */
  function Head(chars: seq<nat>, i: nat): nat
  {
    if i == 0 then |chars| else Shl(Head(chars, i - 1), 6) + SixBits(chars, i - 1)
  }

  lemma {:induction false} PackCut(chars: seq<nat>, i: nat, rest: nat)
    requires i <= MAX_PACKED && rest == 60 - 6 * i
    ensures Pack(chars) == Shl(Head(chars, i), rest) + Tail(chars, i)
  {
    hide SixBits, Shl;
    if i > 0 {
      PackCut(chars, i - 1, rest + 6);
      CutOneLater(chars, i, rest);
    }
  }

  lemma CutOneLater(chars: seq<nat>, i: nat, rest: nat)
    requires 0 < i <= MAX_PACKED && rest == 60 - 6 * i
    ensures Shl(Head(chars, i - 1), rest + 6) + Tail(chars, i - 1) == Shl(Head(chars, i), rest) + Tail(chars, i)
  {
    hide Shl, SixBits;
    ShlShl(Head(chars, i - 1), 6, rest);
    ShlSum(Shl(Head(chars, i - 1), 6), SixBits(chars, i - 1), rest);
  }

  lemma PackedLength(chars: seq<nat>)
    requires |chars| <= MAX_PACKED
    ensures Shr(Pack(chars), 60) == |chars|
  {
    hide Shl, Shr, Low, Tail, Pow2;
    TailBound(chars, 0, 60);
    CutUnique(|chars|, Tail(chars, 0), 60);
  }

  /** Every character can be read back from the packed word by shift and mask. */
  lemma PackedChar(chars: seq<nat>, i: nat, rest: nat)
    requires |chars| <= MAX_PACKED && i < MAX_PACKED && rest == 54 - 6 * i
    ensures Low(Shr(Pack(chars), rest), 6) == SixBits(chars, i)
  {
    hide Shr, Shl, Low, Pow2, Pack, Tail, SixBits;
    PackCut(chars, i + 1, rest);
    TailBound(chars, i + 1, rest);
    CutUnique(Head(chars, i + 1), Tail(chars, i + 1), rest);
    LowSixOfHead(chars, i);
  }

  lemma LowSixOfHead(chars: seq<nat>, i: nat)
    ensures Low(Head(chars, i + 1), 6) == SixBits(chars, i)
  {
    assert Pow2(6) == 64;
    CutUnique(Head(chars, i), SixBits(chars, i), 6);
  }

  lemma PackFitsWord(chars: seq<nat>)
    requires |chars| <= MAX_PACKED
    ensures Pack(chars) < Pow2(64)
  {
    hide Shl, Tail;
    TailBound(chars, 0, 60);
    assert Pow2(4) == 16;
    ShlBound(|chars|, 4, 60);
  }

  // ---- Unpacking a 64-bit word ----

  /** The length field of a packed word. */
  function LengthOf(value: nat): nat
  {
    Shr(value, 60)
  }

  /** What `fromAlphanumericInt64` computes for position `i`, after `value <<= 4`. */
  function UnpackedChar(value: nat, i: nat): nat
    requires i < MAX_PACKED
  {
    Low(Shr(Low(Shl(value, 4), 64), 64 - 6 * (i + 1)), 6) + SPACE
  }

  /**
    The positions written for a length: cases fall through from the length down, but 7 stands
    before 8, so length 8 misses position 6 and length 7 writes position 7 as well.
   */
  predicate Written(len: nat, i: nat)
  {
    1 <= len <= MAX_PACKED && (if len == 8 then i < 8 && i != 6 else if len == 7 then i < 8 else i < len)
  }

  /** The destination buffer after unpacking `value` over `old_`. */
  function Unpacked(before: seq<nat>, value: nat): (after: seq<nat>)
    requires |before| >= MAX_PACKED
    ensures |after| == |before|
  {
    seq(|before|, i requires 0 <= i < |before| =>
      if value != ALPHANUMERIC_NULL && i < MAX_PACKED && Written(LengthOf(value), i)
      then UnpackedChar(value, i) else before[i])
  }

  method FromAlphanumericInt64(dest: array<nat>, value: nat) returns (len: nat)
    requires dest.Length >= MAX_PACKED
    modifies dest
    ensures len == if value == ALPHANUMERIC_NULL then MAX_PACKED + 1 else LengthOf(value)
    ensures dest[..] == Unpacked(old(dest[..]), value)
  {
    hide Shr, Low, Shl, UnpackedChar;
    if value == ALPHANUMERIC_NULL {
      return MAX_PACKED + 1;
    }
    len := Shr(value, 60);
    if len == 10 {
      dest[9] := UnpackedChar(value, 9);
    }
    if len == 10 || len == 9 {
      dest[8] := UnpackedChar(value, 8);
    }
    if len == 10 || len == 9 || len == 7 {
      dest[6] := UnpackedChar(value, 6);
    }
    if 7 <= len <= 10 {
      dest[7] := UnpackedChar(value, 7);
    }
    if 6 <= len <= 10 {
      dest[5] := UnpackedChar(value, 5);
    }
    if 5 <= len <= 10 {
      dest[4] := UnpackedChar(value, 4);
    }
    if 4 <= len <= 10 {
      dest[3] := UnpackedChar(value, 3);
    }
    if 3 <= len <= 10 {
      dest[2] := UnpackedChar(value, 2);
    }
    if 2 <= len <= 10 {
      dest[1] := UnpackedChar(value, 1);
    }
    if 1 <= len <= 10 {
      dest[0] := UnpackedChar(value, 0);
    }
  }

  lemma ShiftedOutLength(value: nat)
    ensures Low(Shl(value, 4), 64) == Shl(Low(value, 60), 4)
  {
    LowSplit(Shl(value, 4), 4, 60);
    CutUnique(value, 0, 4);
  }

  lemma ShiftBackAndForth(w: nat, a: nat)
    ensures Shr(Shl(w, 4), a + 4) == Shr(w, a)
  {
    ShrShr(Shl(w, 4), 4, a);
    CutUnique(w, 0, 4);
    assert a + 4 == 4 + a;
  }

  /** Dropping the length bits by `value <<= 4` does not move a character out of its slice. */
  lemma UnpackedCharIsSlice(value: nat, i: nat, rest: nat)
    requires i < MAX_PACKED && rest == 54 - 6 * i
    ensures UnpackedChar(value, i) == Low(Shr(value, rest), 6) + SPACE
  {
    SliceOfShifted(value, rest, 6 * i);
    assert 64 - 6 * (i + 1) == rest + 4;
  }

  lemma SliceOfShifted(value: nat, rest: nat, above: nat)
    requires rest + 6 + above == 60
    ensures Low(Shr(Low(Shl(value, 4), 64), rest + 4), 6) == Low(Shr(value, rest), 6)
  {
    ShiftedOutLength(value);
    ShiftBackAndForth(Low(value, 60), rest);
    LowShrLow(value, rest, 6, above);
  }

  /** Masking high bits away first does not change a slice below the mask. */
  lemma LowShrLow(x: nat, a: nat, n: nat, b: nat)
    ensures Low(Shr(Low(x, a + n + b), a), n) == Low(Shr(x, a), n)
  {
    hide Low, Shr, Shl, Pow2;
    LowSplit(x, a, n + b);
    assert a + n + b == a + (n + b);
    LowBound(x, a);
    CutUnique(Low(Shr(x, a), n + b), Low(x, a), a);
    var y := Shr(x, a);
    LowSplit(y, n, b);
    LowBound(y, n);
    CutUnique(Low(Shr(y, n), b), Low(y, n), n);
  }

  lemma PackOfEightSpaces()
    ensures Pack(EIGHT_SPACES) == ALPHANUMERIC_NULL
  {
    var s := EIGHT_SPACES;
    TailOfSpaces(s, 0);
    ShlOf8();
  }

  lemma ShlOf8()
    ensures Shl(8, 60) == ALPHANUMERIC_NULL
  {
    ShlBy8(8, 52);
    ShlBy8(8, 44);
    ShlBy8(8, 36);
    ShlBy8(8, 28);
    ShlBy8(8, 20);
    ShlBy8(8, 12);
    ShlBy8(8, 4);
    assert Shl(8, 4) == 128;
  }

  lemma {:induction false} TailOfSpaces(s: seq<nat>, i: nat)
    requires i <= MAX_PACKED && forall k :: 0 <= k < |s| ==> s[k] == SPACE
    ensures Tail(s, i) == 0
    decreases MAX_PACKED - i
  {
    hide Shl;
    if i < MAX_PACKED {
      TailOfSpaces(s, i + 1);
      ShlOfZero(54 - 6 * i);
    }
  }

  lemma ValidChar(s: seq<nat>, i: nat)
    requires IsValid(s) && i < |s|
    ensures SixBits(s, i) + SPACE == s[i]
  {
  }

  lemma ValidPackedChar(s: seq<nat>, i: nat, rest: nat)
    requires IsValid(s) && i < |s| && rest == 54 - 6 * i
    ensures UnpackedChar(Pack(s), i) == s[i]
  {
    UnpackedCharIsSlice(Pack(s), i, rest);
    PackedChar(s, i, rest);
    ValidChar(s, i);
  }

  /** Two valid strings with the same packed word are equal. */
  lemma PackInjective(s: seq<nat>, t: seq<nat>)
    requires IsValid(s) && IsValid(t) && Pack(s) == Pack(t)
    ensures s == t
  {
    PackedLength(s);
    PackedLength(t);
    forall i | 0 <= i < |s|
      ensures s[i] == t[i]
    {
      ValidPackedChar(s, i, 54 - 6 * i);
      ValidPackedChar(t, i, 54 - 6 * i);
    }
  }

  /** The string of eight spaces, and no other, packs to the NULL word. */
  lemma OnlyEightSpacesPackToNull(s: seq<nat>)
    requires IsValid(s)
    ensures Pack(s) == ALPHANUMERIC_NULL <==> s == EIGHT_SPACES
  {
    PackOfEightSpaces();
    if Pack(s) == ALPHANUMERIC_NULL {
      PackInjective(s, EIGHT_SPACES);
    }
  }

  /**
    Packing then unpacking gives the string back exactly when it is not the NULL word and, for
    length 8, the destination happened to hold the right character at position 6 already.
   */
  lemma PackRoundTrip(s: seq<nat>, before: seq<nat>)
    requires IsValid(s) && |before| >= MAX_PACKED
    ensures Pack(s) != ALPHANUMERIC_NULL && LengthOf(Pack(s)) == |s| && Unpacked(before, Pack(s))[..|s|] == s
      <==> s != EIGHT_SPACES && (|s| == 8 ==> before[6] == s[6])
  {
    OnlyEightSpacesPackToNull(s);
    PackedLength(s);
    var v, after := Pack(s), Unpacked(before, Pack(s));
    if s != EIGHT_SPACES {
      forall i | 0 <= i < |s|
        ensures after[i] == if |s| == 8 && i == 6 then before[i] else s[i]
      {
        ValidPackedChar(s, i, 54 - 6 * i);
      }
      assert |s| == 8 ==> after[..8][6] == before[6];
    }
  }

  /** A length-8 string that does not survive a zeroed destination. */
  lemma LengthEightFails()
    ensures var s: seq<nat> := [0x41, 0x42, 0x43, 0x44, 0x45, 0x46, 0x47, 0x48];
      IsValid(s) && Unpacked(seq(10, _ => 0), Pack(s))[..8] != s
  {
    hide Pack, Unpacked, Shr;
    var s: seq<nat> := [0x41, 0x42, 0x43, 0x44, 0x45, 0x46, 0x47, 0x48];
    var before := seq(10, _ => 0);
    PackRoundTrip(s, before);
    PackedLength(s);
    OnlyEightSpacesPackToNull(s);
    assert s != EIGHT_SPACES by {
      assert s[0] != EIGHT_SPACES[0];
    }
  }

  // ---- Storing a word as a field ----

  /** The length that a word announces in a field for up to `size` characters. */
  function WordLength(size: nat, value: nat): nat
    requires size <= MAX_PACKED
  {
    BsrOfShort(size);
    Shr(value, 64 - Bsr(size + 1))
  }

  /** The leading bytes of the big-endian word, as many as its length needs. */
  function WordField(size: nat, value: nat): (field: seq<byte>)
    requires size <= MAX_PACKED && FieldBytes(Bsr(size + 1), WordLength(size, value)) <= 8
    ensures |field| == FieldBytes(Bsr(size + 1), WordLength(size, value))
  {
    BEBytes(value, 8)[..FieldBytes(Bsr(size + 1), WordLength(size, value))]
  }

  /** `writeAlphanumericInt`: the NULL word has a field of its own, whatever its bits spell. */
  function StoredField(size: nat, value: nat): (field: seq<byte>)
    requires size <= MAX_PACKED && FieldBytes(Bsr(size + 1), WordLength(size, value)) <= 8
  {
    if value == ALPHANUMERIC_NULL then NullField(size) else WordField(size, value)
  }

  /** A NULL field is read as NULL, and its bytes are consumed. */
  lemma NullIsRead(stream: seq<byte>, c: Cursor.Cursor, size: nat)
    requires size + 1 < 0x1_0000_0000 && Cursor.StandsAt(stream, c, NullField(size))
    ensures Cursor.ReadAlphanumeric(stream, c, size)
      == Cursor.Got(Cursor.Null, c.(pos := c.pos + |NullField(size)|))
  {
    hide Bits, Bsr, BEBytes;
    BsrOfWord(size);
    NullFieldBits(size, Bsr(size + 1));
  }

  /** The length of a field, seen by a reader that looks at its first bytes alone. */
  lemma LengthIsPeeked(stream: seq<byte>, c: Cursor.Cursor, field: seq<byte>, sizeBits: nat)
    requires Cursor.StandsAt(stream, c, field) && sizeBits <= 8 * |field|
    ensures Cursor.PeekBits(stream, c, sizeBits) == Cursor.Got(Bits(field, 0, sizeBits), c)
  {
    hide Bits;
    var n := (sizeBits + 7) / 8;
    var header := stream[c.pos..c.pos + n];
    assert header == field[..n];
    BitsPrefix(header, field, 0, sizeBits);
  }

  /** The first bits of a word's field are its length. */
  lemma WordFieldLength(value: nat, field: seq<byte>, sizeBits: nat)
    requires 1 <= sizeBits <= 4 && value < Pow2(64) && field <= BEBytes(value, 8) && |field| >= 1
    ensures Bits(field, 0, sizeBits) == Shr(value, 64 - sizeBits)
  {
    hide Bits, Shr, Shl, Low, BEBytes, BE, Pow2;
    var word, rest := BEBytes(value, 8), 64 - sizeBits;
    LowOfSmall(value, 64);
    BEOfBytes(value, 8);
    BitsOfValue(word, 0, sizeBits, rest);
    HighPartFits(value, sizeBits, rest);
    LowOfSmall(Shr(value, rest), sizeBits);
    BitsPrefix(field, word, 0, sizeBits);
  }

  /** The word of a word's field is the word without the bits behind the field. */
  lemma WordOfField(value: nat, n: nat, rest: nat)
    requires value < Pow2(64) && n <= 8 && rest == 64 - 8 * n
    ensures FieldWord(BEBytes(value, 8)[..n], 8) == value - Low(value, rest)
  {
    hide BE, BEBytes, Shl, Shr, Low, Pow2;
    LowOfSmall(value, 64);
    BEOfBytes(value, 8);
    ShiftedLoad(BEBytes(value, 8), n, rest);
    CutWord(value, rest);
    ShlNone(BE(BEBytes(value, 8)[..n]));
    var field := BEBytes(value, 8)[..n];
    assert n == 8 ==> field[..8] == field;
  }

  /**
    A stored word is read back, and the cursor moves behind its field, exactly when it is NULL or its
    length is admitted and no bit is set behind its characters.
   */
  lemma WordRoundTrip(stream: seq<byte>, c: Cursor.Cursor, size: nat, value: nat)
    requires size <= MAX_PACKED && value < Pow2(64)
    requires FieldBytes(Bsr(size + 1), WordLength(size, value)) <= 8
    requires Cursor.StandsAt(stream, c, StoredField(size, value))
    ensures var n := |StoredField(size, value)|;
      Cursor.ReadAlphanumericAs(stream, c, size, 8) == Cursor.Got(value, c.(pos := c.pos + n))
      <==> value == ALPHANUMERIC_NULL || (WordLength(size, value) <= size && Low(value, 64 - 8 * n) == 0)
  {
    hide Low, Cursor.ReadAlphanumericAs, WordField, NullField, WordLength, Bsr;
    if value == ALPHANUMERIC_NULL {
      NullWordIsRead(stream, c, size);
    } else {
      WordFieldIsRead(stream, c, size, value);
    }
  }

  lemma NullWordIsRead(stream: seq<byte>, c: Cursor.Cursor, size: nat)
    requires size <= MAX_PACKED && Cursor.StandsAt(stream, c, NullField(size))
    ensures Cursor.ReadAlphanumericAs(stream, c, size, 8)
      == Cursor.Got(ALPHANUMERIC_NULL, c.(pos := c.pos + |NullField(size)|))
  {
    hide Bits, Bsr, NullField;
    BsrOfShort(size);
    NullFieldBits(size, Bsr(size + 1));
    LengthIsPeeked(stream, c, NullField(size), Bsr(size + 1));
  }

  /** What is read of a word's field, NULL and lengths that are not admitted included. */
  lemma WordFieldIsRead(stream: seq<byte>, c: Cursor.Cursor, size: nat, value: nat)
    requires size <= MAX_PACKED && value < Pow2(64) && value != ALPHANUMERIC_NULL
    requires FieldBytes(Bsr(size + 1), WordLength(size, value)) <= 8
    requires Cursor.StandsAt(stream, c, WordField(size, value))
    ensures var r, n, len := Cursor.ReadAlphanumericAs(stream, c, size, 8), |WordField(size, value)|,
        WordLength(size, value);
      if len == size + 1 then r.Got? && r.value == ALPHANUMERIC_NULL
      else if len > size then r.Threw?
      else r == Cursor.Got(value - Low(value, 64 - 8 * n), c.(pos := c.pos + n))
  {
    hide Bits, Shr, Low, BEBytes, BE, Pow2, Bsr, FieldWord, FieldBytes;
    BsrOfShort(size);
    var field, sizeBits := WordField(size, value), Bsr(size + 1);
    FieldHolds(sizeBits, WordLength(size, value), 0);
    WordFieldLength(value, field, sizeBits);
    LengthIsPeeked(stream, c, field, sizeBits);
    WordOfField(value, |field|, 64 - 8 * |field|);
    CutWord(value, 64 - 8 * |field|);
  }

  /** What the 32-bit reader makes of a word's field. */
  lemma NarrowFieldIsRead(stream: seq<byte>, c: Cursor.Cursor, size: nat, value: nat)
    requires size <= MAX_PACKED && value < Pow2(64) && value != ALPHANUMERIC_NULL
    requires FieldBytes(Bsr(size + 1), WordLength(size, value)) <= 8
    requires Cursor.StandsAt(stream, c, WordField(size, value))
    ensures var r, field, len := Cursor.ReadAlphanumericAs(stream, c, size, 4), WordField(size, value),
        WordLength(size, value);
      if len == size + 1 then r.Got? && r.value == 0x8000_0000
      else if len > size then r.Threw?
      else r == Cursor.Got(NarrowWord(field), c.(pos := c.pos + |field|))
  {
    hide Bits, Shr, Low, BEBytes, BE, Pow2, Bsr, FieldWord, FieldBytes, NarrowWord;
    BsrOfShort(size);
    var field, sizeBits := WordField(size, value), Bsr(size + 1);
    FieldHolds(sizeBits, WordLength(size, value), 0);
    WordFieldLength(value, field, sizeBits);
    LengthIsPeeked(stream, c, field, sizeBits);
  }

  /** NULL as a word, at the end of the content and from its field, and the fields too long to be one. */
  lemma NullWords(stream: seq<byte>, c: Cursor.Cursor, d: Cursor.Cursor, size: nat)
    requires size <= MAX_PACKED && c.AtEnd() && Cursor.StandsAt(stream, d, NullField(size))
    ensures Cursor.ReadAlphanumericAs(stream, c, size, 4) == Cursor.Got(0x8000_0000, c)
    ensures Cursor.ReadAlphanumericAs(stream, c, size, 8) == Cursor.Got(0x8000_0000_0000_0000, c)
    ensures var behind := d.(pos := d.pos + |NullField(size)|);
      && Cursor.ReadAlphanumericAs(stream, d, size, 4) == Cursor.Got(0x8000_0000, behind)
      && Cursor.ReadAlphanumericAs(stream, d, size, 8) == Cursor.Got(0x8000_0000_0000_0000, behind)
  {
    hide Bits, Bsr, NullField;
    BsrOfShort(size);
    NullFieldBits(size, Bsr(size + 1));
    LengthIsPeeked(stream, d, NullField(size), Bsr(size + 1));
  }

  lemma LongFieldIsNoWord(stream: seq<byte>, c: Cursor.Cursor, size: nat, width: nat)
    requires size > 10 && !c.AtEnd()
    ensures Cursor.ReadAlphanumericAs(stream, c, size, width).Threw?
  {
    hide Bits, Bsr;
  }

  /** The field of a packed string. */
  function PackedField(s: seq<nat>): (field: seq<byte>)
    requires IsValid(s)
  {
    PackedSizes(s);
    StoredField(MAX_PACKED, Pack(s))
  }

  /** The word of a valid string is always read back, the one of eight spaces as NULL. */
  lemma PackedIsRead(stream: seq<byte>, c: Cursor.Cursor, s: seq<nat>)
    requires IsValid(s) && Cursor.StandsAt(stream, c, PackedField(s))
    ensures Cursor.ReadAlphanumericAs(stream, c, MAX_PACKED, 8)
      == Cursor.Got(Pack(s), c.(pos := c.pos + |PackedField(s)|))
  {
    hide Bits, Shr, Shl, Low, BEBytes, BE, Pow2, Bsr, FieldWord, Pack;
    PackedSizes(s);
    PackFitsWord(s);
    var n := |PackedField(s)|;
    if Pack(s) != ALPHANUMERIC_NULL {
      UnusedBitsAreZero(s, 64 - 8 * n, 60 - 6 * |s| - (64 - 8 * n));
    }
    WordRoundTrip(stream, c, MAX_PACKED, Pack(s));
  }

  lemma PackedSizes(s: seq<nat>)
    requires IsValid(s)
    ensures Bsr(MAX_PACKED + 1) == 4 && WordLength(MAX_PACKED, Pack(s)) == |s|
    ensures LengthOf(Pack(s)) == |s| && 1 <= FieldBytes(4, |s|) <= 8
  {
    hide Pack, Shr;
    PackedLength(s);
    assert Bsr(1) == 1 && Bsr(2) == 2;
    assert Bsr(5) == 3;
  }

  /**
    A string packed, stored, read back as a word and unpacked over `before` comes out whole exactly
    when it is not the string that packs to NULL and, for length 8, `before` holds its seventh character.
   */
  lemma IntegerRoundTrip(stream: seq<byte>, c: Cursor.Cursor, s: seq<nat>, before: seq<nat>)
    requires IsValid(s) && |before| >= MAX_PACKED && Cursor.StandsAt(stream, c, PackedField(s))
    ensures var r := Cursor.ReadAlphanumericAs(stream, c, MAX_PACKED, 8);
      && r.Got? && r.cursor.pos == c.pos + |PackedField(s)|
      && (r.value != ALPHANUMERIC_NULL && LengthOf(r.value) == |s| && Unpacked(before, r.value)[..|s|] == s
          <==> s != EIGHT_SPACES && (|s| == 8 ==> before[6] == s[6]))
  {
    hide Pack, Shr, Bsr, BEBytes, Unpacked;
    PackedSizes(s);
    PackedIsRead(stream, c, s);
    PackRoundTrip(s, before);
  }

  // ---- A stored word as characters ----

  /** The bits of a word's field are the length and the characters that were packed. */
  lemma PackedFieldSpells(s: seq<nat>)
    requires IsValid(s)
    ensures WordLength(MAX_PACKED, Pack(s)) == |s| && Bsr(MAX_PACKED + 1) == 4
    ensures var field := WordField(MAX_PACKED, Pack(s)); Bits(field, 0, 4) == |s| && Chars(field, 4, |s|) == s
  {
    hide BE, BEBytes, Bits, Pack, Shr, Shl, Bsr, Pow2;
    PackedSizes(s);
    PackFitsWord(s);
    var field := WordField(MAX_PACKED, Pack(s));
    WordFieldLength(Pack(s), field, 4);
    StoredChars(s, field, |s|);
  }

  /**
    What was stored as a word and is read as characters: the string, exactly when it is not the one
    that packs to NULL; that one is read as NULL.
   */
  lemma StoredFieldIsRead(stream: seq<byte>, c: Cursor.Cursor, s: seq<nat>)
    requires IsValid(s) && Cursor.StandsAt(stream, c, PackedField(s))
    ensures var behind := c.(pos := c.pos + |PackedField(s)|);
      var r := Cursor.ReadAlphanumeric(stream, c, MAX_PACKED);
      && (r == Cursor.Got(Cursor.Chars(s), behind) <==> s != EIGHT_SPACES)
      && (r == Cursor.Got(Cursor.Null, behind) <==> s == EIGHT_SPACES)
  {
    hide Bits, Pack, BEBytes, Shr, BE, Bsr, FieldBytes, Alphanumeric.Chars;
    PackedSizes(s);
    OnlyEightSpacesPackToNull(s);
    if s == EIGHT_SPACES {
      NullIsRead(stream, c, MAX_PACKED);
    } else {
      PackedFieldSpells(s);
      LengthIsPeeked(stream, c, PackedField(s), 4);
    }
  }

  /** Eight spaces are stored as one byte, and read as NULL. */
  lemma EightSpacesAreLost()
    ensures PackedField(EIGHT_SPACES) == [0xB0]
    ensures Cursor.ReadAlphanumeric([0xB0], Cursor.Cursor(0, 1, [], []), MAX_PACKED)
      == Cursor.Got(Cursor.Null, Cursor.Cursor(1, 1, [], []))
  {
    hide Pack, BEBytes, Bsr, Shl, Shr;
    PackedSizes(EIGHT_SPACES);
    PackOfEightSpaces();
    NullFieldOfTen();
    NullIsRead([0xB0], Cursor.Cursor(0, 1, [], []), MAX_PACKED);
  }

  lemma NullFieldOfTen()
    requires Bsr(MAX_PACKED + 1) == 4
    ensures NullField(MAX_PACKED) == [0xB0]
  {
    hide Bsr;
    assert BEBytes(Shl(11, 28), 4)[0] == 0xB0 by {
      ShlBy8(11, 20);
      ShlBy8(11, 12);
      ShlBy8(11, 4);
    }
  }

  lemma StoredChar(s: seq<nat>, field: seq<byte>, i: nat, pos: nat, rest: nat)
    requires IsValid(s) && i < |s| && pos == 4 + 6 * i && rest == 54 - 6 * i
    requires field <= BEBytes(Pack(s), 8) && pos + 6 <= 8 * |field|
    ensures Bits(field, pos, 6) == SixBits(s, i)
  {
    var word := BEBytes(Pack(s), 8);
    PackIsWord(s);
    BitsPrefix(field, word, pos, 6);
    BitsOfValue(word, pos, 6, rest);
    PackedChar(s, i, rest);
  }

  lemma PackIsWord(s: seq<nat>)
    requires |s| <= MAX_PACKED
    ensures BE(BEBytes(Pack(s), 8)) == Pack(s)
  {
    PackFitsWord(s);
    LowOfSmall(Pack(s), 64);
    BEOfBytes(Pack(s), 8);
  }

  lemma {:induction false} StoredChars(s: seq<nat>, field: seq<byte>, n: nat)
    requires IsValid(s) && n <= |s|
    requires field <= BEBytes(Pack(s), 8) && 4 + 6 * n <= 8 * |field|
    ensures Chars(field, 4, n) == s[..n]
  {
    hide Bits, Pack, BEBytes, SixBits;
    if n > 0 {
      var i, pos, rest := n - 1, 4 + 6 * (n - 1), 60 - 6 * n;
      StoredChars(s, field, i);
      StoredChar(s, field, i, pos, rest);
      ValidChar(s, i);
    }
  }

  lemma UnusedBitsAreZero(s: seq<nat>, rest: nat, more: nat)
    requires |s| <= MAX_PACKED && rest + more == 60 - 6 * |s|
    ensures Low(Pack(s), rest) == 0
  {
    hide Shr, Shl, Low, Pow2, Tail, SixBits, Pack;
    PackCut(s, |s|, rest + more);
    TailBeyond(s, |s|);
    CutUnique(Head(s, |s|), 0, rest + more);
    LowSplit(Pack(s), rest, more);
  }
}
