/**
  The writer of alphanumeric fields of any size: characters collected in a 64-bit accumulator that is
  stored whenever it is full.

  A character that straddles two accumulators has its upper bits stored with the first of them.  The
  source takes these bits from the variable that still holds the character before, so `Stored`, what
  the field spells at a place, is not always the character written there.
 */
module AlphanumericWriter {
  import opened Words
  import opened Alphanumeric
  import PackedAlphanumeric
  import DataWriter
  import Cursor

  const WORD := 64

  /** Six-bit codes of characters from 0x20 to 0x5F. */
  predicate AreCodes(codes: seq<nat>)
  {
    forall i :: 0 <= i < |codes| ==> codes[i] < 64
  }

  predicate AreCharacters(s: seq<nat>)
  {
    forall i :: 0 <= i < |s| ==> SPACE <= s[i] < SPACE + 64
  }

  /** `(UCHARTYPE)c - ' '`, in unsigned 32-bit arithmetic. */
  function Code(c: nat): nat
  {
    (c + 0x1_0000_0000 - SPACE) % 0x1_0000_0000
  }

  function Codes(s: seq<nat>): (codes: seq<nat>)
    ensures |codes| == |s|
    ensures forall i :: 0 <= i < |s| ==> codes[i] == Code(s[i])
  {
    seq(|s|, i requires 0 <= i < |s| => Code(s[i]))
  }

  lemma CodesOfCharacters(s: seq<nat>)
    requires forall i :: 0 <= i < |s| ==> s[i] < 0x1_0000_0000
    ensures AreCodes(Codes(s)) <==> AreCharacters(s)
    ensures AreCharacters(s) ==> forall i :: 0 <= i < |s| ==> Codes(s)[i] + SPACE == s[i]
  {
    forall i | 0 <= i < |s|
      ensures Code(s[i]) < 64 <==> SPACE <= s[i] < SPACE + 64
    {
    }
    if AreCodes(Codes(s)) {
      assert forall i :: 0 <= i < |s| ==> Codes(s)[i] < 64;
    }
  }

  // ---- What a field spells ----

  /** How many low bits of the character at a bit position fall into the next word; 0 when the
      character does not straddle two words. */
  function Overhang(pos: nat): (k: nat)
    ensures k <= 5
  {
    if pos % WORD > 58 then pos % WORD - 58 else 0
  }

  /** The code found at place `i` of a written field. */
  function Stored(codes: seq<nat>, sizeBits: nat, i: nat): nat
    requires i < |codes| && sizeBits <= 58
  {
    var k := Overhang(sizeBits + 6 * i);
    if k == 0 then codes[i] else Shl(Shr(codes[i - 1], k), k) + Low(codes[i], k)
  }

  /** The number spelled by the length and the first `i` codes. */
  function Head(codes: seq<nat>, sizeBits: nat, i: nat): nat
    requires i <= |codes| && sizeBits <= 58
  {
    if i == 0 then |codes| else Shl(Head(codes, sizeBits, i - 1), 6) + Stored(codes, sizeBits, i - 1)
  }

  /** Unused bits at the end of the last byte. */
  function Padding(sizeBits: nat, len: nat): (pad: nat)
    ensures pad < 8 && sizeBits + 6 * len + pad == 8 * FieldBytes(sizeBits, len)
  {
    8 * FieldBytes(sizeBits, len) - (sizeBits + 6 * len)
  }

  /** The field that is written: length and stored codes from the top of its first byte on. */
  function Field(sizeBits: nat, codes: seq<nat>): (field: seq<byte>)
    requires sizeBits <= 58
    ensures |field| == FieldBytes(sizeBits, |codes|)
  {
    BEBytes(Shl(Head(codes, sizeBits, |codes|), Padding(sizeBits, |codes|)), FieldBytes(sizeBits, |codes|))
  }

  lemma CutCode(h: nat, l: nat, k: nat)
    requires k <= 6 && h < Pow2(6 - k) && l < Pow2(k)
    ensures Shl(h, k) + l < 64
  {
    ShlBound(h, 6 - k, k);
    assert Pow2(6) == 64;
  }

  lemma StoredIsCode(codes: seq<nat>, sizeBits: nat, i: nat)
    requires i < |codes| && sizeBits <= 58 && AreCodes(codes)
    ensures Stored(codes, sizeBits, i) < 64
  {
    hide Shl, Shr, Low, Pow2;
    var k := Overhang(sizeBits + 6 * i);
    if k > 0 {
      SixtyFour();
      HighPartFits(codes[i - 1], 6 - k, k);
      LowBound(codes[i], k);
      CutCode(Shr(codes[i - 1], k), Low(codes[i], k), k);
    }
  }

  lemma SixtyFour()
    ensures Pow2(6) == 64
  {
  }

  /** A code is stored as itself exactly when it does not straddle two words, or the code before it has
      the same upper bits. */
  lemma StoredAsItself(codes: seq<nat>, sizeBits: nat, i: nat)
    requires i < |codes| && sizeBits <= 58
    ensures var k := Overhang(sizeBits + 6 * i);
      Stored(codes, sizeBits, i) == codes[i] <==> k == 0 || Shr(codes[i - 1], k) == Shr(codes[i], k)
  {
    hide Shl, Shr, Low, Pow2;
    var k := Overhang(sizeBits + 6 * i);
    if k > 0 {
      CutWord(codes[i], k);
      LowBound(codes[i], k);
      CutUnique(Shr(codes[i - 1], k), Low(codes[i], k), k);
    }
  }

  // ---- Reading the field ----

  lemma {:induction false} HeadCut(codes: seq<nat>, sizeBits: nat, i: nat, n: nat, rest: nat)
    requires i <= n <= |codes| && sizeBits <= 58 && AreCodes(codes) && rest == 6 * (n - i)
    ensures Shr(Head(codes, sizeBits, n), rest) == Head(codes, sizeBits, i)
    decreases n
  {
    hide Shr, Shl, Pow2, Stored;
    if i == n {
      ShrNone(Head(codes, sizeBits, n));
    } else {
      SixtyFour();
      StoredIsCode(codes, sizeBits, n - 1);
      CutUnique(Head(codes, sizeBits, n - 1), Stored(codes, sizeBits, n - 1), 6);
      ShrShr(Head(codes, sizeBits, n), 6, rest - 6);
      HeadCut(codes, sizeBits, i, n - 1, rest - 6);
    }
  }

  /** The first `n` bits of a value that stands above some padding. */
  lemma BitsAbovePadding(field: seq<byte>, x: nat, pad: nat, off: nat, n: nat, rest: nat)
    requires BE(field) == Shl(x, pad) && off + n + rest + pad == 8 * |field|
    ensures Bits(field, off, n) == Low(Shr(x, rest), n)
  {
    hide Bits, BE, Shl, Shr, Low, Pow2;
    BitsOfValue(field, off, n, pad + rest);
    ShrShr(Shl(x, pad), pad, rest);
    CutUnique(x, 0, pad);
  }

  lemma HeadFits(codes: seq<nat>, sizeBits: nat, n: nat, pad: nat)
    requires n <= |codes| && sizeBits <= 58 && AreCodes(codes) && |codes| < Pow2(sizeBits)
    ensures Shl(Head(codes, sizeBits, n), pad) < Pow2(sizeBits + 6 * n + pad)
  {
    hide Shl, Pow2, Stored;
    HeadBound(codes, sizeBits, n);
    ShlBound(Head(codes, sizeBits, n), sizeBits + 6 * n, pad);
  }

  lemma {:induction false} HeadBound(codes: seq<nat>, sizeBits: nat, n: nat)
    requires n <= |codes| && sizeBits <= 58 && AreCodes(codes) && |codes| < Pow2(sizeBits)
    ensures Head(codes, sizeBits, n) < Pow2(sizeBits + 6 * n)
  {
    hide Shl, Pow2, Stored;
    if n > 0 {
      HeadBound(codes, sizeBits, n - 1);
      StoredIsCode(codes, sizeBits, n - 1);
      SixtyFour();
      ShlBound(Head(codes, sizeBits, n - 1), sizeBits + 6 * (n - 1), 6);
      assert sizeBits + 6 * (n - 1) + 6 == sizeBits + 6 * n;
    }
  }

  lemma FieldValue(codes: seq<nat>, sizeBits: nat)
    requires sizeBits <= 58 && AreCodes(codes) && |codes| < Pow2(sizeBits)
    ensures BE(Field(sizeBits, codes)) == Shl(Head(codes, sizeBits, |codes|), Padding(sizeBits, |codes|))
  {
    hide BE, BEBytes, Shl, Low, Pow2, Head, FieldBytes, Padding;
    var n, pad := FieldBytes(sizeBits, |codes|), Padding(sizeBits, |codes|);
    HeadFits(codes, sizeBits, |codes|, pad);
    BEOfBytes(Shl(Head(codes, sizeBits, |codes|), pad), n);
    LowOfSmall(Shl(Head(codes, sizeBits, |codes|), pad), 8 * n);
  }

  /** The field spells its length and, one after the other, the stored codes. */
  lemma FieldSpells(codes: seq<nat>, sizeBits: nat, i: nat)
    requires sizeBits <= 58 && AreCodes(codes) && |codes| < Pow2(sizeBits)
    ensures Bits(Field(sizeBits, codes), 0, sizeBits) == |codes|
    ensures i < |codes| ==> Bits(Field(sizeBits, codes), sizeBits + 6 * i, 6) == Stored(codes, sizeBits, i)
  {
    hide BE, Bits, Shl, Shr, Low, Pow2, Stored, Field, FieldBytes, Padding;
    var field, n, pad := Field(sizeBits, codes), |codes|, Padding(sizeBits, |codes|);
    FieldValue(codes, sizeBits);
    BitsAbovePadding(field, Head(codes, sizeBits, n), pad, 0, sizeBits, 6 * n);
    HeadCut(codes, sizeBits, 0, n, 6 * n);
    LowOfSmall(n, sizeBits);
    if i < n {
      SixtyFour();
      var rest := 6 * (n - (i + 1));
      BitsAbovePadding(field, Head(codes, sizeBits, n), pad, sizeBits + 6 * i, 6, rest);
      HeadCut(codes, sizeBits, i + 1, n, rest);
      StoredIsCode(codes, sizeBits, i);
      CutUnique(Head(codes, sizeBits, i), Stored(codes, sizeBits, i), 6);
    }
  }

  /** What is written for a string, or for NULL. */
  function Written(size: nat, str: Option<seq<nat>>): (field: seq<byte>)
    requires size + 1 < 0x1_0000_0000
  {
    BsrOfWord(size);
    if str.None? then NullField(size) else Field(Bsr(size + 1), Codes(str.value))
  }

  /** A place where the field has the character that was written. */
  predicate Survives(codes: seq<nat>, sizeBits: nat, i: nat)
    requires i < |codes| && sizeBits <= 58
  {
    var k := Overhang(sizeBits + 6 * i);
    k == 0 || Shr(codes[i - 1], k) == Shr(codes[i], k)
  }

  predicate AllSurvive(codes: seq<nat>, sizeBits: nat)
    requires sizeBits <= 58
  {
    forall i :: 0 <= i < |codes| ==> Survives(codes, sizeBits, i)
  }

  lemma LengthFitsBits(size: nat, len: nat)
    requires len <= size && size + 1 < 0x1_0000_0000
    ensures 1 <= Bsr(size + 1) <= 32 && len < Pow2(Bsr(size + 1))
  {
    BsrOfWord(size);
    BsrBounds(size + 1);
  }

  /** A field of any size is read with its own length, and at every place with the stored code. */
  lemma FieldIsRead(stream: seq<byte>, c: Cursor.Cursor, size: nat, s: seq<nat>)
    requires size + 1 < 0x1_0000_0000 && |s| <= size && AreCharacters(s)
    requires Cursor.StandsAt(stream, c, Written(size, Some(s)))
    ensures 1 <= Bsr(size + 1) <= 58
    ensures var r := Cursor.ReadAlphanumeric(stream, c, size);
      && r.Got? && r.cursor == c.(pos := c.pos + |Written(size, Some(s))|)
      && r.value.Chars? && |r.value.chars| == |s|
      && forall i :: 0 <= i < |s| ==> r.value.chars[i] == Stored(Codes(s), Bsr(size + 1), i) + SPACE
  {
    hide Bits, Bsr, Pow2, Field, Stored, FieldBytes, Code;
    LengthFitsBits(size, |s|);
    CodesOfCharacters(s);
    var sizeBits, codes := Bsr(size + 1), Codes(s);
    var field := Field(sizeBits, codes);
    FieldHolds(sizeBits, |s|, 0);
    FieldHolds(sizeBits, |s|, |s|);
    PackedAlphanumeric.LengthIsPeeked(stream, c, field, sizeBits);
    FieldSpells(codes, sizeBits, |s|);
    forall i | 0 <= i < |s|
      ensures Bits(field, sizeBits + 6 * i, 6) == Stored(codes, sizeBits, i)
    {
      FieldSpells(codes, sizeBits, i);
    }
  }

  /**
    NULL is read as NULL; a string is read back exactly when every character that straddles two words
    has the same upper bits as the character before it.
   */
  lemma AlphanumericRoundTrip(stream: seq<byte>, c: Cursor.Cursor, size: nat, str: Option<seq<nat>>)
    requires size + 1 < 0x1_0000_0000 && (str.Some? ==> |str.value| <= size && AreCharacters(str.value))
    requires Cursor.StandsAt(stream, c, Written(size, str))
    ensures 1 <= Bsr(size + 1) <= 58
    ensures var r, behind := Cursor.ReadAlphanumeric(stream, c, size), c.(pos := c.pos + |Written(size, str)|);
      && (str.None? ==> r == Cursor.Got(Cursor.Null, behind))
      && (str.Some? ==>
            (r == Cursor.Got(Cursor.Chars(str.value), behind) <==> AllSurvive(Codes(str.value), Bsr(size + 1))))
  {
    hide Bsr, Written, Cursor.ReadAlphanumeric, Stored, Survives, Code;
    LengthFitsBits(size, 0);
    if str.None? {
      NullStands(stream, c, size);
    } else {
      var s, sizeBits := str.value, Bsr(size + 1);
      FieldIsRead(stream, c, size, s);
      CodesOfCharacters(s);
      forall i | 0 <= i < |s|
        ensures Stored(Codes(s), sizeBits, i) + SPACE == s[i] <==> Survives(Codes(s), sizeBits, i)
      {
        SurvivesAsItself(Codes(s), sizeBits, i);
      }
      SameCharacters(Cursor.ReadAlphanumeric(stream, c, size).value.chars, s, Codes(s), sizeBits);
    }
  }

  lemma SameCharacters(r: seq<nat>, s: seq<nat>, codes: seq<nat>, sizeBits: nat)
    requires |r| == |s| == |codes| && sizeBits <= 58
    requires forall i :: 0 <= i < |s| ==> (r[i] == s[i] <==> Survives(codes, sizeBits, i))
    ensures r == s <==> AllSurvive(codes, sizeBits)
  {
    hide Survives;
    if AllSurvive(codes, sizeBits) {
      assert forall i :: 0 <= i < |s| ==> r[i] == s[i];
    }
  }

  lemma NullStands(stream: seq<byte>, c: Cursor.Cursor, size: nat)
    requires size + 1 < 0x1_0000_0000 && Cursor.StandsAt(stream, c, Written(size, None))
    ensures Cursor.ReadAlphanumeric(stream, c, size)
      == Cursor.Got(Cursor.Null, c.(pos := c.pos + |Written(size, None)|))
  {
    PackedAlphanumeric.NullIsRead(stream, c, size);
  }

  lemma SurvivesAsItself(codes: seq<nat>, sizeBits: nat, i: nat)
    requires i < |codes| && sizeBits <= 58
    ensures Stored(codes, sizeBits, i) == codes[i] <==> Survives(codes, sizeBits, i)
  {
    StoredAsItself(codes, sizeBits, i);
  }

  /** Strings that fit one word with their length always survive. */
  lemma ShortStringsSurvive(codes: seq<nat>, sizeBits: nat, i: nat)
    requires i < |codes| && 1 <= sizeBits && sizeBits + 6 * |codes| <= WORD
    ensures Survives(codes, sizeBits, i)
  {
  }

  /** Nine spaces and an underscore in a field of size 16 are read as nine spaces and an exclamation mark. */
  lemma StraddleFails()
    ensures var s: seq<nat> := seq(9, _ => 0x20) + [0x5F]; var n := |Written(16, Some(s))|;
      Cursor.ReadAlphanumeric(Written(16, Some(s)), Cursor.Cursor(0, n, [], []), 16)
      == Cursor.Got(Cursor.Chars(seq(9, _ => 0x20) + [0x21]), Cursor.Cursor(n, n, [], []))
  {
    hide Written, Cursor.ReadAlphanumeric, Bsr, Stored;
    var s: seq<nat> := seq(9, _ => 0x20) + [0x5F];
    var field := Written(16, Some(s));
    var c := Cursor.Cursor(0, |field|, [], []);
    assert field[0..|field|] == field;
    FieldIsRead(field, c, 16, s);
    FiveBits();
    UnderscoreLost(Codes(s));
    assert Cursor.ReadAlphanumeric(field, c, 16).value.chars == seq(9, _ => 0x20) + [0x21];
  }

  lemma FiveBits()
    ensures Bsr(16 + 1) == 5
  {
    assert Bsr(1) == 1 && Bsr(2) == 2 && Bsr(4) == 3;
    assert Bsr(8) == 4;
  }

  lemma UnderscoreLost(codes: seq<nat>)
    requires |codes| == 10 && codes[9] == 63 && forall i :: 0 <= i < 9 ==> codes[i] == 0
    ensures Stored(codes, 5, 9) == 1 && forall i :: 0 <= i < 9 ==> Stored(codes, 5, i) == 0
  {
    assert Low(63, 1) == 1 && Shr(0, 1) == 0 && Shl(0, 1) == 0;
  }

  // ---- The accumulator ----

  /** The words stored so far and the low bits of the accumulator spell the length and `i` codes. */
  ghost predicate Spelled(words: seq<byte>, acc: nat, used: nat, codes: seq<nat>, sizeBits: nat, i: nat)
  {
    && i <= |codes| && sizeBits <= 58 && 1 <= used <= WORD
    && |words| % 8 == 0 && sizeBits + 6 * i == 8 * |words| + used
    && Shl(BE(words), used) + Low(acc, used) == Head(codes, sizeBits, i)
  }

  lemma LengthSpelled(codes: seq<nat>, sizeBits: nat)
    requires 1 <= sizeBits <= 58 && |codes| < Pow2(sizeBits)
    ensures Spelled([], |codes|, sizeBits, codes, sizeBits, 0)
  {
    LowOfSmall(|codes|, sizeBits);
    ShlOfZero(sizeBits);
  }

  lemma OverhangOf(bytes: nat, used: nat)
    requires bytes % 8 == 0 && 1 <= used <= WORD
    ensures Overhang(8 * bytes + used) == if 58 < used < WORD then used - 58 else 0
  {
    assert 8 * bytes == WORD * (bytes / 8);
  }

  /** One more code in the accumulator. */
  lemma PushCode(words: seq<byte>, acc: nat, used: nat, codes: seq<nat>, sizeBits: nat, i: nat)
    requires Spelled(words, acc, used, codes, sizeBits, i) && i < |codes| && codes[i] < 64 && used <= 58
    ensures Spelled(words, Low(Shl(acc, 6), WORD) + codes[i], used + 6, codes, sizeBits, i + 1)
  {
    hide Shl, Shr, Low, Pow2, BE;
    SixtyFour();
    OverhangOf(|words|, used);
    ShlShl(BE(words), used, 6);
    ShlSum(Shl(BE(words), used), Low(acc, used), 6);
    Truncated(acc, codes[i], used);
  }

  lemma Truncated(acc: nat, c: nat, used: nat)
    requires c < 64 && used <= 58
    ensures Low(Low(Shl(acc, 6), WORD) + c, used + 6) == Shl(Low(acc, used), 6) + c
  {
    hide Shl, Shr, Low, Pow2;
    SixtyFour();
    LowOfPushed(acc, 0, 58, 6);
    LowOfPushed(Low(acc, 58), c, used, 6);
    LowOfLow(acc, used, 58 - used);
    assert used + (58 - used) == 58;
  }

  /** A full accumulator is stored, and the code that did not fit it starts the next one. */
  lemma FlushCode(words: seq<byte>, acc: nat, used: nat, codes: seq<nat>, sizeBits: nat, i: nat, free: nat)
    requires Spelled(words, acc, used, codes, sizeBits, i) && 0 < i < |codes| && codes[i - 1] < 64 && codes[i] < 64
    requires used > 58 && free == WORD - used
    ensures Spelled(words + BEBytes(Shl(acc, free) + Shr(codes[i - 1], 6 - free), 8),
                    codes[i], 6 - free, codes, sizeBits, i + 1)
  {
    hide Shl, Shr, Low, Pow2, BE, BEBytes, Head, Stored;
    var t, k := Shr(codes[i - 1], 6 - free), 6 - free;
    SixtyFour();
    HighPartFits(codes[i - 1], free, k);
    FlushedValue(words, acc, used, t, free, Head(codes, sizeBits, i));
    HeadOfFlushed(codes, sizeBits, i, |words|, used, free);
    ShlSum(Shl(Head(codes, sizeBits, i), free), t, k);
    ShlShl(Head(codes, sizeBits, i), free, k);
  }

  /** The words with one more behind them: all that was spelled, and some bits of the next code. */
  lemma FlushedValue(words: seq<byte>, acc: nat, used: nat, t: nat, free: nat, head: nat)
    requires used + free == WORD && t < Pow2(free) && head == Shl(BE(words), used) + Low(acc, used)
    ensures BE(words + BEBytes(Shl(acc, free) + t, 8)) == Shl(head, free) + t
  {
    hide Shl, Shr, Low, Pow2, BE, BEBytes;
    BEConcat(words, BEBytes(Shl(acc, free) + t, 8));
    BEOfBytes(Shl(acc, free) + t, 8);
    LowOfPushed(acc, t, used, free);
    ShlShl(BE(words), used, free);
    ShlSum(Shl(BE(words), used), Low(acc, used), free);
  }

  /** The next code, as the bits stored with the full word and those left for the next one. */
  lemma HeadOfFlushed(codes: seq<nat>, sizeBits: nat, i: nat, bytes: nat, used: nat, free: nat)
    requires 0 < i < |codes| && sizeBits <= 58 && codes[i - 1] < 64 && codes[i] < 64
    requires bytes % 8 == 0 && sizeBits + 6 * i == 8 * bytes + used && 58 < used <= WORD && free == WORD - used
    ensures var k := 6 - free;
      Head(codes, sizeBits, i + 1)
      == Shl(Head(codes, sizeBits, i), 6) + (Shl(Shr(codes[i - 1], k), k) + Low(codes[i], k))
  {
    hide Shl, Shr, Low, Pow2;
    OverhangOf(bytes, used);
    WholeCode(codes, i, 6 - free);
  }

  lemma WholeCode(codes: seq<nat>, i: nat, k: nat)
    requires 0 < i < |codes| && codes[i - 1] < 64 && codes[i] < 64
    ensures k == 6 ==> Shl(Shr(codes[i - 1], k), k) + Low(codes[i], k) == codes[i]
  {
    SixtyFour();
    if k == 6 {
      ShrOfSmall(codes[i - 1], 6, 6);
      ShlOfZero(6);
      LowOfSmall(codes[i], 6);
    }
  }

  /** The last store completes the field. */
  lemma LastWord(words: seq<byte>, acc: nat, used: nat, codes: seq<nat>, sizeBits: nat, free: nat, n: nat)
    requires Spelled(words, acc, used, codes, sizeBits, |codes|)
    requires free == WORD - used && n == (used + 7) / 8
    ensures words + BEBytes(Shl(acc, free), 8)[..n] == Field(sizeBits, codes)
  {
    hide Shl, Shr, Low, Pow2, BE, BEBytes, Head, FieldBytes, Padding;
    var word, last, pad := BEBytes(Shl(acc, free), 8), BEBytes(Shl(acc, free), 8)[..n], 8 * n - used;
    BEOfBytes(Shl(acc, free), 8);
    LowOfWord(acc, used, free);
    ShiftedLoad(word, n, WORD - 8 * n);
    ShrOfShl(Low(acc, used), pad, WORD - 8 * n);
    BEConcat(words, last);
    ShlShl(BE(words), used, pad);
    ShlSum(Shl(BE(words), used), Low(acc, used), pad);
    assert 8 * |words + last| == sizeBits + 6 * |codes| + pad;
    SizeOfField(sizeBits, |codes|, |words + last|, pad);
    BytesOfBE(words + last);
  }

  lemma LowOfWord(acc: nat, used: nat, free: nat)
    requires used + free == WORD
    ensures Low(Shl(acc, free), WORD) == Shl(Low(acc, used), free)
  {
    hide Shl, Low;
    LowOfPushed(acc, 0, used, free);
  }

  lemma SizeOfField(sizeBits: nat, len: nat, bytes: nat, pad: nat)
    requires 8 * bytes == sizeBits + 6 * len + pad && pad < 8
    ensures FieldBytes(sizeBits, len) == bytes && Padding(sizeBits, len) == pad
  {
  }

  /** The accumulator is stored within the field, and never before the first code. */
  lemma WordWithin(words: seq<byte>, acc: nat, used: nat, codes: seq<nat>, sizeBits: nat, i: nat)
    requires Spelled(words, acc, used, codes, sizeBits, i) && i < |codes| && used > 58
    ensures i > 0 && |words| + 8 <= FieldBytes(sizeBits, |codes|)
  {
  }

  lemma Cleared()
    ensures Low(Shl(0, 6), WORD) == 0
  {
    ShlOfZero(6);
    LowOfSmall(0, WORD);
  }

  // ---- The writer ----

  /** Stores a full accumulator, with the upper bits of `ch` in its free ones. */
  method Flush(w: DataWriter.Writer, accumulator: nat, free: nat, ch: nat, ghost before: seq<byte>,
      ghost words: seq<byte>)
    returns (ok: bool)
    requires w.HasRoom() && free < 6 && w.buffer[..w.dataPtr] == before + words
    modifies w`dataPtr, w.buffer
    ensures w.dataPtr == old(w.dataPtr) + 8 && (ok <==> w.dataPtr <= w.dataEnd)
    ensures ok ==>
      && w.HasRoom()
      && w.buffer[..w.dataPtr] == before + (words + BEBytes(Shl(accumulator, free) + Shr(ch, 6 - free), 8))
  {
    hide Shl, Shr, BEBytes;
    ghost var word := BEBytes(Shl(accumulator, free) + Shr(ch, 6 - free), 8);
    ok := w.PutBE(Shl(accumulator, free) + Shr(ch, 6 - free), 8, 8);
    assert ok ==> w.buffer[..w.dataPtr] == before + (words + word);
  }

  /** The loop of `putAlphanumeric` for a string of at least one character. */
  method PutCharacters(w: DataWriter.Writer, sizeBits: nat, s: seq<nat>) returns (ok: bool)
    requires w.HasRoom() && 1 <= sizeBits <= 58 && 0 < |s| < Pow2(sizeBits)
    requires forall i :: 0 <= i < |s| ==> s[i] < 0x1_0000_0000
    modifies w`dataPtr, w.buffer
    ensures ok <==> AreCharacters(s) && old(w.dataPtr) + |Field(sizeBits, Codes(s))| <= w.dataEnd
    ensures ok ==> w.HasRoom() && w.buffer[..w.dataPtr] == old(w.buffer[..w.dataPtr]) + Field(sizeBits, Codes(s))
  {
    hide Shl, Shr, Low, Pow2, BE, BEBytes, Field, FieldBytes, Spelled, Code;
    ghost var before, words, codes: seq<nat> := w.buffer[..w.dataPtr], [], Codes(s);
    CodesOfCharacters(s);
    LengthSpelled(codes, sizeBits);
    var accumulator: nat, nBitsFree: int, ch: nat, i: nat := |s|, WORD - sizeBits, 0, 0;
    while i != |s|
      invariant i <= |s| && 0 <= nBitsFree < WORD
      invariant forall k :: 0 <= k < i ==> codes[k] < 64
      invariant i > 0 ==> ch == codes[i - 1]
      invariant w.HasRoom() && w.buffer[..w.dataPtr] == before + words
      invariant Spelled(words, accumulator, WORD - nBitsFree, codes, sizeBits, i)
    {
      ghost var used, stored := WORD - nBitsFree, accumulator;
      var full := nBitsFree < 6;
      nBitsFree := nBitsFree - 6;
      if full {
        WordWithin(words, accumulator, used, codes, sizeBits, i);
        ok := Flush(w, accumulator, nBitsFree + 6, ch, before, words);
        if !ok {
          return;
        }
        nBitsFree := nBitsFree + WORD;
        accumulator := 0;
        Cleared();
        if AreCharacters(s) {
          assert codes[i] < 64;
        }
      }
      if Code(s[i]) >= 64 {
        return false;
      }
      if full {
        FlushCode(words, stored, used, codes, sizeBits, i, WORD - used);
        words := words + BEBytes(Shl(stored, WORD - used) + Shr(ch, 6 - (WORD - used)), 8);
      } else {
        PushCode(words, accumulator, used, codes, sizeBits, i);
      }
      ch := Code(s[i]);
      accumulator := Low(Shl(accumulator, 6), WORD) + ch;
      i := i + 1;
    }
    LastWord(words, accumulator, WORD - nBitsFree, codes, sizeBits, nBitsFree, (WORD + 7 - nBitsFree) / 8);
    ghost var last := BEBytes(Shl(accumulator, nBitsFree), 8)[..(WORD + 7 - nBitsFree) / 8];
    ok := w.PutBE(Shl(accumulator, nBitsFree), 8, (WORD + 7 - nBitsFree) / 8);
    assert w.buffer[..w.dataPtr] == before + (words + last);
  }

  /** `putAlphanumeric`: an exception, or the whole field behind what was written, and the mark behind it
      unless the value is NULL. */
  method PutAlphanumeric(w: DataWriter.Writer, size: nat, str: Option<seq<nat>>, stringLength: nat) returns (ok: bool)
    requires w.HasRoom() && size + 1 < 0x1_0000_0000
    requires str.Some? ==> |str.value| == stringLength
    requires str.Some? ==> forall i :: 0 <= i < |str.value| ==> str.value[i] < 0x1_0000_0000
    modifies w`dataPtr, w`dataEndNotNull, w.buffer
    ensures ok <==>
      && stringLength <= size && (str.Some? ==> AreCharacters(str.value))
      && old(w.dataPtr) + |Written(size, str)| <= w.dataEnd
    ensures ok ==> w.HasRoom() && w.buffer[..w.dataPtr] == old(w.buffer[..w.dataPtr]) + Written(size, str)
    ensures ok ==> w.dataEndNotNull == if str.None? then old(w.dataEndNotNull) else w.dataPtr
  {
    hide Bsr, Field, Codes, BEBytes, LEBytes, Shl, Pow2;
    if stringLength > size {
      return false;
    }
    LengthFitsBits(size, stringLength);
    var nSizeBits := Bsr(size + 1);
    var n := (nSizeBits + 7) / 8;
    if str.None? {
      ok := w.PutBE(Shl(size + 1, 32 - nSizeBits), 4, n);
      assert ok ==> w.buffer[..w.dataPtr] == old(w.buffer[..w.dataPtr]) + Written(size, str);
      return;
    }
    if stringLength == 0 {
      EmptyField(nSizeBits);
      // Zeros are the same in either byte order.
      ok := w.PutBE(0, 4, n);
      assert ok ==> w.buffer[..w.dataPtr] == old(w.buffer[..w.dataPtr]) + Written(size, str);
    } else {
      ok := PutCharacters(w, nSizeBits, str.value);
    }
    if ok {
      w.SetNotNull();
    }
  }

  lemma EmptyField(sizeBits: nat)
    requires 1 <= sizeBits <= 32
    ensures Codes([]) == [] && BEBytes(0, 4)[..(sizeBits + 7) / 8] == Field(sizeBits, [])
  {
    hide Shl, BEBytes;
    var n := (sizeBits + 7) / 8;
    ShlOfZero(Padding(sizeBits, 0));
    ZeroBytes(4);
    ZeroBytes(n);
  }

  lemma {:induction false} ZeroBytes(n: nat)
    ensures BEBytes(0, n) == seq(n, _ => 0)
  {
    if n > 0 {
      ZeroBytes(n - 1);
      assert seq<byte>(n, _ => 0) == seq<byte>(n - 1, _ => 0) + [0];
    }
  }
}
