/**
  Removing the chunk headers of an HTTP body in chunked coding (section 7.1 of RFC 9112), without
  chunk extensions and trailers.
 */
module Unchunk {
  import opened Words

  const CR := 0x0D
  const LF := 0x0A
  const END_OF_FILE := -1
  const UINT: int := 0x1_0000_0000
  const SIZE: int := 0x1_0000_0000_0000_0000

  /** How the program ends: exit code 0, the message about a header, or the one about a block. */
  datatype Ending = Finished | WrongChar(c: int) | CutShort

  datatype Outcome = Outcome(ending: Ending, output: seq<byte>)

  // ---- Characters ----

  /** A hexadecimal digit in either case. */
  predicate IsDigit(c: int)
  {
    0x30 <= c <= 0x39 || 0x61 <= c <= 0x66 || 0x41 <= c <= 0x46
  }

  function DigitValue(c: int): (v: nat)
    requires IsDigit(c)
    ensures v < 16
  {
    if c <= 0x39 then c - 0x30 else if c >= 0x61 then c - 0x61 + 10 else c - 0x41 + 10
  }

  /** `hexdigit`, by unsigned 32-bit comparisons that wrap. */
  method HexDigit(c: int) returns (digit: int)
    requires -1 <= c < 256
    ensures digit == if IsDigit(c) then DigitValue(c) else -1
  {
    var u := c % UINT;
    digit :=
      if (u - 0x30) % UINT < 10 then u - 0x30
      else if (u - 0x61) % UINT < 6 then u + (10 - 0x61)
      else if (u - 0x41) % UINT < 6 then u + (10 - 0x41)
      else -1;
  }

  method IsHexDigit(c: int) returns (hex: bool)
    requires -1 <= c < 256
    ensures hex <==> IsDigit(c)
  {
    var digit := HexDigit(c);
    hex := digit >= 0;
  }

  /** The character the input stands at. */
  function Head(s: seq<byte>): (c: int)
    ensures -1 <= c < 256
  {
    if s == [] then END_OF_FILE else s[0]
  }

  function Skip(s: seq<byte>, n: nat): seq<byte>
  {
    if n <= |s| then s[n..] else []
  }

  // ---- What a run computes ----

  /** How many hexadecimal digits stand at the front. */
  function DigitCount(s: seq<byte>): (n: nat)
    ensures n <= |s|
    ensures forall i :: 0 <= i < n ==> IsDigit(s[i])
    ensures !IsDigit(Head(s[n..]))
  {
    if IsDigit(Head(s)) then
      var n := 1 + DigitCount(s[1..]);
      assert s[n..] == s[1..][n - 1..];
      n
    else 0
  }

  /** The number that the first `n` characters spell, as `size_t` arithmetic finds it. */
  function SizeOf(s: seq<byte>, n: nat): (size: nat)
    requires n <= |s| && forall i :: 0 <= i < n ==> IsDigit(s[i])
    ensures size < SIZE
  {
    if n == 0 then 0 else (SizeOf(s, n - 1) * 16 + DigitValue(s[n - 1])) % SIZE
  }

  predicate StandsAtCrLf(s: seq<byte>)
  {
    Head(s) == CR && Head(Skip(s, 1)) == LF
  }

  /** The character reported when the input does not stand at CR LF. */
  function Culprit(s: seq<byte>): int
  {
    if Head(s) != CR then Head(s) else Head(Skip(s, 1))
  }

  /** The chunk loop, from its current character on. */
  function Parse(s: seq<byte>): (o: Outcome)
    decreases |s|
  {
    var n := DigitCount(s);
    var length, header := SizeOf(s, n), s[n..];
    if !StandsAtCrLf(header) then Outcome(WrongChar(Culprit(header)), [])
    else
      var block := header[2..];
      if |block| < length then Outcome(CutShort, block)
      else
        var after := block[length..];
        if !StandsAtCrLf(after) then Outcome(WrongChar(Culprit(after)), block[..length])
        else if length == 0 then Outcome(Finished, [])
        else
          var o := Parse(after[2..]);
          Outcome(o.ending, block[..length] + o.output)
  }

  /** The whole program on a file. */
  function Run(input: seq<byte>): Outcome
  {
    if IsDigit(Head(input)) then Parse(input)
    else if Head(input) != CR then Outcome(WrongChar(Head(input)), [])
    else
      var next := input[1..];
      if IsDigit(Head(next)) then Parse(next)
      else if Head(next) != LF then Outcome(WrongChar(Head(next)), [])
      else Parse(next)
  }

  // ---- The program ----

  class Program {
    // What `getchar` has not returned yet, and what `putchar` has written.
    var stdin: seq<byte>
    var stdout: seq<byte>

    constructor (input: seq<byte>)
      ensures stdin == input && stdout == []
    {
      stdin, stdout := input, [];
    }

    /** The input from the character already read on. */
    ghost function Ahead(c: int): (s: seq<byte>)
      requires -1 <= c < 256
      reads this
    {
      if c < 0 then stdin else [c] + stdin
    }

    ghost predicate HasRead(c: int)
      reads this
    {
      -1 <= c < 256 && (c < 0 ==> stdin == [])
    }

    lemma AheadIs(c: int)
      requires HasRead(c)
      ensures Head(Ahead(c)) == c && stdin == Skip(Ahead(c), 1)
      ensures c >= 0 ==> Ahead(c) != [] && stdin == Ahead(c)[1..]
    {
    }

    method GetChar() returns (c: int)
      modifies this
      ensures HasRead(c) && Ahead(c) == old(stdin) && stdout == old(stdout)
      ensures c == Head(old(stdin))
    {
      if stdin == [] {
        return END_OF_FILE;
      }
      c := stdin[0];
      stdin := stdin[1..];
    }

    method PutChar(c: byte)
      modifies this
      ensures stdout == old(stdout) + [c] && stdin == old(stdin)
    {
      stdout := stdout + [c];
    }

    /** Copies `size` bytes; false when the input ends first.  The counter wraps below zero. */
    method Copy(size: nat) returns (complete: bool)
      requires size < SIZE
      modifies this
      ensures complete <==> size <= |old(stdin)|
      ensures var n := Min(size, |old(stdin)|);
        stdout == old(stdout) + old(stdin)[..n] && stdin == old(stdin)[n..]
    {
      var length: nat := size;
      ghost var copied: nat := 0;
      while true
        invariant copied + length == size && copied <= |old(stdin)|
        invariant stdout == old(stdout) + old(stdin)[..copied] && stdin == old(stdin)[copied..]
        decreases length
      {
        var more := length != 0;
        length := (length - 1) % SIZE;
        if !more {
          break;
        }
        var c := GetChar();
        if c < 0 {
          break;
        }
        AheadIs(c);
        PutChar(c);
        copied := copied + 1;
      }
      complete := 0 == (length + 1) % SIZE;
    }

    method Execute() returns (ending: Ending)
      modifies this
      ensures ending == Run(old(stdin)).ending
      ensures stdout == old(stdout) + Run(old(stdin)).output
    {
      var c := GetChar();
      var hex := IsHexDigit(c);
      if !hex {
        if c != CR {
          return WrongChar(c);
        }
        AheadIs(c);
        c := GetChar();
        hex := IsHexDigit(c);
        if !hex && c != LF {
          return WrongChar(c);
        }
      }
      ending := ParseChunks(c, Ahead(c));
    }

    /** The loop after the label `parse`; the input `start` includes the character read already. */
    method ParseChunks(first: int, ghost start: seq<byte>) returns (ending: Ending)
      requires HasRead(first) && start == Ahead(first)
      modifies this
      ensures ending == Parse(start).ending
      ensures stdout == old(stdout) + Parse(start).output
    {
      ghost var s, written, data: seq<byte> := start, [], [];
      var c, ended := first, None;
      while ended.None?
        invariant HasRead(c) && s == Ahead(c)
        invariant stdout == old(stdout) + written
        invariant ended.None? ==>
          Parse(start).ending == Parse(s).ending && Parse(start).output == written + Parse(s).output
        invariant ended.Some? ==> Parse(start) == Outcome(ended.value, written)
        decreases ended.None?, |s|
      {
        ended, c, data := ParseChunk(c, s);
        s := Ahead(c);
        Associate(old(stdout), written, data);
        Associate(written, data, Parse(s).output);
        written := written + data;
      }
      ending := ended.value;
    }

    /** One round of the loop: a chunk's header, its block and the line end after it. */
    method ParseChunk(first: int, ghost s: seq<byte>)
      returns (ended: Option<Ending>, c: int, ghost data: seq<byte>)
      requires HasRead(first) && s == Ahead(first)
      modifies this
      ensures HasRead(c) && stdout == old(stdout) + data
      ensures ended.Some? ==> Parse(s) == Outcome(ended.value, data)
      ensures ended.None? ==> |Ahead(c)| < |s|
      ensures ended.None? ==> Parse(s) == Outcome(Parse(Ahead(c)).ending, data + Parse(Ahead(c)).output)
    {
      data := [];
      var length, wrong;
      length, c := ParseSize(first, s);
      wrong, c := ReadCrLf(c);
      if wrong {
        return Some(WrongChar(c)), c, data;
      }
      data := stdin[..Min(length, |stdin|)];
      var complete := Copy(length);
      if !complete {
        return Some(CutShort), END_OF_FILE, data;
      }
      c := GetChar();
      wrong, c := ReadCrLf(c);
      if wrong {
        return Some(WrongChar(c)), c, data;
      }
      c := GetChar();
      ended := if length == 0 then Some(Finished) else None;
    }

    /** Reads the chunk size at the front of the input `s`. */
    method ParseSize(first: int, ghost s: seq<byte>) returns (length: nat, c: int)
      requires HasRead(first) && s == Ahead(first)
      modifies this
      ensures HasRead(c) && Ahead(c) == s[DigitCount(s)..]
      ensures length == SizeOf(s, DigitCount(s))
      ensures stdout == old(stdout)
    {
      hide SizeOf, DigitCount;
      NoDigits(s);
      ghost var k: nat := 0;
      c := first;
      length := 0;
      var hex := IsHexDigit(c);
      while hex
        invariant hex <==> IsDigit(c)
        invariant HasRead(c) && stdout == old(stdout)
        invariant k <= DigitCount(s) == k + DigitCount(s[k..]) && Ahead(c) == s[k..]
        invariant length == SizeOf(s, k)
        decreases |s| - k
      {
        AheadIs(c);
        OneMoreDigit(s, k);
        k := k + 1;
        var digit := HexDigit(c);
        length := (length * 16 + digit) % SIZE;
        c := GetChar();
        hex := IsHexDigit(c);
      }
      AheadIs(c);
      AllDigits(s, k);
    }

    /** Tests the current character for CR and the next one for LF. */
    method ReadCrLf(first: int) returns (wrong: bool, c: int)
      requires HasRead(first)
      modifies this
      ensures stdout == old(stdout) && HasRead(c)
      ensures wrong <==> !StandsAtCrLf(old(Ahead(first)))
      ensures wrong ==> c == Culprit(old(Ahead(first)))
      ensures !wrong ==> stdin == old(Ahead(first))[2..]
    {
      c := first;
      AheadIs(c);
      if c != CR {
        return true, c;
      }
      c := GetChar();
      AheadIs(c);
      wrong := c != LF;
    }
  }

  lemma NoDigits(s: seq<byte>)
    ensures SizeOf(s, 0) == 0 && s[0..] == s
  {
  }

  lemma AllDigits(s: seq<byte>, k: nat)
    requires k <= DigitCount(s) == k + DigitCount(s[k..]) && !IsDigit(Head(s[k..]))
    ensures k == DigitCount(s)
  {
  }

  lemma OneMoreDigit(s: seq<byte>, k: nat)
    requires k <= DigitCount(s) == k + DigitCount(s[k..]) && IsDigit(Head(s[k..]))
    ensures k < DigitCount(s) == k + 1 + DigitCount(s[k + 1..])
    ensures s[k..][1..] == s[k + 1..] && s[k] == Head(s[k..])
    ensures SizeOf(s, k + 1) == (SizeOf(s, k) * 16 + DigitValue(s[k])) % SIZE
  {
    assert s[k..][1..] == s[k + 1..];
  }

  // ---- Chunked coding ----

  /** A chunk as it was written: its size in digits of either case, and its data. */
  datatype Chunk = Chunk(digits: seq<byte>, data: seq<byte>)

  /** The number a digit string spells, without any bound. */
  function Numeral(digits: seq<byte>, n: nat): nat
    requires n <= |digits| && forall i :: 0 <= i < |digits| ==> IsDigit(digits[i])
  {
    if n == 0 then 0 else Numeral(digits, n - 1) * 16 + DigitValue(digits[n - 1])
  }

  /** A chunk whose size is spelled right and fits `size_t`; the last chunk is one without data. */
  ghost predicate IsChunk(chunk: Chunk)
  {
    && chunk.digits != []
    && (forall i :: 0 <= i < |chunk.digits| ==> IsDigit(chunk.digits[i]))
    && Numeral(chunk.digits, |chunk.digits|) == |chunk.data| < SIZE
  }

  function CrLf(): (s: seq<byte>)
    ensures s == [CR, LF]
  {
    [CR, LF]
  }

  function EncodeChunk(chunk: Chunk): seq<byte>
  {
    chunk.digits + (CrLf() + (chunk.data + CrLf()))
  }

  /** Non-empty chunks, then an empty one. */
  ghost predicate IsBody(chunks: seq<Chunk>)
  {
    && chunks != []
    && (forall k :: 0 <= k < |chunks| ==> IsChunk(chunks[k]))
    && (forall k :: 0 <= k < |chunks| ==> (chunks[k].data == [] <==> k == |chunks| - 1))
  }

  function Encode(chunks: seq<Chunk>): seq<byte>
  {
    if chunks == [] then [] else EncodeChunk(chunks[0]) + Encode(chunks[1..])
  }

  function Body(chunks: seq<Chunk>): seq<byte>
  {
    if chunks == [] then [] else chunks[0].data + Body(chunks[1..])
  }

  // ---- Reading a chunk back ----

  lemma {:induction false} DigitCountOf(digits: seq<byte>, rest: seq<byte>)
    requires forall i :: 0 <= i < |digits| ==> IsDigit(digits[i])
    requires !IsDigit(Head(rest))
    ensures DigitCount(digits + rest) == |digits|
  {
    if digits == [] {
      assert digits + rest == rest;
    } else {
      DigitCountOf(digits[1..], rest);
      assert (digits + rest)[1..] == digits[1..] + rest;
    }
  }

  /** A size that fits the word is found without wrapping. */
  lemma {:induction false} SizeOfNumeral(digits: seq<byte>, rest: seq<byte>, n: nat)
    requires n <= |digits| && forall i :: 0 <= i < |digits| ==> IsDigit(digits[i])
    requires Numeral(digits, n) < SIZE
    ensures forall i :: 0 <= i < n ==> IsDigit((digits + rest)[i])
    ensures SizeOf(digits + rest, n) == Numeral(digits, n)
  {
    if n > 0 {
      SizeOfNumeral(digits, rest, n - 1);
    }
  }

  /** What the loop finds behind a well-formed header, however much of the input follows. */
  lemma HeaderOf(chunk: Chunk, rest: seq<byte>)
    requires IsChunk(chunk) && !IsDigit(Head(rest))
    ensures var s := chunk.digits + rest;
      && DigitCount(s) == |chunk.digits|
      && SizeOf(s, |chunk.digits|) == |chunk.data|
      && s[|chunk.digits|..] == rest
  {
    DigitCountOf(chunk.digits, rest);
    SizeOfNumeral(chunk.digits, rest, |chunk.digits|);
  }

  /** Past the size, CR LF, the data and CR LF: what remains is for the next round. */
  lemma ParseEncodedChunk(chunk: Chunk, tail: seq<byte>)
    requires IsChunk(chunk)
    ensures Parse(EncodeChunk(chunk) + tail) == if chunk.data == [] then Outcome(Finished, [])
      else Outcome(Parse(tail).ending, chunk.data + Parse(tail).output)
  {
    HeaderOf(chunk, CrLf() + (chunk.data + (CrLf() + tail)));
    EncodedLayout(chunk, tail);
    ParseLayout(EncodeChunk(chunk) + tail, |chunk.digits|, chunk.data, tail);
  }

  lemma BlockLayout(data: seq<byte>, tail: seq<byte>)
    ensures (CrLf() + (data + (CrLf() + tail)))[2..] == data + (CrLf() + tail)
    ensures (data + (CrLf() + tail))[..|data|] == data
    ensures (data + (CrLf() + tail))[|data|..] == CrLf() + tail
    ensures (CrLf() + tail)[2..] == tail
  {
  }

  lemma ParseLayout(s: seq<byte>, n: nat, data: seq<byte>, tail: seq<byte>)
    requires DigitCount(s) == n && SizeOf(s, n) == |data|
    requires s[n..] == CrLf() + (data + (CrLf() + tail))
    ensures Parse(s) == if data == [] then Outcome(Finished, [])
      else Outcome(Parse(tail).ending, data + Parse(tail).output)
  {
    hide DigitCount, SizeOf;
    BlockLayout(data, tail);
    CrLfStands(data + (CrLf() + tail));
    CrLfStands(tail);
  }

  lemma CrLfStands(behind: seq<byte>)
    ensures StandsAtCrLf(CrLf() + behind)
  {
  }

  lemma EncodedLayout(chunk: Chunk, tail: seq<byte>)
    ensures EncodeChunk(chunk) + tail == chunk.digits + (CrLf() + (chunk.data + (CrLf() + tail)))
  {
    Associate(chunk.digits, CrLf() + (chunk.data + CrLf()), tail);
    Associate(CrLf(), chunk.data + CrLf(), tail);
    Associate(chunk.data, CrLf(), tail);
  }

  lemma {:induction false} ParseEncoded(chunks: seq<Chunk>, tail: seq<byte>)
    requires IsBody(chunks)
    ensures Parse(Encode(chunks) + tail) == Outcome(Finished, Body(chunks))
  {
    var rest := Encode(chunks[1..]) + tail;
    assert Encode(chunks) + tail == EncodeChunk(chunks[0]) + rest;
    ParseEncodedChunk(chunks[0], rest);
    if |chunks| > 1 {
      ParseEncoded(chunks[1..], tail);
    }
  }

  lemma StartsWithDigit(chunks: seq<Chunk>, tail: seq<byte>)
    requires IsBody(chunks)
    ensures IsDigit(Head(Encode(chunks) + tail))
  {
    assert (Encode(chunks) + tail)[0] == chunks[0].digits[0];
  }

  /** Unchunking inverts chunked coding, and stops at its end. */
  lemma UnchunkInvertsCoding(chunks: seq<Chunk>, tail: seq<byte>)
    requires IsBody(chunks)
    ensures Run(Encode(chunks) + tail) == Outcome(Finished, Body(chunks))
  {
    StartsWithDigit(chunks, tail);
    ParseEncoded(chunks, tail);
  }

  // ---- Input that ends early ----

  /** A proper prefix of one chunk never ends well, and yields only data of that chunk. */
  lemma CutChunk(chunk: Chunk, cut: seq<byte>)
    requires IsChunk(chunk) && cut < EncodeChunk(chunk)
    ensures Parse(cut).ending != Finished && Parse(cut).output <= chunk.data
  {
    var d, n := |chunk.digits|, |chunk.data|;
    if |cut| <= d {
      CutInDigits(chunk, cut);
    } else {
      var rest := cut[d..];
      var full := CrLf() + (chunk.data + CrLf());
      assert cut == chunk.digits + rest && rest < full by {
        assert EncodeChunk(chunk)[..d] == chunk.digits && EncodeChunk(chunk)[d..] == full;
        assert cut[..d] == chunk.digits;
      }
      assert rest[0] == full[0] == CR;
      HeaderOf(chunk, rest);
      if |rest| >= 2 {
        assert rest[1] == full[1] == LF;
        var block := rest[2..];
        assert block < chunk.data + CrLf() by {
          assert full[2..] == chunk.data + CrLf();
        }
        CutBlock(chunk.data, block);
      }
    }
  }

  lemma CutInDigits(chunk: Chunk, cut: seq<byte>)
    requires IsChunk(chunk) && cut <= chunk.digits
    ensures Parse(cut) == Outcome(WrongChar(END_OF_FILE), [])
  {
    DigitCountOf(cut, []);
    assert cut + [] == cut;
  }

  lemma CutBlock(data: seq<byte>, block: seq<byte>)
    requires block < data + CrLf()
    ensures |block| < |data| ==> block <= data
    ensures |block| >= |data| ==> block[..|data|] == data && !StandsAtCrLf(block[|data|..])
  {
    if |block| >= |data| {
      assert block[..|data|] == (data + CrLf())[..|data|];
    } else {
      assert block == (data + CrLf())[..|block|];
    }
  }

  lemma {:induction false} CutBody(chunks: seq<Chunk>, cut: seq<byte>)
    requires IsBody(chunks) && cut < Encode(chunks)
    ensures Parse(cut).ending != Finished && Parse(cut).output <= Body(chunks)
  {
    var first, rest := EncodeChunk(chunks[0]), Encode(chunks[1..]);
    if |cut| < |first| {
      assert cut == first[..|cut|];
      CutChunk(chunks[0], cut);
    } else {
      var cut' := cut[|first|..];
      assert cut == first + cut' && cut' < rest by {
        assert Encode(chunks)[..|first|] == first && Encode(chunks)[|first|..] == rest;
      }
      ParseEncodedChunk(chunks[0], cut');
      CutBody(chunks[1..], cut');
    }
  }

  /** Cut short anywhere, the coding yields a prefix of the body and the run ends in an error. */
  lemma CutCodingIsReported(chunks: seq<Chunk>, cut: seq<byte>)
    requires IsBody(chunks) && cut < Encode(chunks)
    ensures Run(cut).ending != Finished && Run(cut).output <= Body(chunks)
  {
    if cut != [] {
      assert cut[0] == Encode(chunks)[0] == chunks[0].digits[0];
      CutBody(chunks, cut);
    }
  }

  // ---- A line end before the first chunk ----

  /**
    The program reads a leading CR LF but enters the loop with the LF as its current character, so
    such a file is always refused, whatever follows.
   */
  lemma LeadingCrLfIsRefused(rest: seq<byte>)
    ensures Run(CrLf() + rest) == Outcome(WrongChar(LF), [])
  {
    assert (CrLf() + rest)[1..] == [LF] + rest;
  }
}
