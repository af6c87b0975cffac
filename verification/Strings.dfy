/**
  Splitting a string at a separator, and replacing one substring by another, by copying and in place.

  C strings are sequences of characters without '\0'.
 */
module Strings {
  import opened Words

  const NUL := '\0'

  predicate IsCString(s: string)
  {
    NUL !in s
  }

  // ---- split ----

  /** `strchr`: the first index of `c`, or the length of the string when it is absent. */
  function Find(s: string, c: char): (p: nat)
    ensures p <= |s|
    ensures c !in s[..p]
    ensures p < |s| ==> s[p] == c
  {
    if s == [] || s[0] == c then 0 else
      var p := 1 + Find(s[1..], c);
      assert s[..p] == [s[0]] + s[1..][..p - 1];
      p
  }

  /** At most `n` pieces, cut at the first separators. */
  function Pieces(src: string, n: nat, separator: char): (pieces: seq<string>)
    requires n > 0
    decreases n
  {
    var p := Find(src, separator);
    if n == 1 || p == |src| then [src]
    else [src[..p]] + Pieces(src[p + 1..], n - 1, separator)
  }

  function Join(pieces: seq<string>, separator: string): string
    requires pieces != []
  {
    if |pieces| == 1 then pieces[0] else pieces[0] + separator + Join(pieces[1..], separator)
  }

  function Count(s: string, c: char): nat
  {
    if s == [] then 0 else (if s[0] == c then 1 else 0) + Count(s[1..], c)
  }

  lemma {:induction false} CountConcat(s: string, t: string, c: char)
    ensures Count(s + t, c) == Count(s, c) + Count(t, c)
  {
    if s == [] {
      assert s + t == t;
    } else {
      CountConcat(s[1..], t, c);
      assert (s + t)[1..] == s[1..] + t;
    }
  }

  lemma {:induction false} CountAbsent(s: string, c: char)
    requires c !in s
    ensures Count(s, c) == 0
  {
    if s != [] {
      CountAbsent(s[1..], c);
    }
  }

  lemma NextPiece(src: string, n: nat, separator: char)
    requires n > 0
    ensures var p := Find(src, separator);
      Pieces(src, n, separator) ==
        if n == 1 || p == |src| then [src] else [src[..p]] + Pieces(src[p + 1..], n - 1, separator)
  {
  }

  method PutString(strings: array<string>, i: nat, piece: string)
    requires i < strings.Length
    modifies strings
    ensures strings[..] == old(strings[..])[i := piece]
  {
    strings[i] := piece;
  }

  lemma StoredNext(stored: seq<string>, before: seq<string>, piece: string)
    requires |stored| < |before|
    ensures (stored + before[|stored|..])[|stored| := piece] == (stored + [piece]) + before[|stored| + 1..]
  {
  }

  /**
    What `split` stores at the front of `strings`, and how many strings it stores; nothing and 0
    when there is no source, no destination or no room.  With NUL for a separator and room for more
    than one string the source would go on behind the end of the string.
   */
  method Split(strings: array?<string>, nstrings: nat, src: Option<string>, separator: char) returns (count: nat)
    requires strings != null ==> nstrings <= strings.Length
    requires src.Some? ==> IsCString(src.value)
    requires separator != NUL || src.None? || strings == null || nstrings <= 1
    modifies strings
    ensures count == 0 <==> src.None? || strings == null || nstrings == 0
    ensures count > 0 ==>
      var pieces := Pieces(src.value, nstrings, separator);
      count == |pieces| && count <= nstrings && strings[..] == pieces + old(strings[..])[count..]
    ensures count == 0 && strings != null ==> strings[..] == old(strings[..])
  {
    hide Find, Pieces;
    if src.None? || strings == null || nstrings == 0 {
      return 0;
    }
    var rest := src.value;
    ghost var before, stored: seq<string> := strings[..], [];
    var i := 1;
    while i != nstrings
      invariant 1 <= i <= nstrings && |stored| == i - 1
      invariant strings[..] == stored + before[i - 1..]
      invariant Pieces(src.value, nstrings, separator) == stored + Pieces(rest, nstrings - (i - 1), separator)
    {
      var p := Find(rest, separator);
      NextPiece(rest, nstrings - (i - 1), separator);
      if p == |rest| {
        break;
      }
      PutString(strings, i - 1, rest[..p]);
      StoredNext(stored, before, rest[..p]);
      stored := stored + [rest[..p]];
      rest := rest[p + 1..];
      i := i + 1;
    }
    PutString(strings, i - 1, rest);
    StoredNext(stored, before, rest);
    NextPiece(rest, nstrings - (i - 1), separator);
    assert Pieces(src.value, nstrings, separator) == stored + [rest];
    return i;
  }

  /** The properties that single out the result of a split. */
  ghost predicate IsSplit(pieces: seq<string>, src: string, n: nat, separator: char)
  {
    && 0 < |pieces| == Min(n, 1 + Count(src, separator))
    && Join(pieces, [separator]) == src
    && forall i :: 0 <= i < |pieces| - 1 ==> separator !in pieces[i]
  }

  /** The first separator of a string is one, and the others stand behind it. */
  lemma CountFromFirst(src: string, separator: char)
    ensures var p := Find(src, separator);
      Count(src, separator) == if p == |src| then 0 else 1 + Count(src[p + 1..], separator)
  {
    var p := Find(src, separator);
    CountAbsent(src[..p], separator);
    if p == |src| {
      assert src[..p] == src;
    } else {
      var behind := [separator] + src[p + 1..];
      assert src == src[..p] + behind && behind[1..] == src[p + 1..];
      CountConcat(src[..p], behind, separator);
    }
  }

  lemma {:induction false} SplitRoundTrip(src: string, n: nat, separator: char)
    requires n > 0
    ensures IsSplit(Pieces(src, n, separator), src, n, separator)
    decreases n
  {
    hide Find, Count;
    var p := Find(src, separator);
    CountFromFirst(src, separator);
    if n > 1 && p < |src| {
      SplitRoundTrip(src[p + 1..], n - 1, separator);
      PieceInFront(src[..p], Pieces(src[p + 1..], n - 1, separator), src[p + 1..], n - 1, separator);
      assert src == src[..p] + [separator] + src[p + 1..];
    }
  }

  lemma PieceInFront(head: string, pieces: seq<string>, tail: string, n: nat, separator: char)
    requires IsSplit(pieces, tail, n, separator) && separator !in head
    ensures var all := [head] + pieces;
      && |all| == Min(n + 1, 2 + Count(tail, separator))
      && Join(all, [separator]) == head + [separator] + tail
      && forall i :: 0 <= i < |all| - 1 ==> separator !in all[i]
  {
    hide Count;
    var all := [head] + pieces;
    assert all[1..] == pieces;
    assert Join(all, [separator]) == head + [separator] + Join(pieces, [separator]);
  }

  lemma {:induction false} FindAfter(head: string, tail: string, c: char)
    requires c !in head
    ensures Find(head + [c] + tail, c) == |head|
    ensures Count(head + [c] + tail, c) == 1 + Count(tail, c)
  {
    var s := head + [c] + tail;
    if head == [] {
      assert s[1..] == tail;
    } else {
      FindAfter(head[1..], tail, c);
      assert s[1..] == head[1..] + [c] + tail;
    }
  }

  lemma {:induction false} FindAbsent(s: string, c: char)
    requires Count(s, c) == 0
    ensures Find(s, c) == |s|
  {
    if s != [] {
      FindAbsent(s[1..], c);
    }
  }

  /** A split with several pieces is its first piece and a split of what follows the first separator. */
  lemma CutFirst(pieces: seq<string>, src: string, n: nat, separator: char)
    requires n > 0 && IsSplit(pieces, src, n, separator) && |pieces| > 1
    ensures n > 1 && Find(src, separator) == |pieces[0]| < |src|
    ensures src[..|pieces[0]|] == pieces[0]
    ensures IsSplit(pieces[1..], src[|pieces[0]| + 1..], n - 1, separator)
  {
    var head, rest := pieces[0], pieces[1..];
    var tail := Join(rest, [separator]);
    assert src == head + [separator] + tail;
    FindAfter(head, tail, separator);
    assert src[|head| + 1..] == tail;
  }

  /** No other list of pieces has them. */
  lemma {:induction false} SplitUnique(pieces: seq<string>, src: string, n: nat, separator: char)
    requires n > 0 && IsSplit(pieces, src, n, separator)
    ensures pieces == Pieces(src, n, separator)
    decreases n
  {
    hide Find, Count;
    if |pieces| == 1 {
      assert pieces == [src];
      if n > 1 {
        FindAbsent(src, separator);
      }
    } else {
      CutFirst(pieces, src, n, separator);
      SplitUnique(pieces[1..], src[|pieces[0]| + 1..], n - 1, separator);
      assert pieces == [pieces[0]] + pieces[1..];
    }
  }

  // ---- replace_all ----

  /** The pattern stands at the front of the string (`strncmp` over the pattern's length is 0). */
  predicate StartsWith(s: string, pattern: string)
  {
    pattern <= s
  }

  /** What replacing means: the leftmost occurrence first, never looking back into replaced text. */
  function Replace(s: string, from: string, to: string): string
    requires from != []
    decreases |s|
  {
    if s == [] then []
    else if StartsWith(s, from) then to + Replace(s[|from|..], from, to)
    else [s[0]] + Replace(s[1..], from, to)
  }

  /** The stretches of a string between the occurrences that are replaced. */
  function Between(s: string, from: string): (pieces: seq<string>)
    requires from != []
    ensures pieces != []
    decreases |s|
  {
    if s == [] then [[]]
    else if StartsWith(s, from) then [[]] + Between(s[|from|..], from)
    else
      var rest := Between(s[1..], from);
      [[s[0]] + rest[0]] + rest[1..]
  }

  predicate Occurs(s: string, pattern: string)
  {
    exists i :: 0 <= i <= |s| && StartsWith(s[i..], pattern)
  }

  lemma JoinOne(piece: string, separator: string)
    ensures Join([piece], separator) == piece
  {
  }

  lemma JoinFirst(pieces: seq<string>, x: char, separator: string)
    requires pieces != []
    ensures Join([[x] + pieces[0]] + pieces[1..], separator) == [x] + Join(pieces, separator)
  {
    var longer := [[x] + pieces[0]] + pieces[1..];
    assert longer[1..] == pieces[1..];
    if |pieces| > 1 {
      assert [x] + (pieces[0] + separator + Join(pieces[1..], separator))
        == ([x] + pieces[0]) + separator + Join(pieces[1..], separator);
    }
  }

  lemma JoinEmptyFirst(pieces: seq<string>, separator: string)
    requires pieces != []
    ensures Join([[]] + pieces, separator) == separator + Join(pieces, separator)
  {
    assert ([[]] + pieces)[1..] == pieces;
  }

  /**
    Replacing changes the separators and nothing else: the string is its stretches joined by the
    pattern, the result the same stretches joined by the replacement.
   */
  lemma {:induction false} ReplaceSwapsSeparators(s: string, from: string, to: string)
    requires from != []
    ensures Join(Between(s, from), from) == s
    ensures Join(Between(s, from), to) == Replace(s, from, to)
    decreases |s|
  {
    hide Join;
    if s == [] {
      JoinOne([], from);
      JoinOne([], to);
    } else if StartsWith(s, from) {
      var rest := s[|from|..];
      ReplaceSwapsSeparators(rest, from, to);
      JoinEmptyFirst(Between(rest, from), from);
      JoinEmptyFirst(Between(rest, from), to);
      assert s == from + rest;
    } else {
      ReplaceSwapsSeparators(s[1..], from, to);
      JoinFirst(Between(s[1..], from), s[0], from);
      JoinFirst(Between(s[1..], from), s[0], to);
    }
  }

  /** The first stretch is a prefix of the string, up to the leftmost occurrence or the end. */
  lemma {:induction false} FirstStretch(s: string, from: string)
    requires from != []
    ensures var first := Between(s, from)[0];
      && first <= s
      && (forall i :: 0 <= i < |first| ==> !StartsWith(s[i..], from))
    decreases |s|
  {
    if s != [] && !StartsWith(s, from) {
      FirstStretch(s[1..], from);
      var first, next := Between(s, from)[0], Between(s[1..], from)[0];
      assert first == [s[0]] + next;
      forall i | 0 <= i < |first|
        ensures !StartsWith(s[i..], from)
      {
        if i > 0 {
          assert s[i..] == s[1..][i - 1..];
        } else {
          assert s[0..] == s;
        }
      }
    }
  }

  /** No stretch contains the pattern: every leftmost occurrence has been replaced. */
  lemma {:induction false} StretchesArePatternFree(s: string, from: string, k: nat)
    requires from != [] && k < |Between(s, from)|
    ensures !Occurs(Between(s, from)[k], from)
    decreases |s|
  {
    var pieces := Between(s, from);
    if s == [] {
    } else if k == 0 {
      var first := pieces[0];
      FirstStretch(s, from);
      forall i | 0 <= i <= |first|
        ensures !StartsWith(first[i..], from)
      {
        if i < |first| {
          assert first[i..] <= s[i..];
        }
      }
    } else if StartsWith(s, from) {
      StretchesArePatternFree(s[|from|..], from, k - 1);
    } else {
      StretchesArePatternFree(s[1..], from, k);
    }
  }

  /** The copying version, whose loop ends when there is nothing to copy or a pattern to find. */
  method ReplaceByCopy(src: string, from: string, to: string) returns (dest: string)
    requires IsCString(src) && IsCString(from) && IsCString(to)
    requires from != [] || src == []
    ensures dest == if src == [] then [] else Replace(src, from, to)
  {
    dest := [];
    var rest := src;
    while rest != []
      invariant from != [] ==> Replace(src, from, to) == dest + Replace(rest, from, to)
      invariant src == [] ==> rest == [] == dest
      decreases |rest|
    {
      if StartsWith(rest, from) {
        dest := dest + to;
        rest := rest[|from|..];
      } else {
        dest := dest + [rest[0]];
        rest := rest[1..];
      }
    }
  }

  /** `strstr`: the leftmost occurrence. */
  function StrStr(s: string, pattern: string): (q: Option<nat>)
    ensures q.Some? ==> q.value + |pattern| <= |s| && StartsWith(s[q.value..], pattern)
  {
    if StartsWith(s, pattern) then Some(0)
    else if s == [] then None
    else match StrStr(s[1..], pattern) case None => None case Some(q) => Some(q + 1)
  }

  lemma {:induction false} ReplaceNothing(s: string, from: string, to: string)
    requires from != [] && StrStr(s, from).None?
    ensures Replace(s, from, to) == s
    decreases |s|
  {
    if s != [] {
      ReplaceNothing(s[1..], from, to);
    }
  }

  lemma Prepend(s: string, q: nat, y: string, z: string)
    requires 0 < q <= |s|
    ensures [s[0]] + (s[1..][..q - 1] + y + z) == s[..q] + y + z
  {
  }

  lemma DropNext(s: string, k: nat)
    requires 0 < k <= |s|
    ensures s[k..] == s[1..][k - 1..]
  {
  }

  lemma {:induction false} ReplaceAtFirst(s: string, q: nat, from: string, to: string)
    requires from != [] && StrStr(s, from) == Some(q)
    ensures Replace(s, from, to) == s[..q] + to + Replace(s[q + |from|..], from, to)
    decreases |s|
  {
    if q == 0 {
      assert s[..0] + to == to;
    } else {
      FoundLater(s, q, from);
      hide StrStr, Replace;
      ReplaceAtFirst(s[1..], q - 1, from, to);
      DropNext(s, q + |from|);
      ReplaceOneLater(s, q, from, to, Replace(s[q + |from|..], from, to));
    }
  }

  lemma FoundLater(s: string, q: nat, from: string)
    requires from != [] && StrStr(s, from) == Some(q) && q > 0
    ensures q + |from| <= |s| && !StartsWith(s, from) && StrStr(s[1..], from) == Some(q - 1)
  {
  }

  lemma ReplaceOneLater(s: string, q: nat, from: string, to: string, after: string)
    requires from != [] && 0 < q <= |s| && !StartsWith(s, from)
    requires Replace(s[1..], from, to) == s[1..][..q - 1] + to + after
    ensures Replace(s, from, to) == s[..q] + to + after
  {
    Prepend(s, q, to, after);
  }

  /** The C string at the front of a buffer. */
  function Text(buffer: string): string
  {
    buffer[..Find(buffer, NUL)]
  }

  lemma {:induction false} TextOfSuffix(buffer: string, pos: nat)
    requires pos <= Find(buffer, NUL)
    ensures Text(buffer[pos..]) == Text(buffer)[pos..]
  {
    if pos > 0 {
      TextOfSuffix(buffer[1..], pos - 1);
      assert buffer[pos..] == buffer[1..][pos - 1..];
      assert Text(buffer) == [buffer[0]] + Text(buffer[1..]);
    }
  }

  datatype Outcome = Done | NotTerminated | LengthMismatch

  /** The in-place version; `n` is the length the caller declares.  Its loop ends when there is a pattern
      to find; an empty one is refused for its length, or for the missing terminator, or never ends. */
  method ReplaceInPlace(s: array<char>, n: nat, from: string, to: string) returns (outcome: Outcome)
    requires n < s.Length
    requires IsCString(from) && IsCString(to)
    requires from != [] || to != [] || s[n] != NUL
    modifies s
    ensures outcome == (if old(s[n]) != NUL then NotTerminated else if |from| != |to| then LengthMismatch else Done)
    ensures outcome != Done ==> s[..] == old(s[..])
    ensures outcome == Done ==>
      var text := Text(old(s[..]));
      |text| <= n && s[..] == Replace(text, from, to) + old(s[..])[|text|..]
  {
    if s[n] != NUL {
      return NotTerminated;
    }
    if |to| != |from| {
      return LengthMismatch;
    }
    TerminatorWithin(s[..], n);
    ReplaceLoop(s, from, to);
    return Done;
  }

  method ReplaceLoop(s: array<char>, from: string, to: string)
    requires from != [] && |from| == |to| && NUL in s[..]
    modifies s
    ensures var before := old(s[..]); s[..] == Replace(Text(before), from, to) + before[|Text(before)|..]
  {
    ghost var before := s[..];
    ghost var now := before;
    StartOfScan(before, from, to);
    var pos := 0;
    var next := StrStr(Text(s[..][pos..]), from);
    while next.Some?
      invariant now == s[..] && Scanned(before, now, pos, from, to)
      invariant next == StrStr(Text(now[pos..]), from)
      decreases s.Length - pos
    {
      ScannedFurther(before, now, pos, next.value, from, to);
      MemCpy(s, pos + next.value, to);
      now := Spliced(now, pos + next.value, to);
      pos := pos + next.value + |from|;
      next := StrStr(Text(s[..][pos..]), from);
    }
    AllScanned(before, now, pos, from, to);
  }

  function Spliced(s: string, at: nat, data: string): string
    requires at + |data| <= |s|
  {
    s[..at] + data + s[at + |data|..]
  }

  method MemCpy(s: array<char>, at: nat, data: string)
    requires at + |data| <= s.Length
    modifies s
    ensures s[..] == Spliced(old(s[..]), at, data)
  {
    forall k | 0 <= k < |data| {
      s[at + k] := data[k];
    }
  }

  /** The loop's progress: the buffer up to `pos` is final, and the rest is as it was. */
  ghost predicate Scanned(before: string, now: string, pos: nat, from: string, to: string)
    requires from != []
  {
    && pos <= |now| == |before|
    && NUL in now[pos..]
    && var rest := now[pos..];
       && |Text(before)| == pos + |Text(rest)|
       && rest[|Text(rest)|..] == before[|Text(before)|..]
       && Replace(Text(before), from, to) == now[..pos] + Replace(Text(rest), from, to)
  }

  lemma ScannedFurther(before: string, now: string, pos: nat, q: nat, from: string, to: string)
    requires from != [] && |to| == |from|
    requires Scanned(before, now, pos, from, to)
    requires StrStr(Text(now[pos..]), from) == Some(q)
    ensures pos + q + |to| <= |now|
    ensures Scanned(before, Spliced(now, pos + q, to), pos + q + |from|, from, to)
  {
    var rest := now[pos..];
    AfterOneReplacement(rest, q, from, to);
    SplicedAt(now, pos, q, to);
    Associate(now[..pos], rest[..q] + to, Replace(Text(rest[q + |to|..]), from, to));
  }

  lemma SplicedAt(now: string, pos: nat, q: nat, to: string)
    requires pos + q + |to| <= |now|
    ensures var after := Spliced(now, pos + q, to);
      && after[pos + q + |to|..] == now[pos..][q + |to|..]
      && after[..pos + q + |to|] == now[..pos] + (now[pos..][..q] + to)
  {
  }

  lemma StartOfScan(before: string, from: string, to: string)
    requires from != [] && NUL in before
    ensures Scanned(before, before, 0, from, to)
  {
    assert before[0..] == before;
  }

  lemma AllScanned(before: string, now: string, pos: nat, from: string, to: string)
    requires from != []
    requires Scanned(before, now, pos, from, to)
    requires StrStr(Text(now[pos..]), from).None?
    ensures now == Replace(Text(before), from, to) + before[|Text(before)|..]
  {
    var rest := now[pos..];
    ReplaceNothing(Text(rest), from, to);
    assert rest == Text(rest) + rest[|Text(rest)|..];
    Associate(now[..pos], Text(rest), rest[|Text(rest)|..]);
    assert now == now[..pos] + rest;
  }

  lemma AfterOneReplacement(rest: string, q: nat, from: string, to: string)
    requires from != [] && |to| == |from| && NUL in rest
    requires StrStr(Text(rest), from) == Some(q)
    ensures q + |to| <= |rest|
    ensures var rest' := rest[q + |to|..];
      && NUL in rest'
      && |Text(rest)| == q + |to| + |Text(rest')|
      && rest'[|Text(rest')|..] == rest[|Text(rest)|..]
      && Replace(Text(rest), from, to) == (rest[..q] + to) + Replace(Text(rest'), from, to)
  {
    hide Replace, StrStr;
    ReplaceAtFirst(Text(rest), q, from, to);
    TextOfSuffix(rest, q + |to|);
    var k := Find(rest, NUL);
    assert rest[q + |to|..][k - (q + |to|)] == NUL;
    assert Text(rest)[..q] == rest[..q];
  }

  lemma {:induction false} TerminatorWithin(buffer: string, n: nat)
    requires n < |buffer| && buffer[n] == NUL
    ensures NUL in buffer && |Text(buffer)| <= n
  {
    if buffer[0] != NUL {
      TerminatorWithin(buffer[1..], n - 1);
    }
  }

  /** With an empty pattern neither loop would ever move: the match is always where the scan stands. */
  lemma EmptyPatternNeverAdvances(s: string)
    ensures StrStr(s, "") == Some(0) && StartsWith(s, "") && s[|""|..] == s
  {
  }
}
