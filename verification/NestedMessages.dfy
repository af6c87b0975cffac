/**
  Whole messages of nested fields: encoded as they are meant to be, read by the reader's calls, found in
  blocks, and cut short.
 */
module NestedMessages {
  import opened Words
  import opened Cursor
  import opened Containers
  import opened PackedIntegers
  import opened Encodings
  import MessageBlock

  // ---- Values and their encodings ----

  /** The values that a field of some schema can carry. */
  predicate IsValue(f: Field, v: Value)
    decreases v, 1
  {
    match f
    case Plain(leaf) => IsLeaf(leaf, v)
    case Object(fields) =>
      v.Null? ||
      (v.Items? && v.head < 256 && AreValues(fields, v.items) && |Encode(fields, v.items)| + 1 < 0x40_0000)
    case Array(element) =>
      v.Null? ||
      (v.Items? && v.head == |v.items| < 0x40_0000 && AreValues(Repeat(element, |v.items|), v.items)
       && |Packed22(|v.items|)| + |Encode(Repeat(element, |v.items|), v.items)| < 0x40_0000)
  }

  predicate AreValues(fields: seq<Field>, values: seq<Value>)
    decreases values, 0
  {
    |fields| == |values| &&
    (values == [] || (IsValue(fields[0], values[0]) && AreValues(fields[1..], values[1..])))
  }

  /** An object is its type and its fields, an array the number of its items and the items. */
  function Content(f: Field, v: Value): (bytes: seq<byte>)
    requires IsValue(f, v) && !f.Plain? && v.Items?
    ensures 0 < |bytes| < 0x40_0000
    decreases v, 2
  {
    match f
    case Object(fields) => [v.head] + Encode(fields, v.items)
    case Array(element) => Packed22(|v.items|) + Encode(Repeat(element, |v.items|), v.items)
  }

  function EncodeOne(f: Field, v: Value): (bytes: seq<byte>)
    requires IsValue(f, v)
    ensures bytes != []
    decreases v, 3
  {
    if f.Plain? then LeafBytes(f.leaf, v)
    else if v.Null? then [0]
    else ContainerBytes(Content(f, v))
  }

  function Encode(fields: seq<Field>, values: seq<Value>): (bytes: seq<byte>)
    requires AreValues(fields, values)
    decreases values, 1
  {
    if values == [] then [] else EncodeOne(fields[0], values[0]) + Encode(fields[1..], values[1..])
  }

  /** How deep containers are nested in a value. */
  function Depth(v: Value): nat
    decreases v, 1
  {
    if v.Items? then 1 + DepthOf(v.items) else 0
  }

  function DepthOf(values: seq<Value>): nat
    decreases values, 0
  {
    if values == [] then 0
    else if Depth(values[0]) >= DepthOf(values[1..]) then Depth(values[0])
    else DepthOf(values[1..])
  }

  // ---- The round trip ----

  /**
    Every value of every nested schema is read back from its encoding, and the cursor ends behind it,
    as long as containers are nested no deeper than the reader's stack.
   */
  lemma {:induction false} NestedRoundTrip(s: seq<byte>, c: Cursor, f: Field, v: Value)
    requires c.Valid() && IsValue(f, v) && |c.ofs| + Depth(v) <= MAX_NESTED
    requires StandsAt(s, c, EncodeOne(f, v))
    ensures Containers.ReadField(s, c, f) == Got(v, c.(pos := c.pos + |EncodeOne(f, v)|))
    decreases v, 1
  {
    hide IsValue, EncodeOne, Encode, AreValues, DepthOf, ReadStart, Children,
      Containers.ReadField, Containers.ReadFields;
    if f.Plain? || v.Null? {
      NothingNested(s, c, f, v);
    } else {
      HasItems(f, v);
      StartOfValue(s, c, f, v);
      var inside := ReadStart(s, c, f.Array?).cursor;
      ListRoundTrip(s, inside, Children(f, v.head), v.items);
      CloseAndReturn(s, c, inside, f, v.head, v.items);
    }
  }

  lemma NothingNested(s: seq<byte>, c: Cursor, f: Field, v: Value)
    requires c.Valid() && IsValue(f, v) && (f.Plain? || v.Null?)
    requires StandsAt(s, c, EncodeOne(f, v))
    ensures Containers.ReadField(s, c, f) == Got(v, c.(pos := c.pos + |EncodeOne(f, v)|))
  {
    hide IsLeaf, LeafBytes, ReadLeaf, ReadStart;
    if f.Plain? {
      LeafIsRead(s, c, f.leaf, v);
    } else {
      NullStartIsRead(s, c, f.Array?);
      NothingInside(s, c, f);
    }
  }

  lemma HasItems(f: Field, v: Value)
    requires IsValue(f, v) && !f.Plain? && !v.Null?
    ensures v.Items?
  {
  }

  /** The start of a container of a value, and its items behind it. */
  lemma StartOfValue(s: seq<byte>, c: Cursor, f: Field, v: Value)
    requires c.Valid() && |c.ofs| < MAX_NESTED && !f.Plain? && v.Items? && IsValue(f, v)
    requires StandsAt(s, c, EncodeOne(f, v))
    ensures var r := ReadStart(s, c, f.Array?);
      && r.Got? && r.value == Some(v.head) && r.cursor.Valid()
      && AreValues(Children(f, v.head), v.items)
      && var inside, items := r.cursor, Encode(Children(f, v.head), v.items);
         && StandsAt(s, inside, items) && inside.pos + |items| == inside.end == c.pos + |EncodeOne(f, v)|
         && inside.end <= c.end && inside.end <= |s|
         && inside.ofs == c.ofs + [c.end - inside.end] && inside.kinds == c.kinds + [f.Array?]
  {
    hide ReadStart, Open, Packed22, Encode;
    var items := Encode(Children(f, v.head), v.items);
    if f.Object? {
      ObjectStartIsRead(s, c, v.head, items);
    } else {
      ArrayStartIsRead(s, c, |v.items|, items);
    }
  }

  lemma NothingInside(s: seq<byte>, c: Cursor, f: Field)
    requires c.Valid() && !f.Plain? && ReadStart(s, c, f.Array?).Got? && ReadStart(s, c, f.Array?).value.None?
    ensures Containers.ReadField(s, c, f) == Got(Null, ReadStart(s, c, f.Array?).cursor)
  {
    hide ReadStart;
  }

  /** A container whose items have all been read is closed, and its parent goes on behind it. */
  lemma CloseAndReturn(s: seq<byte>, c: Cursor, inside: Cursor, f: Field, head: nat, items: seq<Value>)
    requires c.Valid() && !f.Plain? && ReadStart(s, c, f.Array?) == Got(Some(head), inside)
    requires inside.pos <= inside.end <= |s| && inside.end <= c.end
    requires inside.ofs == c.ofs + [c.end - inside.end] && inside.kinds == c.kinds + [f.Array?]
    requires inside.Valid()
    requires Containers.ReadFields(s, inside, Children(f, head)) == Got(items, inside.(pos := inside.end))
    ensures Containers.ReadField(s, c, f) == Got(Items(head, items), c.(pos := inside.end))
  {
    hide ReadStart, Containers.ReadFields, ReadElements;
    if f.Array? {
      ReadRepeated(s, inside, f.element, head);
    }
    var after, d := inside.(pos := inside.end), |c.ofs|;
    assert inside.ofs[..d] == c.ofs && inside.kinds[..d] == c.kinds;
    assert Close(s, after, f.Array?) == Got((), c.(pos := inside.end));
  }

  lemma {:induction false} ListRoundTrip(s: seq<byte>, c: Cursor, fields: seq<Field>, values: seq<Value>)
    requires c.Valid() && AreValues(fields, values) && |c.ofs| + DepthOf(values) <= MAX_NESTED
    requires StandsAt(s, c, Encode(fields, values))
    ensures Containers.ReadFields(s, c, fields) == Got(values, c.(pos := c.pos + |Encode(fields, values)|))
    decreases values, 0
  {
    hide IsValue, EncodeOne, Containers.ReadField;
    if values != [] {
      var first, rest := EncodeOne(fields[0], values[0]), Encode(fields[1..], values[1..]);
      InParts(s, c, first, rest);
      NestedRoundTrip(s, c, fields[0], values[0]);
      ListRoundTrip(s, c.(pos := c.pos + |first|), fields[1..], values[1..]);
      assert values == [values[0]] + values[1..];
    }
  }

  // ---- The calls that read a value ----

  /** The calls of a reader that knows the schema, for a value of it. */
  function Calls(f: Field, v: Value): seq<Op>
    decreases v, 2
  {
    if f.Plain? then [OpRead(f.leaf)]
    else if !v.Items? then [OpStart(f.Array?)]
    else [OpStart(f.Array?)] + CallsInside(f, v) + [OpEnd(f.Array?)]
  }

  function CallsInside(f: Field, v: Value): seq<Op>
    requires !f.Plain? && v.Items?
    decreases v, 1
  {
    AllCalls(Children(f, v.head), v.items)
  }

  function AllCalls(fields: seq<Field>, values: seq<Value>): seq<Op>
    decreases values, 0
  {
    if fields == [] || values == [] then []
    else Calls(fields[0], values[0]) + AllCalls(fields[1..], values[1..])
  }

  /** What these calls answer: a leaf by itself, a container by its head, its items and the call that closes it. */
  function Answers(f: Field, v: Value): seq<Value>
    decreases v, 2
  {
    if f.Plain? || !v.Items? then [v]
    else [Number(v.head)] + AnswersInside(f, v) + [Skipped]
  }

  function AnswersInside(f: Field, v: Value): seq<Value>
    requires !f.Plain? && v.Items?
    decreases v, 1
  {
    AllAnswers(Children(f, v.head), v.items)
  }

  function AllAnswers(fields: seq<Field>, values: seq<Value>): seq<Value>
    decreases values, 0
  {
    if fields == [] || values == [] then []
    else Answers(fields[0], values[0]) + AllAnswers(fields[1..], values[1..])
  }

  /** A field that can be read as a whole is read by these calls, one after the other. */
  lemma {:induction false} CallsAnswered(s: seq<byte>, c: Cursor, f: Field)
    requires c.Valid() && Containers.ReadField(s, c, f).Got?
    ensures var r := Containers.ReadField(s, c, f);
      Run(s, c, Calls(f, r.value)) == Got(Answers(f, r.value), r.cursor)
    decreases f, 1
  {
    if f.Plain? {
      LeafAnswered(s, c, f.leaf);
    } else {
      ReadContainer(s, c, f);
      StartKeepsEnds(s, c, f.Array?);
      var start := ReadStart(s, c, f.Array?);
      if start.value.Some? {
        ChildrenAnswered(s, start.cursor, f, start.value.value);
      }
      hide ReadStart, Containers.ReadField, Containers.ReadFields, Close, Run, Step;
      ContainerAnswered(s, c, f);
    }
  }

  lemma ContainerAnswered(s: seq<byte>, c: Cursor, f: Field)
    requires c.Valid() && !f.Plain? && Containers.ReadField(s, c, f).Got?
    requires var start := ReadStart(s, c, f.Array?);
      && start.Got? && start.cursor.Valid()
      && (start.value.None? ==> Containers.ReadField(s, c, f) == Got(Null, start.cursor))
      && (start.value.Some? ==>
            var n := start.value.value;
            var all := Containers.ReadFields(s, start.cursor, Children(f, n));
            && all.Got? && Close(s, all.cursor, f.Array?).Got?
            && Containers.ReadField(s, c, f) == Got(Items(n, all.value), Close(s, all.cursor, f.Array?).cursor)
            && Run(s, start.cursor, AllCalls(Children(f, n), all.value))
               == Got(AllAnswers(Children(f, n), all.value), all.cursor))
    ensures var r := Containers.ReadField(s, c, f);
      Run(s, c, Calls(f, r.value)) == Got(Answers(f, r.value), r.cursor)
  {
    var v, start := Containers.ReadField(s, c, f).value, ReadStart(s, c, f.Array?);
    StartAnswered(s, c, f.Array?);
    hide ReadStart, Containers.ReadField, Containers.ReadFields, Close, Run, Step, AllCalls, AllAnswers;
    if start.value.Some? {
      var all := Containers.ReadFields(s, start.cursor, Children(f, start.value.value));
      var first, inside, last := [OpStart(f.Array?)], CallsInside(f, v), [OpEnd(f.Array?)];
      EndAnswered(s, all.cursor, f.Array?);
      RunConcat(s, c, first, inside);
      RunConcat(s, c, first + inside, last);
    }
  }

  lemma StartAnswered(s: seq<byte>, c: Cursor, isArray: bool)
    requires c.Valid() && ReadStart(s, c, isArray).Got?
    ensures var r := ReadStart(s, c, isArray);
      Run(s, c, [OpStart(isArray)]) == Got([if r.value.None? then Null else Number(r.value.value)], r.cursor)
  {
    RunOne(s, c, OpStart(isArray));
    hide Run, ReadStart;
  }

  lemma EndAnswered(s: seq<byte>, c: Cursor, isArray: bool)
    requires c.Valid() && Close(s, c, isArray).Got?
    ensures Run(s, c, [OpEnd(isArray)]) == Got([Skipped], Close(s, c, isArray).cursor)
  {
    RunOne(s, c, OpEnd(isArray));
    hide Run, Close;
  }

  lemma LeafAnswered(s: seq<byte>, c: Cursor, leaf: Leaf)
    requires c.Valid() && ReadLeaf(s, c, leaf).Got?
    ensures Run(s, c, [OpRead(leaf)]) == Got([ReadLeaf(s, c, leaf).value], ReadLeaf(s, c, leaf).cursor)
    ensures !ReadLeaf(s, c, leaf).value.Items?
  {
    RunOne(s, c, OpRead(leaf));
    hide Run;
  }

  lemma {:induction false} ChildrenAnswered(s: seq<byte>, c: Cursor, f: Field, n: nat)
    requires c.Valid() && !f.Plain? && Containers.ReadFields(s, c, Children(f, n)).Got?
    ensures var r := Containers.ReadFields(s, c, Children(f, n));
      Run(s, c, AllCalls(Children(f, n), r.value)) == Got(AllAnswers(Children(f, n), r.value), r.cursor)
    decreases f, 0
  {
    if f.Object? {
      FieldsAnswered(s, c, f.fields);
    } else {
      ElementsAnswered(s, c, f.element, n);
    }
  }

  lemma {:induction false} FieldsAnswered(s: seq<byte>, c: Cursor, fields: seq<Field>)
    requires c.Valid() && Containers.ReadFields(s, c, fields).Got?
    ensures var r := Containers.ReadFields(s, c, fields);
      Run(s, c, AllCalls(fields, r.value)) == Got(AllAnswers(fields, r.value), r.cursor)
    decreases fields, 0
  {
    if fields != [] {
      CallsAnswered(s, c, fields[0]);
      FieldsAnswered(s, Containers.ReadField(s, c, fields[0]).cursor, fields[1..]);
      OneMoreAnswered(s, c, fields);
    }
  }

  lemma {:induction false} ElementsAnswered(s: seq<byte>, c: Cursor, element: Field, n: nat)
    requires c.Valid() && Containers.ReadFields(s, c, Repeat(element, n)).Got?
    ensures var r := Containers.ReadFields(s, c, Repeat(element, n));
      Run(s, c, AllCalls(Repeat(element, n), r.value)) == Got(AllAnswers(Repeat(element, n), r.value), r.cursor)
    decreases element, 2, n
  {
    if n > 0 {
      hide Run, Calls, Answers, Containers.ReadField;
      assert Repeat(element, n)[0] == element && Repeat(element, n)[1..] == Repeat(element, n - 1);
      CallsAnswered(s, c, element);
      ElementsAnswered(s, Containers.ReadField(s, c, element).cursor, element, n - 1);
      OneMoreAnswered(s, c, Repeat(element, n));
    }
  }

  lemma OneMoreAnswered(s: seq<byte>, c: Cursor, fields: seq<Field>)
    requires c.Valid() && fields != [] && Containers.ReadFields(s, c, fields).Got?
    requires var r := Containers.ReadField(s, c, fields[0]);
      && Run(s, c, Calls(fields[0], r.value)) == Got(Answers(fields[0], r.value), r.cursor)
      && var rest := Containers.ReadFields(s, r.cursor, fields[1..]);
         Run(s, r.cursor, AllCalls(fields[1..], rest.value)) == Got(AllAnswers(fields[1..], rest.value), rest.cursor)
    ensures var r := Containers.ReadFields(s, c, fields);
      Run(s, c, AllCalls(fields, r.value)) == Got(AllAnswers(fields, r.value), r.cursor)
  {
    hide Calls, Answers, Run, Containers.ReadField;
    var first := Containers.ReadField(s, c, fields[0]);
    var rest := Containers.ReadFields(s, first.cursor, fields[1..]);
    RunConcat(s, c, Calls(fields[0], first.value), AllCalls(fields[1..], rest.value));
    assert ([first.value] + rest.value)[1..] == rest.value;
  }

  /** The calls for a list of fields give back its values, and end behind its encoding. */
  lemma EncodedIsAnswered(s: seq<byte>, c: Cursor, fields: seq<Field>, values: seq<Value>)
    requires c.Valid() && AreValues(fields, values) && |c.ofs| + DepthOf(values) <= MAX_NESTED
    requires StandsAt(s, c, Encode(fields, values))
    ensures Run(s, c, AllCalls(fields, values))
      == Got(AllAnswers(fields, values), c.(pos := c.pos + |Encode(fields, values)|))
  {
    ListRoundTrip(s, c, fields, values);
    FieldsAnswered(s, c, fields);
  }

  // ---- Blocks of messages ----

  datatype Message = Message(fields: seq<Field>, values: seq<Value>)

  predicate IsMessage(m: Message)
  {
    && AreValues(m.fields, m.values) && DepthOf(m.values) <= MAX_NESTED
    && MessageBlock.MIN_MESSAGE <= |Encode(m.fields, m.values)| <= MessageBlock.MAX_MESSAGE
  }

  /** The body of a message behind its length. */
  function Framed(m: Message): (bytes: seq<byte>)
    requires IsMessage(m)
    ensures |bytes| == 4 + |Encode(m.fields, m.values)|
  {
    BEBytes(|Encode(m.fields, m.values)|, 4) + Encode(m.fields, m.values)
  }

  function FramedAll(messages: seq<Message>): seq<byte>
    requires forall i :: 0 <= i < |messages| ==> IsMessage(messages[i])
  {
    if messages == [] then []
    else FramedAll(messages[..|messages| - 1]) + Framed(messages[|messages| - 1])
  }

  function Plans(messages: seq<Message>): (plans: seq<seq<Op>>)
    ensures |plans| == |messages|
    ensures forall i :: 0 <= i < |messages| ==> plans[i] == AllCalls(messages[i].fields, messages[i].values)
  {
    seq(|messages|, i requires 0 <= i < |messages| => AllCalls(messages[i].fields, messages[i].values))
  }

  /** A framed message is answered in full, from where its length stands. */
  lemma MessageIsAnswered(s: seq<byte>, pos: nat, m: Message)
    requires IsMessage(m) && pos + |Framed(m)| <= |s| && s[pos..pos + |Framed(m)|] == Framed(m)
    ensures var ops := AllCalls(m.fields, m.values);
      && MessageBlock.LengthAt(s, pos) == Some(|Framed(m)| - 4)
      && MessageBlock.Answered(s, pos, ops)
      && MessageBlock.Answer(s, pos, ops) == AllAnswers(m.fields, m.values)
  {
    hide BE, BEBytes, Encode, AllCalls, AllAnswers, AreValues, DepthOf, Run, Pow2;
    var body := Encode(m.fields, m.values);
    var all := s[pos..pos + |Framed(m)|];
    assert all[..4] == BEBytes(|body|, 4) == s[pos..pos + 4];
    assert all[4..] == body == s[pos + 4..pos + 4 + |body|];
    BytePowers();
    BEOfBytes(|body|, 4);
    LowOfSmall(|body|, 32);
    EncodedIsAnswered(s, Cursor(pos + 4, pos + 4 + |body|, [], []), m.fields, m.values);
  }

  lemma {:induction false} FramedPrefix(messages: seq<Message>, n: nat)
    requires n <= |messages| && forall i :: 0 <= i < |messages| ==> IsMessage(messages[i])
    ensures FramedAll(messages[..n]) <= FramedAll(messages)
  {
    hide IsMessage, Framed;
    if n < |messages| {
      var init := messages[..|messages| - 1];
      FramedPrefix(init, n);
      assert init[..n] == messages[..n];
    } else {
      assert messages[..n] == messages;
    }
  }

  /** Where the messages stand, by their lengths. */
  lemma {:induction false} MessagesStand(s: seq<byte>, pos: nat, messages: seq<Message>, n: nat)
    requires n <= |messages| && forall i :: 0 <= i < |messages| ==> IsMessage(messages[i])
    requires pos + |FramedAll(messages)| <= |s| && s[pos..pos + |FramedAll(messages)|] == FramedAll(messages)
    ensures |FramedAll(messages[..n])| <= |FramedAll(messages)|
    ensures MessageBlock.Skipped(s, pos, n) == Some(pos + |FramedAll(messages[..n])|)
    ensures n > 0 ==> var at := pos + |FramedAll(messages[..n - 1])|;
      && at + |Framed(messages[n - 1])| <= |s|
      && s[at..at + |Framed(messages[n - 1])|] == Framed(messages[n - 1])
    decreases n
  {
    hide IsMessage, Framed, Encode, AllCalls, AllAnswers,
      MessageBlock.LengthAt, MessageBlock.Answered, MessageBlock.Answer, MessageBlock.Skipped;
    FramedPrefix(messages, n);
    NoneSkipped(s, pos);
    if n > 0 {
      MessagesStand(s, pos, messages, n - 1);
      var before, m, all := FramedAll(messages[..n - 1]), messages[n - 1], FramedAll(messages);
      assert messages[..n][..n - 1] == messages[..n - 1];
      assert FramedAll(messages[..n]) == before + Framed(m);
      hide FramedAll;
      PartStands(s, pos, all, before, Framed(m));
      MessageIsAnswered(s, pos + |before|, m);
      LengthBelowTerminator(m);
      OneSkipped(s, pos, n, pos + |before|, |Framed(m)| - 4);
    }
  }

  lemma NoneSkipped(s: seq<byte>, pos: nat)
    ensures MessageBlock.Skipped(s, pos, 0) == Some(pos)
  {
  }

  lemma OneSkipped(s: seq<byte>, pos: nat, n: nat, at: nat, size: nat)
    requires n > 0 && MessageBlock.Skipped(s, pos, n - 1) == Some(at) && MessageBlock.LengthAt(s, at) == Some(size)
    requires size != MessageBlock.TERMINATOR && at + 4 + size <= |s|
    ensures MessageBlock.Skipped(s, pos, n) == Some(at + 4 + size)
  {
    hide MessageBlock.LengthAt;
  }

  lemma PartStands(s: seq<byte>, pos: nat, all: seq<byte>, before: seq<byte>, part: seq<byte>)
    requires pos + |all| <= |s| && s[pos..pos + |all|] == all && before + part <= all
    ensures var at := pos + |before|; at + |part| <= |s| && s[at..at + |part|] == part
  {
    var at, n := pos + |before|, |before| + |part|;
    assert all[..n] == before + part;
    assert s[at..at + |part|] == s[pos..pos + |all|][|before|..n] == all[..n][|before|..];
  }

  lemma LengthBelowTerminator(m: Message)
    requires IsMessage(m)
    ensures |Framed(m)| >= 4 && |Framed(m)| - 4 != MessageBlock.TERMINATOR
  {
  }

  /**
    Every block of messages, with any nested content, is read to exactly the values that were encoded,
    by the calls that fit them, and the reader ends behind the last message.
   */
  lemma MessagesAreRead(s: seq<byte>, pos: nat, slots: seq<nat>, messages: seq<Message>)
    requires |slots| == MAX_NESTED && forall i :: 0 <= i < |messages| ==> IsMessage(messages[i])
    requires pos + |FramedAll(messages)| <= |s| && s[pos..pos + |FramedAll(messages)|] == FramedAll(messages)
    ensures var p := MessageBlock.Block(s, pos, slots, Plans(messages));
      && p.Between? && p.pos == pos + |FramedAll(messages)| && |p.values| == |messages|
      && forall i :: 0 <= i < |messages| ==> p.values[i] == AllAnswers(messages[i].fields, messages[i].values)
  {
    hide IsMessage, Framed, AllCalls, AllAnswers, MessageBlock.Block, MessageBlock.Answered, MessageBlock.Answer,
      MessageBlock.Skipped, FramedAll;
    var plans := Plans(messages);
    forall i | 0 <= i < |messages|
      ensures MessageBlock.Skipped(s, pos, i).Some?
      ensures MessageBlock.Answered(s, MessageBlock.Skipped(s, pos, i).value, plans[i])
      ensures MessageBlock.Answer(s, MessageBlock.Skipped(s, pos, i).value, plans[i])
        == AllAnswers(messages[i].fields, messages[i].values)
    {
      MessagesStand(s, pos, messages, i);
      MessagesStand(s, pos, messages, i + 1);
      MessageIsAnswered(s, pos + |FramedAll(messages[..i])|, messages[i]);
    }
    MessagesStand(s, pos, messages, |messages|);
    assert messages[..|messages|] == messages;
    MessageBlock.BlockIsRead(s, pos, slots, plans);
  }

  // ---- Cutting the end of a message ----

  /** Past the end of the content the field reads as the value it had. */
  predicate Vanishes(f: Field, v: Value)
  {
    if f.Plain? then !f.leaf.Binary? && v == EndValue(f.leaf) else v.Null?
  }

  lemma {:induction false} ValuesPrefix(fields: seq<Field>, values: seq<Value>, k: nat)
    requires AreValues(fields, values) && k <= |values|
    ensures AreValues(fields[..k], values[..k])
    decreases |values|
  {
    hide IsValue;
    if k > 0 {
      ValuesPrefix(fields[1..], values[1..], k - 1);
      assert fields[..k][1..] == fields[1..][..k - 1] && values[..k][1..] == values[1..][..k - 1];
    }
  }

  /** What a cut leaves of the encoding. */
  function EncodedUpTo(fields: seq<Field>, values: seq<Value>, k: nat): seq<byte>
    requires AreValues(fields, values) && k <= |values|
  {
    ValuesPrefix(fields, values, k);
    Encode(fields[..k], values[..k])
  }

  lemma ReadAtEnd(s: seq<byte>, c: Cursor, f: Field, v: Value)
    requires c.Valid() && c.AtEnd()
    ensures Containers.ReadField(s, c, f).Got? ==> Containers.ReadField(s, c, f).cursor == c
    ensures Containers.ReadField(s, c, f) == Got(v, c) <==> Vanishes(f, v)
  {
    hide BE, LE, PackedUInt30;
  }

  /**
    A message of nested fields that is cut behind its first `k` fields reads as the whole one exactly
    when every field that was cut off had the value that is read past the end.
   */
  lemma {:induction false} CutFieldsExactDomain(s: seq<byte>, c: Cursor, fields: seq<Field>, values: seq<Value>, k: nat)
    requires c.Valid() && AreValues(fields, values) && |c.ofs| + DepthOf(values) <= MAX_NESTED && k <= |values|
    requires StandsAt(s, c, EncodedUpTo(fields, values, k)) && c.end == c.pos + |EncodedUpTo(fields, values, k)|
    ensures var r := Containers.ReadFields(s, c, fields);
      r.Got? && r.value == values <==> forall i :: k <= i < |values| ==> Vanishes(fields[i], values[i])
    decreases |values|
  {
    hide IsValue, EncodeOne, Depth, Containers.ReadField, Containers.ReadFields, Vanishes;
    if values == [] {
      NoFields(s, c);
    } else {
      var rest, others := fields[1..], values[1..];
      FirstReadFirst(s, c, fields, values);
      if k > 0 {
        var first, later := EncodeOne(fields[0], values[0]), EncodedUpTo(rest, others, k - 1);
        assert fields[..k][1..] == rest[..k - 1] && values[..k][1..] == others[..k - 1];
        InParts(s, c, first, later);
        NestedRoundTrip(s, c, fields[0], values[0]);
        CutFieldsExactDomain(s, c.(pos := c.pos + |first|), rest, others, k - 1);
        OneLater(fields, values, k);
      } else {
        ReadAtEnd(s, c, fields[0], values[0]);
        assert fields[..0] == [] == rest[..0] && values[..0] == [] == others[..0];
        CutFieldsExactDomain(s, c, rest, others, 0);
        FirstAndOthers(fields, values);
      }
    }
  }

  lemma NoFields(s: seq<byte>, c: Cursor)
    requires c.Valid()
    ensures Containers.ReadFields(s, c, []) == Got([], c)
  {
  }

  /** A list of fields reads as some values when the first field reads as the first and the others as the rest. */
  lemma FirstReadFirst(s: seq<byte>, c: Cursor, fields: seq<Field>, values: seq<Value>)
    requires c.Valid() && |fields| == |values| > 0
    ensures var r, first := Containers.ReadFields(s, c, fields), Containers.ReadField(s, c, fields[0]);
      r.Got? && r.value == values <==>
      && first.Got? && first.value == values[0]
      && var others := Containers.ReadFields(s, first.cursor, fields[1..]);
         others.Got? && others.value == values[1..]
  {
    hide Containers.ReadField;
    assert values == [values[0]] + values[1..];
    var r := Containers.ReadFields(s, c, fields);
    assert r.Got? ==> r.value == [r.value[0]] + r.value[1..];
  }

  lemma OneLater(fields: seq<Field>, values: seq<Value>, k: nat)
    requires |fields| == |values| && 0 < k <= |values|
    ensures (forall i :: k <= i < |values| ==> Vanishes(fields[i], values[i]))
      <==> (forall i :: k - 1 <= i < |values[1..]| ==> Vanishes(fields[1..][i], values[1..][i]))
  {
    hide Vanishes;
    if forall i :: k - 1 <= i < |values[1..]| ==> Vanishes(fields[1..][i], values[1..][i]) {
      forall i | k <= i < |values|
        ensures Vanishes(fields[i], values[i])
      {
        assert fields[i] == fields[1..][i - 1] && values[i] == values[1..][i - 1];
      }
    }
  }

  lemma FirstAndOthers(fields: seq<Field>, values: seq<Value>)
    requires |fields| == |values| > 0
    ensures (forall i :: 0 <= i < |values| ==> Vanishes(fields[i], values[i]))
      <==> (Vanishes(fields[0], values[0])
            && forall i :: 0 <= i < |values[1..]| ==> Vanishes(fields[1..][i], values[1..][i]))
  {
    hide Vanishes;
    if Vanishes(fields[0], values[0]) &&
       forall i :: 0 <= i < |values[1..]| ==> Vanishes(fields[1..][i], values[1..][i])
    {
      forall i | 0 <= i < |values|
        ensures Vanishes(fields[i], values[i])
      {
        if i > 0 {
          assert fields[i] == fields[1..][i - 1] && values[i] == values[1..][i - 1];
        }
      }
    }
  }
}
