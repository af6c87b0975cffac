/**
  The container stack over whole runs, and reading a message by any plan of reads and skips.
 */
module Containers {
  import opened Words
  import opened Cursor

  // ---- The stack over a run ----

  lemma WithinShallower(before: Cursor, after: Cursor, d: nat, k: nat)
    requires k <= d && Within(before, after, d)
    ensures Within(before, after, k)
  {
    EndsFollow(before, after, d, k);
    assert before.ofs[..k] == before.ofs[..d][..k] && after.ofs[..k] == after.ofs[..d][..k];
    assert before.kinds[..k] == before.kinds[..d][..k] && after.kinds[..k] == after.kinds[..d][..k];
  }

  lemma {:induction false} EndsNest(c: Cursor, d: nat)
    requires d <= |c.ofs|
    ensures c.end <= c.EndAt(d)
    decreases |c.ofs| - d
  {
    if d < |c.ofs| {
      EndsNest(c, d + 1);
    }
  }

  /**
    In every reachable state the end of the content plus all container offsets is the end of the
    message, every container ends within its parent, and nothing was read past the current end.
   */
  lemma {:induction false} RunKeepsMessageEnd(s: seq<byte>, c: Cursor, ops: seq<Op>)
    requires c.Valid() && Run(s, c, ops).Got?
    ensures var c' := Run(s, c, ops).cursor;
      && c'.Valid() && c.pos <= c'.pos <= c'.end <= c'.EndAt(0) == c.EndAt(0)
      && (forall d :: 0 <= d < |c'.ofs| ==> c'.EndAt(d + 1) <= c'.EndAt(d))
    decreases |ops|
  {
    EndsNest(Run(s, c, ops).cursor, 0);
    if ops != [] {
      StepKeepsEnds(s, c, ops[0]);
      var c1 := Step(s, c, ops[0]).cursor;
      EndsFollow(c, c1, Min(|c.ofs|, |c1.ofs|), 0);
      RunKeepsMessageEnd(s, c1, ops[1..]);
    }
  }

  /** The run never closes a container below depth `d`. */
  ghost predicate StaysAt(s: seq<byte>, c: Cursor, ops: seq<Op>, d: nat)
    requires c.Valid()
    decreases |ops|
  {
    && d <= |c.ofs|
    && (ops != [] && Step(s, c, ops[0]).Got? ==>
          (StepKeepsEnds(s, c, ops[0]); StaysAt(s, Step(s, c, ops[0]).cursor, ops[1..], d)))
  }

  lemma {:induction false} RunWithin(s: seq<byte>, c: Cursor, ops: seq<Op>, d: nat)
    requires c.Valid() && Run(s, c, ops).Got? && StaysAt(s, c, ops, d)
    ensures Within(c, Run(s, c, ops).cursor, d)
    decreases |ops|
  {
    if ops != [] {
      StepKeepsEnds(s, c, ops[0]);
      var c1 := Step(s, c, ops[0]).cursor;
      WithinShallower(c, c1, Min(|c.ofs|, |c1.ofs|), d);
      RunWithin(s, c1, ops[1..], d);
    }
  }

  /**
    Skipping a container is opening it, making any reads inside it (partial ones, nested ones) and
    closing it: the same position and the same stack, or the same exception.
   */
  lemma SkipIsOpenReadClose(s: seq<byte>, c: Cursor, isArray: bool, ops: seq<Op>)
    requires c.Valid() && Open(s, c, isArray).Got? && Open(s, c, isArray).value
    requires var inside := Open(s, c, isArray).cursor;
      && StaysAt(s, inside, ops, |inside.ofs|)
      && Run(s, inside, ops).Got? && |Run(s, inside, ops).cursor.ofs| == |inside.ofs|
    ensures var inside := Open(s, c, isArray).cursor;
      Close(s, Run(s, inside, ops).cursor, isArray) == SkipContainer(s, c)
  {
    var inside := Open(s, c, isArray).cursor;
    RunWithin(s, inside, ops, |inside.ofs|);
    CloseIsSkip(s, c, isArray, Run(s, inside, ops).cursor);
  }

  lemma CloseIsSkip(s: seq<byte>, c: Cursor, isArray: bool, after: Cursor)
    requires c.Valid() && Open(s, c, isArray).Got? && Open(s, c, isArray).value
    requires Within(Open(s, c, isArray).cursor, after, |c.ofs| + 1) && |after.ofs| == |c.ofs| + 1
    ensures Close(s, after, isArray) == SkipContainer(s, c)
  {
    var inside, d := Open(s, c, isArray).cursor, |c.ofs|;
    assert after.ofs == after.ofs[..d + 1] == inside.ofs && after.kinds == after.kinds[..d + 1] == inside.kinds;
    assert inside.ofs[..d] == c.ofs && inside.kinds[..d] == c.kinds;
    assert after.EndAt(d + 1) == after.end && inside.EndAt(d + 1) == inside.end;
  }

  // ---- Messages by schema ----

  datatype Field =
    | Plain(leaf: Leaf)
    | Object(fields: seq<Field>)
    | Array(element: Field)

  /** What a reader does with a field: skip it, read all of it, or enter it for its first items. */
  datatype Plan = SkipIt | ReadIt | Enter(plans: seq<Plan>)

  /** Reads everything a field holds. */
  function ReadField(s: seq<byte>, c: Cursor, f: Field): (r: Read<Value>)
    requires c.Valid()
    ensures r.Got? ==> r.cursor == c.(pos := r.cursor.pos) && c.pos <= r.cursor.pos <= c.end
    decreases f, 0, 0
  {
    match f
    case Plain(leaf) =>
      var r := ReadLeaf(s, c, leaf);
      if r.Got? then ReadLeafMoves(s, c, leaf); r else Threw
    case Object(fields) =>
      var (head, inside) :- ReadStart(s, c, false);
      if head.None? then Got(Null, inside)
      else
        StartKeepsEnds(s, c, false);
        var (items, after) :- ReadFields(s, inside, fields);
        var (_, c') :- Close(s, after, false);
        Closed(s, c, inside, after, false);
        Got(Items(head.value, items), c')
    case Array(element) =>
      var (head, inside) :- ReadStart(s, c, true);
      if head.None? then Got(Null, inside)
      else
        StartKeepsEnds(s, c, true);
        var (items, after) :- ReadElements(s, inside, element, head.value);
        var (_, c') :- Close(s, after, true);
        Closed(s, c, inside, after, true);
        Got(Items(head.value, items), c')
  }

  function ReadFields(s: seq<byte>, c: Cursor, fields: seq<Field>): (r: Read<seq<Value>>)
    requires c.Valid()
    ensures r.Got? ==> r.cursor == c.(pos := r.cursor.pos) && c.pos <= r.cursor.pos <= c.end
    decreases fields, 0, 0
  {
    if fields == [] then Got([], c)
    else
      var (v, c) :- ReadField(s, c, fields[0]);
      var (vs, c) :- ReadFields(s, c, fields[1..]);
      Got([v] + vs, c)
  }

  function ReadElements(s: seq<byte>, c: Cursor, element: Field, n: nat): (r: Read<seq<Value>>)
    requires c.Valid()
    ensures r.Got? ==> r.cursor == c.(pos := r.cursor.pos) && c.pos <= r.cursor.pos <= c.end
    decreases element, 1, n
  {
    if n == 0 then Got([], c)
    else
      var (v, c) :- ReadField(s, c, element);
      var (vs, c) :- ReadElements(s, c, element, n - 1);
      Got([v] + vs, c)
  }

  /** Open, move inside, close: only the position has changed. */
  lemma Closed(s: seq<byte>, c: Cursor, inside: Cursor, after: Cursor, isArray: bool)
    requires c.Valid() && Within(c, inside, |c.ofs|) && |inside.ofs| == |c.ofs| + 1
    requires after == inside.(pos := after.pos) && inside.pos <= after.pos <= inside.end
    requires Close(s, after, isArray).Got?
    ensures var c' := Close(s, after, isArray).cursor;
      c' == c.(pos := c'.pos) && c.pos <= c'.pos <= c.end
  {
    var d := |c.ofs|;
    assert inside.EndAt(d) == inside.ofs[d] + inside.EndAt(d + 1);
    assert c.ofs[..d] == c.ofs && c.kinds[..d] == c.kinds;
  }

  // ---- Plans ----

  /** The items of a container whose head is `n`: an object's fields, or so many elements. */
  function Children(f: Field, n: nat): seq<Field>
    requires !f.Plain?
  {
    match f
    case Object(fields) => fields
    case Array(element) => Repeat(element, n)
  }

  function Repeat(element: Field, n: nat): seq<Field>
  {
    if n == 0 then [] else [element] + Repeat(element, n - 1)
  }

  /** Follows a plan.  A container that is entered is closed after its last planned item. */
  function Follow(s: seq<byte>, c: Cursor, f: Field, plan: Plan): (r: Read<Value>)
    requires c.Valid()
    ensures r.Got? ==> r.cursor == c.(pos := r.cursor.pos) && c.pos <= r.cursor.pos <= c.end
    decreases plan, 0
  {
    match plan
    case SkipIt =>
      (match f
       case Plain(leaf) =>
         var (_, c') :- SkipLeaf(s, c, leaf);
         SkipLeafMoves(s, c, leaf);
         Got(Skipped, c')
       case _ =>
         var (_, c') :- SkipWhole(s, c);
         SkipWholeMoves(s, c);
         Got(Skipped, c'))
    case ReadIt => ReadField(s, c, f)
    case Enter(plans) =>
      if f.Plain? then ReadField(s, c, f) else FollowInside(s, c, f, plans)
  }

  function FollowInside(s: seq<byte>, c: Cursor, f: Field, plans: seq<Plan>): (r: Read<Value>)
    requires c.Valid() && !f.Plain?
    ensures r.Got? ==> r.cursor == c.(pos := r.cursor.pos) && c.pos <= r.cursor.pos <= c.end
    decreases plans, 1
  {
    var (head, inside) :- ReadStart(s, c, f.Array?);
    if head.None? then Got(Null, inside)
    else
      StartKeepsEnds(s, c, f.Array?);
      var (items, after) :- FollowItems(s, inside, Children(f, head.value), plans);
      var (_, c') :- Close(s, after, f.Array?);
      Closed(s, c, inside, after, f.Array?);
      Got(Items(head.value, items), c')
  }

  function FollowItems(s: seq<byte>, c: Cursor, fields: seq<Field>, plans: seq<Plan>): (r: Read<seq<Value>>)
    requires c.Valid()
    ensures r.Got? ==> r.cursor == c.(pos := r.cursor.pos) && c.pos <= r.cursor.pos <= c.end
    decreases plans, 0
  {
    if fields == [] || plans == [] then Got([], c)
    else
      var (v, c) :- Follow(s, c, fields[0], plans[0]);
      var (vs, c) :- FollowItems(s, c, fields[1..], plans[1..]);
      Got([v] + vs, c)
  }

  /** What of a value a plan gets to see. */
  function Project(v: Value, plan: Plan): Value
    decreases plan, 0
  {
    match plan
    case SkipIt => Skipped
    case ReadIt => v
    case Enter(plans) => if v.Items? then Items(v.head, ProjectItems(v.items, plans)) else v
  }

  function ProjectItems(items: seq<Value>, plans: seq<Plan>): seq<Value>
    decreases plans, 0
  {
    if items == [] || plans == [] then []
    else [Project(items[0], plans[0])] + ProjectItems(items[1..], plans[1..])
  }

  lemma {:induction false} ReadRepeated(s: seq<byte>, c: Cursor, element: Field, n: nat)
    requires c.Valid()
    ensures ReadElements(s, c, element, n) == ReadFields(s, c, Repeat(element, n))
    decreases n
  {
    if n > 0 {
      assert Repeat(element, n)[1..] == Repeat(element, n - 1);
      var r := ReadField(s, c, element);
      if r.Got? {
        ReadRepeated(s, r.cursor, element, n - 1);
      }
    }
  }

  /** Reading a container, in the shape in which a plan enters it. */
  lemma ReadContainer(s: seq<byte>, c: Cursor, f: Field)
    requires c.Valid() && !f.Plain? && ReadField(s, c, f).Got?
    ensures var start := ReadStart(s, c, f.Array?);
      && start.Got? && start.cursor.Valid()
      && (start.value.None? ==> ReadField(s, c, f) == Got(Null, start.cursor))
      && (start.value.Some? ==>
            var n := start.value.value;
            var all := ReadFields(s, start.cursor, Children(f, n));
            && all.Got? && Close(s, all.cursor, f.Array?).Got?
            && ReadField(s, c, f) == Got(Items(n, all.value), Close(s, all.cursor, f.Array?).cursor))
  {
    StartKeepsEnds(s, c, f.Array?);
    var start := ReadStart(s, c, f.Array?);
    if f.Array? && start.value.Some? {
      ReadRepeated(s, start.cursor, f.element, start.value.value);
    }
  }

  /** Closing does not look at how far the container was read. */
  lemma CloseFromAnywhere(s: seq<byte>, inside: Cursor, p: nat, q: nat, isArray: bool)
    requires inside.Valid() && p <= inside.end && q <= inside.end
    ensures Close(s, inside.(pos := p), isArray) == Close(s, inside.(pos := q), isArray)
  {
  }

  /** Wherever inside it reading stops, closing a started container is skipping it. */
  lemma CloseStarted(s: seq<byte>, c: Cursor, isArray: bool, p: nat)
    requires c.Valid() && !c.AtEnd()
    requires ReadStart(s, c, isArray).Got? && ReadStart(s, c, isArray).value.Some?
    requires var inside := ReadStart(s, c, isArray).cursor; inside.pos <= p <= inside.end
    ensures var after := ReadStart(s, c, isArray).cursor.(pos := p);
      after.Valid() && Close(s, after, isArray) == SkipContainer(s, c)
  {
    OpenPushes(s, c, isArray);
    StartKeepsEnds(s, c, isArray);
    hide BE, LE, Close, SkipContainer;
    var inside, start := Open(s, c, isArray).cursor, ReadStart(s, c, isArray).cursor;
    assert start == inside.(pos := start.pos) && start.pos >= inside.pos by {
      hide Open;
    }
    hide Open, ReadStart;
    CloseIsSkip(s, c, isArray, start.(pos := p));
  }

  /** Skipping a container that can be read ends where reading it ends. */
  lemma SkipContainerField(s: seq<byte>, c: Cursor, f: Field)
    requires c.Valid() && !f.Plain? && ReadField(s, c, f).Got?
    ensures SkipWhole(s, c) == ReadField(s, c, f).Erased()
  {
    ReadContainer(s, c, f);
    StartKeepsEnds(s, c, f.Array?);
    hide BE, LE, ReadField, ReadFields, Close, SkipContainer;
    var start := ReadStart(s, c, f.Array?);
    if start.value.Some? {
      var after := ReadFields(s, start.cursor, Children(f, start.value.value)).cursor;
      CloseStarted(s, c, f.Array?, after.pos);
    } else {
      SkipNull(s, c, f.Array?);
    }
  }

  lemma SkipNull(s: seq<byte>, c: Cursor, isArray: bool)
    requires c.Valid() && ReadStart(s, c, isArray).Got? && ReadStart(s, c, isArray).value.None?
    ensures SkipWhole(s, c) == Got((), ReadStart(s, c, isArray).cursor)
  {
    hide BE, LE;
  }

  /**
    Any plan of reads, skips and partly read containers sees exactly its part of what reading
    everything sees, and ends at the same position.
   */
  lemma {:induction false} PlanSeesProjection(s: seq<byte>, c: Cursor, f: Field, plan: Plan)
    requires c.Valid() && ReadField(s, c, f).Got?
    ensures Follow(s, c, f, plan) == Got(Project(ReadField(s, c, f).value, plan), ReadField(s, c, f).cursor)
    decreases plan, 0
  {
    match plan
    case ReadIt =>
    case SkipIt =>
      if f.Plain? {
        SkipIsRead(s, c, f.leaf);
      } else {
        SkipContainerField(s, c, f);
      }
    case Enter(plans) =>
      if f.Plain? {
        assert !ReadField(s, c, f).value.Items?;
      } else {
        InsideSeesProjection(s, c, f, plans);
      }
  }

  lemma {:induction false} InsideSeesProjection(s: seq<byte>, c: Cursor, f: Field, plans: seq<Plan>)
    requires c.Valid() && !f.Plain? && ReadField(s, c, f).Got?
    ensures FollowInside(s, c, f, plans)
      == Got(Project(ReadField(s, c, f).value, Enter(plans)), ReadField(s, c, f).cursor)
    decreases plans, 1
  {
    ReadContainer(s, c, f);
    StartKeepsEnds(s, c, f.Array?);
    var start := ReadStart(s, c, f.Array?);
    if start.value.Some? {
      var inside, children := start.cursor, Children(f, start.value.value);
      PlansSeeProjection(s, inside, children, plans);
      CloseFromAnywhere(s, inside, ReadFields(s, inside, children).cursor.pos,
        FollowItems(s, inside, children, plans).cursor.pos, f.Array?);
    }
  }

  lemma {:induction false} PlansSeeProjection(s: seq<byte>, c: Cursor, fields: seq<Field>, plans: seq<Plan>)
    requires c.Valid() && ReadFields(s, c, fields).Got?
    ensures FollowItems(s, c, fields, plans).Got?
    ensures FollowItems(s, c, fields, plans).value == ProjectItems(ReadFields(s, c, fields).value, plans)
    ensures |plans| >= |fields| ==> FollowItems(s, c, fields, plans).cursor == ReadFields(s, c, fields).cursor
    decreases plans, 0
  {
    if fields != [] && plans != [] {
      PlanSeesProjection(s, c, fields[0], plans[0]);
      PlansSeeProjection(s, ReadField(s, c, fields[0]).cursor, fields[1..], plans[1..]);
    }
  }
}
