/** The event queue's schedule: draining it serves every queued event round-robin, each handler once, in bind order. */
module Schedule {
  import opened Bytes
  import opened Opcodes
  import opened Encoding
  import opened Layout
  import opened Machine
  import opened Steps

  /** The handlers an item still has to run, in bind order. */
  function Remaining(events: seq<Event>, item: Item): seq<nat> {
    var i := EventIndex(events, item.name);
    if i < |events| && item.next < |events[i].handlers| then events[i].handlers[item.next..] else []
  }

  /** An item without handlers still costs one dispatch attempt. */
  function Cost(events: seq<Event>, item: Item): nat {
    if Remaining(events, item) == [] then 1 else |Remaining(events, item)|
  }

  function Work(events: seq<Event>, queue: seq<Item>): nat {
    if queue == [] then 0 else Cost(events, queue[0]) + Work(events, queue[1..])
  }

  function Next(item: Item): Item {
    Item(item.name, item.next + 1)
  }

  lemma {:induction false} WorkAppend(events: seq<Event>, a: seq<Item>, b: seq<Item>)
    ensures Work(events, a + b) == Work(events, a) + Work(events, b)
    decreases |a|
  {
    if a == [] {
      assert a + b == b;
    } else {
      assert (a + b)[1..] == a[1..] + b;
      WorkAppend(events, a[1..], b);
    }
  }

  /** Every dispatch attempt lowers the measure by exactly one. */
  lemma WorkDrops(events: seq<Event>, queue: seq<Item>)
    requires queue != []
    ensures Work(events, Rotate(events, queue)) == Work(events, queue) - 1
  {
    var item := queue[0];
    if HasMore(events, item) {
      WorkAppend(events, queue[1..], [Next(item)]);
      assert [Next(item)][1..] == [];
    } else {
      assert Rotate(events, queue) == queue[1..];
    }
  }

  /** The handler an item is due, if any, and the item queued again, if it has more. */
  function Served(events: seq<Event>, item: Item): seq<nat> {
    var due := DueHandler(events, item);
    if due.Some? then [due.value] else []
  }

  function Requeued(events: seq<Event>, item: Item): seq<Item> {
    if HasMore(events, item) then [Next(item)] else []
  }

  /** The handlers dispatched, in order, when the queue is drained with the bindings fixed. */
  function Drain(events: seq<Event>, queue: seq<Item>): seq<nat>
    decreases Work(events, queue)
  {
    if queue == [] then []
    else
      WorkDrops(events, queue);
      Served(events, queue[0]) + Drain(events, Rotate(events, queue))
  }

  // ----- Round-robin -----

  /** One round: the next handler of every item that has one, in queue order. */
  function Round(events: seq<Event>, queue: seq<Item>): seq<nat> {
    if queue == [] then [] else Served(events, queue[0]) + Round(events, queue[1..])
  }

  /** The items with handlers left after a round, in queue order. */
  function Advance(events: seq<Event>, queue: seq<Item>): seq<Item> {
    if queue == [] then []
    else Requeued(events, queue[0]) + Advance(events, queue[1..])
  }

  lemma {:induction false} RoundCosts(events: seq<Event>, queue: seq<Item>)
    ensures Work(events, Advance(events, queue)) <= Work(events, queue)
    ensures queue != [] ==> Work(events, Advance(events, queue)) < Work(events, queue)
  {
    if queue != [] {
      RoundCosts(events, queue[1..]);
      if HasMore(events, queue[0]) {
        WorkAppend(events, [Next(queue[0])], Advance(events, queue[1..]));
        assert [Next(queue[0])][1..] == [];
      } else {
        assert Advance(events, queue) == Advance(events, queue[1..]);
      }
    }
  }

  /** Round after round until no item has handlers left. */
  function Rounds(events: seq<Event>, queue: seq<Item>): seq<nat>
    decreases Work(events, queue)
  {
    if queue == [] then []
    else
      RoundCosts(events, queue);
      Round(events, queue) + Rounds(events, Advance(events, queue))
  }

  lemma DrainFront(events: seq<Event>, queue: seq<Item>)
    requires queue != []
    ensures Drain(events, queue) == Served(events, queue[0]) + Drain(events, Rotate(events, queue))
  {
    hide Served, Rotate, Work;
  }

  lemma RotateFront(events: seq<Event>, xs: seq<Item>, ys: seq<Item>)
    requires xs != []
    ensures Rotate(events, xs + ys) == xs[1..] + (ys + Requeued(events, xs[0]))
  {
    hide DueHandler;
    assert (xs + ys)[1..] == xs[1..] + ys;
  }

  lemma RoundFront(events: seq<Event>, xs: seq<Item>)
    requires xs != []
    ensures Round(events, xs) == Served(events, xs[0]) + Round(events, xs[1..])
    ensures Advance(events, xs) == Requeued(events, xs[0]) + Advance(events, xs[1..])
  {
    hide Served, Requeued;
  }

  lemma NothingLeft(events: seq<Event>)
    ensures Drain(events, []) == [] && Round(events, []) == [] && Advance(events, []) == []
  {
  }

  /** Draining xs + ys serves one round of xs and goes on with ys, followed by what is left of xs. */
  lemma {:induction false} DrainPass(events: seq<Event>, xs: seq<Item>, ys: seq<Item>)
    ensures Drain(events, xs + ys) == Round(events, xs) + Drain(events, ys + Advance(events, xs))
    decreases |xs|
  {
    hide Drain, Round, Advance, Rotate, Served, Requeued;
    if xs == [] {
      NothingLeft(events);
      assert xs + ys == ys && ys + [] == ys;
    } else {
      var more, first := Requeued(events, xs[0]), Served(events, xs[0]);
      DrainFront(events, xs + ys);
      RotateFront(events, xs, ys);
      RoundFront(events, xs);
      DrainPass(events, xs[1..], ys + more);
      assert ys + more + Advance(events, xs[1..]) == ys + (more + Advance(events, xs[1..]));
      var rest := Drain(events, ys + Advance(events, xs));
      assert first + (Round(events, xs[1..]) + rest) == first + Round(events, xs[1..]) + rest;
    }
  }

  /** The queue is served round-robin. */
  lemma {:induction false} DrainIsRoundRobin(events: seq<Event>, queue: seq<Item>)
    ensures Drain(events, queue) == Rounds(events, queue)
    decreases Work(events, queue)
  {
    if queue != [] {
      DrainPass(events, queue, []);
      assert queue + [] == queue;
      assert [] + Advance(events, queue) == Advance(events, queue);
      RoundCosts(events, queue);
      DrainIsRoundRobin(events, Advance(events, queue));
    }
  }

  // ----- Every handler exactly once, in bind order -----

  function AllRemaining(events: seq<Event>, queue: seq<Item>): multiset<nat> {
    if queue == [] then multiset{} else multiset(Remaining(events, queue[0])) + AllRemaining(events, queue[1..])
  }

  lemma {:induction false} RemainingAppend(events: seq<Event>, a: seq<Item>, b: seq<Item>)
    ensures AllRemaining(events, a + b) == AllRemaining(events, a) + AllRemaining(events, b)
    decreases |a|
  {
    if a == [] {
      assert a + b == b;
    } else {
      assert (a + b)[1..] == a[1..] + b;
      RemainingAppend(events, a[1..], b);
    }
  }

  /** An item's remaining handlers are the one due now, followed by those of the requeued item. */
  lemma RemainingStep(events: seq<Event>, item: Item)
    ensures var due := DueHandler(events, item);
      Remaining(events, item) == if due.Some? then [due.value] + Remaining(events, Next(item)) else []
    ensures !HasMore(events, item) ==> Remaining(events, Next(item)) == []
  {
  }

  lemma RequeuedRemaining(events: seq<Event>, item: Item)
    ensures AllRemaining(events, Requeued(events, item)) == multiset(Remaining(events, Next(item)))
  {
    hide Remaining;
    RemainingStep(events, item);
    var more := Requeued(events, item);
    if more != [] { assert more[1..] == []; }
  }

  lemma AllRemainingFront(events: seq<Event>, queue: seq<Item>)
    requires queue != []
    ensures AllRemaining(events, queue) == multiset(Remaining(events, queue[0])) + AllRemaining(events, queue[1..])
  {
    hide Remaining;
  }

  /** As multisets, an item's handlers are the one served now and those left afterwards. */
  lemma ServedAndLeft(events: seq<Event>, item: Item)
    ensures multiset(Remaining(events, item))
      == multiset(Served(events, item)) + AllRemaining(events, Requeued(events, item))
  {
    hide Remaining, DueHandler, HasMore, AllRemaining;
    RemainingStep(events, item);
    RequeuedRemaining(events, item);
    if DueHandler(events, item).None? { NothingDue(events, item); }
    var rest := Remaining(events, Next(item));
    assert multiset(Served(events, item) + rest) == multiset(Served(events, item)) + multiset(rest);
  }

  lemma RotateServes(events: seq<Event>, queue: seq<Item>)
    requires queue != []
    ensures AllRemaining(events, queue)
      == multiset(Served(events, queue[0])) + AllRemaining(events, Rotate(events, queue))
  {
    hide Remaining, AllRemaining, Served, Requeued, Rotate;
    AllRemainingFront(events, queue);
    ServedAndLeft(events, queue[0]);
    RemainingAppend(events, queue[1..], Requeued(events, queue[0]));
    RotateFront(events, queue, []);
    assert queue + [] == queue && [] + Requeued(events, queue[0]) == Requeued(events, queue[0]);
  }

  lemma NothingDue(events: seq<Event>, item: Item)
    requires DueHandler(events, item).None?
    ensures !HasMore(events, item)
  {
  }

  /** Draining runs every remaining handler of every queued item exactly once. */
  lemma {:induction false} DrainServesAll(events: seq<Event>, queue: seq<Item>)
    ensures multiset(Drain(events, queue)) == AllRemaining(events, queue)
    decreases Work(events, queue)
  {
    hide AllRemaining, Served, Rotate;
    if queue == [] {
      assert AllRemaining(events, []) == multiset{} by { NoneRemaining(events); }
    } else {
      WorkDrops(events, queue);
      DrainServesAll(events, Rotate(events, queue));
      RotateServes(events, queue);
    }
  }

  lemma NoneRemaining(events: seq<Event>)
    ensures AllRemaining(events, []) == multiset{}
  {
  }

  // ----- Each item's handlers, in bind order -----

  /** A queue whose items carry tags, and a log of the handlers dispatched with the tags of their items. */
  type Tagged = seq<(nat, Item)>
  type Log = seq<(nat, nat)>

  function Numbered(queue: seq<Item>): (t: Tagged)
    ensures |t| == |queue| && forall i :: 0 <= i < |queue| ==> t[i] == (i, queue[i])
  {
    seq(|queue|, i requires 0 <= i < |queue| => (i, queue[i]))
  }

  function Untagged(t: Tagged): (q: seq<Item>)
    ensures |q| == |t| && forall i :: 0 <= i < |t| ==> q[i] == t[i].1
  {
    seq(|t|, i requires 0 <= i < |t| => t[i].1)
  }

  function RotateTagged(events: seq<Event>, t: Tagged): Tagged
    requires t != []
  {
    t[1..] + if HasMore(events, t[0].1) then [(t[0].0, Next(t[0].1))] else []
  }

  lemma RotateUntagged(events: seq<Event>, t: Tagged)
    requires t != []
    ensures Untagged(RotateTagged(events, t)) == Rotate(events, Untagged(t))
  {
    hide HasMore;
  }

  /** Draining, with tags kept. */
  function DrainTagged(events: seq<Event>, t: Tagged): Log
    decreases Work(events, Untagged(t))
  {
    if t == [] then []
    else
      WorkDrops(events, Untagged(t));
      RotateUntagged(events, t);
      var due := DueHandler(events, t[0].1);
      (if due.Some? then [(t[0].0, due.value)] else []) + DrainTagged(events, RotateTagged(events, t))
  }

  function Handlers(log: Log): seq<nat> {
    if log == [] then [] else [log[0].1] + Handlers(log[1..])
  }

  /** The handlers logged for one tag. */
  function Select(log: Log, tag: nat): seq<nat> {
    if log == [] then []
    else if log[0].0 == tag then [log[0].1] + Select(log[1..], tag)
    else Select(log[1..], tag)
  }

  /** What remains to be run for the first item with a tag. */
  function RemainingOf(events: seq<Event>, t: Tagged, tag: nat): seq<nat> {
    if t == [] then []
    else if t[0].0 == tag then Remaining(events, t[0].1)
    else RemainingOf(events, t[1..], tag)
  }

  predicate Distinct(t: Tagged) {
    forall i, j :: 0 <= i < j < |t| ==> t[i].0 != t[j].0
  }

  predicate Carries(t: Tagged, tag: nat) {
    exists i :: 0 <= i < |t| && t[i].0 == tag
  }

  lemma {:induction false} RemainingOfAppend(events: seq<Event>, t: Tagged, more: Tagged, tag: nat)
    ensures RemainingOf(events, t + more, tag) ==
      if Carries(t, tag) then RemainingOf(events, t, tag) else RemainingOf(events, more, tag)
    decreases |t|
  {
    hide Remaining;
    if t == [] {
      assert t + more == more;
    } else {
      assert (t + more)[1..] == t[1..] + more;
      RemainingOfAppend(events, t[1..], more, tag);
      assert Carries(t[1..], tag) || t[0].0 == tag <==> Carries(t, tag) by {
        if i :| 0 <= i < |t| && t[i].0 == tag { assert i == 0 || t[1..][i - 1].0 == tag; }
      }
    }
  }

  lemma {:induction false} RemainingOfAt(events: seq<Event>, t: Tagged, k: nat)
    requires Distinct(t) && k < |t|
    ensures RemainingOf(events, t, t[k].0) == Remaining(events, t[k].1)
    decreases k
  {
    if k > 0 {
      assert forall i, j :: 0 <= i < j < |t[1..]| ==> t[1..][i] == t[i + 1] && t[1..][j] == t[j + 1];
      RemainingOfAt(events, t[1..], k - 1);
    }
  }

  /** One dispatch serves the first item its next handler and leaves every other item's alone. */
  lemma RotateTaggedServes(events: seq<Event>, t: Tagged, tag: nat)
    requires t != [] && Distinct(t)
    ensures Distinct(RotateTagged(events, t))
    ensures RemainingOf(events, t, tag) ==
      (if t[0].0 == tag then Served(events, t[0].1) else []) + RemainingOf(events, RotateTagged(events, t), tag)
  {
    hide Remaining, HasMore, DueHandler;
    var item := t[0].1;
    var more: Tagged := if HasMore(events, item) then [(t[0].0, Next(item))] else [];
    RemainingOfAppend(events, t[1..], more, tag);
    RemainingStep(events, item);
    if DueHandler(events, item).None? { NothingDue(events, item); }
    if t[0].0 == tag {
      assert !Carries(t[1..], tag) by { assert forall i :: 0 <= i < |t[1..]| ==> t[1..][i] == t[i + 1]; }
      assert more != [] ==> more[1..] == [];
    } else {
      assert RemainingOf(events, more, tag) == [] by { if more != [] { assert more[1..] == []; } }
      if !Carries(t[1..], tag) { RemainingOfAppend(events, t[1..], [], tag); }
      assert t[1..] + [] == t[1..];
    }
  }

  lemma {:induction false} DrainTaggedSelects(events: seq<Event>, t: Tagged, tag: nat)
    requires Distinct(t)
    ensures Select(DrainTagged(events, t), tag) == RemainingOf(events, t, tag)
    ensures Handlers(DrainTagged(events, t)) == Drain(events, Untagged(t))
    decreases Work(events, Untagged(t))
  {
    hide RemainingOf, Remaining, DueHandler, Rotate, RotateTagged, Work, Distinct, DrainTagged, Drain;
    if t == [] {
      NothingRemains(events, tag);
    } else {
      WorkDrops(events, Untagged(t));
      RotateUntagged(events, t);
      RotateTaggedServes(events, t, tag);
      var rest := DrainTagged(events, RotateTagged(events, t));
      DrainTaggedSelects(events, RotateTagged(events, t), tag);
      DrainFront(events, Untagged(t));
      DrainTaggedFront(events, t);
      var due := DueHandler(events, t[0].1);
      if due.Some? { LogFront((t[0].0, due.value), rest, tag); } else { assert [] + rest == rest; }
    }
  }

  lemma DrainTaggedFront(events: seq<Event>, t: Tagged)
    requires t != []
    ensures var due := DueHandler(events, t[0].1);
      DrainTagged(events, t) ==
        (if due.Some? then [(t[0].0, due.value)] else []) + DrainTagged(events, RotateTagged(events, t))
  {
    hide DueHandler, RotateTagged, Work, Untagged;
  }

  lemma LogFront(e: (nat, nat), log: Log, tag: nat)
    ensures Select([e] + log, tag) == (if e.0 == tag then [e.1] else []) + Select(log, tag)
    ensures Handlers([e] + log) == [e.1] + Handlers(log)
  {
    assert ([e] + log)[1..] == log;
  }

  lemma NothingRemains(events: seq<Event>, tag: nat)
    ensures RemainingOf(events, [], tag) == [] && DrainTagged(events, []) == [] && Drain(events, []) == []
  {
  }

  /** However items share handlers and interleave, the part of the drained sequence that belongs to item k of the queue
      is exactly its remaining handlers, in bind order. */
  lemma EachItemInBindOrder(events: seq<Event>, queue: seq<Item>, k: nat)
    requires k < |queue|
    ensures var log := DrainTagged(events, Numbered(queue));
      Handlers(log) == Drain(events, queue) && Select(log, k) == Remaining(events, queue[k])
  {
    hide Remaining, Drain, DrainTagged;
    var t := Numbered(queue);
    DrainTaggedSelects(events, t, k);
    RemainingOfAt(events, t, k);
    assert Untagged(t) == queue;
  }

  // ----- Draining in the middle of a run -----

  /** The opcode about to execute, if the VM is not idle and can decode it. */
  function Executing(img: Image, s: State): Option<Opcode> {
    if s.halted || s.pc >= |img.code| then None
    else
      var f := Fetch(img.code[s.pc..]);
      if f.Fetched? then Some(f.op) else None
  }

  predicate IsIdle(img: Image, s: State) {
    s.halted || s.pc >= |img.code|
  }

  /** The step looks at the queue: the VM is idle, or executes END_THREAD. */
  predicate Polls(img: Image, s: State) {
    IsIdle(img, s) || Executing(img, s) == Some(END_THREAD)
  }

  /** The step neither binds nor triggers an event. */
  predicate Quiet(img: Image, s: State) {
    Executing(img, s) != Some(EVENT_BIND) && Executing(img, s) != Some(EVENT_TRIGGER)
  }

  /** Where the VM runs on after a step that looked at the queue, if it does. */
  function Started(h: Host, img: Image, s: State): seq<nat> {
    var t := VmStep(h, img, s).s;
    if Polls(img, s) && !t.halted then [t.pc] else []
  }

  predicate SameEvents(s: State, t: State) {
    s.events == t.events && s.queue == t.queue
  }

  lemma DispatchRotates(s: State)
    ensures Dispatch(s).0.events == s.events
    ensures Dispatch(s).0.queue == if s.queue == [] then [] else Rotate(s.events, s.queue)
    ensures Dispatch(s).1 <==> s.queue != [] && DueHandler(s.events, s.queue[0]).Some?
    ensures Dispatch(s).1 ==> Dispatch(s).0.pc == DueHandler(s.events, s.queue[0]).value && !Dispatch(s).0.halted
  {
  }

  lemma SetDestKeepsEvents(s: State, o: Arg, v: Value)
    ensures SameEvents(s, SetDest(s, o, v).s)
  {
    hide Put;
  }

  lemma SetVarKeepsEvents(s: State, name: Text, v: Value)
    requires SetVar(s, name, v).Some?
    ensures SameEvents(s, SetVar(s, name, v).value)
  {
    hide Put;
  }

  lemma HeapKeepsEvents(h: Host, op: Opcode, a: seq<Arg>, s: State)
    requires IsHeapOp(op) && ArityOk(op, |a|)
    ensures SameEvents(s, ExecHeap(h, op, a, s).s)
  {
    hide Eval, SetDest, SlotOf, Drawable, Renders, FirstVacant;
    forall t: State, o, v ensures SameEvents(t, SetDest(t, o, v).s) { SetDestKeepsEvents(t, o, v); }
  }

  lemma CallKeepsEvents(h: Host, op: Opcode, a: seq<Arg>, s: State)
    requires CallsOut(op) && ArityOk(op, |a|)
    ensures SameEvents(s, ExecCall(h, op, a, s).s)
  {
    hide EvalAll, SetDest, SetVar;
    var counted := s.(natives := s.natives + 1);
    forall o, v ensures SameEvents(s, SetDest(counted, o, v).s) { SetDestKeepsEvents(counted, o, v); }
    forall n, v | SetVar(counted, n, v).Some? ensures SameEvents(s, SetVar(counted, n, v).value) {
      SetVarKeepsEvents(counted, n, v);
    }
  }

  lemma ConsoleKeepsEvents(h: Host, op: Opcode, a: seq<Arg>, s: State)
    requires IsConsole(op) && ArityOk(op, |a|)
    ensures SameEvents(s, ExecConsole(h, op, a, s).s)
  {
    hide Eval, EvalAll, InRange;
  }

  lemma ExecKeepsEvents(h: Host, op: Opcode, a: seq<Arg>, s: State)
    requires ArityOk(op, |a|) && op != EVENT_BIND && op != EVENT_TRIGGER && op != END_THREAD
    ensures SameEvents(s, Exec(h, op, a, s).s)
  {
    hide Eval, EvalAll, SetDest, Taken, Binary, Unary, SubString, SetVar, ExecHeap, ExecConsole, ExecCall;
    forall o, v ensures SameEvents(s, SetDest(s, o, v).s) { SetDestKeepsEvents(s, o, v); }
    forall n, v | SetVar(s, n, v).Some? ensures SameEvents(s, SetVar(s, n, v).value) { SetVarKeepsEvents(s, n, v); }
    if IsHeapOp(op) { HeapKeepsEvents(h, op, a, s); }
    if IsConsole(op) { ConsoleKeepsEvents(h, op, a, s); }
    if CallsOut(op) { CallKeepsEvents(h, op, a, s); }
  }

  /** A quiet step leaves the bindings alone; it rotates a queue it polls, and otherwise leaves the queue alone. */
  lemma QuietStep(h: Host, img: Image, s: State)
    requires Quiet(img, s)
    ensures var t := VmStep(h, img, s).s;
      && t.events == s.events
      && t.queue == if Polls(img, s) && s.queue != [] then Rotate(s.events, s.queue) else s.queue
  {
    hide Exec, Fetch, CurrentLine, Dispatch, Rotate;
    DispatchRotates(s);
    if !IsIdle(img, s) {
      var f := Fetch(img.code[s.pc..]);
      var t := s.(pc := s.pc + f.used);
      if f.Fetched? {
        if f.op == END_THREAD {
          DispatchRotates(t);
          EndThreadIs(h, ToArgs(f.args), t);
        } else {
          ExecKeepsEvents(h, f.op, ToArgs(f.args), t);
        }
      }
    }
  }

  lemma EndThreadIs(h: Host, a: seq<Arg>, s: State)
    requires ArityOk(END_THREAD, |a|)
    ensures Exec(h, END_THREAD, a, s) == EndThread(s)
  {
  }

  /** A step that polls moves pc to the handler that is due and runs on there, or halts. */
  lemma PollStarts(h: Host, img: Image, s: State)
    requires Polls(img, s)
    ensures var r := VmStep(h, img, s);
      if s.queue != [] && DueHandler(s.events, s.queue[0]).Some?
      then !r.s.halted && r.s.pc == DueHandler(s.events, s.queue[0]).value && r.outcome == Ran
      else r.s.halted
  {
    hide Exec, Fetch, CurrentLine, Dispatch, DueHandler;
    DispatchRotates(s);
    if !IsIdle(img, s) {
      var f := Fetch(img.code[s.pc..]);
      var t := s.(pc := s.pc + f.used);
      DispatchRotates(t);
      EndThreadIs(h, ToArgs(f.args), t);
    }
  }

  /** Where the VM ran on after each poll among the first n steps. */
  function StartedBy(h: Host, img: Image, s: State, n: nat): seq<nat> {
    if n == 0 then [] else StartedBy(h, img, s, n - 1) + Started(h, img, After(h, img, s, n - 1))
  }

  function PollsBy(h: Host, img: Image, s: State, n: nat): nat {
    if n == 0 then 0
    else
      var t := After(h, img, s, n - 1);
      PollsBy(h, img, s, n - 1) + if Polls(img, t) && t.queue != [] then 1 else 0
  }

  ghost predicate QuietRun(h: Host, img: Image, s: State, n: nat) {
    forall k: nat :: k < n ==> Quiet(img, After(h, img, s, k))
  }

  /** Over any run that binds and triggers nothing, the addresses started so far followed by the drain of what is still
      queued are the drain of the initial queue, and each poll of a nonempty queue lowers the measure by one. */
  lemma {:induction false} DrainConserved(h: Host, img: Image, s: State, n: nat)
    requires QuietRun(h, img, s, n)
    ensures var t := After(h, img, s, n);
      && t.events == s.events
      && StartedBy(h, img, s, n) + Drain(s.events, t.queue) == Drain(s.events, s.queue)
      && Work(s.events, t.queue) + PollsBy(h, img, s, n) == Work(s.events, s.queue)
  {
    hide VmStep, Rotate, Quiet, Started, Polls, Drain, Work;
    if n > 0 {
      var t := After(h, img, s, n - 1);
      DrainConserved(h, img, s, n - 1);
      QuietStep(h, img, t);
      PollDrains(h, img, t);
    } else {
      assert [] + Drain(s.events, s.queue) == Drain(s.events, s.queue);
    }
  }

  lemma PollDrains(h: Host, img: Image, s: State)
    ensures if Polls(img, s) && s.queue != [] then
        && Drain(s.events, s.queue) == Started(h, img, s) + Drain(s.events, Rotate(s.events, s.queue))
        && Work(s.events, Rotate(s.events, s.queue)) == Work(s.events, s.queue) - 1
      else Started(h, img, s) == []
  {
    hide VmStep, Rotate, DueHandler, Executing, Drain, Work;
    if Polls(img, s) { PollStarts(h, img, s); }
    if s.queue != [] {
      WorkDrops(s.events, s.queue);
      DrainFront(s.events, s.queue);
    }
  }

  // ----- When a run ends -----

  /** Every queued event has a handler left to run. */
  predicate AllDue(events: seq<Event>, queue: seq<Item>) {
    forall i :: 0 <= i < |queue| ==> DueHandler(events, queue[i]).Some?
  }

  /** A step reports the end of the run exactly when the VM is idle and no event is queued or the front one has no
      handler left; the front one is then dropped and the rest stay queued. */
  lemma RunEndsExactly(h: Host, img: Image, s: State)
    ensures VmStep(h, img, s).outcome == Idle <==>
      IsIdle(img, s) && (s.queue == [] || DueHandler(s.events, s.queue[0]).None?)
    ensures VmStep(h, img, s).outcome == Idle ==>
      VmStep(h, img, s).s.queue == if s.queue == [] then [] else s.queue[1..]
  {
    hide Exec, Fetch, CurrentLine, DueHandler;
    if s.queue != [] && DueHandler(s.events, s.queue[0]).None? { NothingDue(s.events, s.queue[0]); }
  }

  lemma DueStays(events: seq<Event>, queue: seq<Item>)
    requires queue != [] && AllDue(events, queue)
    ensures AllDue(events, Rotate(events, queue))
  {
    hide DueHandler;
  }

  lemma {:induction false} DueThroughout(h: Host, img: Image, s: State, n: nat)
    requires QuietRun(h, img, s, n) && AllDue(s.events, s.queue)
    ensures AllDue(After(h, img, s, n).events, After(h, img, s, n).queue)
  {
    hide VmStep, Rotate, Quiet, AllDue, Executing;
    if n > 0 {
      var t := After(h, img, s, n - 1);
      DueThroughout(h, img, s, n - 1);
      QuietStep(h, img, t);
      if t.queue != [] { DueStays(t.events, t.queue); }
    }
  }

  /** If every queued event has a handler and a quiet run ends, the queue is empty and the VM has run on at every
      handler, round-robin. */
  lemma QuietRunServesAll(h: Host, img: Image, s: State, n: nat)
    requires n > 0 && QuietRun(h, img, s, n) && AllDue(s.events, s.queue)
    requires OutcomeOf(h, img, s, n) == Idle
    ensures After(h, img, s, n).queue == [] && StartedBy(h, img, s, n) == Rounds(s.events, s.queue)
  {
    hide VmStep, Quiet, Rounds;
    var t := After(h, img, s, n - 1);
    RunEndsExactly(h, img, t);
    DueThroughout(h, img, s, n - 1);
    DrainConserved(h, img, s, n);
    DrainIsRoundRobin(s.events, s.queue);
  }

  // ----- Binding -----

  predicate HasEvent(events: seq<Event>, name: Text) {
    exists i :: 0 <= i < |events| && events[i].name == name
  }

  lemma HasEventAt(events: seq<Event>, name: Text)
    ensures HasEvent(events, name) <==> EventIndex(events, name) < |events|
  {
  }

  /** A new event goes behind the others; an event gets other handlers. */
  lemma IndexAfterAdding(events: seq<Event>, e: Event, name: Text)
    requires EventIndex(events, e.name) == |events|
    ensures EventIndex(events + [e], name) == if e.name == name || EventIndex(events, name) < |events|
      then EventIndex(events, name) else |events| + 1
  {
    var t, i, j := events + [e], EventIndex(events, name), EventIndex(events + [e], name);
    assert t[|events|] == e;
    assert j < |events| ==> events[j] == t[j];
    assert i < |events| ==> t[i] == events[i];
  }

  lemma IndexAfterReplacing(events: seq<Event>, k: nat, e: Event, name: Text)
    requires k < |events| && events[k].name == e.name
    ensures EventIndex(events[k := e], name) == EventIndex(events, name)
  {
    var t, i, j := events[k := e], EventIndex(events, name), EventIndex(events[k := e], name);
    assert forall m :: 0 <= m < |events| ==> t[m].name == events[m].name;
    assert j < |t| ==> events[j].name == name;
    assert i < |t| ==> t[i].name == name;
  }

  /** A handler is bound behind those the event already has, and no other event changes. It fails exactly on a new name
      when 64 events are registered, or when the event has 16 handlers. */
  lemma BindAppends(events: seq<Event>, name: Text, handler: nat)
    ensures var r, had := BindEvent(events, name, handler), Remaining(events, Item(name, 0));
      && (r.None? <==> if HasEvent(events, name) then |had| >= 16 else |events| >= 64)
      && (r.Some? ==>
        && Remaining(r.value, Item(name, 0)) == had + [handler] && HasEvent(r.value, name)
        && (forall other :: other != name ==> (HasEvent(r.value, other) <==> HasEvent(events, other)))
        && forall other, k :: other != name ==> Remaining(r.value, Item(other, k)) == Remaining(events, Item(other, k)))
  {
    hide EventIndex, HasEvent;
    HasEventAt(events, name);
    var i, r := EventIndex(events, name), BindEvent(events, name, handler);
    if r.Some? {
      forall n ensures HasEvent(r.value, n) <==> EventIndex(r.value, n) < |r.value| { HasEventAt(r.value, n); }
      forall n ensures HasEvent(events, n) <==> EventIndex(events, n) < |events| { HasEventAt(events, n); }
      if i == |events| {
        forall n ensures EventIndex(r.value, n) == if n == name || EventIndex(events, n) < |events|
          then EventIndex(events, n) else |events| + 1
        {
          IndexAfterAdding(events, Event(name, [handler]), n);
        }
      } else {
        forall n ensures EventIndex(r.value, n) == EventIndex(events, n) {
          IndexAfterReplacing(events, i, Event(name, events[i].handlers + [handler]), n);
        }
      }
    }
  }

  /** The step executes an EVENT_BIND of this event and handler: an address, or an integer cast to 32 bits. */
  predicate Binds(h: Host, img: Image, s: State, name: Text, handler: nat) {
    && Executing(img, s) == Some(EVENT_BIND)
    && var a := Fetch(img.code[s.pc..]).args;
      && ToText(h, Eval(s, ToArg(a[0]))) == name
      && ((a[1].Addr? && a[1].addr == handler) || (a[1].Int? && a[1].i % 0x1_0000_0000 == handler))
  }

  predicate Triggers(h: Host, img: Image, s: State, name: Text) {
    && Executing(img, s) == Some(EVENT_TRIGGER)
    && ToText(h, Eval(s, ToArg(Fetch(img.code[s.pc..]).args[0]))) == name
  }

  lemma BindExec(h: Host, a: seq<Arg>, s: State)
    requires ArityOk(EVENT_BIND, |a|)
    ensures Exec(h, EVENT_BIND, a, s) == Bind(s, ToText(h, Eval(s, a[0])), BindTarget(a[1]))
  {
    hide Eval, ToText, Bind;
  }

  lemma TriggerExec(h: Host, a: seq<Arg>, s: State)
    requires ArityOk(EVENT_TRIGGER, |a|)
    ensures Exec(h, EVENT_TRIGGER, a, s) == Enqueue(s, ToText(h, Eval(s, a[0])))
  {
    hide Eval, ToText, Enqueue;
  }

  lemma SameEval(s: State, pc: nat, o: Arg)
    ensures Eval(s.(pc := pc), o) == Eval(s, o)
  {
  }

  /** Such a step binds the handler, or reports a full registry; it changes nothing else. */
  lemma BindStep(h: Host, img: Image, s: State, name: Text, handler: nat)
    requires Binds(h, img, s, name, handler)
    ensures var r, bound := VmStep(h, img, s), BindEvent(s.events, name, handler);
      if bound.Some? then r.outcome == Ran && r.s == s.(pc := r.s.pc, events := bound.value)
      else r.s == s.(pc := r.s.pc) && r.outcome == Failed(Located(CurrentLine(img.lines, s.pc), RegistryFull))
  {
    hide Exec, Fetch, CurrentLine, Eval, ToText, BindEvent;
    var f := Fetch(img.code[s.pc..]);
    var a, t := ToArgs(f.args), s.(pc := s.pc + f.used);
    BindExec(h, a, t);
    assert a[0] == ToArg(f.args[0]) && a[1] == ToArg(f.args[1]);
    SameEval(s, s.pc + f.used, a[0]);
    assert BindTarget(a[1]) == handler;
  }

  /** EVENT_TRIGGER queues the event, due its first handler, unless 255 are queued; it changes nothing else. */
  lemma TriggerStep(h: Host, img: Image, s: State, name: Text)
    requires Triggers(h, img, s, name)
    ensures var r := VmStep(h, img, s);
      if |s.queue| < 255 then r.outcome == Ran && r.s == s.(pc := r.s.pc, queue := s.queue + [Item(name, 0)])
      else r.s == s.(pc := r.s.pc) && r.outcome == Failed(EventQueueFull)
  {
    hide Exec, Fetch, CurrentLine, Eval, ToText;
    var f := Fetch(img.code[s.pc..]);
    var a, t := ToArgs(f.args), s.(pc := s.pc + f.used);
    TriggerExec(h, a, t);
    assert a[0] == ToArg(f.args[0]);
    SameEval(s, s.pc + f.used, a[0]);
  }

  /** The first steps bind the handlers hs to one event, one after another, and succeed. */
  ghost predicate BindsInTurn(h: Host, img: Image, s: State, name: Text, hs: seq<nat>) {
    forall k :: 0 <= k < |hs| ==>
      Binds(h, img, After(h, img, s, k), name, hs[k]) && OutcomeOf(h, img, s, k + 1) == Ran
  }

  lemma {:induction false} BoundInTurn(h: Host, img: Image, s: State, name: Text, hs: seq<nat>)
    requires BindsInTurn(h, img, s, name, hs)
    ensures var t := After(h, img, s, |hs|);
      Remaining(t.events, Item(name, 0)) == Remaining(s.events, Item(name, 0)) + hs && t.queue == s.queue
    decreases |hs|
  {
    hide VmStep, Binds, Remaining, BindEvent;
    var n := |hs|;
    if n > 0 {
      var most, t := hs[..n - 1], After(h, img, s, n - 1);
      BoundInTurn(h, img, s, name, most);
      assert Binds(h, img, t, name, hs[n - 1]) && VmStep(h, img, t).outcome == Ran;
      BindStep(h, img, t, name, hs[n - 1]);
      BindAppends(t.events, name, hs[n - 1]);
      assert hs == most + [hs[n - 1]];
    } else {
      assert hs == [];
    }
  }

  lemma {:induction false} DrainOne(events: seq<Event>, item: Item)
    ensures Drain(events, [item]) == Remaining(events, item)
    decreases Work(events, [item])
  {
    hide Remaining, DueHandler, HasMore, Work, Drain;
    WorkDrops(events, [item]);
    DrainFront(events, [item]);
    RemainingStep(events, item);
    if HasMore(events, item) {
      assert Rotate(events, [item]) == [Next(item)];
      DrainOne(events, Next(item));
    } else {
      assert Rotate(events, [item]) == [];
      NothingLeft(events);
    }
    if DueHandler(events, item).None? { NothingDue(events, item); }
  }

  /** Handlers bound one after another run in that order, behind those bound before: after the event is triggered on an
      empty queue, a quiet run to its end starts at exactly these addresses. */
  lemma BoundHandlersRun(h: Host, img: Image, s: State, name: Text, hs: seq<nat>, n: nat)
    requires BindsInTurn(h, img, s, name, hs) && hs != [] && s.queue == []
    requires Triggers(h, img, After(h, img, s, |hs|), name)
    requires var t := After(h, img, s, |hs| + 1); n > 0 && QuietRun(h, img, t, n) && OutcomeOf(h, img, t, n) == Idle
    ensures var t := After(h, img, s, |hs| + 1);
      StartedBy(h, img, t, n) == Remaining(s.events, Item(name, 0)) + hs && After(h, img, t, n).queue == []
  {
    hide VmStep, Binds, Triggers, Quiet, StartedBy, Drain, Rounds;
    var b, t := After(h, img, s, |hs|), After(h, img, s, |hs| + 1);
    BoundInTurn(h, img, s, name, hs);
    TriggerStep(h, img, b, name);
    assert t.queue == [Item(name, 0)] && t.events == b.events;
    assert AllDue(t.events, t.queue);
    QuietRunServesAll(h, img, t, n);
    DrainIsRoundRobin(t.events, t.queue);
    DrainOne(t.events, Item(name, 0));
  }
}
