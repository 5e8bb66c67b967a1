/** Effects move code positions around without inspecting them: they commute with any renaming of positions. */
module Positions {
  import opened Bytes
  import opened Opcodes
  import opened Program
  import opened Machine

  type Renaming = nat -> nat

  function MapFrames(f: Renaming, fs: seq<Frame>): (r: seq<Frame>)
    ensures |r| == |fs| && forall i :: 0 <= i < |fs| ==> r[i] == Frame(f(fs[i].ret), fs[i].locals)
  {
    seq(|fs|, i requires 0 <= i < |fs| => Frame(f(fs[i].ret), fs[i].locals))
  }

  function MapHandlers(f: Renaming, hs: seq<nat>): (r: seq<nat>)
    ensures |r| == |hs| && forall i :: 0 <= i < |hs| ==> r[i] == f(hs[i])
  {
    seq(|hs|, i requires 0 <= i < |hs| => f(hs[i]))
  }

  function MapEvents(f: Renaming, es: seq<Event>): (r: seq<Event>)
    ensures |r| == |es| && forall i :: 0 <= i < |es| ==> r[i] == Event(es[i].name, MapHandlers(f, es[i].handlers))
  {
    seq(|es|, i requires 0 <= i < |es| => Event(es[i].name, MapHandlers(f, es[i].handlers)))
  }

  function MapState(f: Renaming, s: State): State {
    s.(pc := f(s.pc), frames := MapFrames(f, s.frames), events := MapEvents(f, s.events))
  }

  function MapEffect(f: Renaming, e: Effect): Effect {
    match e
    case Done(s) => Done(MapState(f, s))
    case Fail(s, m) => Fail(MapState(f, s), m)
  }

  function MapArg(f: Renaming, o: Arg): Arg {
    if o.Addr? then Addr(Ref(o.addr.value, f(o.addr.pos))) else o
  }

  function MapArgs(f: Renaming, a: seq<Arg>): (r: seq<Arg>)
    ensures |r| == |a| && forall i :: 0 <= i < |a| ==> r[i] == MapArg(f, a[i])
  {
    seq(|a|, i requires 0 <= i < |a| => MapArg(f, a[i]))
  }

  /** The operand an opcode uses as a code position, other than CALL's. */
  function JumpOperand(op: Opcode): Option<nat> {
    if op == JMP then Some(0) else if IsBranch(op) then Some(2) else if op == EVENT_BIND then Some(1) else None
  }

  /** The integer literal an instruction uses as a code position, if it does. (A variable or string there denotes
      position 0.) */
  function JumpLiteral<A>(op: Opcode, a: seq<Operand<A>>): Option<int32> {
    match JumpOperand(op)
    case None => None
    case Some(j) => if j < |a| && a[j].Int? then Some(a[j].i) else None
  }

  /** The code position that literal stands for. */
  function LiteralTarget(op: Opcode, i: int32): nat {
    if op == EVENT_BIND then U32(i) else SizeT(i)
  }

  /** The operands with the code position replaced. */
  function Retarget(op: Opcode, a: seq<Arg>, pos: nat): (r: seq<Arg>)
    ensures |r| == |a| && JumpLiteral(op, r).None?
    ensures forall k :: 0 <= k < |a| && JumpOperand(op) != Some(k) ==> r[k] == a[k]
  {
    match JumpOperand(op)
    case None => a
    case Some(j) => if j < |a| then a[j := Addr(Ref(0, pos))] else a
  }

  /** An instruction with a code position uses it: it jumps, or binds a handler. */
  predicate Jumps(h: Host, op: Opcode, a: seq<Arg>, s: State)
    requires ArityOk(op, |a|)
  {
    || op == JMP
    || (IsBranch(op) && Taken(h, op, Eval(s, a[0]), Eval(s, a[1])))
    || (op == EVENT_BIND && BindEvent(s.events, ToText(h, Eval(s, a[0])), 0).Some?)
  }

  predicate RefsNonNegative(a: seq<Arg>) {
    forall i :: 0 <= i < |a| && a[i].Addr? ==> a[i].addr.value >= 0
  }

  // ----- Reading -----

  lemma EvalCommutes(f: Renaming, s: State, o: Arg)
    ensures Eval(MapState(f, s), MapArg(f, o)) == Eval(s, o)
  {
  }

  lemma {:induction false} EvalAllCommutes(f: Renaming, s: State, a: seq<Arg>)
    ensures EvalAll(MapState(f, s), MapArgs(f, a)) == EvalAll(s, a)
  {
    var t, b := MapState(f, s), MapArgs(f, a);
    forall i | 0 <= i < |a| ensures EvalAll(t, b)[i] == EvalAll(s, a)[i] {
      EvalCommutes(f, s, a[i]);
    }
  }

  lemma ArgsCommute(f: Renaming, s: State, a: seq<Arg>)
    ensures forall i :: 0 <= i < |a| ==> Eval(MapState(f, s), MapArgs(f, a)[i]) == Eval(s, a[i])
    ensures forall i :: 0 <= i < |a| ==> TextField(MapArgs(f, a)[i]) == TextField(a[i])
    ensures forall i :: 0 <= i < |a| ==> IntField(MapArgs(f, a)[i]) == IntField(a[i])
  {
    forall i | 0 <= i < |a| ensures Eval(MapState(f, s), MapArgs(f, a)[i]) == Eval(s, a[i]) {
      EvalCommutes(f, s, a[i]);
    }
  }

  // ----- Variables, calls, events -----

  lemma SetVarCommutes(f: Renaming, s: State, name: Text, v: Value)
    ensures SetVar(MapState(f, s), name, v) ==
      (var r := SetVar(s, name, v); if r.None? then None else Some(MapState(f, r.value)))
  {
    hide Put;
    if UsesFrame(s, name) {
      var t := Put(Last(s.frames).locals, LOCAL_VARS_MAX, name, v);
      if t.Some? {
        var k := |s.frames| - 1;
        var frame := s.frames[k].(locals := t.value);
        assert MapFrames(f, s.frames[k := frame]) == MapFrames(f, s.frames)[k := Frame(f(frame.ret), t.value)];
      }
    }
  }

  lemma DestNameCommutes(f: Renaming, s: State, o: Arg)
    ensures DestName(MapState(f, s), MapArg(f, o)) == DestName(s, o)
  {
  }

  lemma SetDestCommutes(f: Renaming, s: State, o: Arg, v: Value)
    ensures SetDest(MapState(f, s), MapArg(f, o), v) == MapEffect(f, SetDest(s, o, v))
  {
    DestNameCommutes(f, s, o);
    if DestName(s, o).Some? { SetVarCommutes(f, s, DestName(s, o).value, v); }
  }

  lemma StoreCommutes(f: Renaming, s: State, o: Arg, v: Value)
    ensures Store(MapState(f, s), MapArg(f, o), v) == MapEffect(f, Store(s, o, v))
  {
    DestNameCommutes(f, s, o);
    if DestName(s, o).Some? { SetVarCommutes(f, s, DestName(s, o).value, v); }
  }

  lemma EnterLeaveCommute(f: Renaming, s: State, target: nat)
    ensures Enter(MapState(f, s), f(target)) == MapEffect(f, Enter(s, target))
    ensures Leave(MapState(f, s)) == MapEffect(f, Leave(s))
  {
    assert MapFrames(f, s.frames + [Frame(s.pc, [])]) == MapFrames(f, s.frames) + [Frame(f(s.pc), [])];
    if s.frames != [] {
      assert MapFrames(f, s.frames[..|s.frames| - 1]) == MapFrames(f, s.frames)[..|s.frames| - 1];
    }
  }

  lemma {:induction false} EventIndexCommutes(f: Renaming, es: seq<Event>, name: Text)
    ensures EventIndex(MapEvents(f, es), name) == EventIndex(es, name)
  {
    var i, j := EventIndex(es, name), EventIndex(MapEvents(f, es), name);
    assert i < |es| ==> MapEvents(f, es)[i].name == name;
    assert j < |es| ==> es[j].name == name;
  }

  lemma BindCommutes(f: Renaming, s: State, name: Text, handler: nat)
    ensures Bind(MapState(f, s), name, f(handler)) == MapEffect(f, Bind(s, name, handler))
  {
    hide EventIndex;
    EventIndexCommutes(f, s.events, name);
    var i := EventIndex(s.events, name);
    var hs := if i < |s.events| then s.events[i].handlers else [];
    assert MapHandlers(f, hs + [handler]) == MapHandlers(f, hs) + [f(handler)];
    if i == |s.events| {
      assert hs + [handler] == [handler] && MapHandlers(f, hs) + [f(handler)] == [f(handler)];
      assert MapEvents(f, s.events + [Event(name, [handler])]) == MapEvents(f, s.events) + [Event(name, [f(handler)])];
    } else {
      assert MapEvents(f, s.events[i := Event(name, hs + [handler])])
        == MapEvents(f, s.events)[i := Event(name, MapHandlers(f, hs) + [f(handler)])];
    }
  }

  lemma DueHandlerCommutes(f: Renaming, es: seq<Event>, item: Item)
    ensures DueHandler(MapEvents(f, es), item) ==
      (var r := DueHandler(es, item); if r.None? then None else Some(f(r.value)))
  {
    EventIndexCommutes(f, es, item.name);
  }

  lemma DispatchCommutes(f: Renaming, s: State)
    ensures Dispatch(MapState(f, s)) == (MapState(f, Dispatch(s).0), Dispatch(s).1)
  {
    if s.queue != [] {
      DueHandlerCommutes(f, s.events, s.queue[0]);
      DueHandlerCommutes(f, s.events, Item(s.queue[0].name, s.queue[0].next + 1));
    }
  }

  // ----- Natives -----

  lemma CallNamedCommutes(f: Renaming, h: Host, s: State, registered: bool, a: seq<Arg>)
    requires a != []
    ensures CallNamed(h, MapState(f, s), registered, MapArgs(f, a)) == MapEffect(f, CallNamed(h, s, registered, a))
  {
    hide EvalAll, SetVar;
    assert MapArgs(f, a)[1..] == MapArgs(f, a[1..]);
    EvalAllCommutes(f, s, a[1..]);
    if TextField(a[0]).Some? {
      var n := TextField(a[0]).value;
      var (t, r) := CallNative(h, s, if registered then Registered(n) else Module(n), EvalAll(s, a[1..]));
      if r.Some? { SetVarCommutes(f, t, RETVAL, r.value); }
    }
  }

  lemma CallModuleCommutes(f: Renaming, h: Host, s: State, callee: Callee, args: seq<Arg>, dest: Option<Arg>)
    ensures var mapped := if dest.None? then None else Some(MapArg(f, dest.value));
      CallModule(h, MapState(f, s), callee, MapArgs(f, args), mapped)
        == MapEffect(f, CallModule(h, s, callee, args, dest))
  {
    hide EvalAll, SetDest;
    EvalAllCommutes(f, s, args);
    var (t, r) := CallNative(h, s, callee, EvalAll(s, args));
    if r.Some? && dest.Some? { SetDestCommutes(f, t, dest.value, r.value); }
  }

  // ----- Heap results stored in a variable -----

  lemma AllocCommutes(f: Renaming, h: Host, s: State, size: Value, dest: Arg, isBytes: bool)
    ensures AllocInto(h, MapState(f, s), size, MapArg(f, dest), isBytes)
      == MapEffect(f, AllocInto(h, s, size, dest, isBytes))
  {
    hide SetDest, FirstVacant;
    var n, k := ToInt(h, size), FirstVacant(s.heap);
    if n >= 0 && k < |s.heap| {
      var t := s.(heap := s.heap[k := Live(s.nextRef, isBytes, false, Zeros(n))],
                  nextRef := (s.nextRef + 1) % 0x1_0000_0000);
      SetDestCommutes(f, t, dest, VInt(I32(s.nextRef)));
    }
  }

  lemma LoadCommutes(f: Renaming, h: Host, s: State, ref: Value, index: Value, dest: Arg, bytesOnly: bool, msg: Msg)
    ensures LoadCell(h, MapState(f, s), ref, index, MapArg(f, dest), bytesOnly, msg)
      == MapEffect(f, LoadCell(h, s, ref, index, dest, bytesOnly, msg))
  {
    hide SetDest, SlotOf;
    var t, d := MapState(f, s), MapArg(f, dest);
    assert t.heap == s.heap;
    var k, i := SlotAt(h, s, ref), SizeT(ToInt(h, index));
    assert SlotAt(h, t, ref) == k;
    if k == |s.heap| || i >= |s.heap[k].cells| || (bytesOnly && !s.heap[k].isBytes) {
      assert LoadCell(h, t, ref, index, d, bytesOnly, msg) == Fail(t, msg);
    } else {
      var v := VInt(s.heap[k].cells[i]);
      SetDestCommutes(f, s, dest, v);
      assert LoadCell(h, t, ref, index, d, bytesOnly, msg) == SetDest(t, d, v);
    }
  }

  lemma SizeCommutes(f: Renaming, h: Host, s: State, ref: Value, dest: Arg)
    ensures SizeInto(h, MapState(f, s), ref, MapArg(f, dest)) == MapEffect(f, SizeInto(h, s, ref, dest))
  {
    hide SetDest, SlotOf;
    var k := SlotAt(h, s, ref);
    SetDestCommutes(f, s, dest, VInt(if k < |s.heap| then I32(|s.heap[k].cells| % 0x1_0000_0000) else 0));
  }

  lemma StoreCellCommutes(f: Renaming, h: Host, s: State, ref: Value, index: Value, v: int32, bytesOnly: bool, msg: Msg)
    ensures StoreCell(h, MapState(f, s), ref, index, v, bytesOnly, msg)
      == MapEffect(f, StoreCell(h, s, ref, index, v, bytesOnly, msg))
  {
    hide SlotOf;
  }

  lemma FillCommutes(f: Renaming, h: Host, s: State, ref: Value, start: int32, count: int32, v: int32)
    ensures Fill(h, MapState(f, s), ref, start, count, v) == MapEffect(f, Fill(h, s, ref, start, count, v))
  {
    hide SlotOf;
  }

  lemma PinReleaseCommute(f: Renaming, h: Host, s: State, ref: Value)
    ensures Pin(h, MapState(f, s), ref) == MapEffect(f, Pin(h, s, ref))
    ensures Release(h, MapState(f, s), ref) == MapState(f, Release(h, s, ref))
  {
    hide SlotOf;
  }

  lemma RenderCommutes(f: Renaming, h: Host, s: State, cur: Value, prev: Value, w: int32, ht: int32)
    ensures RenderSpan(h, MapState(f, s), cur, w, ht) == MapEffect(f, RenderSpan(h, s, cur, w, ht))
    ensures RenderSpanDirty(h, MapState(f, s), cur, prev, w, ht)
      == MapEffect(f, RenderSpanDirty(h, s, cur, prev, w, ht))
  {
    hide SlotOf, Drawable, Renders;
  }

  // ----- One instruction -----

  lemma ExecCallCommutes(f: Renaming, h: Host, op: Opcode, a: seq<Arg>, s: State)
    requires ArityOk(op, |a|) && CallsOut(op)
    ensures ExecCall(h, op, MapArgs(f, a), MapState(f, s)) == MapEffect(f, ExecCall(h, op, a, s))
  {
    hide CallNamed, CallModule, Enter, Leave, EvalAll;
    var b := MapArgs(f, a);
    match op
    case CALL =>
      if a[0].Addr? { EnterLeaveCommute(f, s, a[0].addr.pos); } else { CallNamedCommutes(f, h, s, true, a); }
    case CALL_NATIVE => CallNamedCommutes(f, h, s, false, a);
    case WAIT => CallModuleCommutes(f, h, s, Callee.Wait, a, None);
    case FILE_WRITE => CallModuleCommutes(f, h, s, FileWrite, a, None);
    case FILE_READ =>
      assert b[..1] == MapArgs(f, a[..1]);
      CallModuleCommutes(f, h, s, FileRead, a[..1], Some(a[1]));
    case INPUT =>
      assert b[..1] == MapArgs(f, a[..1]);
      CallModuleCommutes(f, h, s, InputRead, a[..1], Some(a[1]));
    case _ =>
      assert b[..4] == MapArgs(f, a[..4]);
      CallModuleCommutes(f, h, s, EntitySpawn, a[..4], Some(a[4]));
  }

  lemma ExecHeapCommutes(f: Renaming, h: Host, op: Opcode, a: seq<Arg>, s: State)
    requires ArityOk(op, |a|) && IsHeapOp(op)
    ensures ExecHeap(h, op, MapArgs(f, a), MapState(f, s)) == MapEffect(f, ExecHeap(h, op, a, s))
  {
    hide AllocInto, LoadCell, SizeInto, StoreCell, Fill, RenderSpan, RenderSpanDirty, Pin, Release, Eval;
    ArgsCommute(f, s, a);
    match op
    case HEAP_ALLOC => AllocCommutes(f, h, s, Eval(s, a[0]), a[1], false);
    case ARRAY_CREATE => AllocCommutes(f, h, s, Eval(s, a[0]), a[1], false);
    case SPAN_CREATE => AllocCommutes(f, h, s, Eval(s, a[0]), a[1], true);
    case HEAP_LOAD => LoadCommutes(f, h, s, Eval(s, a[1]), Eval(s, a[2]), a[0], false, HeapReadOutOfRange);
    case SPAN_READ_U8 => LoadCommutes(f, h, s, Eval(s, a[1]), Eval(s, a[2]), a[0], true, SpanOutOfRange);
    case ARRAY_LEN => SizeCommutes(f, h, s, Eval(s, a[1]), a[0]);
    case HEAP_STORE =>
      StoreCellCommutes(f, h, s, Eval(s, a[0]), Eval(s, a[1]), ToInt(h, Eval(s, a[2])), false, HeapWriteOutOfRange);
    case SPAN_WRITE_U8 =>
      StoreCellCommutes(f, h, s, Eval(s, a[0]), Eval(s, a[1]), ToInt(h, Eval(s, a[2])), true, SpanOutOfRange);
    case SPAN_FILL =>
      FillCommutes(f, h, s, Eval(s, a[0]), ToInt(h, Eval(s, a[1])), ToInt(h, Eval(s, a[2])), ToInt(h, Eval(s, a[3])));
    case CONSOLE_RENDER_SPAN =>
      RenderCommutes(f, h, s, Eval(s, a[0]), Eval(s, a[0]), ToInt(h, Eval(s, a[1])), ToInt(h, Eval(s, a[2])));
    case CONSOLE_RENDER_SPAN_DIRTY =>
      RenderCommutes(f, h, s, Eval(s, a[0]), Eval(s, a[1]), ToInt(h, Eval(s, a[2])), ToInt(h, Eval(s, a[3])));
    case _ => PinReleaseCommute(f, h, s, Eval(s, a[0]));
  }

  lemma ExecConsoleCommutes(f: Renaming, h: Host, op: Opcode, a: seq<Arg>, s: State)
    requires ArityOk(op, |a|) && IsConsole(op)
    ensures ExecConsole(h, op, MapArgs(f, a), MapState(f, s)) == MapEffect(f, ExecConsole(h, op, a, s))
  {
    ArgsCommute(f, s, a);
    EvalAllCommutes(f, s, a);
  }

  lemma IntoDestCommutes(f: Renaming, s: State, o: Arg, r: Result<Value, Msg>)
    ensures IntoDest(MapState(f, s), MapArg(f, o), r) == MapEffect(f, IntoDest(s, o, r))
  {
    if r.Success? { SetDestCommutes(f, s, o, r.value); }
  }

  /** Executing on renamed positions is renaming after executing. */
  lemma ExecCommutes(f: Renaming, h: Host, op: Opcode, a: seq<Arg>, s: State)
    requires ArityOk(op, |a|) && JumpLiteral(op, a).None? && RefsNonNegative(a) && f(0) == 0
    ensures Exec(h, op, MapArgs(f, a), MapState(f, s)) == MapEffect(f, Exec(h, op, a, s))
  {
    hide Binary, Unary, IntoDest, ExecHeap, ExecConsole, ExecCall, Store, SetDest, SubString, Bind, Eval, Taken, ToText;
    ArgsCommute(f, s, a);
    if IsBinary(op) {
      IntoDestCommutes(f, s, a[0], Binary(h, op, Eval(s, a[1]), Eval(s, a[2])));
    } else if IsUnary(op) {
      IntoDestCommutes(f, s, a[0], Unary(h, op, Eval(s, a[1])));
    } else if IsBranch(op) {
    } else if IsHeapOp(op) {
      ExecHeapCommutes(f, h, op, a, s);
    } else if IsConsole(op) {
      ExecConsoleCommutes(f, h, op, a, s);
    } else if CallsOut(op) {
      ExecCallCommutes(f, h, op, a, s);
    } else {
      match op
      case END_THREAD => DispatchCommutes(f, s);
      case RETURN => EnterLeaveCommute(f, s, 0);
      case STORE => StoreCommutes(f, s, a[0], Eval(s, a[1]));
      case SUBSTR => SetDestCommutes(f, s, a[0], SubString(h, Eval(s, a[1]), Eval(s, a[2]), Eval(s, a[3])));
      case EVENT_BIND => BindCommutes(f, s, ToText(h, Eval(s, a[0])), BindTarget(a[1]));
      case _ =>
    }
  }

  // ----- Literal code positions -----

  /** A jump literal may be replaced by a reference to the position it stands for; if the instruction does not use it,
      by a reference to any position. */
  lemma ExecRetarget(h: Host, op: Opcode, a: seq<Arg>, s: State, pos: nat)
    requires ArityOk(op, |a|) && JumpLiteral(op, a).Some?
    requires pos == LiteralTarget(op, JumpLiteral(op, a).value) || !Jumps(h, op, a, s)
    ensures Exec(h, op, Retarget(op, a, pos), s) == Exec(h, op, a, s)
  {
    hide Eval, Taken, ToText, ExecHeap, ExecConsole, ExecCall, Binary, Unary;
  }

  lemma JumpsCommutes(f: Renaming, h: Host, op: Opcode, a: seq<Arg>, b: seq<Arg>, s: State)
    requires ArityOk(op, |a|) && |b| == |a|
    requires forall k :: 0 <= k < |a| && JumpOperand(op) != Some(k) ==> b[k] == MapArg(f, a[k])
    ensures Jumps(h, op, b, MapState(f, s)) == Jumps(h, op, a, s)
  {
    hide Eval, Taken, ToText, MapArg;
    if IsBranch(op) {
      EvalCommutes(f, s, a[0]);
      EvalCommutes(f, s, a[1]);
    } else if op == EVENT_BIND {
      EvalCommutes(f, s, a[0]);
      BindMayFail(f, s, ToText(h, Eval(s, a[0])));
    }
  }

  lemma BindMayFail(f: Renaming, s: State, name: Text)
    ensures BindEvent(MapEvents(f, s.events), name, 0).Some? == BindEvent(s.events, name, 0).Some?
  {
    EventIndexCommutes(f, s.events, name);
  }

  /** Every code position in a state satisfies P. */
  ghost predicate AllPositions(P: nat -> bool, s: State) {
    && P(s.pc)
    && (forall i :: 0 <= i < |s.frames| ==> P(s.frames[i].ret))
    && (forall i, k :: 0 <= i < |s.events| && 0 <= k < |s.events[i].handlers| ==> P(s.events[i].handlers[k]))
  }

  ghost predicate ArgPositions(P: nat -> bool, a: seq<Arg>) {
    forall k :: 0 <= k < |a| && a[k].Addr? ==> P(a[k].addr.pos)
  }

  /** The renaming that leaves exactly the positions with P alone. */
  ghost function Snap(P: nat -> bool): Renaming {
    x => if P(x) then x else 0
  }

  lemma SnapFixes(P: nat -> bool, s: State)
    requires P(0)
    ensures AllPositions(P, s) <==> MapState(Snap(P), s) == s
  {
    var f := Snap(P);
    if AllPositions(P, s) {
      assert MapFrames(f, s.frames) == s.frames;
      forall i | 0 <= i < |s.events| ensures MapEvents(f, s.events)[i] == s.events[i] {
        assert MapHandlers(f, s.events[i].handlers) == s.events[i].handlers;
      }
      assert MapEvents(f, s.events) == s.events;
    }
    if MapState(f, s) == s {
      forall i | 0 <= i < |s.frames| ensures P(s.frames[i].ret) { assert MapFrames(f, s.frames)[i] == s.frames[i]; }
      forall i, k | 0 <= i < |s.events| && 0 <= k < |s.events[i].handlers| ensures P(s.events[i].handlers[k]) {
        assert MapEvents(f, s.events)[i] == s.events[i];
        assert MapHandlers(f, s.events[i].handlers)[k] == s.events[i].handlers[k];
      }
    }
  }

  /** Effects invent no positions: what holds of all positions in the state and the operands holds afterwards. */
  lemma ExecKeepsPositions(P: nat -> bool, h: Host, op: Opcode, a: seq<Arg>, s: State)
    requires ArityOk(op, |a|) && JumpLiteral(op, a).None? && RefsNonNegative(a) && P(0)
    requires AllPositions(P, s) && ArgPositions(P, a)
    ensures AllPositions(P, Exec(h, op, a, s).s)
  {
    hide Exec, MapState, AllPositions;
    var f := Snap(P);
    SnapFixes(P, s);
    assert MapArgs(f, a) == a;
    ExecCommutes(f, h, op, a, s);
    SnapFixes(P, Exec(h, op, a, s).s);
  }

  lemma DispatchKeepsPositions(P: nat -> bool, s: State)
    requires P(0) && AllPositions(P, s)
    ensures AllPositions(P, Dispatch(s).0)
  {
    hide Dispatch, MapState, AllPositions;
    SnapFixes(P, s);
    DispatchCommutes(Snap(P), s);
    SnapFixes(P, Dispatch(s).0);
  }

  /** A jump literal that is used ends up in the state. */
  lemma JumpLands(P: nat -> bool, h: Host, op: Opcode, a: seq<Arg>, s: State)
    requires ArityOk(op, |a|) && JumpLiteral(op, a).Some? && Jumps(h, op, a, s)
    requires !P(LiteralTarget(op, JumpLiteral(op, a).value))
    ensures !AllPositions(P, Exec(h, op, a, s).s)
  {
    hide Eval, Taken, ToText, ExecHeap, ExecConsole, ExecCall, Binary, Unary;
    if op == EVENT_BIND {
      var events := Exec(h, op, a, s).s.events;
      var i := EventIndex(s.events, ToText(h, Eval(s, a[0])));
      assert events[i].handlers[|events[i].handlers| - 1] == BindTarget(a[1]);
    }
  }
}
