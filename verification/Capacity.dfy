/** The VM's fixed tables (vm/vm.c): no run overfills one, and no table ever holds a name twice. */
module Capacity {
  import opened Bytes
  import opened Opcodes
  import opened Encoding
  import opened Layout
  import opened Machine
  import opened Steps

  predicate TableOk(t: seq<Binding>, max: nat) {
    |t| <= max && forall i, j :: 0 <= i < j < |t| ==> t[i].name != t[j].name
  }

  predicate FramesOk(frames: seq<Frame>) {
    |frames| <= CALL_STACK_MAX && forall i :: 0 <= i < |frames| ==> TableOk(frames[i].locals, LOCAL_VARS_MAX)
  }

  /** Every registered event has a handler. */
  predicate RegistryOk(events: seq<Event>) {
    && |events| <= EVENTS_MAX
    && (forall i :: 0 <= i < |events| ==> 1 <= |events[i].handlers| <= EVENT_HANDLERS_MAX)
    && forall i, j :: 0 <= i < j < |events| ==> events[i].name != events[j].name
  }

  predicate Fits(s: State) {
    && |s.stack| <= STACK_MAX && TableOk(s.globals, VARS_MAX) && FramesOk(s.frames)
    && RegistryOk(s.events) && |s.queue| < EVENT_QUEUE_MAX && |s.heap| == HEAP_OBJECTS_MAX
  }

  /** States that agree on everything Fits looks at. */
  predicate SameTables(s: State, t: State) {
    && s.stack == t.stack && s.globals == t.globals && s.frames == t.frames
    && s.events == t.events && s.queue == t.queue && |s.heap| == |t.heap|
  }

  lemma SameFits(s: State, t: State)
    requires Fits(s) && SameTables(s, t)
    ensures Fits(t)
  {
  }

  // ----- Variables -----

  lemma PutFits(t: seq<Binding>, max: nat, name: Text, v: Value)
    requires TableOk(t, max)
    ensures Put(t, max, name, v).Some? ==> TableOk(Put(t, max, name, v).value, max)
  {
  }

  lemma SetVarFits(s: State, name: Text, v: Value)
    requires Fits(s) && SetVar(s, name, v).Some?
    ensures Fits(SetVar(s, name, v).value)
  {
    hide Put, TableOk, RegistryOk;
    if UsesFrame(s, name) {
      PutFits(Last(s.frames).locals, LOCAL_VARS_MAX, name, v);
    } else {
      PutFits(s.globals, VARS_MAX, name, v);
    }
  }

  lemma TrySetVarFits(s: State, name: Text, v: Value)
    requires Fits(s)
    ensures Fits(TrySetVar(s, name, v))
  {
    hide SetVar, Fits;
    if SetVar(s, name, v).Some? { SetVarFits(s, name, v); }
  }

  lemma SetDestFits(s: State, o: Arg, v: Value)
    requires Fits(s)
    ensures Fits(SetDest(s, o, v).s)
  {
    hide TrySetVar, Fits;
    if DestName(s, o).Some? { TrySetVarFits(s, DestName(s, o).value, v); }
  }

  lemma IntoDestFits(s: State, o: Arg, r: Result<Value, Msg>)
    requires Fits(s)
    ensures Fits(IntoDest(s, o, r).s)
  {
    hide SetDest, Fits;
    if r.Success? { SetDestFits(s, o, r.value); }
  }

  lemma StoreFits(s: State, o: Arg, v: Value)
    requires Fits(s)
    ensures Fits(Store(s, o, v).s)
  {
    hide SetVar, Fits;
    var n := DestName(s, o);
    if n.Some? && SetVar(s, n.value, v).Some? { SetVarFits(s, n.value, v); }
  }

  // ----- Calls and events -----

  lemma EnterFits(s: State, target: nat)
    requires Fits(s)
    ensures Fits(Enter(s, target).s)
  {
    hide RegistryOk;
  }

  lemma LeaveFits(s: State)
    requires Fits(s)
    ensures Fits(Leave(s).s)
  {
    hide RegistryOk, TableOk;
  }

  lemma BindFits(s: State, name: Text, handler: nat)
    requires Fits(s)
    ensures Fits(Bind(s, name, handler).s)
  {
    hide FramesOk, TableOk;
  }

  lemma DispatchFits(s: State)
    requires Fits(s)
    ensures Fits(Dispatch(s).0)
  {
    hide FramesOk, TableOk, RegistryOk, DueHandler;
  }

  lemma CallFits(h: Host, op: Opcode, a: seq<Arg>, s: State)
    requires CallsOut(op) && ArityOk(op, |a|) && Fits(s)
    ensures Fits(ExecCall(h, op, a, s).s)
  {
    hide Fits, EvalAll, SetDest, TrySetVar, Enter;
    var counted := s.(natives := s.natives + 1);
    SameFits(s, counted);
    forall o, v ensures Fits(SetDest(counted, o, v).s) { SetDestFits(counted, o, v); }
    forall v ensures Fits(TrySetVar(counted, RETVAL, v)) { TrySetVarFits(counted, RETVAL, v); }
    if op == CALL { EnterFits(s, JumpTarget(a[0])); }
  }

  // ----- The heap and the console -----

  lemma AllocFits(h: Host, s: State, size: Value, dest: Arg, isBytes: bool)
    requires Fits(s)
    ensures Fits(AllocInto(h, s, size, dest, isBytes).s)
  {
    hide Fits, SetDest;
    var k := FirstVacant(s.heap);
    if ToInt(h, size) >= 0 && k < |s.heap| {
      var t := s.(heap := s.heap[k := Live(s.nextRef, isBytes, false, Zeros(ToInt(h, size)))],
                  nextRef := (s.nextRef + 1) % 0x1_0000_0000);
      SameFits(s, t);
      SetDestFits(t, dest, VInt(I32(s.nextRef)));
    }
  }

  lemma HeapKeepsTables(h: Host, op: Opcode, a: seq<Arg>, s: State)
    requires IsHeapOp(op) && ArityOk(op, |a|)
    requires op != HEAP_ALLOC && op != ARRAY_CREATE && op != SPAN_CREATE
    requires op != HEAP_LOAD && op != SPAN_READ_U8 && op != ARRAY_LEN
    ensures SameTables(s, ExecHeap(h, op, a, s).s)
  {
    hide Eval, SlotOf, Drawable, Renders;
  }

  lemma HeapFits(h: Host, op: Opcode, a: seq<Arg>, s: State)
    requires IsHeapOp(op) && ArityOk(op, |a|) && Fits(s)
    ensures Fits(ExecHeap(h, op, a, s).s)
  {
    hide Fits, Eval, SetDest;
    forall o, v ensures Fits(SetDest(s, o, v).s) { SetDestFits(s, o, v); }
    if op == HEAP_ALLOC || op == ARRAY_CREATE || op == SPAN_CREATE {
      AllocFits(h, s, Eval(s, a[0]), a[1], op == SPAN_CREATE);
    } else if op == HEAP_LOAD || op == SPAN_READ_U8 || op == ARRAY_LEN {
    } else {
      HeapKeepsTables(h, op, a, s);
      SameFits(s, ExecHeap(h, op, a, s).s);
    }
  }

  lemma ConsoleKeepsTables(h: Host, op: Opcode, a: seq<Arg>, s: State)
    requires IsConsole(op) && ArityOk(op, |a|)
    ensures SameTables(s, ExecConsole(h, op, a, s).s)
  {
    hide Eval, EvalAll, InRange;
  }

  // ----- Steps and runs -----

  lemma ExecFits(h: Host, op: Opcode, a: seq<Arg>, s: State)
    requires ArityOk(op, |a|) && Fits(s)
    ensures Fits(Exec(h, op, a, s).s)
  {
    hide Fits, Binary, Unary, IntoDest, ExecHeap, ExecConsole, ExecCall, Store, SetDest, SubString, Eval, Taken,
      Leave, Dispatch, Bind;
    if IsBinary(op) {
      IntoDestFits(s, a[0], Binary(h, op, Eval(s, a[1]), Eval(s, a[2])));
    } else if IsUnary(op) {
      IntoDestFits(s, a[0], Unary(h, op, Eval(s, a[1])));
    } else if IsHeapOp(op) {
      HeapFits(h, op, a, s);
    } else if CallsOut(op) {
      CallFits(h, op, a, s);
    } else if IsConsole(op) {
      ConsoleKeepsTables(h, op, a, s);
      SameFits(s, ExecConsole(h, op, a, s).s);
    } else {
      OtherFits(h, op, a, s);
    }
  }

  lemma OtherFits(h: Host, op: Opcode, a: seq<Arg>, s: State)
    requires ArityOk(op, |a|) && Fits(s)
    requires !IsBinary(op) && !IsUnary(op) && !IsHeapOp(op) && !CallsOut(op) && !IsConsole(op)
    ensures Fits(Exec(h, op, a, s).s)
  {
    hide Fits, Store, SetDest, SubString, Eval, Taken, Leave, Dispatch, Bind, Push, Enqueue;
    var u := Exec(h, op, a, s).s;
    match op
    case END_THREAD =>
      DispatchFits(s);
      SameFits(Dispatch(s).0, u);
    case RETURN => LeaveFits(s);
    case PUSH_INT => PushFits(s, VInt(IntField(a[0])));
    case PUSH_STR => PushFits(s, VStr(if TextField(a[0]).Some? then TextField(a[0]).value else []));
    case LOAD => PushFits(s, Eval(s, a[0]));
    case STORE => StoreFits(s, a[0], Eval(s, a[1]));
    case SUBSTR => SetDestFits(s, a[0], SubString(h, Eval(s, a[1]), Eval(s, a[2]), Eval(s, a[3])));
    case EVENT_BIND => BindFits(s, ToText(h, Eval(s, a[0])), BindTarget(a[1]));
    case EVENT_TRIGGER => EnqueueFits(s, ToText(h, Eval(s, a[0])));
    case _ => SameFits(s, u);
  }

  lemma PushFits(s: State, v: Value)
    requires Fits(s)
    ensures Fits(Push(s, v).s)
  {
    hide FramesOk, TableOk, RegistryOk;
  }

  lemma EnqueueFits(s: State, name: Text)
    requires Fits(s)
    ensures Fits(Enqueue(s, name).s)
  {
    hide FramesOk, TableOk, RegistryOk;
  }

  lemma StepFits(h: Host, img: Image, s: State)
    requires Fits(s)
    ensures Fits(VmStep(h, img, s).s)
  {
    hide Fits, Exec, Fetch, CurrentLine, Dispatch;
    if s.halted || s.pc >= |img.code| {
      DispatchFits(s);
      SameFits(Dispatch(s).0, VmStep(h, img, s).s);
    } else {
      var f := Fetch(img.code[s.pc..]);
      var t := s.(pc := s.pc + f.used);
      SameFits(s, t);
      if f.Fetched? { ExecFits(h, f.op, ToArgs(f.args), t); } else { SameFits(s, VmStep(h, img, s).s); }
    }
  }

  /** On any code at all, from a fresh VM, every table keeps within its array and holds each name once. */
  lemma {:induction false} RunFits(h: Host, img: Image, n: nat)
    ensures Fits(After(h, img, Fresh(), n))
    decreases n
  {
    hide Fits, VmStep;
    if n > 0 {
      RunFits(h, img, n - 1);
      StepFits(h, img, After(h, img, Fresh(), n - 1));
    } else {
      FreshFits();
    }
  }

  lemma FreshFits()
    ensures Fits(Fresh())
  {
  }
}
