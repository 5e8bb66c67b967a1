/** Call frames: what a CALL, everything it runs, and its RETURN leave alone. */
module Isolation {
  import opened Bytes
  import opened Opcodes
  import opened Encoding
  import opened Layout
  import opened Machine
  import opened Steps
  import Semantics

  /** Every variable whose name lacks the leading dollar sign has the same global value (or absence). */
  ghost predicate SamePlainGlobals(s: State, t: State) {
    forall n: Text :: !IsGlobalName(n) ==> Find(t.globals, n) == Find(s.globals, n)
  }

  /** What one step may do to the frames: change the locals of the top one, push one that returns to next, or pop one
      and resume its caller. */
  ghost predicate FrameStep(s: State, t: State, next: nat) {
    && (s.frames != [] ==> SamePlainGlobals(s, t))
    && (|| Touched(s.frames, t.frames)
        || (t.frames == s.frames + [Frame(next, [])] && t.globals == s.globals)
        || (s.frames != [] && t.frames == s.frames[..|s.frames| - 1] && t.pc == Last(s.frames).ret))
  }

  predicate Touched(a: seq<Frame>, b: seq<Frame>) {
    && |b| == |a|
    && (a != [] ==> b[..|a| - 1] == a[..|a| - 1] && Last(b).ret == Last(a).ret)
  }

  lemma PutKeepsOthers(table: seq<Binding>, max: nat, name: Text, v: Value, other: Text)
    requires Put(table, max, name, v).Some? && other != name
    ensures Find(Put(table, max, name, v).value, other) == Find(table, other)
  {
    var t := Put(table, max, name, v).value;
    var i, j := IndexOf(table, other), IndexOf(t, other);
    assert i < |table| ==> t[i] == table[i];
    assert j < |t| ==> j < |table| && t[j] == table[j];
  }

  lemma SetVarTouches(s: State, name: Text, v: Value)
    requires SetVar(s, name, v).Some?
    ensures var t := SetVar(s, name, v).value;
      Touched(s.frames, t.frames) && (s.frames != [] ==> SamePlainGlobals(s, t))
  {
    hide Put, Find;
    if s.frames != [] && IsGlobalName(name) {
      forall n: Text | !IsGlobalName(n) ensures Find(SetVar(s, name, v).value.globals, n) == Find(s.globals, n) {
        PutKeepsOthers(s.globals, VARS_MAX, name, v, n);
      }
    }
  }

  lemma TrySetVarTouches(s: State, name: Text, v: Value)
    ensures Touched(s.frames, TrySetVar(s, name, v).frames)
    ensures s.frames != [] ==> SamePlainGlobals(s, TrySetVar(s, name, v))
  {
    hide SetVar, SamePlainGlobals;
    if SetVar(s, name, v).Some? { SetVarTouches(s, name, v); }
    assert SamePlainGlobals(s, s) by { SameAsItself(s); }
  }

  lemma SameAsItself(s: State)
    ensures SamePlainGlobals(s, s)
  {
  }

  lemma SetDestSteps(s: State, o: Arg, v: Value)
    ensures FrameStep(s, SetDest(s, o, v).s, s.pc)
  {
    hide TrySetVar, SamePlainGlobals;
    SameAsItself(s);
    if DestName(s, o).Some? { TrySetVarTouches(s, DestName(s, o).value, v); }
  }

  lemma StoreSteps(s: State, o: Arg, v: Value)
    ensures FrameStep(s, Store(s, o, v).s, s.pc)
  {
    hide SetVar, SamePlainGlobals;
    SameAsItself(s);
    var n := DestName(s, o);
    if n.Some? && SetVar(s, n.value, v).Some? { SetVarTouches(s, n.value, v); }
  }

  /** States that agree on frames and globals. */
  predicate SameVars(s: State, t: State) {
    s.frames == t.frames && s.globals == t.globals
  }

  lemma SameVarsSteps(s: State, t: State, u: State, next: nat)
    requires SameVars(s, t)
    ensures FrameStep(s, t, next)
    ensures FrameStep(t, u, next) ==> FrameStep(s, u, next)
  {
  }

  lemma CallSteps(h: Host, op: Opcode, a: seq<Arg>, s: State)
    requires CallsOut(op) && ArityOk(op, |a|)
    ensures FrameStep(s, ExecCall(h, op, a, s).s, s.pc)
  {
    hide FrameStep, EvalAll, SetDest, TrySetVar;
    var counted := s.(natives := s.natives + 1);
    SameVarsSteps(s, s, s, s.pc);
    SameVarsSteps(s, counted, counted, s.pc);
    forall o, v ensures FrameStep(s, SetDest(counted, o, v).s, s.pc) {
      SetDestSteps(counted, o, v);
      SameVarsSteps(s, counted, SetDest(counted, o, v).s, s.pc);
    }
    forall v ensures FrameStep(s, TrySetVar(counted, RETVAL, v), s.pc) {
      TrySetVarTouches(counted, RETVAL, v);
      RetvalSteps(s, v);
    }
    if op == CALL && a[0].Addr? { EnterSteps(s, a[0].addr.pos); }
  }

  lemma RetvalSteps(s: State, v: Value)
    ensures FrameStep(s, TrySetVar(s.(natives := s.natives + 1), RETVAL, v), s.pc)
  {
    hide TrySetVar, SamePlainGlobals;
    var counted := s.(natives := s.natives + 1);
    TrySetVarTouches(counted, RETVAL, v);
    PlainGlobalsFrom(s, counted, TrySetVar(counted, RETVAL, v));
  }

  lemma PlainGlobalsFrom(s: State, t: State, u: State)
    requires s.globals == t.globals
    ensures SamePlainGlobals(t, u) ==> SamePlainGlobals(s, u)
  {
  }

  lemma EnterSteps(s: State, target: nat)
    ensures FrameStep(s, Enter(s, target).s, s.pc)
  {
    SameAsItself(s);
    assert Enter(s, target).Done? ==> Enter(s, target).s.frames == s.frames + [Frame(s.pc, [])];
  }

  lemma LeaveSteps(s: State)
    ensures FrameStep(s, Leave(s).s, s.pc)
  {
    SameAsItself(s);
  }

  lemma HeapSteps(h: Host, op: Opcode, a: seq<Arg>, s: State)
    requires IsHeapOp(op) && ArityOk(op, |a|)
    ensures FrameStep(s, ExecHeap(h, op, a, s).s, s.pc)
  {
    hide FrameStep, Eval, SetDest;
    SameVarsSteps(s, s, s, s.pc);
    forall o, v ensures FrameStep(s, SetDest(s, o, v).s, s.pc) { SetDestSteps(s, o, v); }
    if op == HEAP_ALLOC || op == ARRAY_CREATE || op == SPAN_CREATE {
      AllocSteps(h, s, Eval(s, a[0]), a[1], op == SPAN_CREATE);
    } else if op == HEAP_LOAD || op == SPAN_READ_U8 || op == ARRAY_LEN {
    } else {
      HeapWritesKeepVars(h, op, a, s);
      SameVarsSteps(s, ExecHeap(h, op, a, s).s, s, s.pc);
    }
  }

  lemma AllocSteps(h: Host, s: State, size: Value, dest: Arg, isBytes: bool)
    ensures FrameStep(s, AllocInto(h, s, size, dest, isBytes).s, s.pc)
  {
    hide FrameStep, SetDest;
    SameVarsSteps(s, s, s, s.pc);
    var k := FirstVacant(s.heap);
    if ToInt(h, size) >= 0 && k < |s.heap| {
      var t := s.(heap := s.heap[k := Live(s.nextRef, isBytes, false, Zeros(ToInt(h, size)))],
                  nextRef := (s.nextRef + 1) % 0x1_0000_0000);
      SetDestSteps(t, dest, VInt(I32(s.nextRef)));
      SameVarsSteps(s, t, SetDest(t, dest, VInt(I32(s.nextRef))).s, s.pc);
    }
  }

  lemma HeapWritesKeepVars(h: Host, op: Opcode, a: seq<Arg>, s: State)
    requires IsHeapOp(op) && ArityOk(op, |a|)
    requires op != HEAP_ALLOC && op != ARRAY_CREATE && op != SPAN_CREATE
    requires op != HEAP_LOAD && op != SPAN_READ_U8 && op != ARRAY_LEN
    ensures SameVars(s, ExecHeap(h, op, a, s).s)
  {
    hide Eval, SlotOf, Drawable, Renders;
  }

  lemma ConsoleKeepsVars(h: Host, op: Opcode, a: seq<Arg>, s: State)
    requires IsConsole(op) && ArityOk(op, |a|)
    ensures SameVars(s, ExecConsole(h, op, a, s).s)
  {
    hide Eval, EvalAll, InRange;
  }

  lemma IntoDestSteps(s: State, o: Arg, r: Result<Value, Msg>)
    ensures FrameStep(s, IntoDest(s, o, r).s, s.pc)
  {
    hide SetDest, FrameStep;
    SameVarsSteps(s, s, s, s.pc);
    if r.Success? { SetDestSteps(s, o, r.value); }
  }

  lemma ExecSteps(h: Host, op: Opcode, a: seq<Arg>, s: State)
    requires ArityOk(op, |a|)
    ensures FrameStep(s, Exec(h, op, a, s).s, s.pc)
  {
    hide FrameStep, Binary, Unary, IntoDest, ExecHeap, ExecConsole, ExecCall, Store, SetDest, SubString, Eval, Taken,
      Leave;
    if IsBinary(op) {
      IntoDestSteps(s, a[0], Binary(h, op, Eval(s, a[1]), Eval(s, a[2])));
    } else if IsUnary(op) {
      IntoDestSteps(s, a[0], Unary(h, op, Eval(s, a[1])));
    } else if IsHeapOp(op) {
      HeapSteps(h, op, a, s);
    } else if CallsOut(op) {
      CallSteps(h, op, a, s);
    } else if op == STORE {
      StoreSteps(s, a[0], Eval(s, a[1]));
    } else if op == SUBSTR {
      SetDestSteps(s, a[0], SubString(h, Eval(s, a[1]), Eval(s, a[2]), Eval(s, a[3])));
    } else if op == RETURN {
      LeaveSteps(s);
    } else {
      if IsConsole(op) { ConsoleKeepsVars(h, op, a, s); }
      SameVarsSteps(s, Exec(h, op, a, s).s, s, s.pc);
    }
  }

  /** The address after the instruction at pc. */
  function NextPc(img: Image, s: State): nat {
    if s.pc < |img.code| then s.pc + Fetch(img.code[s.pc..]).used else s.pc
  }

  /** One VM step changes the top frame's locals, pushes a frame, or pops one and resumes right where it was called. */
  lemma StepFrames(h: Host, img: Image, s: State)
    ensures FrameStep(s, VmStep(h, img, s).s, NextPc(img, s))
  {
    hide FrameStep, Exec, Fetch, CurrentLine, Dispatch;
    var u, next := VmStep(h, img, s).s, NextPc(img, s);
    if s.halted || s.pc >= |img.code| {
      DispatchKeepsVars(s);
      SameVarsSteps(s, u, u, next);
    } else {
      var f, t := Fetch(img.code[s.pc..]), s.(pc := next);
      SameVarsSteps(s, t, u, next);
      if f.Fetched? { ExecSteps(h, f.op, ToArgs(f.args), t); } else { SameVarsSteps(s, u, u, next); }
    }
  }

  lemma DispatchKeepsVars(s: State)
    ensures SameVars(s, Dispatch(s).0)
  {
    hide DueHandler, Rotate;
  }

  // ----- CALL and RETURN -----

  /** A CALL of an address, sign-extended to 64 bits, moves pc there and pushes a frame that returns to the next
      instruction and has no locals; at depth 128 it reports an overflow. Nothing else changes. */
  lemma CallEnters(h: Host, img: Image, s: State)
    requires Executes(img, s, CALL) && Fetch(img.code[s.pc..]).args[0].Addr?
    ensures var x, next := Fetch(img.code[s.pc..]).args[0].addr, NextPc(img, s);
      var target := if x < 0x8000_0000 then x else x + 0xFFFF_FFFF_0000_0000;
      VmStep(h, img, s) ==
        if |s.frames| < 128 then StepResult(s.(pc := target, frames := s.frames + [Frame(next, [])]), Ran)
        else StepResult(s.(pc := next), Failed(Located(CurrentLine(img.lines, s.pc), CallStackOverflow)))
  {
    hide Fetch, CurrentLine, Exec;
    var f := Fetch(img.code[s.pc..]);
    assert ToArgs(f.args)[0] == ToArg(f.args[0]);
    Semantics.CallExec(h, ToArgs(f.args), s.(pc := NextPc(img, s)));
  }

  /** A RETURN resumes where the top frame says and drops it, with its locals; without a frame it reports that. */
  lemma ReturnResumes(h: Host, img: Image, s: State)
    requires Executes(img, s, RETURN)
    ensures var next, d := NextPc(img, s), |s.frames| - 1;
      VmStep(h, img, s) ==
        if d >= 0 then StepResult(s.(pc := s.frames[d].ret, frames := s.frames[..d]), Ran)
        else StepResult(s.(pc := next), Failed(Located(CurrentLine(img.lines, s.pc), ReturnWithoutCall)))
  {
    hide Fetch, CurrentLine, ArityOk;
  }

  /** A step that cannot decode its instruction moves pc, within the code, and halts if there is a single byte left. */
  lemma DecodeFails(h: Host, img: Image, s: State)
    requires !s.halted && s.pc < |img.code| && !Fetch(img.code[s.pc..]).Fetched?
    ensures var r := VmStep(h, img, s);
      && r.outcome.Failed? && s.pc <= r.s.pc <= |img.code|
      && r.s == s.(pc := r.s.pc, halted := s.pc + 1 == |img.code|)
  {
    hide DecodeOperands, CurrentLine, ArityOk;
  }

  /** The VM is running and the next instruction is complete and has this opcode. */
  predicate Executes(img: Image, s: State, op: Opcode) {
    && !s.halted && s.pc < |img.code|
    && var f := Fetch(img.code[s.pc..]); f.Fetched? && f.op == op
  }

  // ----- From a CALL to its RETURN -----

  /** Inside a call entered from base: the frames below are base's, the call's own frame still holds the return
      address, and base's plain globals are as they were. */
  ghost predicate Inside(base: State, ret: nat, s: State) {
    && |s.frames| > |base.frames|
    && s.frames[..|base.frames|] == base.frames
    && s.frames[|base.frames|].ret == ret
    && SamePlainGlobals(base, s)
  }

  lemma StepInside(base: State, ret: nat, s: State, t: State, next: nat)
    requires Inside(base, ret, s) && FrameStep(s, t, next)
    ensures |t.frames| > |base.frames| ==> Inside(base, ret, t)
    ensures |t.frames| <= |base.frames| ==> t.frames == base.frames && t.pc == ret && SamePlainGlobals(base, t)
  {
    var d := |base.frames|;
    if Touched(s.frames, t.frames) {
      assert t.frames[..d] == t.frames[..|s.frames| - 1][..d] == s.frames[..|s.frames| - 1][..d] == s.frames[..d];
      assert d < |s.frames| - 1 ==> t.frames[..|s.frames| - 1][d] == s.frames[..|s.frames| - 1][d];
    } else if t.frames == s.frames + [Frame(next, [])] {
      assert t.frames[..d] == s.frames[..d];
    } else {
      assert t.frames[..d] == s.frames[..d] == base.frames;
    }
  }

  lemma {:induction false} RunInside(h: Host, img: Image, s: State, n: nat, base: State, ret: nat)
    requires Inside(base, ret, s)
    requires forall k :: 0 <= k < n ==> |After(h, img, s, k).frames| > |base.frames|
    ensures |After(h, img, s, n).frames| > |base.frames| ==> Inside(base, ret, After(h, img, s, n))
    ensures |After(h, img, s, n).frames| <= |base.frames| ==>
      var t := After(h, img, s, n); t.frames == base.frames && t.pc == ret && SamePlainGlobals(base, t)
  {
    hide VmStep, Inside, SamePlainGlobals, FrameStep;
    if n > 0 {
      var s' := After(h, img, s, n - 1);
      RunInside(h, img, s, n - 1, base, ret);
      StepFrames(h, img, s');
      StepInside(base, ret, s', VmStep(h, img, s').s, NextPc(img, s'));
    } else {
      assert |s.frames| > |base.frames| by { InsideIsDeeper(base, ret, s); }
    }
  }

  lemma InsideIsDeeper(base: State, ret: nat, s: State)
    requires Inside(base, ret, s)
    ensures |s.frames| > |base.frames|
  {
  }

  /** A step that pushes a frame is a CALL: it returns to the byte after itself and changes no variable. */
  lemma PushingStep(h: Host, img: Image, s: State)
    requires |VmStep(h, img, s).s.frames| > |s.frames|
    ensures Inside(s, NextPc(img, s), VmStep(h, img, s).s)
  {
    hide VmStep;
    StepFrames(h, img, s);
  }

  /** From a CALL at depth d to the first later state back at depth d, through nested calls and event dispatches:
      the frames are the caller's, its plain globals are untouched, and pc is the byte right after the CALL. */
  lemma CallIsolated(h: Host, img: Image, s: State, n: nat)
    requires n > 1 && |After(h, img, s, n).frames| <= |s.frames|
    requires forall k :: 1 <= k < n ==> |After(h, img, s, k).frames| > |s.frames|
    ensures var t := After(h, img, s, n);
      t.frames == s.frames && SamePlainGlobals(s, t) && t.pc == NextPc(img, s)
  {
    hide VmStep, Inside, NextPc;
    assert After(h, img, s, 0) == s;
    var s1 := After(h, img, s, 1);
    assert s1 == VmStep(h, img, s).s;
    PushingStep(h, img, s);
    forall k: nat | k < n ensures After(h, img, s1, k) == After(h, img, s, 1 + k) { AfterSplit(h, img, s, 1, k); }
    AfterSplit(h, img, s, 1, n - 1);
    RunInside(h, img, s1, n - 1, s, NextPc(img, s));
  }
}
