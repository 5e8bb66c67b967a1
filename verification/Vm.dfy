/** The virtual machine (vm/vm.c): an object whose methods update its tables in place. */
module Vm {
  import opened Bytes
  import opened Chars
  import opened Opcodes
  import opened Program
  import opened Encoding
  import opened Layout
  import opened ImageFile
  import opened Machine
  import opened Steps
  import EventQueue
  import Screen

  class Vm {
    var image: Image
    var pc: nat
    var halted: bool
    var stack: seq<Value>
    var globals: seq<Binding>
    var calls: seq<Frame>
    const heap: array<Slot>
    var nextRef: uint32
    var events: seq<Event>
    const queue: EventQueue.EventQueue
    var out: seq<Out>
    var natives: nat

    ghost predicate Valid()
      reads this, queue
    {
      heap.Length == HEAP_OBJECTS_MAX && queue.Valid()
    }

    /** The state these fields represent. */
    ghost function Now(): State
      requires Valid()
      reads this, heap, queue, queue.ring
    {
      State(pc, halted, stack, globals, calls, heap[..], nextRef, events, queue.Items(), out, natives)
    }

    /** The machine is in the state an effect ends in, and msg is what the effect reports. */
    ghost predicate Did(e: Effect, msg: Option<Msg>)
      requires Valid()
      reads this, heap, queue, queue.ring
    {
      Now() == e.s && msg == if e.Done? then None else Some(e.msg)
    }

    /** scml_vm_create. */
    constructor ()
      ensures Valid() && fresh(heap) && fresh(queue) && fresh(queue.ring)
      ensures Now() == Fresh() && image == Image([], [], [])
    {
      image := Image([], [], []);
      pc, halted, nextRef, natives := 0, false, 1, 0;
      stack, globals, calls, events, out := [], [], [], [], [];
      heap := new Slot[HEAP_OBJECTS_MAX](_ => Vacant);
      queue := new EventQueue.EventQueue();
      new;
      assert heap[..] == Fresh().heap;
    }

    // ----- Variables -----

    static method FindVarIn(table: seq<Binding>, name: Text) returns (i: nat)
      ensures i == IndexOf(table, name)
    {
      i := 0;
      while i < |table|
        invariant i <= |table| && IndexOf(table, name) == i + IndexOf(table[i..], name)
      {
        if table[i].name == name { return; }
        assert table[i..][1..] == table[i + 1..];
        i := i + 1;
      }
    }

    /** find_var with create, and the assignment: the existing entry, or a new one if the table is not full. */
    static method PutVar(table: seq<Binding>, max: nat, name: Text, v: Value) returns (ok: bool, t: seq<Binding>)
      ensures match Put(table, max, name, v)
        case None => !ok && t == table
        case Some(u) => ok && t == u
    {
      var i := FindVarIn(table, name);
      if i < |table| { return true, table[i := Binding(name, v)]; }
      if |table| >= max { return false, table; }
      return true, table + [Binding(name, v)];
    }

    method SetVar(name: Text, v: Value) returns (ok: bool)
      requires Valid()
      modifies this
      ensures Valid() && image == old(image)
      ensures ok <==> Machine.SetVar(old(Now()), name, v).Some?
      ensures Now() == TrySetVar(old(Now()), name, v)
    {
      if !IsGlobalName(name) && |calls| > 0 {
        var top := |calls| - 1;
        var set_, t := PutVar(calls[top].locals, LOCAL_VARS_MAX, name, v);
        if set_ { calls := calls[top := calls[top].(locals := t)]; }
        return set_;
      } else {
        var set_, t := PutVar(globals, VARS_MAX, name, v);
        globals := t;
        return set_;
      }
    }

    method EvalOperand(o: Arg) returns (v: Value)
      requires Valid()
      ensures v == Eval(Now(), o)
    {
      match o
      case Int(i) => v := VInt(i);
      case Addr(r) => v := VInt(r.value);
      case Float(f) => v := VFloat(f);
      case Str(t) => v := VStr(t);
      case Var(n) =>
        var table := if !IsGlobalName(n) && |calls| > 0 then calls[|calls| - 1].locals else globals;
        var i := FindVarIn(table, n);
        v := if i < |table| then table[i].value else VInt(0);
    }

    method EvalOperands(a: seq<Arg>) returns (vs: seq<Value>)
      requires Valid()
      ensures vs == EvalAll(Now(), a)
    {
      hide Eval, EvalAll;
      ghost var s := Now();
      vs := [];
      var i := 0;
      EvalAllStart(s, a);
      while i < |a|
        invariant i <= |a| && s == Now() && vs + EvalAll(s, a[i..]) == EvalAll(s, a)
      {
        EvalAllNext(s, vs, a, i);
        var v := EvalOperand(a[i]);
        vs := vs + [v];
        i := i + 1;
      }
      EvalAllEnd(s, vs, a[i..]);
    }

    method DestinationName(o: Arg) returns (name: Option<Text>)
      requires Valid()
      ensures name == DestName(Now(), o)
    {
      name := TextField(o);
      var count := if |calls| > 0 then |calls[|calls| - 1].locals| else |globals|;
      if name.None? && count == 0 { name := Some([]); }
    }

    method StoreResult(o: Arg, v: Value) returns (msg: Option<Msg>)
      requires Valid()
      modifies this
      ensures Valid() && image == old(image)
      ensures Did(SetDest(old(Now()), o, v), msg)
    {
      var name := DestinationName(o);
      if name.None? { return Some(NullName); }
      var _ := SetVar(name.value, v);
      msg := None;
    }

    // ----- Events -----

    static method FindEvent(events: seq<Event>, name: Text) returns (i: nat)
      ensures i == EventIndex(events, name)
    {
      i := 0;
      while i < |events|
        invariant i <= |events| && EventIndex(events, name) == i + EventIndex(events[i..], name)
      {
        if events[i].name == name { return; }
        assert events[i..][1..] == events[i + 1..];
        i := i + 1;
      }
    }

    /** scml_vm_bind_event. */
    method BindHandler(name: Text, handler: nat) returns (ok: bool)
      requires Valid()
      modifies this
      ensures Valid() && image == old(image)
      ensures match BindEvent(old(events), name, handler)
        case None => !ok && Now() == old(Now())
        case Some(es) => ok && Now() == old(Now()).(events := es)
    {
      var i := FindEvent(events, name);
      if i == |events| {
        if |events| >= EVENTS_MAX { return false; }
        events := events + [Event(name, [])];
      }
      if |events[i].handlers| >= EVENT_HANDLERS_MAX { return false; }
      events := events[i := Event(events[i].name, events[i].handlers + [handler])];
      assert [] + [handler] == [handler];
      assert i == |old(events)| ==> events == old(events) + [Event(name, [handler])];
      ok := true;
    }

    /** scml_vm_trigger_event. */
    method TriggerEvent(name: Text) returns (ok: bool)
      requires Valid()
      modifies queue, queue.ring
      ensures Valid()
      ensures match Trigger(old(queue.Items()), name)
        case None => !ok && Now() == old(Now())
        case Some(q) => ok && Now() == old(Now()).(queue := q)
    {
      ok := queue.Push(Item(name, 0));
    }

    /** dispatch_next_event. */
    method DispatchNextEvent() returns (entered: bool)
      requires Valid()
      modifies this, queue, queue.ring
      ensures Valid() && image == old(image)
      ensures (Now(), entered) == Dispatch(old(Now()))
    {
      var empty := queue.IsEmpty();
      if empty { return false; }
      var item := queue.Rotate(events);
      var i := FindEvent(events, item.name);
      if i < |events| && item.next < |events[i].handlers| {
        pc, halted := events[i].handlers[item.next], false;
        return true;
      }
      return false;
    }

    /** scml_vm_clear_events. */
    method ClearEvents()
      requires Valid()
      modifies this, queue
      ensures Valid() && image == old(image)
      ensures Now() == old(Now()).(events := [], queue := [])
    {
      events := [];
      queue.Clear();
    }

    // ----- Heap -----

    method HeapFind(ref: uint32) returns (i: nat)
      requires Valid()
      ensures i == SlotOf(heap[..], ref)
    {
      i := 0;
      while i < HEAP_OBJECTS_MAX
        invariant i <= HEAP_OBJECTS_MAX && SlotOf(heap[..], ref) == i + SlotOf(heap[i..], ref)
      {
        if heap[i].Live? && heap[i].id == ref { return; }
        assert heap[i..][1..] == heap[i + 1..];
        i := i + 1;
      }
    }

    /** The slot an operand's value names, as an index, or 512. */
    method HeapFindValue(h: Host, v: Value) returns (i: nat)
      requires Valid()
      ensures i == SlotAt(h, Now(), v) && i <= HEAP_OBJECTS_MAX && (i < HEAP_OBJECTS_MAX ==> heap[i].Live?)
    {
      i := HeapFind(U32(ToInt(h, v)));
    }

    method SetSlot(k: nat, slot: Slot)
      requires Valid() && k < HEAP_OBJECTS_MAX
      modifies heap
      ensures Valid() && Now() == old(Now()).(heap := old(heap[..])[k := slot])
    {
      heap[k] := slot;
      assert heap[..] == old(heap[..])[k := slot];
    }

    /** heap_alloc_typed. */
    method HeapAlloc(size: nat, isBytes: bool) returns (ok: bool, ref: uint32)
      requires Valid()
      modifies this, heap
      ensures Valid() && image == old(image) && ref == old(nextRef)
      ensures var k := FirstVacant(old(heap[..]));
        if k == HEAP_OBJECTS_MAX then !ok && Now() == old(Now())
        else ok && Now() == old(Now()).(heap := old(heap[..])[k := Live(ref, isBytes, false, Zeros(size))],
                                        nextRef := (ref + 1) % 0x1_0000_0000)
    {
      ref := nextRef;
      var i := 0;
      while i < HEAP_OBJECTS_MAX
        invariant i <= HEAP_OBJECTS_MAX && FirstVacant(heap[..]) == i + FirstVacant(heap[i..])
      {
        if heap[i].Vacant? {
          nextRef := (nextRef + 1) % 0x1_0000_0000;
          SetSlot(i, Live(ref, isBytes, false, Zeros(size)));
          return true, ref;
        }
        assert heap[i..][1..] == heap[i + 1..];
        i := i + 1;
      }
      ok := false;
    }

    method Allocate(h: Host, size: Value, dest: Arg, isBytes: bool) returns (msg: Option<Msg>)
      requires Valid()
      modifies this, heap
      ensures Valid() && image == old(image)
      ensures Did(AllocInto(h, old(Now()), size, dest, isBytes), msg)
    {
      hide SetDest;
      var count := ToInt(h, size);
      if count < 0 { return Some(NegativeSize); }
      var ok, ref := HeapAlloc(count, isBytes);
      if !ok { return Some(AllocationFailed); }
      msg := StoreResult(dest, VInt(I32(ref)));
    }

    method Free(h: Host, ref: Value)
      requires Valid()
      modifies heap
      ensures Valid() && Now() == Release(h, old(Now()), ref)
    {
      var k := HeapFindValue(h, ref);
      if k < HEAP_OBJECTS_MAX { SetSlot(k, Vacant); }
    }

    method WriteCell(h: Host, ref: Value, index: Value, v: int32, bytesOnly: bool, m: Msg) returns (msg: Option<Msg>)
      requires Valid()
      modifies heap
      ensures Valid() && Did(StoreCell(h, old(Now()), ref, index, v, bytesOnly, m), msg)
    {
      hide SlotOf, SizeT, ToInt, WithCell, Storable, SlotAt;
      msg := Some(m);
      var k := HeapFindValue(h, ref);
      var i := SizeT(ToInt(h, index));
      if k < HEAP_OBJECTS_MAX && Storable(heap[k], i, v, bytesOnly) {
        StorableHas(heap[k], i, v, bytesOnly);
        SetSlot(k, WithCell(heap[k], i, v));
        msg := None;
      }
    }

    method ReadCell(h: Host, ref: Value, index: Value, dest: Arg, bytesOnly: bool, m: Msg) returns (msg: Option<Msg>)
      requires Valid()
      modifies this
      ensures Valid() && image == old(image)
      ensures Did(LoadCell(h, old(Now()), ref, index, dest, bytesOnly, m), msg)
    {
      hide SetDest, SlotOf, SlotAt, SizeT, ToInt;
      msg := Some(m);
      var k := HeapFindValue(h, ref);
      var i := SizeT(ToInt(h, index));
      if k < HEAP_OBJECTS_MAX && i < |heap[k].cells| && (bytesOnly ==> heap[k].isBytes) {
        msg := StoreResult(dest, VInt(heap[k].cells[i]));
      }
    }

    method FillSpan(h: Host, ref: Value, start: int32, count: int32, v: int32) returns (msg: Option<Msg>)
      requires Valid()
      modifies heap
      ensures Valid() && Did(Fill(h, old(Now()), ref, start, count, v), msg)
    {
      var k := HeapFindValue(h, ref);
      if start < 0 || count < 0 || k == HEAP_OBJECTS_MAX { return Some(FillOutOfRange); }
      var slot := heap[k];
      if start > |slot.cells| || count > |slot.cells| - start { return Some(FillOutOfRange); }
      SetSlot(k, slot.(cells := Filled(slot.cells, start, count, Kept(slot.isBytes, v))));
      msg := None;
    }

    method PinSpan(h: Host, ref: Value) returns (msg: Option<Msg>)
      requires Valid()
      modifies heap
      ensures Valid() && Did(Pin(h, old(Now()), ref), msg)
    {
      var k := HeapFindValue(h, ref);
      if k == HEAP_OBJECTS_MAX { return Some(InvalidReference); }
      SetSlot(k, heap[k].(pinned := true));
      msg := None;
    }

    method SizeOf(h: Host, ref: Value, dest: Arg) returns (msg: Option<Msg>)
      requires Valid()
      modifies this
      ensures Valid() && image == old(image) && Did(SizeInto(h, old(Now()), ref, dest), msg)
    {
      hide SetDest;
      var k := HeapFindValue(h, ref);
      msg := StoreResult(dest, VInt(if k < HEAP_OBJECTS_MAX then I32(|heap[k].cells| % 0x1_0000_0000) else 0));
    }

    // ----- Rendering -----

    method Draw(draws: seq<Screen.Draw>)
      requires Valid()
      modifies this`out
      ensures Valid() && Now() == old(Now()).(out := old(out) + Renders(draws))
    {
      var i := 0;
      while i < |draws|
        invariant i <= |draws| && out + Renders(draws[i..]) == old(out) + Renders(draws)
        invariant Valid() && Now() == old(Now()).(out := out)
      {
        assert draws[i..][1..] == draws[i + 1..];
        out := out + [Render(draws[i])];
        i := i + 1;
      }
    }

    method RenderFull(h: Host, ref: Value, w: int32, ht: int32) returns (msg: Option<Msg>)
      requires Valid()
      modifies this
      ensures Valid() && image == old(image) && Did(RenderSpan(h, old(Now()), ref, w, ht), msg)
    {
      var k := HeapFindValue(h, ref);
      if k == HEAP_OBJECTS_MAX || !Drawable(heap[k], w, ht) { return Some(RenderOutOfRange); }
      var draws := Screen.RenderFull(heap[k].cells, w, ht);
      Draw(draws);
      msg := None;
    }

    /** The cells are put into buffers for the renderer, one buffer if both references name the same object. */
    static method DirtyBuffers(now: seq<int32>, was: seq<int32>, same: bool, w: nat, ht: nat)
      returns (draws: seq<Screen.Draw>, after: seq<int32>)
      requires Screen.Area(w, ht) <= |now| && Screen.Area(w, ht) <= |was| && (same ==> now == was)
      ensures draws == Screen.Dirty(now, was, w, ht)
      ensures after == now[..Screen.Area(w, ht)] + was[Screen.Area(w, ht)..]
    {
      hide Screen.Dirty, Screen.Area;
      var current := new int[|now|](i requires 0 <= i < |now| => now[i]);
      assert current[..] == now;
      var previous := current;
      if !same {
        previous := new int[|was|](i requires 0 <= i < |was| => was[i]);
        assert previous[..] == was;
      }
      draws := Screen.RenderDirty(current, previous, w, ht);
      ghost var expected: seq<int32> := now[..Screen.Area(w, ht)] + was[Screen.Area(w, ht)..];
      assert previous[..] == expected;
      after := previous[..];
    }

    method RenderDirty(h: Host, cur: Value, prev: Value, w: int32, ht: int32) returns (msg: Option<Msg>)
      requires Valid()
      modifies this, heap
      ensures Valid() && image == old(image) && Did(RenderSpanDirty(h, old(Now()), cur, prev, w, ht), msg)
    {
      hide Screen.Dirty, Screen.Area, Renders, SlotOf;
      var c := HeapFindValue(h, cur);
      var p := HeapFindValue(h, prev);
      if c == HEAP_OBJECTS_MAX || p == HEAP_OBJECTS_MAX || !Drawable(heap[c], w, ht) || !Drawable(heap[p], w, ht) {
        return Some(RenderOutOfRange);
      }
      var draws, after := DirtyBuffers(heap[c].cells, heap[p].cells, c == p, w, ht);
      SetSlot(p, heap[p].(cells := after));
      Draw(draws);
      msg := None;
    }

    // ----- One instruction -----

    method Emit(o: Out)
      requires Valid()
      modifies this`out
      ensures Valid() && Now() == old(Now()).(out := old(out) + [o])
    {
      out := out + [o];
    }

    method PushValue(v: Value) returns (msg: Option<Msg>)
      requires Valid()
      modifies this`stack
      ensures Valid() && Did(Push(old(Now()), v), msg)
    {
      if |stack| >= STACK_MAX { return Some(StackOverflow); }
      stack := stack + [v];
      msg := None;
    }

    method EnterCall(target: nat) returns (msg: Option<Msg>)
      requires Valid()
      modifies this
      ensures Valid() && image == old(image) && Did(Enter(old(Now()), target), msg)
    {
      if |calls| >= CALL_STACK_MAX { return Some(CallStackOverflow); }
      calls := calls + [Frame(pc, [])];
      pc := target;
      msg := None;
    }

    method LeaveCall() returns (msg: Option<Msg>)
      requires Valid()
      modifies this
      ensures Valid() && image == old(image) && Did(Leave(old(Now())), msg)
    {
      if |calls| == 0 { return Some(ReturnWithoutCall); }
      pc := calls[|calls| - 1].ret;
      calls := calls[..|calls| - 1];
      msg := None;
    }

    method NativeCall(h: Host, callee: Callee, args: seq<Value>) returns (r: Option<Value>)
      requires Valid()
      modifies this`natives
      ensures Valid() && (Now(), r) == Machine.CallNative(h, old(Now()), callee, args)
    {
      r := h.native(natives, callee, args);
      natives := natives + 1;
    }

    method NamedCall(h: Host, registered: bool, a: seq<Arg>) returns (msg: Option<Msg>)
      requires Valid() && a != []
      modifies this
      ensures Valid() && image == old(image) && Did(CallNamed(h, old(Now()), registered, a), msg)
    {
      hide EvalAll, TrySetVar;
      var name := TextField(a[0]);
      if name.None? { return Some(NativeFailed); }
      var args := EvalOperands(a[1..]);
      var r := NativeCall(h, if registered then Registered(name.value) else Module(name.value), args);
      if r.None? { return Some(NativeFailed); }
      var _ := SetVar(RETVAL, r.value);
      msg := None;
    }

    method ModuleCall(h: Host, callee: Callee, a: seq<Arg>, dest: Option<Arg>) returns (msg: Option<Msg>)
      requires Valid()
      modifies this
      ensures Valid() && image == old(image) && Did(CallModule(h, old(Now()), callee, a, dest), msg)
    {
      hide EvalAll, SetDest;
      var args := EvalOperands(a);
      var r := NativeCall(h, callee, args);
      if r.None? { return Some(NativeFailed); }
      if dest.None? { return None; }
      msg := StoreResult(dest.value, r.value);
    }

    method ExecuteCall(h: Host, op: Opcode, a: seq<Arg>) returns (msg: Option<Msg>)
      requires Valid() && CallsOut(op) && ArityOk(op, |a|)
      modifies this
      ensures Valid() && image == old(image) && Did(ExecCall(h, op, a, old(Now())), msg)
    {
      hide CallNamed, CallModule, Enter;
      match op
      case CALL => if a[0].Addr? { msg := EnterCall(JumpTarget(a[0])); } else { msg := NamedCall(h, true, a); }
      case CALL_NATIVE => msg := NamedCall(h, false, a);
      case WAIT => msg := ModuleCall(h, Callee.Wait, a, None);
      case FILE_READ => msg := ModuleCall(h, FileRead, a[..1], Some(a[1]));
      case FILE_WRITE => msg := ModuleCall(h, FileWrite, a, None);
      case INPUT => msg := ModuleCall(h, InputRead, a[..1], Some(a[1]));
      case _ => msg := ModuleCall(h, EntitySpawn, a[..4], Some(a[4]));
    }

    method ExecuteConsole(h: Host, op: Opcode, a: seq<Arg>) returns (msg: Option<Msg>)
      requires Valid() && IsConsole(op) && ArityOk(op, |a|)
      modifies this`out
      ensures Valid() && Did(ExecConsole(h, op, a, old(Now())), msg)
    {
      hide Eval, EvalAll;
      var vs := EvalOperands(a);
      EvalAllIs(Now(), a);
      msg := None;
      match op
      case CONSOLE_CLEAR => Emit(Clear);
      case CONSOLE_COLOR =>
        if !InRange(h, vs[0], 0, 255) { return Some(ArgumentOutOfRange); }
        if |a| > 1 && !InRange(h, vs[1], 0, 255) { return Some(ArgumentOutOfRange); }
        Emit(Color(ToInt(h, vs[0]), if |a| > 1 then Some(ToInt(h, vs[1]) as int) else None));
      case CONSOLE_RESET => Emit(Reset);
      case CONSOLE_MOVE =>
        if !InRange(h, vs[0], 1, 9999) || !InRange(h, vs[1], 1, 9999) { return Some(ArgumentOutOfRange); }
        Emit(Render(Screen.Move(ToInt(h, vs[0]), ToInt(h, vs[1]))));
      case CONSOLE_ERASE_LINE => Emit(EraseLine);
      case CONSOLE_STYLE =>
        if !InRange(h, vs[0], 0, 9) { return Some(ArgumentOutOfRange); }
        Emit(Style(ToInt(h, vs[0])));
      case _ => Emit(Print(ToText(h, vs[0]), op != PRINT_RAW));
    }

    method ExecuteHeap(h: Host, op: Opcode, a: seq<Arg>) returns (msg: Option<Msg>)
      requires Valid() && IsHeapOp(op) && ArityOk(op, |a|)
      modifies this, heap
      ensures Valid() && image == old(image) && Did(ExecHeap(h, op, a, old(Now())), msg)
    {
      hide Eval, EvalAll, AllocInto, SizeInto, StoreCell, LoadCell, Fill, Pin, Release, RenderSpan, RenderSpanDirty;
      var vs := EvalOperands(a);
      EvalAllIs(Now(), a);
      match op
      case HEAP_ALLOC => msg := Allocate(h, vs[0], a[1], false);
      case ARRAY_CREATE => msg := Allocate(h, vs[0], a[1], false);
      case SPAN_CREATE => msg := Allocate(h, vs[0], a[1], true);
      case FREE =>
        Free(h, vs[0]);
        msg := None;
      case HEAP_STORE => msg := WriteCell(h, vs[0], vs[1], ToInt(h, vs[2]), false, HeapWriteOutOfRange);
      case SPAN_WRITE_U8 => msg := WriteCell(h, vs[0], vs[1], ToInt(h, vs[2]), true, SpanOutOfRange);
      case HEAP_LOAD => msg := ReadCell(h, vs[1], vs[2], a[0], false, HeapReadOutOfRange);
      case SPAN_READ_U8 => msg := ReadCell(h, vs[1], vs[2], a[0], true, SpanOutOfRange);
      case SPAN_PIN => msg := PinSpan(h, vs[0]);
      case SPAN_FILL => msg := FillSpan(h, vs[0], ToInt(h, vs[1]), ToInt(h, vs[2]), ToInt(h, vs[3]));
      case ARRAY_LEN => msg := SizeOf(h, vs[1], a[0]);
      case CONSOLE_RENDER_SPAN => msg := RenderFull(h, vs[0], ToInt(h, vs[1]), ToInt(h, vs[2]));
      case _ => msg := RenderDirty(h, vs[0], vs[1], ToInt(h, vs[2]), ToInt(h, vs[3]));
    }

    method StoreComputed(o: Arg, r: Result<Value, Msg>) returns (msg: Option<Msg>)
      requires Valid()
      modifies this
      ensures Valid() && image == old(image) && Did(IntoDest(old(Now()), o, r), msg)
    {
      hide SetDest;
      if r.Failure? { return Some(r.error); }
      msg := StoreResult(o, r.value);
    }

    method StoreVar(dest: Arg, v: Value) returns (msg: Option<Msg>)
      requires Valid()
      modifies this
      ensures Valid() && image == old(image) && Did(Store(old(Now()), dest, v), msg)
    {
      hide Machine.SetVar;
      var name := DestinationName(dest);
      if name.None? { return Some(NullName); }
      var ok := SetVar(name.value, v);
      msg := if ok then None else Some(VariableTableFull);
    }

    /** The switch of scml_vm_step. */
    method Execute(h: Host, op: Opcode, a: seq<Arg>) returns (msg: Option<Msg>)
      requires Valid() && ArityOk(op, |a|)
      modifies this, heap, queue, queue.ring
      ensures Valid() && image == old(image) && Did(Exec(h, op, a, old(Now())), msg)
    {
      hide Eval, EvalAll, IntoDest, Binary, Unary, Taken, ExecHeap, ExecConsole, ExecCall, SetDest, SubString, Store,
        Push, Leave, Dispatch, BindEvent, Trigger, ToText;
      var vs := EvalOperands(a);
      EvalAllIs(Now(), a);
      msg := None;
      if IsBinary(op) {
        msg := StoreComputed(a[0], Binary(h, op, vs[1], vs[2]));
      } else if IsUnary(op) {
        msg := StoreComputed(a[0], Unary(h, op, vs[1]));
      } else if IsBranch(op) {
        if Taken(h, op, vs[0], vs[1]) { pc := JumpTarget(a[2]); }
      } else if IsHeapOp(op) {
        msg := ExecuteHeap(h, op, a);
      } else if IsConsole(op) {
        msg := ExecuteConsole(h, op, a);
      } else if CallsOut(op) {
        msg := ExecuteCall(h, op, a);
      } else {
        match op
        case HALT => halted := true;
        case END_THREAD =>
          var entered := DispatchNextEvent();
          halted := !entered;
        case RETURN => msg := LeaveCall();
        case PUSH_INT => msg := PushValue(VInt(IntField(a[0])));
        case PUSH_STR =>
          var t := TextField(a[0]);
          msg := PushValue(VStr(if t.Some? then t.value else []));
        case LOAD => msg := PushValue(vs[0]);
        case STORE => msg := StoreVar(a[0], vs[1]);
        case SUBSTR => msg := StoreResult(a[0], SubString(h, vs[1], vs[2], vs[3]));
        case JMP => pc := JumpTarget(a[0]);
        case EVENT_BIND =>
          var ok := BindHandler(ToText(h, vs[0]), BindTarget(a[1]));
          if !ok { msg := Some(RegistryFull); }
        case EVENT_TRIGGER =>
          var ok := TriggerEvent(ToText(h, vs[0]));
          if !ok { msg := Some(QueueFull); }
        case _ =>
      }
    }

    // ----- Fetch and decode -----

    /** decode_operand: reads at pc and advances it, also when it fails. */
    method DecodeNext() returns (r: Result<CodeOperand, DecodeError>)
      requires Valid() && pc <= |image.code|
      modifies this`pc
      ensures Valid() && pc <= |image.code|
      ensures match DecodeOperand(image.code[old(pc)..])
        case Bad(e, n) => r == Failure(e) && pc == old(pc) + n
        case Good(o, n) => r == Success(o) && pc == old(pc) + n
    {
      hide R32, R16;
      var code := image.code;
      if pc >= |code| { return Failure(TruncatedOperand); }
      var tag := code[pc];
      pc := pc + 1;
      if tag == 1 || tag == 4 {
        if pc + 4 > |code| { return Failure(TruncatedInteger); }
        var v := R32(code[pc..]);
        assert code[old(pc)..][1..] == code[pc..];
        pc := pc + 4;
        return Success(if tag == 1 then Int(I32(v)) else Addr(v));
      }
      if tag == 5 {
        if pc + 4 > |code| { return Failure(TruncatedFloat); }
        var v := R32(code[pc..]);
        assert code[old(pc)..][1..] == code[pc..];
        pc := pc + 4;
        return Success(Float(v));
      }
      if tag == 2 || tag == 3 {
        if pc + 2 > |code| { return Failure(TruncatedLength); }
        var n := R16(code[pc..]);
        assert code[old(pc)..][1..] == code[pc..];
        pc := pc + 2;
        if pc + n > |code| { return Failure(TruncatedText); }
        var text := code[pc..pc + n];
        assert text == code[old(pc)..][3..3 + n];
        pc := pc + n;
        return Success(if tag == 2 then Str(text) else Var(text));
      }
      return Failure(BadTag(tag));
    }

    method DecodeAll(k: nat) returns (r: Result<seq<CodeOperand>, DecodeError>)
      requires Valid() && pc <= |image.code|
      modifies this`pc
      ensures Valid() && pc <= |image.code|
      ensures match DecodeOperands(image.code[old(pc)..], k)
        case Bad(e, n) => r == Failure(e) && pc == old(pc) + n
        case Good(os, n) => r == Success(os) && pc == old(pc) + n
    {
      hide DecodeOperand, DecodeOperands, Continued;
      var ops: seq<CodeOperand> := [];
      var i := 0;
      ContinueFromStart(DecodeOperands(image.code[pc..], k));
      while i < k
        invariant i <= k && |ops| == i && Valid() && old(pc) <= pc <= |image.code|
        invariant DecodeOperands(image.code[old(pc)..], k)
          == Continued(ops, pc - old(pc), DecodeOperands(image.code[pc..], k - i))
      {
        ghost var at := pc;
        ContinueOne(ops, pc - old(pc), image.code[pc..], k - i);
        var o := DecodeNext();
        assert image.code[at..][pc - at..] == image.code[pc..];
        if o.Failure? { return Failure(o.error); }
        ops := ops + [o.value];
        i := i + 1;
      }
      ContinueToEnd(ops, pc - old(pc), image.code[pc..]);
      r := Success(ops);
    }

    /** current_line: the scan stops at the first entry past pc. */
    method CurrentLineAt(at: nat) returns (line: uint32)
      ensures line == CurrentLine(image.lines, at)
    {
      var lines := image.lines;
      line := 0;
      var i := 0;
      while i < |lines|
        invariant i <= |lines| && LineFrom(lines, at, 0) == LineFrom(lines[i..], at, line)
      {
        if lines[i].pc > at { return; }
        assert lines[i..][1..] == lines[i + 1..];
        line := lines[i].line;
        i := i + 1;
      }
    }

    /** scml_vm_step. */
    method Step(h: Host) returns (rc: Outcome)
      requires Valid()
      modifies this, heap, queue, queue.ring
      ensures Valid() && image == old(image)
      ensures StepResult(Now(), rc) == VmStep(h, old(image), old(Now()))
    {
      hide Exec, DecodeOperands, OpcodeInfo, CurrentLine, Dispatch;
      if halted || pc >= |image.code| {
        var entered := DispatchNextEvent();
        if entered { return Ran; }
        halted := true;
        return Idle;
      }
      var line := CurrentLineAt(pc);
      if pc + 2 > |image.code| {
        halted := true;
        return Failed(Header(line, TruncatedHeader));
      }
      ghost var rest := image.code[pc..];
      var op, argc := image.code[pc], image.code[pc + 1];
      pc := pc + 2;
      assert rest[2..] == image.code[pc..];
      if OpcodeInfo(op).None? { return Failed(Header(line, UnknownOpcode)); }
      if !ArityOk(op, argc) { return Failed(Header(line, OperandCountMismatch)); }
      var ops := DecodeAll(argc);
      if ops.Failure? { return Failed(Operand(ops.error)); }
      var msg := Execute(h, op, ToArgs(ops.value));
      if msg.None? { return Ran; }
      return Failed(if msg.value.QueueFull? then EventQueueFull else Located(line, msg.value));
    }

    /** scml_vm_run, for at most fuel steps: the number of steps taken and, if the run is over, how it ended. */
    method Run(h: Host, fuel: nat) returns (n: nat, end: Option<Outcome>)
      requires Valid()
      modifies this, heap, queue, queue.ring
      ensures Valid() && image == old(image) && n <= fuel
      ensures Now() == After(h, old(image), old(Now()), n)
      ensures forall k :: 1 <= k < n ==> OutcomeOf(h, old(image), old(Now()), k) == Ran
      ensures if end.None? then n == fuel && (n > 0 ==> OutcomeOf(h, old(image), old(Now()), n) == Ran)
        else n > 0 && end.value != Ran && end.value == OutcomeOf(h, old(image), old(Now()), n)
    {
      hide VmStep;
      n := 0;
      while n < fuel
        invariant n <= fuel && Valid() && image == old(image)
        invariant Now() == After(h, old(image), old(Now()), n)
        invariant forall k :: 1 <= k <= n ==> OutcomeOf(h, old(image), old(Now()), k) == Ran
      {
        var rc := Step(h);
        n := n + 1;
        assert rc == OutcomeOf(h, old(image), old(Now()), n);
        if rc != Ran { return n, Some(rc); }
      }
      end := None;
    }

    // ----- Loading and label lookup -----

    /** scml_vm_load_file. Only the image, pc and the halt flag change, and nothing changes if loading fails. */
    method LoadFile(file: Option<seq<byte>>) returns (r: Option<LoadError>)
      requires Valid()
      modifies this
      ensures Valid()
      ensures r.Some? ==> image == old(image) && Now() == old(Now())
      ensures r.None? ==>
        file.Some? && Load(file.value) == Success(image) && Now() == old(Now()).(pc := 0, halted := false)
      ensures file.None? ==> r == Some(CannotOpen)
      ensures file.Some? && Load(file.value).Failure? ==> r == Some(Load(file.value).error)
    {
      hide R32, R16, ParseLines, ParseLabels;
      if file.None? { return Some(CannotOpen); }
      var f := file.value;
      if |f| < HEADER_SIZE { return Some(ShortHeader); }
      if R32(f) != MAGIC || R16(f[4..]) != VERSION { return Some(NotSupported); }
      var codeSize, lineCount, labelCount := R32(f[6..]), R32(f[10..]), R32(f[14..]);
      var body := f[HEADER_SIZE..];
      if |body| < codeSize { return Some(TruncatedCode); }
      var lines, used := ReadLines(body[codeSize..], lineCount);
      if lines.None? { return Some(TruncatedLines); }
      var labels := ReadLabels(body[codeSize + used..], labelCount);
      if labels.Failure? { return Some(labels.error); }
      image := Image(body[..codeSize], lines.value, labels.value);
      pc, halted := 0, false;
      r := None;
    }

    static method ReadLines(bs: seq<byte>, n: nat) returns (r: Option<seq<LineEntry>>, used: nat)
      ensures match ParseLines(bs, n)
        case None => r == None
        case Some((es, m)) => r == Some(es) && used == m
    {
      hide R32, ParseLines, ContinuedLines;
      var es: seq<LineEntry> := [];
      used := 0;
      var i := 0;
      LinesFromStart(ParseLines(bs, n));
      while i < n
        invariant i <= n && used <= |bs| && ParseLines(bs, n) == ContinuedLines(es, used, ParseLines(bs[used..], n - i))
      {
        LinesOne(es, used, bs[used..], n - i);
        if |bs| - used < 8 { return None, used; }
        assert bs[used..][8..] == bs[used + 8..] && bs[used..][4..] == bs[used + 4..];
        es := es + [LineEntry(R32(bs[used..]), R32(bs[used + 4..]))];
        used := used + 8;
        i := i + 1;
      }
      LinesToEnd(es, used, bs[used..]);
      r := Some(es);
    }

    static method ReadLabels(bs: seq<byte>, n: nat) returns (r: Result<seq<LabelEntry>, LoadError>)
      ensures match ParseLabels(bs, n)
        case Failure(e) => r == Failure(e)
        case Success((es, _)) => r == Success(es)
    {
      hide R32, R16, ParseLabels, ContinuedLabels;
      var es: seq<LabelEntry>, used: nat, i := [], 0, 0;
      LabelsFromStart(ParseLabels(bs, n));
      while i < n
        invariant i <= n && used <= |bs|
        invariant ParseLabels(bs, n) == ContinuedLabels(es, used, ParseLabels(bs[used..], n - i))
      {
        LabelsOne(es, used, bs[used..], n - i);
        if |bs| - used < 6 { return Failure(TruncatedLabels); }
        assert bs[used..][4..] == bs[used + 4..];
        var len := R16(bs[used + 4..]);
        if |bs| - used < 6 + len { return Failure(TruncatedLabelName); }
        assert bs[used..][6 + len..] == bs[used + 6 + len..] && bs[used..][6..6 + len] == bs[used + 6..used + 6 + len];
        es := es + [LabelEntry(bs[used + 6..used + 6 + len], R32(bs[used..]))];
        used := used + 6 + len;
        i := i + 1;
      }
      LabelsToEnd(es, used, bs[used..]);
      r := Success(es);
    }

    /** scml_vm_find_label. */
    method LabelAddress(query: Text) returns (r: Option<uint32>)
      ensures r == FindLabel(image.labels, query)
    {
      hide CString;
      var name := if query != [] && (query[0] == AT || query[0] == COLON) then query[1..] else query;
      var i := 0;
      while i < |image.labels|
        invariant i <= |image.labels| && FindLabel(image.labels, query) == FindLabel(image.labels[i..], query)
      {
        if CString(image.labels[i].name) == name { return Some(image.labels[i].addr); }
        assert image.labels[i..][1..] == image.labels[i + 1..];
        i := i + 1;
      }
      r := None;
    }
  }

  // ----- What a reading loop has, followed by what reading the rest gives -----

  function Continued(ops: seq<CodeOperand>, used: nat, rest: Decoded<seq<CodeOperand>>): Decoded<seq<CodeOperand>> {
    match rest
    case Bad(e, n) => Bad(e, used + n)
    case Good(os, n) => Good(ops + os, used + n)
  }

  lemma ContinueFromStart(d: Decoded<seq<CodeOperand>>)
    ensures Continued([], 0, d) == d
  {
    if d.Good? { assert [] + d.value == d.value; }
  }

  lemma ContinueToEnd(ops: seq<CodeOperand>, used: nat, bs: seq<byte>)
    ensures Continued(ops, used, DecodeOperands(bs, 0)) == Good(ops, used)
  {
    assert ops + [] == ops;
  }

  lemma ContinueOne(ops: seq<CodeOperand>, used: nat, bs: seq<byte>, k: nat)
    requires k > 0
    ensures Continued(ops, used, DecodeOperands(bs, k)) ==
      (match DecodeOperand(bs)
       case Bad(e, n) => Bad(e, used + n)
       case Good(o, n) => Continued(ops + [o], used + n, DecodeOperands(bs[n..], k - 1)))
  {
    hide DecodeOperand;
    var d := DecodeOperand(bs);
    if d.Good? {
      var rest := DecodeOperands(bs[d.used..], k - 1);
      if rest.Good? { assert ops + ([d.value] + rest.value) == ops + [d.value] + rest.value; }
    }
  }

  type Lines = Option<(seq<LineEntry>, nat)>

  function ContinuedLines(es: seq<LineEntry>, used: nat, rest: Lines): Lines {
    if rest.None? then None else Some((es + rest.value.0, used + rest.value.1))
  }

  lemma LinesFromStart(d: Lines)
    ensures ContinuedLines([], 0, d) == d
  {
    if d.Some? { assert [] + d.value.0 == d.value.0; }
  }

  lemma LinesToEnd(es: seq<LineEntry>, used: nat, bs: seq<byte>)
    ensures ContinuedLines(es, used, ParseLines(bs, 0)) == Some((es, used))
  {
    assert es + [] == es;
  }

  lemma LinesOne(es: seq<LineEntry>, used: nat, bs: seq<byte>, k: nat)
    requires k > 0
    ensures ContinuedLines(es, used, ParseLines(bs, k)) ==
      if |bs| < 8 then None
      else ContinuedLines(es + [LineEntry(R32(bs), R32(bs[4..]))], used + 8, ParseLines(bs[8..], k - 1))
  {
    hide R32;
    if |bs| >= 8 {
      var e, rest := LineEntry(R32(bs), R32(bs[4..])), ParseLines(bs[8..], k - 1);
      if rest.Some? { assert es + ([e] + rest.value.0) == es + [e] + rest.value.0; }
    }
  }

  type LabelList = Result<(seq<LabelEntry>, nat), LoadError>

  function ContinuedLabels(es: seq<LabelEntry>, used: nat, rest: LabelList): LabelList {
    if rest.Failure? then rest else Success((es + rest.value.0, used + rest.value.1))
  }

  lemma LabelsFromStart(d: LabelList)
    ensures ContinuedLabels([], 0, d) == d
  {
    if d.Success? { assert [] + d.value.0 == d.value.0; }
  }

  lemma LabelsToEnd(es: seq<LabelEntry>, used: nat, bs: seq<byte>)
    ensures ContinuedLabels(es, used, ParseLabels(bs, 0)) == Success((es, used))
  {
    assert es + [] == es;
  }

  lemma LabelsOne(es: seq<LabelEntry>, used: nat, bs: seq<byte>, k: nat)
    requires k > 0
    ensures ContinuedLabels(es, used, ParseLabels(bs, k)) ==
      if |bs| < 6 then Failure(TruncatedLabels)
      else
        var len := R16(bs[4..]);
        if |bs| < 6 + len then Failure(TruncatedLabelName)
        else
          var e := LabelEntry(bs[6..6 + len], R32(bs));
          ContinuedLabels(es + [e], used + 6 + len, ParseLabels(bs[6 + len..], k - 1))
  {
    hide R32, R16;
    if |bs| >= 6 && |bs| >= 6 + R16(bs[4..]) {
      var len := R16(bs[4..]);
      var e, rest := LabelEntry(bs[6..6 + len], R32(bs)), ParseLabels(bs[6 + len..], k - 1);
      if rest.Success? { assert es + ([e] + rest.value.0) == es + [e] + rest.value.0; }
    }
  }

  lemma EvalAllStart(s: State, a: seq<Arg>)
    ensures [] + EvalAll(s, a[0..]) == EvalAll(s, a)
  {
    assert a[0..] == a;
  }

  lemma EvalAllNext(s: State, vs: seq<Value>, a: seq<Arg>, i: nat)
    requires i < |a|
    ensures vs + EvalAll(s, a[i..]) == vs + [Eval(s, a[i])] + EvalAll(s, a[i + 1..])
  {
    assert a[i..][1..] == a[i + 1..];
  }

  lemma EvalAllEnd(s: State, vs: seq<Value>, a: seq<Arg>)
    requires a == []
    ensures vs + EvalAll(s, a) == vs
  {
  }

  lemma StorableHas(slot: Slot, i: nat, v: int32, bytesOnly: bool)
    requires Storable(slot, i, v, bytesOnly)
    ensures slot.Live? && i < |slot.cells|
  {
  }

  lemma EvalAllIs(s: State, a: seq<Arg>)
    ensures |EvalAll(s, a)| == |a| && forall i :: 0 <= i < |a| ==> EvalAll(s, a)[i] == Eval(s, a[i])
  {
  }
}