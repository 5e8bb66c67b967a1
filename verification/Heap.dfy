/** The handle heap (vm/vm.c) as a map from handles to typed cell sequences: what each heap opcode does to it. */
module Heap {
  import opened Bytes
  import opened Opcodes
  import opened Machine
  import Screen

  /** Sizes are int32_t counts, and byte spans hold bytes. */
  predicate SlotOk(slot: Slot) {
    slot.Live? ==>
      && |slot.cells| < 0x8000_0000
      && (slot.isBytes ==> forall i :: 0 <= i < |slot.cells| ==> 0 <= slot.cells[i] < 0x100)
  }

  predicate CellsOk(heap: seq<Slot>) {
    |heap| == HEAP_OBJECTS_MAX && forall i :: 0 <= i < |heap| ==> SlotOk(heap[i])
  }

  predicate DistinctIds(heap: seq<Slot>) {
    forall i, j :: 0 <= i < j < |heap| && heap[i].Live? && heap[j].Live? ==> heap[i].id != heap[j].id
  }

  /** What a handle denotes: the first live slot with that id. */
  function Object(heap: seq<Slot>, ref: uint32): Option<Slot> {
    var k := SlotOf(heap, ref);
    if k < |heap| then Some(heap[k]) else None
  }

  /** Two live slots share the handle. */
  ghost predicate Shared(heap: seq<Slot>, ref: uint32) {
    exists i, j :: 0 <= i < j < |heap| && heap[i].Live? && heap[j].Live? && heap[i].id == heap[j].id == ref
  }

  /** From heap a to heap b, no handle but ref changes. */
  ghost predicate OthersKept(a: seq<Slot>, b: seq<Slot>, ref: uint32) {
    forall q: uint32 :: q != ref ==> Object(b, q) == Object(a, q)
  }

  /** From heap a to heap b, only ref changes: it now denotes v. */
  ghost predicate OnlyChange(a: seq<Slot>, b: seq<Slot>, ref: uint32, v: Option<Slot>) {
    OthersKept(a, b, ref) && Object(b, ref) == v
  }

  /** Slot k, which is vacant or has handle ref, is replaced by one that is vacant or has handle ref. */
  lemma OthersKeptAt(heap: seq<Slot>, k: nat, slot: Slot, ref: uint32)
    requires k < |heap| && (heap[k].Live? ==> heap[k].id == ref) && (slot.Live? ==> slot.id == ref)
    ensures OthersKept(heap, heap[k := slot], ref)
  {
    var t := heap[k := slot];
    forall q: uint32 | q != ref ensures Object(t, q) == Object(heap, q) {
      var i, j := SlotOf(heap, q), SlotOf(t, q);
      assert i < |heap| ==> i != k && t[i] == heap[i];
      assert j < |t| ==> j != k && heap[j] == t[j];
    }
  }

  /** The slot a handle denotes is updated in place. */
  lemma ObjectUpdated(heap: seq<Slot>, ref: uint32, slot: Slot)
    requires SlotOf(heap, ref) < |heap| && slot.Live? && slot.id == ref
    ensures OnlyChange(heap, heap[SlotOf(heap, ref) := slot], ref, Some(slot))
  {
    var k := SlotOf(heap, ref);
    OthersKeptAt(heap, k, slot, ref);
    var t := heap[k := slot];
    assert t[k] == slot && forall i :: 0 <= i < k ==> t[i] == heap[i];
    assert SlotOf(t, ref) == k;
  }

  predicate SameHeap(s: State, t: State) {
    s.heap == t.heap && s.nextRef == t.nextRef
  }

  lemma SetDestKeepsHeap(s: State, o: Arg, v: Value)
    ensures SameHeap(s, SetDest(s, o, v).s)
    ensures SetDest(s, o, v).Done? <==> DestName(s, o).Some?
  {
    hide Put;
  }

  /** The handle after ref. */
  function Successor(ref: uint32): uint32 {
    (ref + 1) % 0x1_0000_0000
  }

  // ----- The heap opcodes on handles -----

  /** There is room for an object of n cells. */
  ghost predicate CanAllocate(heap: seq<Slot>, n: int) {
    n >= 0 && exists i :: 0 <= i < |heap| && heap[i].Vacant?
  }

  /** HEAP_ALLOC, ARRAY_CREATE and SPAN_CREATE add zeroed cells under next_ref (which then denotes them, unless it was
      in use), touch no other handle and advance next_ref. They fail, changing nothing, exactly on a negative count or
      when all 512 slots are in use, or when there is no name to store the handle under. */
  lemma AllocRefines(h: Host, s: State, size: Value, dest: Arg, isBytes: bool)
    ensures var e, n := AllocInto(h, s, size, dest, isBytes), ToInt(h, size);
      if CanAllocate(s.heap, n) then
        && (e.Done? <==> DestName(s, dest).Some?) && e.s.nextRef == Successor(s.nextRef)
        && OthersKept(s.heap, e.s.heap, s.nextRef)
        && (Object(s.heap, s.nextRef).None? ==>
              Object(e.s.heap, s.nextRef) == Some(Live(s.nextRef, isBytes, false, Zeros(n))))
      else e.Fail? && e.s == s
  {
    hide SetDest, OthersKept, Object, DestName;
    var n, k := ToInt(h, size), FirstVacant(s.heap);
    if n >= 0 && k < |s.heap| {
      assert s.heap[k].Vacant?;
      var slot := Live(s.nextRef, isBytes, false, Zeros(n));
      var t := s.(heap := s.heap[k := slot], nextRef := Successor(s.nextRef));
      OthersKeptAt(s.heap, k, slot, s.nextRef);
      if Object(s.heap, s.nextRef).None? { ObjectAllocated(s.heap, k, slot); }
      SetDestKeepsHeap(t, dest, VInt(I32(s.nextRef)));
      SameDestName(s, t, dest);
    }
  }

  lemma SameDestName(s: State, t: State, o: Arg)
    requires s.frames == t.frames && s.globals == t.globals
    ensures DestName(s, o) == DestName(t, o)
  {
  }

  lemma ObjectAllocated(heap: seq<Slot>, k: nat, slot: Slot)
    requires k < |heap| && slot.Live? && Object(heap, slot.id).None?
    ensures Object(heap[k := slot], slot.id) == Some(slot)
  {
    var t := heap[k := slot];
    assert t[k] == slot && forall i :: 0 <= i < k ==> t[i] == heap[i];
    assert SlotOf(t, slot.id) == k;
  }

  /** A store succeeds exactly on a live handle and an index in range (for SPAN_WRITE_U8: of a byte span, with a byte);
      it then changes that cell of that object only, and otherwise nothing. Negative indices are out of range. */
  lemma StoreRefines(h: Host, s: State, ref: Value, index: Value, v: int32, bytesOnly: bool, msg: Msg)
    requires CellsOk(s.heap)
    ensures var e, r, i := StoreCell(h, s, ref, index, v, bytesOnly, msg), U32(ToInt(h, ref)), ToInt(h, index);
      var o := Object(s.heap, r);
      && (e.Done? <==> o.Some? && 0 <= i < |o.value.cells| && (bytesOnly ==> o.value.isBytes && 0 <= v <= 255))
      && (e.Fail? ==> e.s == s)
      && (e.Done? ==>
        && e.s == s.(heap := e.s.heap)
        && OnlyChange(s.heap, e.s.heap, r,
             Some(o.value.(cells := o.value.cells[i := if o.value.isBytes then v % 0x100 else v]))))
  {
    hide OnlyChange, ToInt;
    var k, i := SlotAt(h, s, ref), ToInt(h, index);
    if k < |s.heap| {
      var slot := s.heap[k];
      assert SlotOk(slot);
      assert SizeT(i) < |slot.cells| <==> 0 <= i < |slot.cells|;
      if 0 <= i < |slot.cells| { ObjectUpdated(s.heap, slot.id, WithCell(slot, i, v)); }
    }
  }

  /** SPAN_FILL succeeds exactly when the whole range lies in a live object, and then sets exactly that range. */
  lemma FillRefines(h: Host, s: State, ref: Value, start: int32, count: int32, v: int32)
    ensures var e, r := Fill(h, s, ref, start, count, v), U32(ToInt(h, ref));
      var o := Object(s.heap, r);
      && (e.Done? <==> o.Some? && 0 <= start && 0 <= count && start + count <= |o.value.cells|)
      && (e.Fail? ==> e.s == s)
      && (e.Done? ==>
        && e.s == s.(heap := e.s.heap)
        && OnlyChange(s.heap, e.s.heap, r,
             Some(o.value.(cells := Filled(o.value.cells, start, count, if o.value.isBytes then v % 0x100 else v)))))
  {
    hide OnlyChange, ToInt;
    var k := SlotAt(h, s, ref);
    if k < |s.heap| {
      var slot := s.heap[k];
      if 0 <= start && 0 <= count && start + count <= |slot.cells| {
        ObjectUpdated(s.heap, slot.id, slot.(cells := Filled(slot.cells, start, count, Kept(slot.isBytes, v))));
      }
    }
  }

  /** A load yields the addressed cell under the same conditions as a store, and leaves the heap alone. */
  lemma LoadRefines(h: Host, s: State, ref: Value, index: Value, dest: Arg, bytesOnly: bool, msg: Msg)
    requires CellsOk(s.heap)
    ensures var e, r, i := LoadCell(h, s, ref, index, dest, bytesOnly, msg), U32(ToInt(h, ref)), ToInt(h, index);
      var o := Object(s.heap, r);
      && SameHeap(s, e.s)
      && if o.Some? && 0 <= i < |o.value.cells| && (bytesOnly ==> o.value.isBytes)
         then e == SetDest(s, dest, VInt(o.value.cells[i]))
         else e == Fail(s, msg)
  {
    hide SetDest, ToInt;
    var k, i := SlotAt(h, s, ref), ToInt(h, index);
    if k < |s.heap| {
      assert SlotOk(s.heap[k]);
      assert SizeT(i) < |s.heap[k].cells| <==> 0 <= i < |s.heap[k].cells|;
      if 0 <= i < |s.heap[k].cells| { SetDestKeepsHeap(s, dest, VInt(s.heap[k].cells[i])); }
    }
  }

  /** FREE touches no other handle, and makes the freed one dead unless two live slots share it; freeing a dead handle
      does nothing. */
  lemma ReleaseRefines(h: Host, s: State, ref: Value)
    ensures var t, r := Release(h, s, ref), U32(ToInt(h, ref));
      && t == s.(heap := t.heap) && OthersKept(s.heap, t.heap, r)
      && (Object(t.heap, r).None? <==> !Shared(s.heap, r))
      && (Object(s.heap, r).None? ==> t == s)
  {
    hide ToInt, OthersKept;
    var k, r := SlotAt(h, s, ref), U32(ToInt(h, ref));
    if k < |s.heap| {
      OthersKeptAt(s.heap, k, Vacant, r);
      var t := s.heap[k := Vacant];
      var j := SlotOf(t, r);
      if j < |t| { assert t[j] == s.heap[j] && k < j; }
      if Shared(s.heap, r) {
        var a, b :| 0 <= a < b < |s.heap| && s.heap[a].Live? && s.heap[b].Live? && s.heap[a].id == s.heap[b].id == r;
        assert b != k && t[b] == s.heap[b];
      }
    } else {
      OthersKeptItself(s.heap, r);
    }
  }

  lemma OthersKeptItself(heap: seq<Slot>, r: uint32)
    ensures OthersKept(heap, heap, r)
  {
  }

  lemma DistinctNotShared(heap: seq<Slot>, r: uint32)
    requires DistinctIds(heap)
    ensures !Shared(heap, r)
  {
  }

  /** SPAN_PIN succeeds exactly on a live handle, and changes its mark only. */
  lemma PinRefines(h: Host, s: State, ref: Value)
    ensures var e, r := Pin(h, s, ref), U32(ToInt(h, ref));
      var o := Object(s.heap, r);
      && (e.Done? <==> o.Some?)
      && (e.Fail? ==> e.s == s)
      && (e.Done? ==>
        e.s == s.(heap := e.s.heap) && OnlyChange(s.heap, e.s.heap, r, Some(o.value.(pinned := true))))
  {
    hide OnlyChange, ToInt;
    var k := SlotAt(h, s, ref);
    if k < |s.heap| { ObjectUpdated(s.heap, s.heap[k].id, s.heap[k].(pinned := true)); }
  }

  /** After a dirty render the previous span holds the current frame on the first w * h cells, and its own beyond. */
  lemma RenderDirtyRefines(h: Host, s: State, cur: Value, prev: Value, w: int32, ht: int32)
    ensures var e, q := RenderSpanDirty(h, s, cur, prev, w, ht), U32(ToInt(h, prev));
      var c, p := Object(s.heap, U32(ToInt(h, cur))), Object(s.heap, q);
      && (e.Done? <==> c.Some? && p.Some? && Drawable(c.value, w, ht) && Drawable(p.value, w, ht))
      && (e.Fail? ==> e.s == s)
      && (e.Done? ==>
        var n := Screen.Area(w, ht);
        && e.s == s.(heap := e.s.heap, out := e.s.out)
        && OnlyChange(s.heap, e.s.heap, q, Some(p.value.(cells := c.value.cells[..n] + p.value.cells[n..]))))
  {
    hide OnlyChange, Screen.Area, Renders, ToInt;
    var c, p := SlotAt(h, s, cur), SlotAt(h, s, prev);
    if c < |s.heap| && p < |s.heap| && Drawable(s.heap[c], w, ht) && Drawable(s.heap[p], w, ht) {
      var n, slot := Screen.Area(w, ht), s.heap[p];
      ObjectUpdated(s.heap, slot.id, slot.(cells := s.heap[c].cells[..n] + slot.cells[n..]));
    }
  }

  // ----- Opcodes that leave the heap alone -----

  lemma ReadersKeepHeap(h: Host, op: Opcode, a: seq<Arg>, s: State)
    requires IsHeapOp(op) && ArityOk(op, |a|)
    requires op == HEAP_LOAD || op == SPAN_READ_U8 || op == ARRAY_LEN || op == CONSOLE_RENDER_SPAN
    ensures SameHeap(s, ExecHeap(h, op, a, s).s)
  {
    hide Eval, SetDest, SlotOf, Drawable, Renders;
    forall o, v ensures SameHeap(s, SetDest(s, o, v).s) { SetDestKeepsHeap(s, o, v); }
  }

  lemma OthersKeepHeap(h: Host, op: Opcode, a: seq<Arg>, s: State)
    requires ArityOk(op, |a|) && !IsHeapOp(op)
    ensures SameHeap(s, Exec(h, op, a, s).s)
  {
    hide Eval, EvalAll, SetDest, Taken, Binary, Unary, SubString, BindEvent, SetVar, ExecHeap, ExecConsole, ExecCall,
      DueHandler, Rotate;
    forall o, v ensures SameHeap(s, SetDest(s, o, v).s) { SetDestKeepsHeap(s, o, v); }
    forall n, v | SetVar(s, n, v).Some? ensures SameHeap(s, SetVar(s, n, v).value) { SetVarKeepsHeap(s, n, v); }
    if IsConsole(op) { ConsoleKeepsHeap(h, op, a, s); }
    if CallsOut(op) { CallKeepsHeap(h, op, a, s); }
  }

  lemma SetVarKeepsHeap(s: State, name: Text, v: Value)
    requires SetVar(s, name, v).Some?
    ensures SameHeap(s, SetVar(s, name, v).value)
  {
    hide Put;
  }

  lemma ConsoleKeepsHeap(h: Host, op: Opcode, a: seq<Arg>, s: State)
    requires IsConsole(op) && ArityOk(op, |a|)
    ensures SameHeap(s, ExecConsole(h, op, a, s).s)
  {
    hide Eval, EvalAll, InRange;
  }

  lemma CallKeepsHeap(h: Host, op: Opcode, a: seq<Arg>, s: State)
    requires CallsOut(op) && ArityOk(op, |a|)
    ensures SameHeap(s, ExecCall(h, op, a, s).s)
  {
    hide EvalAll, SetDest, SetVar;
    var counted := s.(natives := s.natives + 1);
    forall o, v ensures SameHeap(s, SetDest(counted, o, v).s) { SetDestKeepsHeap(counted, o, v); }
    forall n, v | SetVar(counted, n, v).Some? ensures SameHeap(s, SetVar(counted, n, v).value) {
      SetVarKeepsHeap(counted, n, v);
    }
  }
}
