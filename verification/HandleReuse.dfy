/** What becomes of handles when next_ref wraps: exactly when a dead handle comes back to life, and exactly when
    two live objects share one. */
module HandleReuse {
  import opened Bytes
  import opened Opcodes
  import opened Encoding
  import opened Layout
  import opened Machine
  import opened Steps
  import opened Heap
  import Screen

  /** heap_find resolves the handle. */
  predicate Alive(heap: seq<Slot>, ref: uint32) {
    SlotOf(heap, ref) < |heap|
  }

  /** Only an allocation moves next_ref, by one, and brings exactly the old next_ref to life; live handles stay distinct
      unless it was alive already; cells keep to their types. */
  ghost predicate AliveStep(s: State, t: State) {
    && (t.nextRef == s.nextRef || (t.nextRef == Successor(s.nextRef) && Alive(t.heap, s.nextRef)))
    && (forall r: uint32 :: Alive(t.heap, r) ==> Alive(s.heap, r) || (r == s.nextRef && t.nextRef != s.nextRef))
    && (DistinctIds(s.heap) ==> (DistinctIds(t.heap) <==> t.nextRef == s.nextRef || !Alive(s.heap, s.nextRef)))
    && (CellsOk(s.heap) ==> CellsOk(t.heap))
  }

  /** A live slot is updated in place, or cleared. */
  lemma ReplacedAlive(s: State, k: nat, slot: Slot)
    requires k < |s.heap| && s.heap[k].Live? && (slot.Live? ==> slot.id == s.heap[k].id)
    requires CellsOk(s.heap) ==> SlotOk(slot)
    ensures AliveStep(s, s.(heap := s.heap[k := slot]))
  {
    hide SlotOk;
    var t := s.heap[k := slot];
    forall r: uint32 | Alive(t, r) ensures Alive(s.heap, r) {
      var i := SlotOf(t, r);
      assert s.heap[i].Live? && s.heap[i].id == r;
    }
  }

  lemma AllocatedAlive(s: State, k: nat, slot: Slot)
    requires k < |s.heap| && s.heap[k].Vacant? && slot.Live? && slot.id == s.nextRef && SlotOk(slot)
    ensures AliveStep(s, s.(heap := s.heap[k := slot], nextRef := Successor(s.nextRef)))
  {
    hide SlotOk;
    var t := s.heap[k := slot];
    assert t[k].Live? && t[k].id == s.nextRef;
    forall r: uint32 | Alive(t, r) && r != s.nextRef ensures Alive(s.heap, r) {
      var i := SlotOf(t, r);
      assert s.heap[i].Live? && s.heap[i].id == r;
    }
    if Alive(s.heap, s.nextRef) {
      var i := SlotOf(s.heap, s.nextRef);
      assert i != k && t[i] == s.heap[i] && t[i].id == t[k].id;
    }
  }

  lemma SameHeapAlive(s: State, t: State, u: State)
    ensures SameHeap(s, t) ==> AliveStep(s, t)
    ensures SameHeap(t, u) && AliveStep(s, t) ==> AliveStep(s, u)
    ensures SameHeap(s, t) && AliveStep(t, u) ==> AliveStep(s, u)
  {
    hide SlotOk;
  }

  lemma AllocAlive(h: Host, s: State, size: Value, dest: Arg, isBytes: bool)
    ensures AliveStep(s, AllocInto(h, s, size, dest, isBytes).s)
  {
    hide SetDest, AliveStep;
    SameHeapAlive(s, s, s);
    var n, k := ToInt(h, size), FirstVacant(s.heap);
    if n >= 0 && k < |s.heap| {
      var slot := Live(s.nextRef, isBytes, false, Zeros(n));
      var t := s.(heap := s.heap[k := slot], nextRef := Successor(s.nextRef));
      AllocatedAlive(s, k, slot);
      SetDestKeepsHeap(t, dest, VInt(I32(s.nextRef)));
      SameHeapAlive(s, t, SetDest(t, dest, VInt(I32(s.nextRef))).s);
    }
  }

  lemma StoreAlive(h: Host, s: State, ref: Value, index: Value, v: int32, bytesOnly: bool, msg: Msg)
    ensures AliveStep(s, StoreCell(h, s, ref, index, v, bytesOnly, msg).s)
  {
    hide AliveStep, ToInt;
    SameHeapAlive(s, s, s);
    var k, i := SlotAt(h, s, ref), SizeT(ToInt(h, index));
    if k < |s.heap| && Storable(s.heap[k], i, v, bytesOnly) { ReplacedAlive(s, k, WithCell(s.heap[k], i, v)); }
  }

  lemma FillAlive(h: Host, s: State, ref: Value, start: int32, count: int32, v: int32)
    ensures AliveStep(s, Fill(h, s, ref, start, count, v).s)
  {
    hide AliveStep, ToInt;
    SameHeapAlive(s, s, s);
    var k := SlotAt(h, s, ref);
    if k < |s.heap| && 0 <= start && 0 <= count && start + count <= |s.heap[k].cells| {
      ReplacedAlive(s, k, s.heap[k].(cells := Filled(s.heap[k].cells, start, count, Kept(s.heap[k].isBytes, v))));
    }
  }

  lemma PinReleaseAlive(h: Host, s: State, ref: Value)
    ensures AliveStep(s, Pin(h, s, ref).s) && AliveStep(s, Release(h, s, ref))
  {
    hide AliveStep, ToInt;
    SameHeapAlive(s, s, s);
    var k := SlotAt(h, s, ref);
    if k < |s.heap| {
      ReplacedAlive(s, k, s.heap[k].(pinned := true));
      ReplacedAlive(s, k, Vacant);
    }
  }

  lemma RenderAlive(h: Host, s: State, cur: Value, prev: Value, w: int32, ht: int32)
    ensures AliveStep(s, RenderSpanDirty(h, s, cur, prev, w, ht).s)
  {
    hide AliveStep, ToInt, Screen.Area, Renders, SlotOf;
    SameHeapAlive(s, s, s);
    var c, p := SlotAt(h, s, cur), SlotAt(h, s, prev);
    if c < |s.heap| && p < |s.heap| && Drawable(s.heap[c], w, ht) && Drawable(s.heap[p], w, ht) {
      var n := Screen.Area(w, ht);
      var slot := s.heap[p].(cells := s.heap[c].cells[..n] + s.heap[p].cells[n..]);
      ReplacedAlive(s, p, slot);
      SameHeapAlive(s, s.(heap := s.heap[p := slot]), RenderSpanDirty(h, s, cur, prev, w, ht).s);
    }
  }

  lemma ExecHeapAlive(h: Host, op: Opcode, a: seq<Arg>, s: State)
    requires IsHeapOp(op) && ArityOk(op, |a|)
    ensures AliveStep(s, ExecHeap(h, op, a, s).s)
  {
    hide AliveStep, Eval, AllocInto, SizeInto, StoreCell, LoadCell, Fill, Pin, Release, RenderSpan, RenderSpanDirty,
      ToInt;
    match op
    case HEAP_ALLOC => AllocAlive(h, s, Eval(s, a[0]), a[1], false);
    case ARRAY_CREATE => AllocAlive(h, s, Eval(s, a[0]), a[1], false);
    case SPAN_CREATE => AllocAlive(h, s, Eval(s, a[0]), a[1], true);
    case FREE => PinReleaseAlive(h, s, Eval(s, a[0]));
    case SPAN_PIN => PinReleaseAlive(h, s, Eval(s, a[0]));
    case HEAP_STORE =>
      StoreAlive(h, s, Eval(s, a[0]), Eval(s, a[1]), ToInt(h, Eval(s, a[2])), false, HeapWriteOutOfRange);
    case SPAN_WRITE_U8 => StoreAlive(h, s, Eval(s, a[0]), Eval(s, a[1]), ToInt(h, Eval(s, a[2])), true, SpanOutOfRange);
    case SPAN_FILL =>
      FillAlive(h, s, Eval(s, a[0]), ToInt(h, Eval(s, a[1])), ToInt(h, Eval(s, a[2])), ToInt(h, Eval(s, a[3])));
    case CONSOLE_RENDER_SPAN_DIRTY =>
      RenderAlive(h, s, Eval(s, a[0]), Eval(s, a[1]), ToInt(h, Eval(s, a[2])), ToInt(h, Eval(s, a[3])));
    case _ =>
      ReadersKeepHeap(h, op, a, s);
      SameHeapAlive(s, ExecHeap(h, op, a, s).s, s);
  }

  lemma ExecAlive(h: Host, op: Opcode, a: seq<Arg>, s: State)
    requires ArityOk(op, |a|)
    ensures AliveStep(s, Exec(h, op, a, s).s)
  {
    hide AliveStep;
    if IsHeapOp(op) {
      ExecHeapAlive(h, op, a, s);
      assert Exec(h, op, a, s) == ExecHeap(h, op, a, s);
    } else {
      OthersKeepHeap(h, op, a, s);
      SameHeapAlive(s, Exec(h, op, a, s).s, s);
    }
  }

  lemma StepAlive(h: Host, img: Image, s: State)
    ensures AliveStep(s, VmStep(h, img, s).s)
  {
    hide AliveStep, Exec, Fetch, CurrentLine, DueHandler, Rotate;
    var u := VmStep(h, img, s).s;
    if s.halted || s.pc >= |img.code| {
      SameHeapAlive(s, u, u);
    } else {
      var f := Fetch(img.code[s.pc..]);
      var t := s.(pc := s.pc + f.used);
      SameHeapAlive(s, t, u);
      if f.Fetched? { ExecAlive(h, f.op, ToArgs(f.args), t); } else { SameHeapAlive(s, u, u); }
    }
  }

  // ----- Allocations -----

  predicate IsAllocation(op: Opcode) {
    op == HEAP_ALLOC || op == ARRAY_CREATE || op == SPAN_CREATE
  }

  /** The VM is about to execute an allocation whose count is not negative, and there is a free slot. */
  ghost predicate AboutToAllocate(h: Host, img: Image, s: State) {
    && !s.halted && s.pc < |img.code|
    && var f := Fetch(img.code[s.pc..]);
      && f.Fetched? && IsAllocation(f.op)
      && CanAllocate(s.heap, ToInt(h, Eval(s, ToArg(f.args[0]))))
  }

  lemma OtherHeapOpsKeepRef(h: Host, op: Opcode, a: seq<Arg>, s: State)
    requires IsHeapOp(op) && ArityOk(op, |a|) && !IsAllocation(op)
    ensures ExecHeap(h, op, a, s).s.nextRef == s.nextRef
  {
    hide Eval, SetDest, SlotOf, Drawable, Renders;
    forall o, v ensures SameHeap(s, SetDest(s, o, v).s) { SetDestKeepsHeap(s, o, v); }
  }

  lemma AllocMovesRef(h: Host, s: State, size: Value, dest: Arg, isBytes: bool)
    ensures AllocInto(h, s, size, dest, isBytes).s.nextRef != s.nextRef <==> CanAllocate(s.heap, ToInt(h, size))
  {
    hide AllocInto, CanAllocate;
    AllocRefines(h, s, size, dest, isBytes);
  }

  lemma ExecMovesRef(h: Host, op: Opcode, a: seq<Arg>, s: State)
    requires ArityOk(op, |a|)
    ensures Exec(h, op, a, s).s.nextRef != s.nextRef <==>
      IsAllocation(op) && CanAllocate(s.heap, ToInt(h, Eval(s, a[0])))
  {
    hide Eval, AllocInto, CanAllocate;
    if IsAllocation(op) {
      AllocMovesRef(h, s, Eval(s, a[0]), a[1], op == SPAN_CREATE);
      AllocExec(h, op, a, s);
    } else if IsHeapOp(op) {
      OtherHeapOpsKeepRef(h, op, a, s);
      assert Exec(h, op, a, s) == ExecHeap(h, op, a, s);
    } else {
      OthersKeepHeap(h, op, a, s);
    }
  }

  lemma AllocExec(h: Host, op: Opcode, a: seq<Arg>, s: State)
    requires ArityOk(op, |a|) && IsAllocation(op)
    ensures Exec(h, op, a, s) == AllocInto(h, s, Eval(s, a[0]), a[1], op == SPAN_CREATE)
  {
    hide Eval, AllocInto;
  }

  /** A step moves next_ref if and only if it is about to allocate. */
  lemma MovesExactly(h: Host, img: Image, s: State)
    ensures VmStep(h, img, s).s.nextRef != s.nextRef <==> AboutToAllocate(h, img, s)
  {
    hide Exec, Fetch, CurrentLine, DueHandler, Rotate, CanAllocate;
    if !s.halted && s.pc < |img.code| {
      var f := Fetch(img.code[s.pc..]);
      if f.Fetched? {
        var t, a := s.(pc := s.pc + f.used), ToArgs(f.args);
        ExecMovesRef(h, f.op, a, t);
        if IsAllocation(f.op) { assert a[0] == ToArg(f.args[0]) && Eval(t, a[0]) == Eval(s, a[0]); }
      }
    }
  }

  /** How many of the first n steps allocate. */
  ghost function Allocations(h: Host, img: Image, s: State, n: nat): nat {
    if n == 0 then 0
    else Allocations(h, img, s, n - 1) + if AboutToAllocate(h, img, After(h, img, s, n - 1)) then 1 else 0
  }

  /** How many allocations lead from next_ref == from to next_ref == to. */
  function Distance(from: uint32, to: uint32): nat {
    if from <= to then to - from else to - from + 0x1_0000_0000
  }

  lemma SuccessorOfSum(a: nat)
    ensures Successor(a % 0x1_0000_0000) == (a + 1) % 0x1_0000_0000
  {
  }

  lemma {:induction false} NextRefCounts(h: Host, img: Image, s: State, n: nat)
    ensures After(h, img, s, n).nextRef == (s.nextRef + Allocations(h, img, s, n)) % 0x1_0000_0000
  {
    hide VmStep, Alive, DistinctIds, CellsOk, Successor, AboutToAllocate;
    if n > 0 {
      NextRefCounts(h, img, s, n - 1);
      StepAlive(h, img, After(h, img, s, n - 1));
      MovesExactly(h, img, After(h, img, s, n - 1));
      SuccessorOfSum(s.nextRef + Allocations(h, img, s, n - 1));
    }
  }

  lemma {:induction false} AllocationsGrow(h: Host, img: Image, s: State, m: nat, n: nat)
    requires m <= n
    ensures Allocations(h, img, s, m) <= Allocations(h, img, s, n)
    decreases n
  {
    hide After, AboutToAllocate;
    if m < n { AllocationsGrow(h, img, s, m, n - 1); }
  }

  lemma {:induction false} AllocationsSplit(h: Host, img: Image, s: State, m: nat, n: nat)
    ensures Allocations(h, img, s, m + n) == Allocations(h, img, s, m) + Allocations(h, img, After(h, img, s, m), n)
    decreases n
  {
    hide VmStep, AboutToAllocate;
    if n > 0 {
      AllocationsSplit(h, img, s, m, n - 1);
      AfterSplit(h, img, s, m, n - 1);
    }
  }

  /** None of n steps wraps next_ref. */
  ghost predicate NoWrap(h: Host, img: Image, s: State, n: nat) {
    forall k: nat :: k < n ==> After(h, img, s, k).nextRef <= After(h, img, s, k + 1).nextRef
  }

  /** next_ref does not wrap in n steps exactly if the allocations fit below 2^32. */
  lemma {:induction false} NoWrapExactly(h: Host, img: Image, s: State, n: nat)
    ensures NoWrap(h, img, s, n) <==> s.nextRef + Allocations(h, img, s, n) < 0x1_0000_0000
  {
    hide VmStep, After, AboutToAllocate;
    NextRefCounts(h, img, s, n);
    if n > 0 {
      NoWrapExactly(h, img, s, n - 1);
      NextRefCounts(h, img, s, n - 1);
      if NoWrap(h, img, s, n) {
        assert After(h, img, s, n - 1).nextRef <= After(h, img, s, n - 1 + 1).nextRef;
        assert NoWrap(h, img, s, n - 1);
      }
    }
  }

  // ----- Dead handles -----

  /** A handle is resolved in some state of the first n steps. */
  ghost predicate EverAlive(h: Host, img: Image, s: State, n: nat, ref: uint32) {
    exists k: nat :: k <= n && Alive(After(h, img, s, k).heap, ref)
  }

  lemma {:induction false} FirstAllocation(h: Host, img: Image, s: State, m: nat, ref: uint32) returns (k: nat)
    requires !Alive(s.heap, ref) && Alive(After(h, img, s, m).heap, ref)
    ensures k < m && AboutToAllocate(h, img, After(h, img, s, k)) && After(h, img, s, k).nextRef == ref
    decreases m
  {
    hide VmStep, Alive, DistinctIds, CellsOk, AboutToAllocate;
    StepAlive(h, img, After(h, img, s, m - 1));
    MovesExactly(h, img, After(h, img, s, m - 1));
    if Alive(After(h, img, s, m - 1).heap, ref) {
      k := FirstAllocation(h, img, s, m - 1, ref);
    } else {
      k := m - 1;
    }
  }

  /** The allocation that follows d others. */
  lemma {:induction false} AllocationNumber(h: Host, img: Image, s: State, n: nat, d: nat) returns (k: nat)
    requires d < Allocations(h, img, s, n)
    ensures k < n && Allocations(h, img, s, k) == d && AboutToAllocate(h, img, After(h, img, s, k))
  {
    hide After, AboutToAllocate;
    if d < Allocations(h, img, s, n - 1) { k := AllocationNumber(h, img, s, n - 1, d); } else { k := n - 1; }
  }

  lemma ComesRound(from: uint32, to: uint32, count: nat)
    ensures (from + count) % 0x1_0000_0000 == to ==> count >= Distance(from, to)
    ensures count == Distance(from, to) ==> (from + count) % 0x1_0000_0000 == to
  {
  }

  lemma AllocatedIsAlive(h: Host, img: Image, s: State, k: nat)
    requires AboutToAllocate(h, img, After(h, img, s, k))
    ensures Alive(After(h, img, s, k + 1).heap, After(h, img, s, k).nextRef)
  {
    hide VmStep, Alive, DistinctIds, CellsOk, AboutToAllocate;
    StepAlive(h, img, After(h, img, s, k));
    MovesExactly(h, img, After(h, img, s, k));
  }

  /** On any code, and however often next_ref wraps: a dead handle is resolved in some later state of a run if and only
      if there have been enough allocations for next_ref to come round to it and hand it out. */
  lemma RevivedExactly(h: Host, img: Image, s: State, n: nat, ref: uint32)
    requires !Alive(s.heap, ref)
    ensures EverAlive(h, img, s, n, ref) <==> Allocations(h, img, s, n) > Distance(s.nextRef, ref)
  {
    hide VmStep, Alive, After, Distance, DistinctIds, AboutToAllocate;
    var d := Distance(s.nextRef, ref);
    if EverAlive(h, img, s, n, ref) {
      var m: nat :| m <= n && Alive(After(h, img, s, m).heap, ref);
      var k := FirstAllocation(h, img, s, m, ref);
      NextRefCounts(h, img, s, k);
      ComesRound(s.nextRef, ref, Allocations(h, img, s, k));
      AllocationsGrow(h, img, s, k + 1, n);
    }
    if Allocations(h, img, s, n) > d {
      var k := AllocationNumber(h, img, s, n, d);
      NextRefCounts(h, img, s, k);
      ComesRound(s.nextRef, ref, d);
      AllocatedIsAlive(h, img, s, k);
    }
  }

  /** FREE: a handle that no two live slots share is dead when freed, and stays so exactly until next_ref has come round
      to it. */
  lemma FreedStaysDead(h: Host, img: Image, s: State, ref: Value, n: nat)
    requires !Shared(s.heap, U32(ToInt(h, ref)))
    ensures var t, r := Release(h, s, ref), U32(ToInt(h, ref));
      EverAlive(h, img, t, n, r) <==> Allocations(h, img, t, n) > Distance(s.nextRef, r)
  {
    hide VmStep, EverAlive, Distance, Shared, Release;
    ReleaseRefines(h, s, ref);
    RevivedExactly(h, img, Release(h, s, ref), n, U32(ToInt(h, ref)));
  }

  // ----- Shared handles -----

  /** The next step allocates a handle that is alive. */
  ghost predicate Clashes(h: Host, img: Image, s: State) {
    AboutToAllocate(h, img, s) && Alive(s.heap, s.nextRef)
  }

  ghost predicate StayDistinct(h: Host, img: Image, s: State, n: nat) {
    forall k: nat :: k <= n ==> DistinctIds(After(h, img, s, k).heap)
  }

  ghost predicate NeverClash(h: Host, img: Image, s: State, n: nat) {
    forall k: nat :: k < n ==> !Clashes(h, img, After(h, img, s, k))
  }

  /** On any code: live handles are pairwise distinct in all states of a run if and only if no step is about to allocate
      a handle that is alive. */
  lemma {:induction false} DistinctExactly(h: Host, img: Image, s: State, n: nat)
    requires DistinctIds(s.heap)
    ensures StayDistinct(h, img, s, n) <==> NeverClash(h, img, s, n)
  {
    hide VmStep, Alive, DistinctIds, CellsOk, AboutToAllocate;
    if n > 0 {
      var t := After(h, img, s, n - 1);
      DistinctExactly(h, img, s, n - 1);
      StepAlive(h, img, t);
      MovesExactly(h, img, t);
      if StayDistinct(h, img, s, n) {
        assert StayDistinct(h, img, s, n - 1);
        assert DistinctIds(t.heap) && DistinctIds(After(h, img, s, n).heap);
        assert !Clashes(h, img, t);
      }
      if NeverClash(h, img, s, n) {
        assert NeverClash(h, img, s, n - 1);
        assert DistinctIds(t.heap) && !Clashes(h, img, t);
        assert DistinctIds(After(h, img, s, n).heap);
      }
    }
  }

  // ----- While next_ref has not wrapped -----

  /** Cells keep to their types on every run, however long. */
  lemma {:induction false} CellsStayTyped(h: Host, img: Image, s: State, n: nat)
    requires CellsOk(s.heap)
    ensures CellsOk(After(h, img, s, n).heap)
  {
    hide VmStep, Alive, DistinctIds, CellsOk;
    if n > 0 {
      CellsStayTyped(h, img, s, n - 1);
      StepAlive(h, img, After(h, img, s, n - 1));
    }
  }

  /** Handles are pairwise distinct and below next_ref. */
  ghost predicate HandlesOk(s: State) {
    DistinctIds(s.heap) && forall r: uint32 :: Alive(s.heap, r) ==> r < s.nextRef
  }

  /** Any step that does not wrap next_ref keeps that. */
  lemma StepKeepsHandles(h: Host, img: Image, s: State)
    requires HandlesOk(s) && VmStep(h, img, s).s.nextRef >= s.nextRef
    ensures HandlesOk(VmStep(h, img, s).s)
  {
    hide VmStep, Alive, DistinctIds, CellsOk;
    StepAlive(h, img, s);
  }

  /** Any run with fewer allocations than are left before next_ref wraps does. */
  lemma {:induction false} HandlesStayDistinct(h: Host, img: Image, s: State, n: nat)
    requires HandlesOk(s) && s.nextRef + Allocations(h, img, s, n) < 0x1_0000_0000
    ensures HandlesOk(After(h, img, s, n)) && After(h, img, s, n).nextRef == s.nextRef + Allocations(h, img, s, n)
  {
    hide VmStep, HandlesOk, AboutToAllocate;
    NextRefCounts(h, img, s, n);
    if n > 0 {
      NextRefCounts(h, img, s, n - 1);
      HandlesStayDistinct(h, img, s, n - 1);
      StepKeepsHandles(h, img, After(h, img, s, n - 1));
    }
  }

  lemma FreshHandlesOk()
    ensures HandlesOk(Fresh()) && CellsOk(Fresh().heap)
  {
  }

  /** From a fresh VM, with fewer than 2^32 - 1 allocations, live handles are pairwise distinct and below next_ref. */
  lemma HandlesSafe(h: Host, img: Image, n: nat)
    requires Allocations(h, img, Fresh(), n) < 0xFFFF_FFFF
    ensures var s := After(h, img, Fresh(), n); HandlesOk(s) && CellsOk(s.heap)
  {
    hide VmStep, HandlesOk, CellsOk, Allocations;
    FreshHandlesOk();
    HandlesStayDistinct(h, img, Fresh(), n);
    CellsStayTyped(h, img, Fresh(), n);
  }

  /** And a handle that was live and is dead is never resolved again, whatever slots are reused. */
  lemma DeadStaysDead(h: Host, img: Image, i: nat, m: nat, n: nat, ref: uint32)
    requires i <= m <= n && Allocations(h, img, Fresh(), n) < 0xFFFF_FFFF
    requires Alive(After(h, img, Fresh(), i).heap, ref) && !Alive(After(h, img, Fresh(), m).heap, ref)
    ensures !Alive(After(h, img, Fresh(), n).heap, ref)
  {
    hide VmStep, Allocations, After, Alive, DistinctIds, CellsOk;
    var s := After(h, img, Fresh(), m);
    AllocationsGrow(h, img, Fresh(), i, m);
    AllocationsGrow(h, img, Fresh(), m, n);
    FreshHandlesOk();
    HandlesStayDistinct(h, img, Fresh(), i);
    HandlesStayDistinct(h, img, Fresh(), m);
    AllocationsSplit(h, img, Fresh(), m, n - m);
    AfterSplit(h, img, Fresh(), m, n - m);
    RevivedExactly(h, img, s, n - m, ref);
    assert Allocations(h, img, s, n - m) <= Distance(s.nextRef, ref);
    assert !EverAlive(h, img, s, n - m, ref);
    assert After(h, img, s, n - m) == After(h, img, Fresh(), n);
  }
}
