/** A program that holds one object and allocates and frees another in a loop. When next_ref has come round, two live
    objects share a handle, and then the first handle freed is handed out again. */
module HandleLoop {
  import opened Bytes
  import opened Opcodes
  import opened Program
  import opened Layout
  import opened Machine
  import opened Steps
  import opened Correctness
  import opened EndToEnd
  import opened Heap
  import opened HandleReuse

  const LOOP: Text := [76]
  const HELD: Text := [36, 97]  // $a
  const NAME: Text := [36, 104]  // $h

  /** ALLOC 1 $a ; :L ; ALLOC 1 $h ; FREE $h ; JUMP @L */
  const LOOP_PROGRAM: seq<Stmt> := [
    Instr(1, HEAP_ALLOC, [Int(1), Var(HELD)]), Label(LOOP), Instr(3, HEAP_ALLOC, [Int(1), Var(NAME)]),
    Instr(4, FREE, [Var(NAME)]), Instr(5, JMP, [Addr(LOOP)])
  ]

  /** The round in which next_ref has come back to 1. */
  const LAST: nat := 0xFFFF_FFFF

  lemma LoopProgramCompiles()
    ensures Compilable(LOOP_PROGRAM) && LiteralsAligned(LOOP_PROGRAM)
  {
    hide Compile, TotalSize, PassesParser;
    var p := LOOP_PROGRAM;
    assert p[1] == Label(LOOP);
    CompileAccepts(p);
    assert Accepted(p);
    LoopProgramSize();
    LoopProgramCounted();
  }

  lemma LoopProgramCounted()
    ensures ArgsCounted(LOOP_PROGRAM)
  {
    RowOfIs(HEAP_ALLOC);
    RowOfIs(FREE);
    RowOfIs(JMP);
    RowAgrees(RowOf(HEAP_ALLOC));
    RowAgrees(RowOf(FREE));
    RowAgrees(RowOf(JMP));
  }

  lemma {:induction false} SmallProgram(p: seq<Stmt>)
    requires forall i :: 0 <= i < |p| && p[i].Instr? ==> OperandsSize(p[i].args) <= 10
    ensures TotalSize(p) <= 12 * |p|
  {
    if p != [] { SmallProgram(p[..|p| - 1]); }
  }

  lemma LoopProgramSize()
    ensures TotalSize(LOOP_PROGRAM) < 0x8000_0000
  {
    hide OperandsSize;
    SmallOperands(LOOP_PROGRAM[0].args);
    SmallOperands(LOOP_PROGRAM[2].args);
    SmallOperands(LOOP_PROGRAM[3].args);
    SmallOperands(LOOP_PROGRAM[4].args);
    SmallProgram(LOOP_PROGRAM);
  }

  // ----- One statement at a time, on any heap -----

  /** The globals: $a is 1, and $h, if set, holds a handle. */
  function Globals(h: Option<uint32>): seq<Binding> {
    [Binding(HELD, VInt(1))] + if h.Some? then [Binding(NAME, VInt(I32(h.value)))] else []
  }

  function At(pc: nat, heap: seq<Slot>, next: uint32, h: Option<uint32>): State {
    Fresh().(pc := pc, heap := heap, nextRef := next, globals := Globals(h))
  }

  /** A one-cell object. */
  function Cell(ref: uint32): Slot {
    Live(ref, false, false, [0])
  }

  lemma {:induction false} AllocStep(h: Host, heap: seq<Slot>, next: uint32, x: Option<uint32>)
    requires ArgsCounted(LOOP_PROGRAM) && FirstVacant(heap) < |heap|
    ensures SourceStep(h, LOOP_PROGRAM, At(1, heap, next, x)).s
      == At(3, heap[FirstVacant(heap) := Cell(next)], Successor(next), Some(next))
  {
    hide Exec, PassesParser;
    var a := SourceArgs(LOOP_PROGRAM, HEAP_ALLOC, LOOP_PROGRAM[2].args);
    assert NextInstr(LOOP_PROGRAM, 1) == 2;
    assert a == [Int(1), Var(NAME)];
    AllocEffect(h, At(3, heap, next, x), a);
    StoreHandle(At(3, heap, next, x), heap[FirstVacant(heap) := Cell(next)], next, x);
  }

  lemma AllocEffect(h: Host, s: State, a: seq<Arg>)
    requires |a| == 2 && a[0] == Int(1) && a[1].Var? && FirstVacant(s.heap) < |s.heap|
    ensures ArityOk(HEAP_ALLOC, |a|)
    ensures Exec(h, HEAP_ALLOC, a, s) == SetDest(
      s.(heap := s.heap[FirstVacant(s.heap) := Cell(s.nextRef)], nextRef := Successor(s.nextRef)),
      a[1], VInt(I32(s.nextRef)))
  {
    hide SetDest;
    assert Zeros(1) == [0];
    assert Exec(h, HEAP_ALLOC, a, s) == AllocInto(h, s, VInt(1), a[1], false);
  }

  lemma StoreHandle(s: State, heap: seq<Slot>, next: uint32, x: Option<uint32>)
    requires s.frames == [] && s.globals == Globals(x)
    ensures var t := s.(heap := heap, nextRef := Successor(next));
      SetDest(t, Var(NAME), VInt(I32(next))) == Done(t.(globals := Globals(Some(next))))
  {
    var t := Globals(x);
    assert t[1..] == if x.Some? then [Binding(NAME, VInt(I32(x.value)))] else [];
    assert IndexOf(t, NAME) == 1;
  }

  lemma FreeStep(h: Host, heap: seq<Slot>, next: uint32, ref: uint32)
    requires ArgsCounted(LOOP_PROGRAM) && SlotOf(heap, ref) < |heap|
    ensures SourceStep(h, LOOP_PROGRAM, At(3, heap, next, Some(ref))).s
      == At(4, heap[SlotOf(heap, ref) := Vacant], next, Some(ref))
  {
    hide Exec, PassesParser, SlotOf;
    var a := SourceArgs(LOOP_PROGRAM, FREE, LOOP_PROGRAM[3].args);
    assert NextInstr(LOOP_PROGRAM, 3) == 3;
    assert a == [Var(NAME)];
    FreeEffect(h, At(4, heap, next, Some(ref)), a, ref);
  }

  lemma FreeEffect(h: Host, s: State, a: seq<Arg>, ref: uint32)
    requires a == [Var(NAME)] && s.frames == [] && s.globals == Globals(Some(ref)) && SlotOf(s.heap, ref) < |s.heap|
    ensures ArityOk(FREE, |a|) && Exec(h, FREE, a, s) == Done(s.(heap := s.heap[SlotOf(s.heap, ref) := Vacant]))
  {
    hide SlotOf;
    assert s.globals[1..] == [Binding(NAME, VInt(I32(ref)))];
    assert IndexOf(s.globals, NAME) == 1;
    assert Eval(s, a[0]) == VInt(I32(ref)) && U32(I32(ref)) == ref;
  }

  lemma JumpStep(h: Host, heap: seq<Slot>, next: uint32, x: Option<uint32>)
    requires ArgsCounted(LOOP_PROGRAM)
    ensures SourceStep(h, LOOP_PROGRAM, At(4, heap, next, x)).s == At(1, heap, next, x)
  {
    hide Pc, Exec, PassesParser;
    var a := SourceArgs(LOOP_PROGRAM, JMP, LOOP_PROGRAM[4].args);
    assert NextInstr(LOOP_PROGRAM, 4) == 4;
    assert LabelPosition(LOOP_PROGRAM, LOOP) == 1 by { assert LOOP_PROGRAM[1..][0] == Label(LOOP); }
    assert a[0] == SourceArg(LOOP_PROGRAM, Addr(LOOP));
    JumpEffect(h, At(5, heap, next, x), a);
  }

  lemma JumpEffect(h: Host, s: State, a: seq<Arg>)
    requires |a| == 1 && a[0].Addr? && a[0].addr.pos == 1
    ensures ArityOk(JMP, |a|) && Exec(h, JMP, a, s) == Done(s.(pc := 1))
  {
  }

  /** $a's object alone. */
  function Holding(): seq<Slot> {
    Fresh().heap[0 := Cell(1)]
  }

  lemma FirstStep(h: Host)
    requires ArgsCounted(LOOP_PROGRAM)
    ensures SourceStep(h, LOOP_PROGRAM, Fresh()).s == At(1, Holding(), 2, None)
  {
    hide Exec, PassesParser;
    var a := SourceArgs(LOOP_PROGRAM, HEAP_ALLOC, LOOP_PROGRAM[0].args);
    assert NextInstr(LOOP_PROGRAM, 0) == 0;
    assert a == [Int(1), Var(HELD)];
    assert FirstVacant(Fresh().heap) == 0;
    AllocEffect(h, Fresh().(pc := 1), a);
    HoldHandle(Fresh().(pc := 1, heap := Holding(), nextRef := 2));
  }

  lemma HoldHandle(s: State)
    requires s.frames == [] && s.globals == []
    ensures SetDest(s, Var(HELD), VInt(1)) == Done(s.(globals := Globals(None)))
  {
    assert [] + [Binding(HELD, VInt(1))] == [Binding(HELD, VInt(1))] + [];
  }

  // ----- Rounds -----

  /** The handle of round k. */
  function Ref(k: nat): uint32 {
    (2 + k) % 0x1_0000_0000
  }

  /** At the label, before round k. */
  function Before(k: nat): State {
    At(1, Holding(), Ref(k), if k == 0 then None else Some(Ref(k - 1)))
  }

  function Both(ref: uint32): seq<Slot> {
    Holding()[1 := Cell(ref)]
  }

  lemma HoldingSlots(ref: uint32)
    ensures FirstVacant(Holding()) == 1 && |Holding()| == HEAP_OBJECTS_MAX
    ensures |Both(ref)| == HEAP_OBJECTS_MAX && SlotOf(Both(ref), ref) == if ref == 1 then 0 else 1
    ensures Both(ref)[1 := Vacant] == Holding()
  {
    var heap := Holding();
    assert heap[0].Live? && heap[1].Vacant?;
    var b := Both(ref);
    assert b[1].id == ref && b[0].id == 1;
    assert b[1 := Vacant] == heap;
  }

  lemma NextRef(k: nat)
    ensures Successor(Ref(k)) == Ref(k + 1)
    ensures Ref(k) == 1 <==> k % 0x1_0000_0000 == LAST
  {
  }

  /** Round k up to its FREE. */
  lemma Allocated(h: Host, n: nat, k: nat)
    requires ArgsCounted(LOOP_PROGRAM) && SourceAfter(h, LOOP_PROGRAM, Fresh(), n) == Before(k)
    ensures SourceAfter(h, LOOP_PROGRAM, Fresh(), n + 1) == At(3, Both(Ref(k)), Ref(k + 1), Some(Ref(k)))
  {
    hide SourceStep, Holding;
    HoldingSlots(Ref(k));
    NextRef(k);
    AllocStep(h, Holding(), Ref(k), if k == 0 then None else Some(Ref(k - 1)));
  }

  lemma Freed(h: Host, n: nat, k: nat)
    requires ArgsCounted(LOOP_PROGRAM) && SourceAfter(h, LOOP_PROGRAM, Fresh(), n) == Before(k) && k < LAST
    ensures SourceAfter(h, LOOP_PROGRAM, Fresh(), n + 2) == At(4, Holding(), Ref(k + 1), Some(Ref(k)))
    ensures SourceAfter(h, LOOP_PROGRAM, Fresh(), n + 3) == Before(k + 1)
  {
    hide SourceStep, Holding, Both;
    Allocated(h, n, k);
    HoldingSlots(Ref(k));
    NextRef(k);
    FreeStep(h, Both(Ref(k)), Ref(k + 1), Ref(k));
    JumpStep(h, Holding(), Ref(k + 1), Some(Ref(k)));
  }

  lemma {:induction false} AfterRounds(h: Host, k: nat)
    requires ArgsCounted(LOOP_PROGRAM) && k <= LAST
    ensures SourceAfter(h, LOOP_PROGRAM, Fresh(), 1 + 3 * k) == Before(k)
    decreases k
  {
    hide SourceStep, Before;
    if k > 0 {
      AfterRounds(h, k - 1);
      Freed(h, 1 + 3 * (k - 1), k - 1);
    } else {
      FirstStep(h);
      FirstRound();
      assert SourceAfter(h, LOOP_PROGRAM, Fresh(), 0) == Fresh();
    }
  }

  lemma FirstRound()
    ensures Before(0) == At(1, Holding(), 2, None)
  {
  }

  /** The last round allocates handle 1, frees the object of $a, and the next round hands out handle 2 once more. */
  lemma LastRound(h: Host)
    requires ArgsCounted(LOOP_PROGRAM)
    ensures var n := 1 + 3 * LAST;
      && SourceAfter(h, LOOP_PROGRAM, Fresh(), n + 1).heap == Both(1)
      && SourceAfter(h, LOOP_PROGRAM, Fresh(), n + 4).heap == Both(1)[0 := Cell(2)]
  {
    hide SourceStep, Holding, Before;
    var n := 1 + 3 * LAST;
    AfterRounds(h, LAST);
    Allocated(h, n, LAST);
    HoldingSlots(1);
    assert Ref(LAST) == 1 && Ref(LAST + 1) == 2;
    var left := Both(1)[0 := Vacant];
    FreeStep(h, Both(1), 2, 1);
    assert SourceAfter(h, LOOP_PROGRAM, Fresh(), n + 2) == At(4, left, 2, Some(1));
    JumpStep(h, left, 2, Some(1));
    assert SourceAfter(h, LOOP_PROGRAM, Fresh(), n + 3) == At(1, left, 2, Some(1));
    assert FirstVacant(left) == 0;
    AllocStep(h, left, 2, Some(1));
    assert left[0 := Cell(2)] == Both(1)[0 := Cell(2)];
  }

  // ----- The VM -----

  /** The VM's heap after n steps of the compiled program. */
  lemma LoopHeap(h: Host, n: nat)
    requires Compilable(LOOP_PROGRAM) && LiteralsAligned(LOOP_PROGRAM)
    ensures After(h, Compile(LOOP_PROGRAM).value, Fresh(), n).heap == SourceAfter(h, LOOP_PROGRAM, Fresh(), n).heap
  {
    hide Compile, VmStep, SourceStep, Strays, LiteralsAligned, SourceAfter, After;
    forall k | 0 <= k < n ensures !Strays(h, LOOP_PROGRAM, SourceAfter(h, LOOP_PROGRAM, Fresh(), k)) {
      AlignedNeverStrays(h, LOOP_PROGRAM, SourceAfter(h, LOOP_PROGRAM, Fresh(), k));
    }
    FreshCorresponds(LOOP_PROGRAM);
    RunSimulated(h, LOOP_PROGRAM, Fresh(), n);
  }

  lemma BothShare()
    ensures Both(1)[0..2] == [Cell(1), Cell(1)] && !DistinctIds(Both(1))
  {
    var heap := Both(1);
    assert heap[0] == Cell(1) && heap[1] == Cell(1);
    assert heap[0..2] == [heap[0], heap[1]];
  }

  /** When next_ref has come round to 1, two live objects have handle 1. */
  lemma LiveObjectsShareHandle(h: Host)
    ensures Compilable(LOOP_PROGRAM)
    ensures var heap := After(h, Compile(LOOP_PROGRAM).value, Fresh(), 3 * LAST + 2).heap;
      heap == Both(1) && heap[0..2] == [Cell(1), Cell(1)] && !DistinctIds(heap)
  {
    hide Compile, After, LiteralsAligned, ArgsCounted, TotalSize, CleanTexts, SourceAfter, Both, DistinctIds;
    LoopProgramCompiles();
    LastRound(h);
    LoopHeap(h, 3 * LAST + 2);
    BothShare();
  }

  lemma FirstHeaps(h: Host)
    requires ArgsCounted(LOOP_PROGRAM)
    ensures SourceAfter(h, LOOP_PROGRAM, Fresh(), 2).heap == Both(2)
    ensures SourceAfter(h, LOOP_PROGRAM, Fresh(), 3).heap == Holding()
  {
    hide SourceStep, SourceAfter, ArgsCounted, Both, Holding, Before;
    AfterRounds(h, 0);
    Allocated(h, 1, 0);
    Freed(h, 1, 0);
    assert Ref(0) == 2;
  }

  /** Handle 2 is live after two steps, freed by the third, and handed out again in the round after the last. */
  lemma FreedHandleComesBack(h: Host)
    ensures Compilable(LOOP_PROGRAM)
    ensures var img := Compile(LOOP_PROGRAM).value;
      && Alive(After(h, img, Fresh(), 2).heap, 2)
      && !Alive(After(h, img, Fresh(), 3).heap, 2)
      && Alive(After(h, img, Fresh(), 3 * LAST + 5).heap, 2)
  {
    hide Compile, After, LiteralsAligned, ArgsCounted, TotalSize, CleanTexts, SourceAfter, Both, Holding, Alive;
    LoopProgramCompiles();
    FirstHeaps(h);
    LastRound(h);
    LoopHeap(h, 2);
    LoopHeap(h, 3);
    LoopHeap(h, 3 * LAST + 5);
    LiveHandles();
  }

  lemma LiveHandles()
    ensures Alive(Both(2), 2) && !Alive(Holding(), 2) && Alive(Both(1)[0 := Cell(2)], 2)
  {
    HoldingSlots(2);
    assert Both(1)[0 := Cell(2)][0] == Cell(2);
  }
}
