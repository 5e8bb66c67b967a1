/** What the heap and span opcodes do, said of handles and of the terminal: the heap part of the switch of scml_vm_step
    (vm/vm.c), operand by operand. */
module HeapSemantics {
  import opened Bytes
  import opened Opcodes
  import opened Machine
  import opened Heap
  import opened Semantics
  import Screen

  // ----- Heap objects -----

  /** The handle and the number an operand denotes. */
  function Number(h: Host, s: State, o: Arg): int32 {
    ToInt(h, Read(s, o))
  }

  function Handle(h: Host, s: State, o: Arg): uint32 {
    Number(h, s, o) % 0x1_0000_0000
  }

  lemma HandleIs(i: int32)
    ensures U32(i) == i % 0x1_0000_0000
  {
  }

  /** A cell of an object: index i is in range. */
  predicate HasCell(o: Option<Slot>, i: int, bytesOnly: bool) {
    o.Some? && o.value.Live? && 0 <= i < |o.value.cells| && (bytesOnly ==> o.value.isBytes)
  }

  function Stored(slot: Slot, v: int32): int32
    requires slot.Live?
  {
    if slot.isBytes then v % 256 else v
  }

  lemma HeapOperands(h: Host, op: Opcode, a: seq<Arg>, s: State)
    requires IsHeapOp(op) && ArityOk(op, |a|)
    ensures Exec(h, op, a, s) == ExecHeap(h, op, a, s)
    ensures forall i :: 0 <= i < |a| ==> Eval(s, a[i]) == Read(s, a[i])
    ensures forall i :: 0 <= i < |a| ==> U32(ToInt(h, Read(s, a[i]))) == Handle(h, s, a[i])
  {
    hide Read, Eval, ExecHeap, ToInt;
    forall i | 0 <= i < |a|
      ensures Eval(s, a[i]) == Read(s, a[i])
      ensures U32(ToInt(h, Read(s, a[i]))) == Handle(h, s, a[i])
    {
      EvalReads(s, a[i]);
      HandleIs(ToInt(h, Read(s, a[i])));
    }
  }

  /** HEAP_STORE and SPAN_WRITE_U8 take handle, index and value. They change that cell of that object only, or fail
      and change nothing. */
  lemma WriteExec(h: Host, op: Opcode, a: seq<Arg>, s: State)
    requires ArityOk(op, |a|) && (op == HEAP_STORE || op == SPAN_WRITE_U8) && CellsOk(s.heap)
    ensures var r, i, v, e := Handle(h, s, a[0]), Number(h, s, a[1]), Number(h, s, a[2]), Exec(h, op, a, s);
      var o := Object(s.heap, r);
      if HasCell(o, i, op == SPAN_WRITE_U8) && (op == SPAN_WRITE_U8 ==> 0 <= v <= 255) then
        && e.Done? && e.s == s.(heap := e.s.heap)
        && OnlyChange(s.heap, e.s.heap, r, Some(o.value.(cells := o.value.cells[i := Stored(o.value, v)])))
      else e == Fail(s, if op == HEAP_STORE then HeapWriteOutOfRange else SpanOutOfRange)
  {
    hide Read, Eval, Exec, ToInt, StoreCell, OnlyChange, CellsOk, SlotOf;
    HeapOperands(h, op, a, s);
    var ref, index, v := Read(s, a[0]), Read(s, a[1]), ToInt(h, Read(s, a[2]));
    var msg := if op == HEAP_STORE then HeapWriteOutOfRange else SpanOutOfRange;
    StoreRefines(h, s, ref, index, v, op == SPAN_WRITE_U8, msg);
    StoreFails(h, s, ref, index, v, op == SPAN_WRITE_U8, msg);
  }

  lemma StoreFails(h: Host, s: State, ref: Value, index: Value, v: int32, bytesOnly: bool, msg: Msg)
    ensures var e := StoreCell(h, s, ref, index, v, bytesOnly, msg); e.Fail? ==> e.msg == msg
  {
    hide SlotAt, ToInt, WithCell;
  }

  /** HEAP_LOAD and SPAN_READ_U8 take destination, handle and index, and store the cell's value in the destination. */
  lemma ReadExec(h: Host, op: Opcode, a: seq<Arg>, s: State)
    requires ArityOk(op, |a|) && (op == HEAP_LOAD || op == SPAN_READ_U8) && CellsOk(s.heap)
    ensures var o, i, e := Object(s.heap, Handle(h, s, a[1])), Number(h, s, a[2]), Exec(h, op, a, s);
      if HasCell(o, i, op == SPAN_READ_U8) then Yields(s, a[0], VInt(o.value.cells[i]), e)
      else e == Fail(s, if op == HEAP_LOAD then HeapReadOutOfRange else SpanOutOfRange)
  {
    hide Read, Eval, Exec, ToInt, LoadCell, CellsOk, SlotOf, Yields, SetDest, SameHeap;
    HeapOperands(h, op, a, s);
    LoadRefines(h, s, Read(s, a[1]), Read(s, a[2]), a[0], op == SPAN_READ_U8,
      if op == HEAP_LOAD then HeapReadOutOfRange else SpanOutOfRange);
    forall o, v ensures Yields(s, o, v, SetDest(s, o, v)) { SetDestYields(s, o, v); }
  }

  /** A store followed by a load with the same handle and index yields the stored value, modulo 256 in a byte span. */
  lemma WriteThenRead(h: Host, a: seq<Arg>, b: seq<Arg>, s: State, t: State)
    requires ArityOk(HEAP_STORE, |a|) && ArityOk(HEAP_LOAD, |b|) && b[1..] == a[..2]
    requires CellsOk(s.heap) && Exec(h, HEAP_STORE, a, s) == Done(t)
    ensures var o := Object(s.heap, Handle(h, s, a[0]));
      && o.Some? && o.value.Live?
      && Yields(t, b[0], VInt(Stored(o.value, Number(h, s, a[2]))), Exec(h, HEAP_LOAD, b, t))
  {
    hide Read, Exec, CellsOk, Yields, Object, ToInt, Stored, OthersKept;
    assert b[1] == b[1..][0] == a[0] && b[2] == b[1..][1] == a[1];
    WriteExec(h, HEAP_STORE, a, s);
    SameVarsRead(s, t, a[0]);
    SameVarsRead(s, t, a[1]);
    StoreKeepsCells(h, a, s);
    ReadExec(h, HEAP_LOAD, b, t);
  }

  lemma SameVarsRead(s: State, t: State, o: Arg)
    requires s.globals == t.globals && s.frames == t.frames
    ensures Read(s, o) == Read(t, o)
  {
  }

  lemma StoreKeepsCells(h: Host, a: seq<Arg>, s: State)
    requires CellsOk(s.heap) && ArityOk(HEAP_STORE, |a|)
    ensures CellsOk(Exec(h, HEAP_STORE, a, s).s.heap)
  {
    hide Eval, ToInt, SlotOf;
  }

  /** SPAN_FILL takes handle, start, count and value, and sets exactly the cells from start to start + count. */
  lemma FillExec(h: Host, a: seq<Arg>, s: State)
    requires ArityOk(SPAN_FILL, |a|)
    ensures var r, st, n, v := Handle(h, s, a[0]), Number(h, s, a[1]), Number(h, s, a[2]), Number(h, s, a[3]);
      var o, e := Object(s.heap, r), Exec(h, SPAN_FILL, a, s); var p := Object(e.s.heap, r);
      if o.Some? && o.value.Live? && 0 <= st && 0 <= n && st + n <= |o.value.cells| then
        && e.Done? && e.s == s.(heap := e.s.heap) && OthersKept(s.heap, e.s.heap, r)
        && p.Some? && p.value.Live? && p.value == o.value.(cells := p.value.cells)
        && |p.value.cells| == |o.value.cells|
        && forall i :: 0 <= i < |o.value.cells| ==>
          p.value.cells[i] == if st <= i < st + n then Stored(o.value, v) else o.value.cells[i]
      else e == Fail(s, FillOutOfRange)
  {
    hide Read, Eval, Exec, ToInt, SlotOf, OthersKept, Fill;
    HeapOperands(h, SPAN_FILL, a, s);
    var ref, st, n, v := Read(s, a[0]), ToInt(h, Read(s, a[1])), ToInt(h, Read(s, a[2])), ToInt(h, Read(s, a[3]));
    FillRefines(h, s, ref, st, n, v);
    FillFails(h, s, ref, st, n, v);
  }

  lemma FillFails(h: Host, s: State, ref: Value, start: int32, count: int32, v: int32)
    ensures var e := Fill(h, s, ref, start, count, v); e.Fail? ==> e.msg == FillOutOfRange
  {
    hide SlotAt, Filled;
  }

  /** SPAN_PIN marks the object, FREE ends it, and ARRAY_LEN yields its size, or 0 for a dead handle. */
  lemma PinExec(h: Host, a: seq<Arg>, s: State)
    requires ArityOk(SPAN_PIN, |a|)
    ensures var r, e := Handle(h, s, a[0]), Exec(h, SPAN_PIN, a, s); var o := Object(s.heap, r);
      if o.Some? && o.value.Live? then
        e.Done? && e.s == s.(heap := e.s.heap) && OnlyChange(s.heap, e.s.heap, r, Some(o.value.(pinned := true)))
      else e == Fail(s, InvalidReference)
  {
    hide Read, Eval, Exec, ToInt, SlotOf, OnlyChange;
    HeapOperands(h, SPAN_PIN, a, s);
    PinRefines(h, s, Read(s, a[0]));
  }

  lemma FreeExec(h: Host, a: seq<Arg>, s: State)
    requires ArityOk(FREE, |a|)
    ensures var r, e := Handle(h, s, a[0]), Exec(h, FREE, a, s);
      && e.Done? && e.s == s.(heap := e.s.heap) && OthersKept(s.heap, e.s.heap, r)
      && (Object(e.s.heap, r).None? <==> !Shared(s.heap, r)) && (Object(s.heap, r).None? ==> e.s == s)
  {
    hide Read, Eval, Exec, ToInt, Object, OthersKept, Shared, Release;
    HeapOperands(h, FREE, a, s);
    ReleaseRefines(h, s, Read(s, a[0]));
  }

  lemma LengthExec(h: Host, a: seq<Arg>, s: State)
    requires ArityOk(ARRAY_LEN, |a|) && CellsOk(s.heap)
    ensures var o := Object(s.heap, Handle(h, s, a[1]));
      Yields(s, a[0], VInt(if o.Some? && o.value.Live? then SizeOf(o.value) else 0), Exec(h, ARRAY_LEN, a, s))
  {
    hide Read, Eval, Exec, ToInt, SlotOf, Yields, SetDest;
    HeapOperands(h, ARRAY_LEN, a, s);
    var k := SlotAt(h, s, Read(s, a[1]));
    if k < |s.heap| { assert SlotOk(s.heap[k]); }
    forall o, v ensures Yields(s, o, v, SetDest(s, o, v)) { SetDestYields(s, o, v); }
  }

  function SizeOf(slot: Slot): int32
    requires slot.Live?
  {
    if |slot.cells| < 0x8000_0000 then |slot.cells| else 0
  }

  /** HEAP_ALLOC, ARRAY_CREATE and SPAN_CREATE take count and destination: zeroed cells under next_ref, whose number is
      stored in the destination. */
  lemma AllocateExec(h: Host, op: Opcode, a: seq<Arg>, s: State)
    requires ArityOk(op, |a|) && (op == HEAP_ALLOC || op == ARRAY_CREATE || op == SPAN_CREATE)
    ensures var n, r, e := Number(h, s, a[0]), s.nextRef, Exec(h, op, a, s);
      var t := s.(heap := e.s.heap, nextRef := (r + 1) % 0x1_0000_0000);
      if n < 0 then e == Fail(s, NegativeSize)
      else if forall k :: 0 <= k < |s.heap| ==> s.heap[k].Live? then e == Fail(s, AllocationFailed)
      else
        && Yields(t, a[1], VInt(if r < 0x8000_0000 then r else r - 0x1_0000_0000), e)
        && OthersKept(s.heap, e.s.heap, r)
        && (Object(s.heap, r).None? ==> Object(e.s.heap, r) == Some(Live(r, op == SPAN_CREATE, false, Zeros(n))))
  {
    hide Read, Eval, ToInt, Exec, Object, OthersKept, Yields, SetDest, DestName;
    HeapOperands(h, op, a, s);
    var n, k := Number(h, s, a[0]), FirstVacant(s.heap);
    AllocRefines(h, s, Read(s, a[0]), a[1], op == SPAN_CREATE);
    if n >= 0 && k < |s.heap| {
      var t := s.(heap := s.heap[k := Live(s.nextRef, op == SPAN_CREATE, false, Zeros(n))],
                  nextRef := (s.nextRef + 1) % 0x1_0000_0000);
      SetDestYields(t, a[1], VInt(I32(s.nextRef)));
      SetDestKeepsHeap(t, a[1], VInt(I32(s.nextRef)));
    }
  }

  // ----- Frames on the terminal -----

  /** A pinned byte span that covers w columns and ht rows. */
  predicate HasFrame(o: Option<Slot>, w: int, ht: int) {
    && o.Some? && o.value.Live? && o.value.isBytes && o.value.pinned
    && w > 0 && ht > 0 && Screen.Area(w, ht) <= |o.value.cells|
  }

  /** From output a to output b, exactly these draws have been emitted. */
  ghost predicate Drew(a: seq<Out>, b: seq<Out>, ds: seq<Screen.Draw>) {
    |b| == |a| + |ds| && b[..|a|] == a && forall i :: 0 <= i < |ds| ==> b[|a| + i] == Render(ds[i])
  }

  lemma {:induction false} RendersAt(ds: seq<Screen.Draw>)
    ensures |Renders(ds)| == |ds| && forall i :: 0 <= i < |ds| ==> Renders(ds)[i] == Render(ds[i])
    decreases |ds|
  {
    if ds != [] { RendersAt(ds[1..]); }
  }

  lemma RendersDraw(out: seq<Out>, ds: seq<Screen.Draw>)
    ensures Drew(out, out + Renders(ds), ds)
  {
    hide Renders;
    RendersAt(ds);
  }

  /** CONSOLE_RENDER_SPAN takes handle, width and height, and draws the whole frame. */
  lemma RenderExec(h: Host, a: seq<Arg>, s: State)
    requires ArityOk(CONSOLE_RENDER_SPAN, |a|)
    ensures var o, w, ht := Object(s.heap, Handle(h, s, a[0])), Number(h, s, a[1]), Number(h, s, a[2]);
      var e := Exec(h, CONSOLE_RENDER_SPAN, a, s);
      if HasFrame(o, w, ht) then
        e.Done? && e.s == s.(out := e.s.out) && Drew(s.out, e.s.out, Screen.Full(o.value.cells, w, ht))
      else e == Fail(s, RenderOutOfRange)
  {
    hide Read, Eval, Exec, ToInt, SlotOf, Screen.Full, Screen.Area, Drew, Renders;
    HeapOperands(h, CONSOLE_RENDER_SPAN, a, s);
    var o, w, ht := Object(s.heap, Handle(h, s, a[0])), Number(h, s, a[1]), Number(h, s, a[2]);
    if HasFrame(o, w, ht) { RendersDraw(s.out, Screen.Full(o.value.cells, w, ht)); }
  }

  /** CONSOLE_RENDER_SPAN_DIRTY takes current and previous handle, width and height. It draws the runs in which the
      spans differ, and makes them equal on the frame. */
  lemma RenderDirtyExec(h: Host, a: seq<Arg>, s: State)
    requires ArityOk(CONSOLE_RENDER_SPAN_DIRTY, |a|)
    ensures var q, w, ht := Handle(h, s, a[1]), Number(h, s, a[2]), Number(h, s, a[3]);
      var c, p, e := Object(s.heap, Handle(h, s, a[0])), Object(s.heap, q), Exec(h, CONSOLE_RENDER_SPAN_DIRTY, a, s);
      if HasFrame(c, w, ht) && HasFrame(p, w, ht) then
        var n := Screen.Area(w, ht);
        && e.Done? && e.s == s.(heap := e.s.heap, out := e.s.out)
        && OnlyChange(s.heap, e.s.heap, q, Some(p.value.(cells := c.value.cells[..n] + p.value.cells[n..])))
        && Drew(s.out, e.s.out, Screen.Dirty(c.value.cells, p.value.cells, w, ht))
      else e == Fail(s, RenderOutOfRange)
  {
    hide Read, Eval, Exec, ToInt, SlotOf, Screen.Dirty, Screen.Area, Drew, Renders, OnlyChange;
    HeapOperands(h, CONSOLE_RENDER_SPAN_DIRTY, a, s);
    var w, ht := Number(h, s, a[2]), Number(h, s, a[3]);
    var c, p := Object(s.heap, Handle(h, s, a[0])), Object(s.heap, Handle(h, s, a[1]));
    RenderDirtyRefines(h, s, Read(s, a[0]), Read(s, a[1]), w, ht);
    if HasFrame(c, w, ht) && HasFrame(p, w, ht) {
      RendersDraw(s.out, Screen.Dirty(c.value.cells, p.value.cells, w, ht));
    }
  }

  /** What an output draws, other console events aside. */
  function Draws(out: seq<Out>): seq<Screen.Draw> {
    if out == [] then [] else (if out[0].Render? then [out[0].draw] else []) + Draws(out[1..])
  }

  lemma {:induction false} DrewDraws(out: seq<Out>, ds: seq<Screen.Draw>)
    requires |out| == |ds| && forall i :: 0 <= i < |ds| ==> out[i] == Render(ds[i])
    ensures Draws(out) == ds
    decreases |ds|
  {
    if ds != [] { DrewDraws(out[1..], ds[1..]); }
  }

  /** On a terminal that shows the previous span, what the dirty renderer has put out shows the current one. */
  lemma DirtyFrameShown(h: Host, a: seq<Arg>, s: State, t: Screen.Terminal)
    requires ArityOk(CONSOLE_RENDER_SPAN_DIRTY, |a|) && Exec(h, CONSOLE_RENDER_SPAN_DIRTY, a, s).Done?
    ensures var w, ht, e := Number(h, s, a[2]), Number(h, s, a[3]), Exec(h, CONSOLE_RENDER_SPAN_DIRTY, a, s);
      var c, p := Object(s.heap, Handle(h, s, a[0])), Object(s.heap, Handle(h, s, a[1]));
      && HasFrame(c, w, ht) && HasFrame(p, w, ht) && |s.out| <= |e.s.out|
      && (Screen.Shows(t, p.value.cells, w, ht) ==>
        Screen.Shows(Screen.Replay(t, Draws(e.s.out[|s.out|..])), c.value.cells, w, ht))
  {
    hide Read, Exec, ToInt, Object, Screen.Dirty, Screen.Area, Screen.Shows, Screen.Replay, Draws, OnlyChange;
    var w, ht, e := Number(h, s, a[2]), Number(h, s, a[3]), Exec(h, CONSOLE_RENDER_SPAN_DIRTY, a, s);
    var c, p := Object(s.heap, Handle(h, s, a[0])), Object(s.heap, Handle(h, s, a[1]));
    RenderDirtyExec(h, a, s);
    DrewDraws(e.s.out[|s.out|..], Screen.Dirty(c.value.cells, p.value.cells, w, ht));
    if Screen.Shows(t, p.value.cells, w, ht) { Screen.DirtyShowsCurrent(t, c.value.cells, p.value.cells, w, ht); }
  }

  /** On any terminal, what the full renderer has put out shows the span. */
  lemma FrameShown(h: Host, a: seq<Arg>, s: State, t: Screen.Terminal)
    requires ArityOk(CONSOLE_RENDER_SPAN, |a|) && Exec(h, CONSOLE_RENDER_SPAN, a, s).Done?
    ensures var w, ht, e := Number(h, s, a[1]), Number(h, s, a[2]), Exec(h, CONSOLE_RENDER_SPAN, a, s);
      var o := Object(s.heap, Handle(h, s, a[0]));
      && HasFrame(o, w, ht) && |s.out| <= |e.s.out|
      && Screen.Shows(Screen.Replay(t, Draws(e.s.out[|s.out|..])), o.value.cells, w, ht)
  {
    hide Read, Exec, ToInt, Object, Screen.Full, Screen.Area, Screen.Replay, Screen.Rows, Screen.FullUpTo, Draws;
    var w, ht, e := Number(h, s, a[1]), Number(h, s, a[2]), Exec(h, CONSOLE_RENDER_SPAN, a, s);
    RenderExec(h, a, s);
    var cells := Object(s.heap, Handle(h, s, a[0])).value.cells;
    DrewDraws(e.s.out[|s.out|..], Screen.Full(cells, w, ht));
    FullShows(t, cells, w, ht);
  }

  lemma FullShows(t: Screen.Terminal, buf: seq<int>, w: nat, ht: nat)
    requires Screen.Area(w, ht) <= |buf|
    ensures Screen.Shows(Screen.Replay(t, Screen.Full(buf, w, ht)), buf, w, ht)
  {
    hide Screen.Rows, Screen.Area, Screen.Replay;
    forall r: nat, c: nat | Screen.Inside(Screen.Rows(buf, w, ht), ht, r, c)
      ensures Screen.Replay(t, Screen.Full(buf, w, ht)).cell(r, c) == Screen.Rows(buf, w, ht)[r - 1][c - 1]
    {
      Screen.FullReplay(t, Screen.Rows(buf, w, ht), ht, r, c);
    }
  }
}
