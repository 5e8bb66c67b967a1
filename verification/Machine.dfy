/** The state of the VM and the effect of each opcode (vm/vm.c).

    Instructions see code positions (pc, return addresses, handlers, jump targets) only as numbers they move
    around, so the same effects drive the byte-addressed VM and the statement-indexed source machine. */
module Machine {
  import opened Bytes
  import opened Chars
  import opened Opcodes
  import opened Program
  import Screen

  const STACK_MAX: nat := 1024
  const VARS_MAX: nat := 256
  const LOCAL_VARS_MAX: nat := 64
  const HEAP_OBJECTS_MAX: nat := 512
  const CALL_STACK_MAX: nat := 128
  const EVENTS_MAX: nat := 64
  const EVENT_HANDLERS_MAX: nat := 16
  const EVENT_QUEUE_MAX: nat := 256

  const RETVAL: Text := [DOLLAR, 82, 69, 84, 86, 65, 76]

  datatype Value = VInt(i: int32) | VStr(s: Text) | VFloat(f: uint32)
  datatype Binding = Binding(name: Text, value: Value)
  datatype Frame = Frame(ret: nat, locals: seq<Binding>)
  datatype Event = Event(name: Text, handlers: seq<nat>)
  datatype Item = Item(name: Text, next: nat)

  /** HeapObject: elem_size is 1 for a byte span and 4 otherwise, size is the number of cells. */
  datatype Slot = Vacant | Live(id: uint32, isBytes: bool, pinned: bool, cells: seq<int32>)

  datatype Out =
    | Print(text: Text, newline: bool) | Clear | Color(fg: int, bg: Option<int>) | Reset | EraseLine | Style(code: int)
    | Render(draw: Screen.Draw)

  datatype State = State(
    pc: nat, halted: bool, stack: seq<Value>, globals: seq<Binding>, frames: seq<Frame>,
    heap: seq<Slot>, nextRef: uint32, events: seq<Event>, queue: seq<Item>, out: seq<Out>, natives: nat)

  datatype Callee = Registered(name: Text) | Module(name: Text) | Wait | FileRead | FileWrite | EntitySpawn | InputRead

  /** What the model leaves to the host: float arithmetic, overflowing and bitwise integer arithmetic, number
      formatting, and native functions, whose k-th call is answered by native(k, ...). */
  datatype Host = Host(
    floatToInt: uint32 -> int32, intToFloat: int32 -> uint32, textToInt: Text -> int32, textToFloat: Text -> uint32,
    format: Value -> Text, intOp: (Opcode, int32, int32) -> int32, floatOp: (Opcode, uint32, uint32) -> uint32,
    floatEq: (uint32, uint32) -> bool, floatLess: (uint32, uint32) -> bool,
    native: (nat, Callee, seq<Value>) -> Option<Value>)

  datatype Msg =
    | ReturnWithoutCall | CallStackOverflow | NativeFailed | StackOverflow | VariableTableFull | DivisionByZero
    | ModByZero | SqrtDomain | InvalidShift | ArgumentOutOfRange | RegistryFull | QueueFull
    | NegativeSize | AllocationFailed | HeapWriteOutOfRange | HeapReadOutOfRange | InvalidReference | FillOutOfRange
    | SpanOutOfRange | RenderOutOfRange
    | NullName  // a destination operand without text, compared with the names in the table: undefined behaviour in C

  datatype Effect = Done(s: State) | Fail(s: State, msg: Msg)

  // ----- Values -----

  function ToInt(h: Host, v: Value): int32 {
    match v case VInt(i) => i case VFloat(f) => h.floatToInt(f) case VStr(t) => h.textToInt(t)
  }

  function ToFloat(h: Host, v: Value): uint32 {
    match v case VFloat(f) => f case VInt(i) => h.intToFloat(i) case VStr(t) => h.textToFloat(t)
  }

  function ToText(h: Host, v: Value): Text {
    if v.VStr? then v.s else h.format(v)
  }

  /** strcmp, as -1, 0 or 1. */
  function CompareText(a: Text, b: Text): int {
    if a == [] then (if b == [] then 0 else -1)
    else if b == [] || a[0] > b[0] then 1
    else if a[0] < b[0] then -1
    else CompareText(a[1..], b[1..])
  }

  function ValuesEqual(h: Host, a: Value, b: Value): bool {
    if a.VStr? && b.VStr? then CompareText(a.s, b.s) == 0
    else if a.VFloat? || b.VFloat? then h.floatEq(ToFloat(h, a), ToFloat(h, b))
    else ToInt(h, a) == ToInt(h, b)
  }

  function ValuesCompare(h: Host, a: Value, b: Value): int {
    if a.VStr? && b.VStr? then CompareText(a.s, b.s)
    else if a.VFloat? || b.VFloat? then
      var x, y := ToFloat(h, a), ToFloat(h, b);
      (if h.floatLess(y, x) then 1 else 0) - (if h.floatLess(x, y) then 1 else 0)
    else
      var x, y := ToInt(h, a), ToInt(h, b);
      if x > y then 1 else if x < y then -1 else 0
  }

  // ----- Variables -----

  function IndexOf(table: seq<Binding>, name: Text): (i: nat)
    ensures i <= |table| && (i < |table| ==> table[i].name == name)
    ensures forall j :: 0 <= j < i ==> table[j].name != name
  {
    if table == [] || table[0].name == name then 0 else 1 + IndexOf(table[1..], name)
  }

  function Find(table: seq<Binding>, name: Text): Option<Value> {
    var i := IndexOf(table, name);
    if i < |table| then Some(table[i].value) else None
  }

  function Put(table: seq<Binding>, max: nat, name: Text, v: Value): Option<seq<Binding>> {
    var i := IndexOf(table, name);
    if i < |table| then Some(table[i := Binding(name, v)])
    else if |table| < max then Some(table + [Binding(name, v)])
    else None
  }

  predicate IsGlobalName(name: Text) {
    name != [] && name[0] == DOLLAR
  }

  predicate UsesFrame(s: State, name: Text) {
    !IsGlobalName(name) && s.frames != []
  }

  function Last<T>(s: seq<T>): T
    requires s != []
  {
    s[|s| - 1]
  }

  function GetVar(s: State, name: Text): Option<Value> {
    if UsesFrame(s, name) then Find(Last(s.frames).locals, name) else Find(s.globals, name)
  }

  function SetVar(s: State, name: Text, v: Value): Option<State> {
    if UsesFrame(s, name) then
      match Put(Last(s.frames).locals, LOCAL_VARS_MAX, name, v)
      case None => None
      case Some(t) => Some(s.(frames := s.frames[|s.frames| - 1 := Last(s.frames).(locals := t)]))
    else
      match Put(s.globals, VARS_MAX, name, v)
      case None => None
      case Some(t) => Some(s.(globals := t))
  }

  /** Most opcodes ignore a full variable table. */
  function TrySetVar(s: State, name: Text, v: Value): State {
    var r := SetVar(s, name, v);
    if r.Some? then r.value else s
  }

  // ----- Operands -----

  /** A resolved label: the number it evaluates to and the position it denotes. */
  datatype Ref = Ref(value: int32, pos: nat)
  type Arg = Operand<Ref>

  function Eval(s: State, o: Arg): Value {
    match o
    case Int(i) => VInt(i)
    case Addr(r) => VInt(r.value)
    case Float(f) => VFloat(f)
    case Str(t) => VStr(t)
    case Var(n) => var v := GetVar(s, n); if v.Some? then v.value else VInt(0)
  }

  function EvalAll(s: State, a: seq<Arg>): (vs: seq<Value>)
    ensures |vs| == |a| && forall i :: 0 <= i < |a| ==> vs[i] == Eval(s, a[i])
  {
    if a == [] then [] else [Eval(s, a[0])] + EvalAll(s, a[1..])
  }

  /** ops[i].i and ops[i].s, which are zero for operands of another type. */
  function IntField(o: Arg): int32 {
    match o case Int(i) => i case Addr(r) => r.value case _ => 0
  }

  function TextField(o: Arg): Option<Text> {
    match o case Str(t) => Some(t) case Var(t) => Some(t) case _ => None
  }

  /** (size_t)ops[i].i as a pc. */
  function JumpTarget(o: Arg): nat {
    match o case Addr(r) => r.pos case Int(i) => SizeT(i) case _ => 0
  }

  /** (uint32_t)ops[i].i as a handler. */
  function BindTarget(o: Arg): nat {
    match o
    case Addr(r) => if r.value >= 0 then r.pos else U32(r.value)
    case Int(i) => U32(i)
    case _ => 0
  }

  /** The variables a plain name is looked up in. */
  function PlainTable(s: State): seq<Binding> {
    if s.frames != [] then Last(s.frames).locals else s.globals
  }

  /** The name of a destination. A null name creates a variable with an empty name if the table is empty; otherwise it
      is passed to strcmp. */
  function DestName(s: State, o: Arg): Option<Text> {
    var t := TextField(o);
    if t.None? && PlainTable(s) == [] then Some([]) else t
  }

  function SetDest(s: State, o: Arg, v: Value): Effect {
    match DestName(s, o)
    case None => Fail(s, NullName)
    case Some(n) => Done(TrySetVar(s, n, v))
  }

  // ----- Pure opcodes -----

  /** x / y as C divides, truncating toward zero. */
  function Quotient(x: int, y: int): int
    requires y != 0
  {
    if (x < 0) == (y < 0) then (if x < 0 then -x else x) / (if y < 0 then -y else y)
    else -((if x < 0 then -x else x) / (if y < 0 then -y else y))
  }

  function IntResult(h: Host, op: Opcode, x: int32, y: int32, exact: int): int32 {
    if -0x8000_0000 <= exact < 0x8000_0000 then exact else h.intOp(op, x, y)
  }

  function Arithmetic(h: Host, op: Opcode, a: Value, b: Value): Result<Value, Msg> {
    if (a.VFloat? || b.VFloat?) && op != MOD then
      var x, y := ToFloat(h, a), ToFloat(h, b);
      if op == DIV && h.floatEq(y, 0) then Failure(DivisionByZero) else Success(VFloat(h.floatOp(op, x, y)))
    else
      var x, y := ToInt(h, a), ToInt(h, b);
      match op
      case ADD => Success(VInt(IntResult(h, op, x, y, x + y)))
      case SUB => Success(VInt(IntResult(h, op, x, y, x - y)))
      case MUL => Success(VInt(IntResult(h, op, x, y, x * y)))
      case DIV => if y == 0 then Failure(DivisionByZero) else Success(VInt(IntResult(h, op, x, y, Quotient(x, y))))
      case _ =>
        if y == 0 then Failure(ModByZero)
        else if Quotient(x, y) >= 0x8000_0000 then Success(VInt(h.intOp(op, x, y)))
        else Success(VInt(IntResult(h, op, x, y, x - y * Quotient(x, y))))
  }

  function Repeated(t: Text, n: nat): Text {
    if n == 0 then [] else t + Repeated(t, n - 1)
  }

  function Unary(h: Host, op: Opcode, v: Value): Result<Value, Msg> {
    match op
    case TO_INT => Success(VInt(ToInt(h, v)))
    case TO_FLOAT => Success(VFloat(ToFloat(h, v)))
    case BIT_NOT => Success(VInt(-1 - ToInt(h, v)))
    case STRLEN => Success(VInt(I32(|ToText(h, v)| % 0x1_0000_0000)))
    case _ =>
      if op == SQRT && h.floatLess(ToFloat(h, v), 0) then Failure(SqrtDomain)
      else Success(VFloat(h.floatOp(op, ToFloat(h, v), 0)))
  }

  function Binary(h: Host, op: Opcode, a: Value, b: Value): Result<Value, Msg> {
    match op
    case ADD | SUB | MUL | DIV | MOD => Arithmetic(h, op, a, b)
    case STRCAT => Success(VStr(ToText(h, a) + ToText(h, b)))
    case STR_REPEAT => Success(VStr(Repeated(ToText(h, a), if ToInt(h, b) < 0 then 0 else ToInt(h, b))))
    case BIT_AND | BIT_OR | BIT_XOR | SHL | SHR =>
      if (op == SHL || op == SHR) && !(0 <= ToInt(h, b) < 31) then Failure(InvalidShift)
      else Success(VInt(h.intOp(op, ToInt(h, a), ToInt(h, b))))
    case _ => Success(VFloat(h.floatOp(op, ToFloat(h, a), ToFloat(h, b))))
  }

  function SubString(h: Host, src: Value, start: Value, len: Value): Value {
    var t := ToText(h, src);
    var st := if ToInt(h, start) < 0 then 0 else if ToInt(h, start) > |t| then |t| else ToInt(h, start);
    var ln := if ToInt(h, len) < 0 then 0 else if ToInt(h, len) > |t| - st then |t| - st else ToInt(h, len);
    VStr(t[st..st + ln])
  }

  function IntoDest(s: State, o: Arg, r: Result<Value, Msg>): Effect {
    match r
    case Failure(m) => Fail(s, m)
    case Success(v) => SetDest(s, o, v)
  }

  function Taken(h: Host, op: Opcode, a: Value, b: Value): bool {
    var cmp, eq := ValuesCompare(h, a, b), ValuesEqual(h, a, b);
    match op
    case IF_EQ => eq
    case IF_NE => !eq
    case IF_GT => cmp > 0
    case IF_LT => cmp < 0
    case IF_GE => cmp >= 0
    case _ => cmp <= 0
  }

  // ----- Console output -----

  function InRange(h: Host, v: Value, lo: int, hi: int): bool {
    lo <= ToInt(h, v) <= hi
  }

  function Write(s: State, o: Out): Effect {
    Done(s.(out := s.out + [o]))
  }

  function SetColor(h: Host, s: State, vs: seq<Value>): Effect
    requires 1 <= |vs|
  {
    if !InRange(h, vs[0], 0, 255) || (|vs| > 1 && !InRange(h, vs[1], 0, 255)) then Fail(s, ArgumentOutOfRange)
    else Write(s, Color(ToInt(h, vs[0]), if |vs| > 1 then Some(ToInt(h, vs[1]) as int) else None))
  }

  function MoveCursor(h: Host, s: State, row: Value, col: Value): Effect {
    if !InRange(h, row, 1, 9999) || !InRange(h, col, 1, 9999) then Fail(s, ArgumentOutOfRange)
    else Write(s, Render(Screen.Move(ToInt(h, row), ToInt(h, col))))
  }

  function Renders(ds: seq<Screen.Draw>): seq<Out> {
    if ds == [] then [] else [Render(ds[0])] + Renders(ds[1..])
  }

  // ----- Natives -----

  /** The call is counted even when it fails. */
  function CallNative(h: Host, s: State, callee: Callee, args: seq<Value>): (State, Option<Value>) {
    (s.(natives := s.natives + 1), h.native(s.natives, callee, args))
  }

  /** CALL with a name, and CALL_NATIVE: the result goes to $RETVAL. */
  function CallNamed(h: Host, s: State, registered: bool, a: seq<Arg>): Effect
    requires a != []
  {
    match TextField(a[0])
    case None => Fail(s, NativeFailed)
    case Some(n) =>
      var (t, r) := CallNative(h, s, if registered then Registered(n) else Module(n), EvalAll(s, a[1..]));
      if r.None? then Fail(t, NativeFailed) else Done(TrySetVar(t, RETVAL, r.value))
  }

  /** WAIT and FILE_WRITE drop the result; FILE_READ, INPUT and ENTITY_SPAWN store it. */
  function CallModule(h: Host, s: State, callee: Callee, args: seq<Arg>, dest: Option<Arg>): Effect {
    var (t, r) := CallNative(h, s, callee, EvalAll(s, args));
    if r.None? then Fail(t, NativeFailed)
    else if dest.None? then Done(t)
    else SetDest(t, dest.value, r.value)
  }

  // ----- Events -----

  function EventIndex(events: seq<Event>, name: Text): (i: nat)
    ensures i <= |events| && (i < |events| ==> events[i].name == name)
    ensures forall j :: 0 <= j < i ==> events[j].name != name
  {
    if events == [] || events[0].name == name then 0 else 1 + EventIndex(events[1..], name)
  }

  /** scml_vm_bind_event. */
  function BindEvent(events: seq<Event>, name: Text, handler: nat): Option<seq<Event>> {
    var i := EventIndex(events, name);
    if i == |events| then (if |events| >= EVENTS_MAX then None else Some(events + [Event(name, [handler])]))
    else if |events[i].handlers| >= EVENT_HANDLERS_MAX then None
    else Some(events[i := Event(name, events[i].handlers + [handler])])
  }

  /** scml_vm_trigger_event: one slot of the ring stays empty. */
  function Trigger(queue: seq<Item>, name: Text): Option<seq<Item>> {
    if |queue| + 1 >= EVENT_QUEUE_MAX then None else Some(queue + [Item(name, 0)])
  }

  /** The handler the front item is due, if any. */
  function DueHandler(events: seq<Event>, item: Item): Option<nat> {
    var i := EventIndex(events, item.name);
    if i < |events| && item.next < |events[i].handlers| then Some(events[i].handlers[item.next]) else None
  }

  predicate HasMore(events: seq<Event>, item: Item) {
    DueHandler(events, Item(item.name, item.next + 1)).Some?
  }

  /** The queue after its front item is popped and, if it has handlers left, requeued behind the others. */
  function Rotate(events: seq<Event>, queue: seq<Item>): seq<Item>
    requires queue != []
  {
    var item := queue[0];
    queue[1..] + if HasMore(events, item) then [Item(item.name, item.next + 1)] else []
  }

  /** dispatch_next_event, and whether it entered a handler. */
  function Dispatch(s: State): (State, bool) {
    if s.queue == [] then (s, false)
    else
      var t := s.(queue := Rotate(s.events, s.queue));
      match DueHandler(s.events, s.queue[0])
      case None => (t, false)
      case Some(pc) => (t.(pc := pc, halted := false), true)
  }

  // ----- Heap -----

  function SlotOf(heap: seq<Slot>, ref: uint32): (i: nat)
    ensures i <= |heap| && (i < |heap| ==> heap[i].Live? && heap[i].id == ref)
    ensures forall j :: 0 <= j < i ==> !(heap[j].Live? && heap[j].id == ref)
  {
    if heap == [] || (heap[0].Live? && heap[0].id == ref) then 0 else 1 + SlotOf(heap[1..], ref)
  }

  function FirstVacant(heap: seq<Slot>): (i: nat)
    ensures i <= |heap| && (i < |heap| ==> heap[i].Vacant?)
    ensures forall j :: 0 <= j < i ==> heap[j].Live?
  {
    if heap == [] || heap[0].Vacant? then 0 else 1 + FirstVacant(heap[1..])
  }

  function Zeros(n: nat): (z: seq<int32>)
    ensures |z| == n && forall i :: 0 <= i < n ==> z[i] == 0
  {
    seq(n, _ => 0)
  }

  /** heap_find, as the value an opcode names. */
  function SlotAt(h: Host, s: State, v: Value): (i: nat)
    ensures i <= |s.heap| && (i < |s.heap| ==> s.heap[i].Live? && s.heap[i].id == U32(ToInt(h, v)))
  {
    SlotOf(s.heap, U32(ToInt(h, v)))
  }

  function AllocInto(h: Host, s: State, size: Value, dest: Arg, isBytes: bool): Effect {
    var n := ToInt(h, size);
    var k := FirstVacant(s.heap);
    if n < 0 then Fail(s, NegativeSize)
    else if k == |s.heap| then Fail(s, AllocationFailed)
    else
      var t := s.(heap := s.heap[k := Live(s.nextRef, isBytes, false, Zeros(n))],
                  nextRef := (s.nextRef + 1) % 0x1_0000_0000);
      SetDest(t, dest, VInt(I32(s.nextRef)))
  }

  function Release(h: Host, s: State, ref: Value): State {
    var k := SlotAt(h, s, ref);
    if k < |s.heap| then s.(heap := s.heap[k := Vacant]) else s
  }

  /** What a cell keeps of a stored value. */
  function Kept(isBytes: bool, v: int32): int32 {
    if isBytes then v % 0x100 else v
  }

  /** SPAN_WRITE_U8 (bytesOnly) also wants a byte span and a byte. */
  predicate Storable(slot: Slot, i: nat, v: int32, bytesOnly: bool) {
    slot.Live? && i < |slot.cells| && (bytesOnly ==> slot.isBytes && 0 <= v <= 255)
  }

  function WithCell(slot: Slot, i: nat, v: int32): Slot
    requires slot.Live? && i < |slot.cells|
  {
    slot.(cells := slot.cells[i := Kept(slot.isBytes, v)])
  }

  function StoreCell(h: Host, s: State, ref: Value, index: Value, v: int32, bytesOnly: bool, msg: Msg): Effect {
    var k, i := SlotAt(h, s, ref), SizeT(ToInt(h, index));
    if k == |s.heap| || !Storable(s.heap[k], i, v, bytesOnly) then Fail(s, msg)
    else Done(s.(heap := s.heap[k := WithCell(s.heap[k], i, v)]))
  }

  function LoadCell(h: Host, s: State, ref: Value, index: Value, dest: Arg, bytesOnly: bool, msg: Msg): Effect {
    var k, i := SlotAt(h, s, ref), SizeT(ToInt(h, index));
    if k == |s.heap| || i >= |s.heap[k].cells| || (bytesOnly && !s.heap[k].isBytes) then Fail(s, msg)
    else SetDest(s, dest, VInt(s.heap[k].cells[i]))
  }

  function Filled(cells: seq<int32>, start: nat, count: nat, v: int32): (r: seq<int32>)
    requires start + count <= |cells|
    ensures |r| == |cells|
    ensures forall i :: 0 <= i < |cells| ==> r[i] == if start <= i < start + count then v else cells[i]
  {
    cells[..start] + seq(count, _ => v) + cells[start + count..]
  }

  function Fill(h: Host, s: State, ref: Value, start: int32, count: int32, v: int32): Effect {
    var k := SlotAt(h, s, ref);
    if start < 0 || count < 0 || k == |s.heap| || start > |s.heap[k].cells| || count > |s.heap[k].cells| - start then
      Fail(s, FillOutOfRange)
    else
      var slot := s.heap[k];
      Done(s.(heap := s.heap[k := slot.(cells := Filled(slot.cells, start, count, Kept(slot.isBytes, v)))]))
  }

  function Pin(h: Host, s: State, ref: Value): Effect {
    var k := SlotAt(h, s, ref);
    if k == |s.heap| then Fail(s, InvalidReference) else Done(s.(heap := s.heap[k := s.heap[k].(pinned := true)]))
  }

  function SizeInto(h: Host, s: State, ref: Value, dest: Arg): Effect {
    var k := SlotAt(h, s, ref);
    SetDest(s, dest, VInt(if k < |s.heap| then I32(|s.heap[k].cells| % 0x1_0000_0000) else 0))
  }

  predicate Drawable(slot: Slot, w: int, h: int) {
    slot.Live? && slot.isBytes && slot.pinned && w > 0 && h > 0 && Screen.Area(w, h) <= |slot.cells|
  }

  function RenderSpan(h: Host, s: State, ref: Value, w: int32, ht: int32): Effect {
    var k := SlotAt(h, s, ref);
    if k == |s.heap| || !Drawable(s.heap[k], w, ht) then Fail(s, RenderOutOfRange)
    else Done(s.(out := s.out + Renders(Screen.Full(s.heap[k].cells, w, ht))))
  }

  function RenderSpanDirty(h: Host, s: State, cur: Value, prev: Value, w: int32, ht: int32): Effect {
    var c, p := SlotAt(h, s, cur), SlotAt(h, s, prev);
    if c == |s.heap| || p == |s.heap| || !Drawable(s.heap[c], w, ht) || !Drawable(s.heap[p], w, ht) then
      Fail(s, RenderOutOfRange)
    else
      var n, now, was := Screen.Area(w, ht), s.heap[c].cells, s.heap[p].cells;
      Done(s.(heap := s.heap[p := s.heap[p].(cells := now[..n] + was[n..])],
              out := s.out + Renders(Screen.Dirty(now, was, w, ht))))
  }

  // ----- One instruction -----

  function Push(s: State, v: Value): Effect {
    if |s.stack| >= STACK_MAX then Fail(s, StackOverflow) else Done(s.(stack := s.stack + [v]))
  }

  function Enter(s: State, target: nat): Effect {
    if |s.frames| >= CALL_STACK_MAX then Fail(s, CallStackOverflow)
    else Done(s.(frames := s.frames + [Frame(s.pc, [])], pc := target))
  }

  function Leave(s: State): Effect {
    if s.frames == [] then Fail(s, ReturnWithoutCall)
    else Done(s.(pc := Last(s.frames).ret, frames := s.frames[..|s.frames| - 1]))
  }

  function Store(s: State, dest: Arg, v: Value): Effect {
    match DestName(s, dest)
    case None => Fail(s, NullName)
    case Some(n) => var r := SetVar(s, n, v); if r.None? then Fail(s, VariableTableFull) else Done(r.value)
  }

  function Bind(s: State, name: Text, handler: nat): Effect {
    match BindEvent(s.events, name, handler)
    case None => Fail(s, RegistryFull)
    case Some(events) => Done(s.(events := events))
  }

  function Enqueue(s: State, name: Text): Effect {
    match Trigger(s.queue, name)
    case None => Fail(s, QueueFull)
    case Some(q) => Done(s.(queue := q))
  }

  function EndThread(s: State): Effect {
    var (t, entered) := Dispatch(s);
    Done(t.(halted := !entered))
  }

  predicate IsHeapOp(op: Opcode) {
    || op == HEAP_ALLOC || op == ARRAY_CREATE || op == SPAN_CREATE || op == FREE || op == HEAP_STORE || op == HEAP_LOAD
    || op == SPAN_PIN || op == SPAN_FILL || op == SPAN_WRITE_U8 || op == SPAN_READ_U8 || op == ARRAY_LEN
    || op == CONSOLE_RENDER_SPAN || op == CONSOLE_RENDER_SPAN_DIRTY
  }

  function ExecHeap(h: Host, op: Opcode, a: seq<Arg>, s: State): Effect
    requires IsHeapOp(op) && ArityOk(op, |a|)
  {
    match op
    case HEAP_ALLOC => AllocInto(h, s, Eval(s, a[0]), a[1], false)
    case ARRAY_CREATE => AllocInto(h, s, Eval(s, a[0]), a[1], false)
    case SPAN_CREATE => AllocInto(h, s, Eval(s, a[0]), a[1], true)
    case FREE => Done(Release(h, s, Eval(s, a[0])))
    case HEAP_STORE =>
      StoreCell(h, s, Eval(s, a[0]), Eval(s, a[1]), ToInt(h, Eval(s, a[2])), false, HeapWriteOutOfRange)
    case SPAN_WRITE_U8 => StoreCell(h, s, Eval(s, a[0]), Eval(s, a[1]), ToInt(h, Eval(s, a[2])), true, SpanOutOfRange)
    case HEAP_LOAD => LoadCell(h, s, Eval(s, a[1]), Eval(s, a[2]), a[0], false, HeapReadOutOfRange)
    case SPAN_READ_U8 => LoadCell(h, s, Eval(s, a[1]), Eval(s, a[2]), a[0], true, SpanOutOfRange)
    case SPAN_PIN => Pin(h, s, Eval(s, a[0]))
    case SPAN_FILL =>
      Fill(h, s, Eval(s, a[0]), ToInt(h, Eval(s, a[1])), ToInt(h, Eval(s, a[2])), ToInt(h, Eval(s, a[3])))
    case ARRAY_LEN => SizeInto(h, s, Eval(s, a[1]), a[0])
    case CONSOLE_RENDER_SPAN => RenderSpan(h, s, Eval(s, a[0]), ToInt(h, Eval(s, a[1])), ToInt(h, Eval(s, a[2])))
    case _ =>  // CONSOLE_RENDER_SPAN_DIRTY
      RenderSpanDirty(h, s, Eval(s, a[0]), Eval(s, a[1]), ToInt(h, Eval(s, a[2])), ToInt(h, Eval(s, a[3])))
  }

  predicate IsConsole(op: Opcode) {
    || op == PRINT || op == LOG || op == PRINT_RAW || op == CONSOLE_CLEAR || op == CONSOLE_COLOR || op == CONSOLE_RESET
    || op == CONSOLE_MOVE || op == CONSOLE_ERASE_LINE || op == CONSOLE_STYLE
  }

  function ExecConsole(h: Host, op: Opcode, a: seq<Arg>, s: State): Effect
    requires IsConsole(op) && ArityOk(op, |a|)
  {
    match op
    case CONSOLE_CLEAR => Write(s, Clear)
    case CONSOLE_COLOR => SetColor(h, s, EvalAll(s, a))
    case CONSOLE_RESET => Write(s, Reset)
    case CONSOLE_MOVE => MoveCursor(h, s, Eval(s, a[0]), Eval(s, a[1]))
    case CONSOLE_ERASE_LINE => Write(s, EraseLine)
    case CONSOLE_STYLE =>
      var v := Eval(s, a[0]);
      if InRange(h, v, 0, 9) then Write(s, Style(ToInt(h, v))) else Fail(s, ArgumentOutOfRange)
    case _ => Write(s, Print(ToText(h, Eval(s, a[0])), op != PRINT_RAW))  // PRINT, LOG, PRINT_RAW
  }

  predicate CallsOut(op: Opcode) {
    || op == CALL || op == CALL_NATIVE || op == WAIT || op == FILE_READ || op == FILE_WRITE || op == INPUT
    || op == ENTITY_SPAWN
  }

  function ExecCall(h: Host, op: Opcode, a: seq<Arg>, s: State): Effect
    requires CallsOut(op) && ArityOk(op, |a|)
  {
    match op
    case CALL => if a[0].Addr? then Enter(s, JumpTarget(a[0])) else CallNamed(h, s, true, a)
    case CALL_NATIVE => CallNamed(h, s, false, a)
    case WAIT => CallModule(h, s, Callee.Wait, a, None)
    case FILE_READ => CallModule(h, s, FileRead, a[..1], Some(a[1]))
    case FILE_WRITE => CallModule(h, s, FileWrite, a, None)
    case INPUT => CallModule(h, s, InputRead, a[..1], Some(a[1]))
    case _ => CallModule(h, s, EntitySpawn, a[..4], Some(a[4]))  // ENTITY_SPAWN
  }

  predicate IsBinary(op: Opcode) {
    || op == ADD || op == SUB || op == MUL || op == DIV || op == MOD || op == ATAN2 || op == STR_REPEAT || op == STRCAT
    || op == BIT_AND || op == BIT_OR || op == BIT_XOR || op == SHL || op == SHR || op == POW
  }

  predicate IsUnary(op: Opcode) {
    || op == SIN || op == COS || op == TAN || op == SQRT || op == FLOOR || op == CEIL || op == ROUND || op == ABS
    || op == TO_INT || op == TO_FLOAT || op == BIT_NOT || op == STRLEN
  }

  predicate IsBranch(op: Opcode) {
    op == IF_EQ || op == IF_NE || op == IF_GT || op == IF_LT || op == IF_GE || op == IF_LE
  }

  /** The switch of scml_vm_step, with pc already past the instruction. */
  function Exec(h: Host, op: Opcode, a: seq<Arg>, s: State): Effect
    requires ArityOk(op, |a|)
  {
    if IsBinary(op) then IntoDest(s, a[0], Binary(h, op, Eval(s, a[1]), Eval(s, a[2])))
    else if IsUnary(op) then IntoDest(s, a[0], Unary(h, op, Eval(s, a[1])))
    else if IsBranch(op) then
      Done(if Taken(h, op, Eval(s, a[0]), Eval(s, a[1])) then s.(pc := JumpTarget(a[2])) else s)
    else if IsHeapOp(op) then ExecHeap(h, op, a, s)
    else if IsConsole(op) then ExecConsole(h, op, a, s)
    else if CallsOut(op) then ExecCall(h, op, a, s)
    else
      match op
      case HALT => Done(s.(halted := true))
      case END_THREAD => EndThread(s)
      case RETURN => Leave(s)
      case PUSH_INT => Push(s, VInt(IntField(a[0])))
      case PUSH_STR => Push(s, VStr(var t := TextField(a[0]); if t.Some? then t.value else []))
      case LOAD => Push(s, Eval(s, a[0]))
      case STORE => Store(s, a[0], Eval(s, a[1]))
      case SUBSTR => SetDest(s, a[0], SubString(h, Eval(s, a[1]), Eval(s, a[2]), Eval(s, a[3])))
      case JMP => Done(s.(pc := JumpTarget(a[0])))
      case EVENT_BIND => Bind(s, ToText(h, Eval(s, a[0])), BindTarget(a[1]))
      case EVENT_TRIGGER => Enqueue(s, ToText(h, Eval(s, a[0])))
      case _ => Done(s)  // NOP, ENTITY_SET
  }
}
