/** scml_vm_step (vm/vm.c) as a function: one step on a loaded image, and runs of steps. */
module Steps {
  import opened Bytes
  import opened Program
  import opened Encoding
  import opened Layout
  import opened Machine

  /** What a failing step reports. error_at adds the source line; decoding errors and a full queue come without. */
  datatype Fault =
    | Located(line: uint32, msg: Msg) | EventQueueFull
    | Header(atLine: uint32, header: HeaderError) | Operand(operand: DecodeError)

  /** The return values 1, 0 and -1. */
  datatype Outcome = Ran | Idle | Failed(fault: Fault)

  datatype StepResult = StepResult(s: State, outcome: Outcome)

  /** A decoded operand: texts are read as C strings, addresses as int32_t and then as size_t. */
  function ToArg(o: CodeOperand): Arg {
    match o
    case Int(i) => Int(i)
    case Float(f) => Float(f)
    case Str(t) => Str(CString(t))
    case Var(t) => Var(CString(t))
    case Addr(a) => Addr(Ref(I32(a), SizeT(I32(a))))
  }

  function ToArgs(a: seq<CodeOperand>): (r: seq<Arg>)
    ensures |r| == |a| && forall i :: 0 <= i < |a| ==> r[i] == ToArg(a[i])
  {
    seq(|a|, i requires 0 <= i < |a| => ToArg(a[i]))
  }

  /** A step with nothing to execute dispatches an event or reports that the run is over. */
  function IdleStep(s: State): StepResult {
    var (t, entered) := Dispatch(s);
    if entered then StepResult(t, Ran) else StepResult(t.(halted := true), Idle)
  }

  function Finish(e: Effect, line: uint32): StepResult {
    match e
    case Done(s) => StepResult(s, Ran)
    case Fail(s, m) => StepResult(s, Failed(if m.QueueFull? then EventQueueFull else Located(line, m)))
  }

  function VmStep(h: Host, img: Image, s: State): StepResult {
    if s.halted || s.pc >= |img.code| then IdleStep(s)
    else
      var line := CurrentLine(img.lines, s.pc);
      match Fetch(img.code[s.pc..])
      case BadHeader(e, n) => StepResult(s.(pc := s.pc + n, halted := e.TruncatedHeader?), Failed(Header(line, e)))
      case BadOperand(e, n) => StepResult(s.(pc := s.pc + n), Failed(Operand(e)))
      case Fetched(op, a, n) => Finish(Exec(h, op, ToArgs(a), s.(pc := s.pc + n)), line)
  }

  /** The state after n steps, whatever they return. */
  function After(h: Host, img: Image, s: State, n: nat): State {
    if n == 0 then s else VmStep(h, img, After(h, img, s, n - 1)).s
  }

  /** What the n-th step returns, counting from 1. */
  function OutcomeOf(h: Host, img: Image, s: State, n: nat): Outcome
    requires n > 0
  {
    VmStep(h, img, After(h, img, s, n - 1)).outcome
  }

  /** A VM just created (scml_vm_create) and loaded. */
  function Fresh(): State {
    State(0, false, [], [], [], seq(HEAP_OBJECTS_MAX, _ => Vacant), 1, [], [], [], 0)
  }

  lemma {:induction false} AfterSplit(h: Host, img: Image, s: State, m: nat, n: nat)
    ensures After(h, img, s, m + n) == After(h, img, After(h, img, s, m), n)
    decreases n
  {
    hide VmStep;
    if n > 0 { AfterSplit(h, img, s, m, n - 1); }
  }
}
