/** Compiler correctness: the byte-addressed VM simulates a machine that runs labels and statements. */
module Correctness {
  import opened Bytes
  import opened Opcodes
  import opened Program
  import opened Encoding
  import opened Layout
  import opened Machine
  import opened Positions
  import opened Semantics
  import opened Steps

  // ----- The source machine: positions are indices of statements -----

  function LabelPosition(p: seq<Stmt>, name: Text): (i: nat)
    ensures i <= |p| && (i < |p| ==> p[i] == Label(name))
    ensures forall j :: 0 <= j < i ==> p[j] != Label(name)
  {
    if p == [] || p[0] == Label(name) then 0 else 1 + LabelPosition(p[1..], name)
  }

  /** A label as a jump target is its position; as a number it is the byte address the compiler gives it. */
  function SourceArg(p: seq<Stmt>, o: Operand<Text>): Arg {
    match o
    case Int(i) => Int(i)
    case Float(f) => Float(f)
    case Str(t) => Str(t)
    case Var(t) => Var(t)
    case Addr(n) => var i := LabelPosition(p, n); Addr(Ref(I32(Pc(p[..i])), i))
  }

  /** The byte address of a statement position; positions past the end are as far past the end of the code. */
  function AddressIn(p: seq<Stmt>, i: nat): nat {
    if i <= |p| then TotalSize(p[..i]) else TotalSize(p) + (i - |p|)
  }

  function Addresses(p: seq<Stmt>): Renaming {
    i => AddressIn(p, i)
  }

  /** The last position at an address. */
  function Position(p: seq<Stmt>, addr: nat): nat {
    if addr >= TotalSize(p) then |p| + (addr - TotalSize(p)) else PositionWithin(p, addr)
  }

  function PositionWithin(p: seq<Stmt>, addr: nat): nat {
    if p == [] then 0 else if TotalSize(p) == addr then |p| else PositionWithin(p[..|p| - 1], addr)
  }

  /** As a code position, a literal denotes the position at that address. */
  function SourceArgs(p: seq<Stmt>, op: Opcode, a: seq<Operand<Text>>): (r: seq<Arg>)
    ensures |r| == |a|
    ensures forall k :: 0 <= k < |a| && !(JumpOperand(op) == Some(k) && a[k].Int?) ==> r[k] == SourceArg(p, a[k])
  {
    var r := seq(|a|, k requires 0 <= k < |a| => SourceArg(p, a[k]));
    var lit := JumpLiteral(op, a);
    if lit.None? then r else Retarget(op, r, Position(p, LiteralTarget(op, lit.value)))
  }

  /** The first instruction at or after position i; labels are not executed. */
  function NextInstr(p: seq<Stmt>, i: nat): (j: nat)
    ensures j <= |p| && (j < |p| ==> i <= j && p[j].Instr?)
    ensures forall k :: i <= k < j ==> p[k].Label?
    decreases |p| - i
  {
    if i >= |p| then |p| else if p[i].Instr? then i else NextInstr(p, i + 1)
  }

  /** The parser has checked every operand count. */
  ghost predicate ArgsCounted(p: seq<Stmt>) {
    forall i :: 0 <= i < |p| && p[i].Instr? ==> PassesParser(p[i].op, |p[i].args|)
  }

  function SourceStep(h: Host, p: seq<Stmt>, s: State): StepResult
    requires ArgsCounted(p)
  {
    var j := NextInstr(p, s.pc);
    if s.halted || j == |p| then IdleStep(s)
    else
      ParserArityPassesVm(p[j].op, |p[j].args|);
      Finish(Exec(h, p[j].op, SourceArgs(p, p[j].op, p[j].args), s.(pc := j + 1)), p[j].line)
  }

  function SourceAfter(h: Host, p: seq<Stmt>, s: State, n: nat): State
    requires ArgsCounted(p)
  {
    if n == 0 then s else SourceStep(h, p, SourceAfter(h, p, s, n - 1)).s
  }

  // ----- Programs -----

  predicate NoNul(o: Operand<Text>) {
    o.Str? || o.Var? ==> 0 !in o.text
  }

  /** Texts are C strings. */
  predicate CleanTexts(st: Stmt) {
    st.Instr? ==> forall j :: 0 <= j < |st.args| ==> NoNul(st.args[j])
  }

  /** The compiler accepts p, its operand counts passed the parser, its code is smaller than 2 GiB, and its texts are
      C strings. */
  ghost predicate Compilable(p: seq<Stmt>) {
    && Compile(p).Success? && TotalSize(p) < 0x8000_0000 && ArgsCounted(p)
    && forall i :: 0 <= i < |p| ==> CleanTexts(p[i])
  }

  /** The address of a statement, or the end of the code. */
  ghost predicate IsBoundary(p: seq<Stmt>, addr: nat) {
    exists i :: 0 <= i <= |p| && AddressIn(p, i) == addr
  }

  lemma AddressIsBoundary(p: seq<Stmt>, i: nat)
    requires i <= |p|
    ensures IsBoundary(p, AddressIn(p, i))
  {
  }

  /** An address where no instruction is cut: that of a statement, or one at or past the end of the code. */
  ghost predicate Aligned(p: seq<Stmt>, addr: nat) {
    exists i: nat :: AddressIn(p, i) == addr
  }

  /** The next step uses an integer literal that points into the middle of an instruction. */
  ghost predicate Strays(h: Host, p: seq<Stmt>, s: State)
    requires ArgsCounted(p)
  {
    var j := NextInstr(p, s.pc);
    && !s.halted && j < |p|
    && var op, a, lit := p[j].op, p[j].args, JumpLiteral(p[j].op, p[j].args);
      && lit.Some? && !Aligned(p, LiteralTarget(op, lit.value))
      && (ParserArityPassesVm(op, |a|); Jumps(h, op, SourceArgs(p, op, a), s.(pc := j + 1)))
  }

  ghost predicate StraysBefore(h: Host, p: seq<Stmt>, s: State, n: nat)
    requires ArgsCounted(p)
  {
    exists k :: 0 <= k < n && Strays(h, p, SourceAfter(h, p, s, k))
  }

  /** No jump literal points into the middle of an instruction. */
  ghost predicate LiteralsAligned(p: seq<Stmt>) {
    forall i :: 0 <= i < |p| && p[i].Instr? ==>
      var lit := JumpLiteral(p[i].op, p[i].args);
      lit.Some? ==> Aligned(p, LiteralTarget(p[i].op, lit.value))
  }

  function MapStep(f: Renaming, r: StepResult): StepResult {
    StepResult(MapState(f, r.s), r.outcome)
  }

  // ----- Addresses and positions -----

  lemma {:induction false} LabelsHaveNoSize(p: seq<Stmt>, i: nat, j: nat)
    requires i <= j <= |p| && forall k :: i <= k < j ==> p[k].Label?
    ensures TotalSize(p[..i]) == TotalSize(p[..j])
    decreases j - i
  {
    if i < j {
      assert p[..j][..j - 1] == p[..j - 1];
      LabelsHaveNoSize(p, i, j - 1);
    }
  }

  lemma NextAt(p: seq<Stmt>, i: nat)
    ensures if i <= |p| then AddressIn(p, i) == AddressIn(p, NextInstr(p, i))
      else NextInstr(p, i) == |p| && AddressIn(p, i) >= AddressIn(p, |p|)
  {
    if i <= |p| { LabelsHaveNoSize(p, i, NextInstr(p, i)); } else { assert p[..|p|] == p; }
  }

  lemma AddressOfZero(p: seq<Stmt>)
    ensures AddressIn(p, 0) == 0
  {
    assert p[..0] == [];
  }

  lemma AddressOfEnd(p: seq<Stmt>)
    ensures AddressIn(p, |p|) == TotalSize(p)
  {
    assert p[..|p|] == p;
  }

  lemma {:induction false} PositionWithinIs(p: seq<Stmt>, i: nat)
    requires i <= |p|
    ensures PositionWithin(p, TotalSize(p[..i])) <= |p|
    ensures TotalSize(p[..PositionWithin(p, TotalSize(p[..i]))]) == TotalSize(p[..i])
  {
    var addr := TotalSize(p[..i]);
    if p != [] && TotalSize(p) != addr {
      assert i < |p| by { assert p[..|p|] == p; }
      var before := p[..|p| - 1];
      assert before[..i] == p[..i];
      PositionWithinIs(before, i);
      var k := PositionWithin(before, addr);
      assert before[..k] == p[..k];
    } else {
      assert p[..|p|] == p && p[..0] == [];
    }
  }

  /** The position of an aligned address is a position at that address. */
  lemma PositionIs(p: seq<Stmt>, addr: nat)
    requires Aligned(p, addr)
    ensures AddressIn(p, Position(p, addr)) == addr
  {
    AddressOfEnd(p);
    if addr < TotalSize(p) {
      var i: nat :| AddressIn(p, i) == addr;
      PositionWithinIs(p, i);
    }
  }

  // ----- One instruction -----

  lemma CompileParts(p: seq<Stmt>)
    requires Compile(p).Success?
    ensures var img := Compile(p).value;
      Labels(p) == Success(img.labels) && Emit(img.labels, p) == Success(img.code) && img.lines == Lines(p)
  {
  }

  /** A declared label's table entry is the address of its position. */
  lemma LabelResolved(p: seq<Stmt>, n: Text)
    requires Labels(p).Success? && TotalSize(p) < 0x8000_0000
    requires LabelIndex(Labels(p).value, n) < |Labels(p).value|
    ensures LabelPosition(p, n) < |p|
    ensures var t := Labels(p).value;
      t[LabelIndex(t, n)].addr == AddressIn(p, LabelPosition(p, n)) == Pc(p[..LabelPosition(p, n)]) < 0x8000_0000
  {
    hide TotalSize, Labels;
    var i := LabelPosition(p, n);
    assert i < |p| by {
      LabelsExact(p);
      assert Label(n) in p;
    }
    SizesGrow(p, i);
    var t := Labels(p).value;
    assert t[LabelIndex(t, n)].addr == Pc(p[..i]) by { LabelAddress(p, i); }
  }

  /** An emitted operand, decoded, is the source operand with positions replaced by addresses. */
  lemma OperandResolved(p: seq<Stmt>, o: Operand<Text>)
    requires Labels(p).Success? && TotalSize(p) < 0x8000_0000 && NoNul(o)
    requires EmitOperand(Labels(p).value, o).Success?
    ensures ToArg(EmitOperand(Labels(p).value, o).value) == MapArg(Addresses(p), SourceArg(p, o))
    ensures SourceArg(p, o).Addr? ==> SourceArg(p, o).addr.value >= 0 && SourceArg(p, o).addr.pos < |p|
  {
    match o
    case Str(s) => NoNulIsCString(s);
    case Var(s) => NoNulIsCString(s);
    case Addr(n) => LabelResolved(p, n);
    case _ =>
  }

  /** The operands the VM decodes at statement j. */
  ghost function VmArgs(p: seq<Stmt>, j: nat): (a: seq<Arg>)
    requires Compilable(p) && j < |p| && p[j].Instr?
    ensures |a| == |p[j].args| && ArityOk(p[j].op, |a|)
  {
    EmittedAt(Compile(p).value.labels, p, j);
    ParserArityPassesVm(p[j].op, |p[j].args|);
    ToArgs(EmitOperands(Compile(p).value.labels, p[j].args).value)
  }

  lemma VmArgResolved(p: seq<Stmt>, j: nat, k: nat)
    requires Compilable(p) && j < |p| && p[j].Instr? && k < |p[j].args|
    ensures var b, o := VmArgs(p, j)[k], SourceArg(p, p[j].args[k]);
      && b == MapArg(Addresses(p), o)
      && (b.Addr? ==> b.addr.value >= 0 && o.addr.value >= 0 && IsBoundary(p, b.addr.pos))
  {
    hide TotalSize, AddressIn, Emit, Lines, Labels, CString, ArgsCounted, ArityOk, IsBoundary, EncodeInstr;
    var labels := Compile(p).value.labels;
    EmittedAt(labels, p, j);
    CompileParts(p);
    assert CleanTexts(p[j]);
    OperandResolved(p, p[j].args[k]);
    var o := SourceArg(p, p[j].args[k]);
    if o.Addr? { AddressIsBoundary(p, o.addr.pos); }
  }

  /** They are the source's, label by label; a jump literal is still a literal. */
  lemma VmArgsResolved(p: seq<Stmt>, j: nat)
    requires Compilable(p) && j < |p| && p[j].Instr?
    ensures var op, a, b := p[j].op, p[j].args, VmArgs(p, j);
      && JumpLiteral(op, b) == JumpLiteral(op, a)
      && RefsNonNegative(SourceArgs(p, op, a))
      && (forall k :: 0 <= k < |a| ==> b[k] == MapArg(Addresses(p), SourceArg(p, a[k])))
      && forall k :: 0 <= k < |a| && b[k].Addr? ==> b[k].addr.value >= 0 && IsBoundary(p, b[k].addr.pos)
  {
    hide Compilable, VmArgs, AddressIn, LabelPosition, Pc, Position, IsBoundary, ArityOk;
    var a, b := p[j].args, VmArgs(p, j);
    forall k | 0 <= k < |a|
      ensures b[k] == MapArg(Addresses(p), SourceArg(p, a[k]))
      ensures SourceArg(p, a[k]).Addr? ==> SourceArg(p, a[k]).addr.value >= 0
      ensures b[k].Addr? ==> b[k].addr.value >= 0 && IsBoundary(p, b[k].addr.pos)
    {
      VmArgResolved(p, j, k);
    }
  }

  /** At the address of an instruction the VM fetches that instruction and stops at the next statement's address. */
  lemma FetchAt(p: seq<Stmt>, j: nat)
    requires Compilable(p) && j < |p| && p[j].Instr?
    ensures var img, a := Compile(p).value, AddressIn(p, j);
      && a < |img.code| && Fetch(img.code[a..]).Fetched?
      && var f := Fetch(img.code[a..]);
        f.op == p[j].op && ToArgs(f.args) == VmArgs(p, j) && AddressIn(p, j + 1) == a + f.used
    ensures CurrentLine(Compile(p).value.lines, AddressIn(p, j)) == p[j].line
  {
    hide Fetch, EncodeInstr, EmitOperands, Lines, CurrentLine;
    var img := Compile(p).value;
    EmittedAt(img.labels, p, j);
    StmtEmitted(img.labels, p[j]);
    var a, b := AddressIn(p, j), AddressIn(p, j + 1);
    var os := EmitOperands(img.labels, p[j].args).value;
    ParserArityPassesVm(p[j].op, |p[j].args|);
    FetchEncoded(p[j].op, os, img.code[b..]);
    assert img.code[a..] == img.code[a..b] + img.code[b..];
    CurrentLineExact(p, j, a);
  }

  lemma CodeSize(p: seq<Stmt>)
    requires Compile(p).Success?
    ensures |Compile(p).value.code| == TotalSize(p) == AddressIn(p, |p|)
  {
    EmittedSize(Compile(p).value.labels, p);
    AddressOfEnd(p);
  }

  // ----- One step -----

  /** What the VM's step is at the address of statement j. */
  lemma StepAt(h: Host, p: seq<Stmt>, s: State, j: nat)
    requires Compilable(p) && j < |p| && p[j].Instr? && !s.halted && s.pc == AddressIn(p, j)
    ensures VmStep(h, Compile(p).value, s)
      == Finish(Exec(h, p[j].op, VmArgs(p, j), s.(pc := AddressIn(p, j + 1))), p[j].line)
  {
    hide ArgsCounted, PassesParser, Exec, Fetch, CurrentLine, TotalSize, Compile, AddressIn, VmArgs, ArityOk;
    FetchAt(p, j);
  }

  /** Where the VM executes statement j, the effect is the source machine's, unless it strays. */
  lemma InstrSimulated(h: Host, p: seq<Stmt>, j: nat, s: State)
    requires Compilable(p) && j < |p| && p[j].Instr? && ArityOk(p[j].op, |p[j].args|)
    requires var op, a, lit := p[j].op, p[j].args, JumpLiteral(p[j].op, p[j].args);
      lit.Some? ==> Aligned(p, LiteralTarget(op, lit.value)) || !Jumps(h, op, SourceArgs(p, op, a), s)
    ensures var f, op := Addresses(p), p[j].op;
      Exec(h, op, VmArgs(p, j), MapState(f, s)) == MapEffect(f, Exec(h, op, SourceArgs(p, op, p[j].args), s))
  {
    hide Exec, AddressIn, Position, Jumps, Compilable, VmArgs, TotalSize, MapState;
    var f, op, a, b := Addresses(p), p[j].op, p[j].args, VmArgs(p, j);
    var c := SourceArgs(p, op, a);
    VmArgsResolved(p, j);
    AddressOfZero(p);
    var lit := JumpLiteral(op, a);
    if lit.None? {
      assert b == MapArgs(f, c);
    } else {
      var target := LiteralTarget(op, lit.value);
      var pos := Position(p, target);
      if Aligned(p, target) { PositionIs(p, target); }
      JumpsCommutes(f, h, op, c, b, s);
      ExecRetarget(h, op, b, MapState(f, s), f(pos));
      assert Retarget(op, b, f(pos)) == MapArgs(f, c);
    }
    ExecCommutes(f, h, op, c, s);
  }

  /** The commuting square: from corresponding states, one VM step and one source step reach corresponding states
      with the same outcome, including the reported source line. */
  lemma StepSimulated(h: Host, p: seq<Stmt>, s: State)
    requires Compilable(p) && !Strays(h, p, s)
    ensures VmStep(h, Compile(p).value, MapState(Addresses(p), s)) == MapStep(Addresses(p), SourceStep(h, p, s))
  {
    hide PassesParser, Exec, CurrentLine, Dispatch, TotalSize, Compile, AddressIn, SourceArgs, Jumps, VmArgs;
    var f, j := Addresses(p), NextInstr(p, s.pc);
    NextAt(p, s.pc);
    if s.halted || j == |p| {
      CodeSize(p);
      DispatchCommutes(f, s);
    } else {
      var t := s.(pc := j + 1);
      StepAt(h, p, MapState(f, s), j);
      ParserArityPassesVm(p[j].op, |p[j].args|);
      InstrSimulated(h, p, j, t);
      assert MapState(f, s).(pc := f(j + 1)) == MapState(f, t);
    }
  }

  ghost function AlignedAddress(p: seq<Stmt>): nat -> bool {
    (x: nat) => Aligned(p, x)
  }

  lemma MappedIsAligned(p: seq<Stmt>, s: State)
    ensures AllPositions(AlignedAddress(p), MapState(Addresses(p), s))
  {
    hide AddressIn;
    assert forall i: nat :: Aligned(p, Addresses(p)(i));
  }

  /** A step that strays leads to a state with a position inside an instruction. */
  lemma StrayLeaves(h: Host, p: seq<Stmt>, s: State)
    requires Compilable(p) && Strays(h, p, s)
    ensures !AllPositions(AlignedAddress(p), VmStep(h, Compile(p).value, MapState(Addresses(p), s)).s)
  {
    hide PassesParser, Exec, VmStep, TotalSize, Compile, AddressIn, Jumps, VmArgs, AllPositions, Aligned, Position;
    var f, j := Addresses(p), NextInstr(p, s.pc);
    var op, a, b := p[j].op, p[j].args, VmArgs(p, j);
    NextAt(p, s.pc);
    VmArgsResolved(p, j);
    var t := s.(pc := j + 1);
    JumpsCommutes(f, h, op, SourceArgs(p, op, a), b, t);
    StepAt(h, p, MapState(f, s), j);
    assert MapState(f, s).(pc := f(j + 1)) == MapState(f, t);
    JumpLands(AlignedAddress(p), h, op, b, MapState(f, t));
  }

  /** The VM's step ends in a state of the source machine if and only if it does not jump into an instruction. */
  lemma StepSimulatedExactly(h: Host, p: seq<Stmt>, s: State)
    requires Compilable(p)
    ensures (exists t: State :: VmStep(h, Compile(p).value, MapState(Addresses(p), s)).s == MapState(Addresses(p), t))
      <==> !Strays(h, p, s)
  {
    hide VmStep, Strays, MapState, AllPositions;
    if Strays(h, p, s) {
      StrayLeaves(h, p, s);
      forall t: State ensures VmStep(h, Compile(p).value, MapState(Addresses(p), s)).s != MapState(Addresses(p), t) {
        MappedIsAligned(p, t);
      }
    } else {
      StepSimulated(h, p, s);
    }
  }

  // ----- Runs -----

  /** Whole runs: until a step strays, the VM is where the source machine is. */
  lemma {:induction false} RunSimulated(h: Host, p: seq<Stmt>, s: State, n: nat)
    requires Compilable(p) && !StraysBefore(h, p, s, n)
    ensures After(h, Compile(p).value, MapState(Addresses(p), s), n) == MapState(Addresses(p), SourceAfter(h, p, s, n))
  {
    hide VmStep, SourceStep, Compile, TotalSize, MapState, Strays;
    if n > 0 {
      RunSimulated(h, p, s, n - 1);
      StepSimulated(h, p, SourceAfter(h, p, s, n - 1));
    }
  }

  /** And every step returns what the source machine's step returns. */
  lemma OutcomesSimulated(h: Host, p: seq<Stmt>, s: State, n: nat)
    requires Compilable(p) && n > 0 && !StraysBefore(h, p, s, n)
    ensures OutcomeOf(h, Compile(p).value, MapState(Addresses(p), s), n)
      == SourceStep(h, p, SourceAfter(h, p, s, n - 1)).outcome
  {
    hide VmStep, SourceStep, Compile, TotalSize, MapState, Strays;
    RunSimulated(h, p, s, n - 1);
    StepSimulated(h, p, SourceAfter(h, p, s, n - 1));
  }

  /** If no literal points into an instruction, no step ever strays. */
  lemma AlignedNeverStrays(h: Host, p: seq<Stmt>, s: State)
    requires ArgsCounted(p) && LiteralsAligned(p)
    ensures !Strays(h, p, s)
  {
    hide Aligned, Jumps;
  }

  /** The code positions of all states of a run stay clear of the middle of instructions exactly as long as no step
      strays. */
  lemma RunAlignedExactly(h: Host, p: seq<Stmt>, s: State, n: nat)
    requires Compilable(p)
    ensures (forall k: nat :: k <= n ==>
        AllPositions(AlignedAddress(p), After(h, Compile(p).value, MapState(Addresses(p), s), k)))
      <==> !StraysBefore(h, p, s, n)
  {
    hide ArgsCounted, PassesParser, VmStep, SourceStep, Compile, TotalSize, MapState, Strays, AllPositions;
    var img, t := Compile(p).value, MapState(Addresses(p), s);
    if StraysBefore(h, p, s, n) {
      var k := FirstStray(h, p, s, n);
      RunSimulated(h, p, s, k);
      StrayLeaves(h, p, SourceAfter(h, p, s, k));
      assert !AllPositions(AlignedAddress(p), After(h, img, t, k + 1));
    } else {
      forall k: nat | k <= n ensures AllPositions(AlignedAddress(p), After(h, img, t, k)) {
        RunSimulated(h, p, s, k);
        MappedIsAligned(p, SourceAfter(h, p, s, k));
      }
    }
  }

  lemma {:induction false} FirstStray(h: Host, p: seq<Stmt>, s: State, n: nat) returns (k: nat)
    requires ArgsCounted(p) && StraysBefore(h, p, s, n)
    ensures k < n && Strays(h, p, SourceAfter(h, p, s, k)) && !StraysBefore(h, p, s, k)
  {
    hide Strays, SourceAfter;
    if StraysBefore(h, p, s, n - 1) { k := FirstStray(h, p, s, n - 1); } else { k := n - 1; }
  }

  // ----- Instruction boundaries -----

  ghost function Boundary(p: seq<Stmt>): nat -> bool {
    (x: nat) => IsBoundary(p, x)
  }

  /** pc, every return address and every handler is the address of a statement or the end of the code. */
  ghost predicate AtBoundaries(p: seq<Stmt>, s: State) {
    AllPositions(Boundary(p), s)
  }

  ghost predicate KeepsBoundaries(h: Host, p: seq<Stmt>)
    requires Compile(p).Success?
  {
    forall s: State :: AtBoundaries(p, s) ==> AtBoundaries(p, VmStep(h, Compile(p).value, s).s)
  }

  /** An operand that is not a variable has one value. */
  predicate CanHold(o: Arg, v: Value) {
    o.Var? || v == Eval(Fresh(), o)
  }

  /** No values of the two operands take the branch. */
  ghost predicate NeverTaken(h: Host, op: Opcode, a: Arg, b: Arg) {
    forall v: Value, w: Value ::
      CanHold(a, v) && CanHold(b, w) && (a.Var? && b.Var? && a.text == b.text ==> v == w) ==> !Taken(h, op, v, w)
  }

  /** A jump literal is harmless if it is a boundary, or if its branch cannot be taken. */
  ghost predicate Harmless(h: Host, p: seq<Stmt>, st: Stmt) {
    st.Instr? ==>
      var lit := JumpLiteral(st.op, st.args);
      lit.Some? ==>
        || IsBoundary(p, LiteralTarget(st.op, lit.value))
        || (IsBranch(st.op) && |st.args| >= 2
            && NeverTaken(h, st.op, SourceArg(p, st.args[0]), SourceArg(p, st.args[1])))
  }

  ghost predicate LiteralsHarmless(h: Host, p: seq<Stmt>) {
    forall i :: 0 <= i < |p| ==> Harmless(h, p, p[i])
  }

  /** A boundary before the end of the code is the address of an instruction. */
  lemma InstrAtBoundary(p: seq<Stmt>, addr: nat) returns (j: nat)
    requires IsBoundary(p, addr) && addr < TotalSize(p)
    ensures j < |p| && p[j].Instr? && AddressIn(p, j) == addr
  {
    hide TotalSize, AddressIn;
    var i :| 0 <= i <= |p| && AddressIn(p, i) == addr;
    NextAt(p, i);
    AddressOfEnd(p);
    j := NextInstr(p, i);
  }

  lemma ZeroIsBoundary(p: seq<Stmt>)
    ensures IsBoundary(p, 0)
  {
    AddressOfZero(p);
  }

  lemma NotTaken(h: Host, op: Opcode, a: seq<Arg>, b: seq<Arg>, f: Renaming, s: State)
    requires ArityOk(op, |b|) && IsBranch(op) && |a| == |b| && NeverTaken(h, op, a[0], a[1])
    requires b[0] == MapArg(f, a[0]) && b[1] == MapArg(f, a[1])
    ensures !Jumps(h, op, b, s)
  {
    hide Taken;
    assert CanHold(a[0], Eval(s, b[0])) && CanHold(a[1], Eval(s, b[1]));
  }

  /** Executing statement j keeps to boundaries if its literal is harmless. */
  lemma InstrKeepsBoundaries(h: Host, p: seq<Stmt>, j: nat, s: State)
    requires Compilable(p) && j < |p| && p[j].Instr? && Harmless(h, p, p[j]) && AtBoundaries(p, s)
    ensures AtBoundaries(p, Exec(h, p[j].op, VmArgs(p, j), s).s)
  {
    hide ArgsCounted, PassesParser, Exec, AddressIn, Compilable, VmArgs, TotalSize, Jumps, AllPositions,
      NeverTaken, IsBoundary;
    var P, op, a, b := Boundary(p), p[j].op, p[j].args, VmArgs(p, j);
    VmArgsResolved(p, j);
    ZeroIsBoundary(p);
    var lit := JumpLiteral(op, b);
    if lit.None? {
      ExecKeepsPositions(P, h, op, b, s);
    } else {
      var target := LiteralTarget(op, lit.value);
      if !IsBoundary(p, target) { NotTaken(h, op, PlainArgs(p, a), b, Addresses(p), s); }
      var pos := if IsBoundary(p, target) then target else 0;
      ExecRetarget(h, op, b, s, pos);
      ExecKeepsPositions(P, h, op, Retarget(op, b, pos), s);
    }
  }

  function PlainArgs(p: seq<Stmt>, a: seq<Operand<Text>>): (r: seq<Arg>)
    ensures |r| == |a| && forall k :: 0 <= k < |a| ==> r[k] == SourceArg(p, a[k])
  {
    seq(|a|, k requires 0 <= k < |a| => SourceArg(p, a[k]))
  }

  lemma StepKeepsBoundaries(h: Host, p: seq<Stmt>, s: State)
    requires Compilable(p) && LiteralsHarmless(h, p) && AtBoundaries(p, s)
    ensures AtBoundaries(p, VmStep(h, Compile(p).value, s).s)
    ensures var o := VmStep(h, Compile(p).value, s).outcome; o.Failed? ==> o.fault.Located? || o.fault.EventQueueFull?
  {
    hide ArgsCounted, PassesParser, Exec, Fetch, CurrentLine, TotalSize, Dispatch, Compile, AddressIn, VmArgs,
      IsBoundary, Harmless;
    ZeroIsBoundary(p);
    CodeSize(p);
    if s.halted || s.pc >= |Compile(p).value.code| {
      DispatchKeepsPositions(Boundary(p), s);
    } else {
      hide VmStep;
      var j := InstrAtBoundary(p, s.pc);
      StepAt(h, p, s, j);
      AddressIsBoundary(p, j + 1);
      InstrKeepsBoundaries(h, p, j, s.(pc := AddressIn(p, j + 1)));
    }
  }

  /** Globals in which the operands a and b have the values v and w. */
  function Holding(a: Arg, v: Value, b: Arg, w: Value): State {
    Fresh().(globals := (if a.Var? then [Binding(a.text, v)] else []) + (if b.Var? then [Binding(b.text, w)] else []))
  }

  lemma HoldingHolds(a: Arg, v: Value, b: Arg, w: Value, pc: nat)
    requires CanHold(a, v) && CanHold(b, w) && (a.Var? && b.Var? && a.text == b.text ==> v == w)
    ensures var s := Holding(a, v, b, w).(pc := pc); Eval(s, a) == v && Eval(s, b) == w
  {
    var t := Holding(a, v, b, w).globals;
    if a.Var? && b.Var? {
      assert t[1..][0] == Binding(b.text, w);
    }
  }

  /** A state at a boundary from which a harmful literal is used. */
  lemma HarmfulState(h: Host, p: seq<Stmt>, j: nat) returns (s: State)
    requires Compilable(p) && j < |p| && !Harmless(h, p, p[j])
    ensures AtBoundaries(p, s) && !s.halted && s.pc == AddressIn(p, j)
    ensures forall pc :: Jumps(h, p[j].op, VmArgs(p, j), s.(pc := pc))
  {
    hide AddressIn, Compilable, VmArgs, TotalSize, Taken, IsBoundary;
    var op, a, b := p[j].op, p[j].args, VmArgs(p, j);
    VmArgsResolved(p, j);
    s := Fresh().(pc := AddressIn(p, j));
    if IsBranch(op) {
      var x, y := SourceArg(p, a[0]), SourceArg(p, a[1]);
      var v: Value, w: Value :| CanHold(x, v) && CanHold(y, w) && (x.Var? && y.Var? && x.text == y.text ==> v == w)
        && Taken(h, op, v, w);
      s := Holding(x, v, y, w).(pc := AddressIn(p, j));
      forall pc: nat ensures Jumps(h, op, b, s.(pc := pc)) { HoldingHolds(x, v, y, w, pc); }
    }
    AddressIsBoundary(p, j);
  }

  lemma HarmfulBreaks(h: Host, p: seq<Stmt>, j: nat)
    requires Compilable(p) && j < |p| && !Harmless(h, p, p[j])
    ensures !KeepsBoundaries(h, p)
  {
    hide ArgsCounted, PassesParser, Exec, VmStep, TotalSize, Compile, AddressIn, Jumps, VmArgs, AllPositions,
      IsBoundary, NeverTaken;
    var s := HarmfulState(h, p, j);
    StepAt(h, p, s, j);
    VmArgsResolved(p, j);
    JumpLands(Boundary(p), h, p[j].op, VmArgs(p, j), s.(pc := AddressIn(p, j + 1)));
    assert AtBoundaries(p, s) && !AtBoundaries(p, VmStep(h, Compile(p).value, s).s);
  }

  /** Every step from every state at instruction boundaries ends at instruction boundaries if and only if every jump
      literal of the program is harmless. */
  lemma BoundariesKeptExactly(h: Host, p: seq<Stmt>)
    requires Compilable(p)
    ensures KeepsBoundaries(h, p) <==> LiteralsHarmless(h, p)
  {
    hide Harmless, VmStep, AtBoundaries;
    if LiteralsHarmless(h, p) {
      forall s: State | AtBoundaries(p, s) ensures AtBoundaries(p, VmStep(h, Compile(p).value, s).s) {
        StepKeepsBoundaries(h, p, s);
      }
    } else {
      var j :| 0 <= j < |p| && !Harmless(h, p, p[j]);
      HarmfulBreaks(h, p, j);
    }
  }

  lemma FreshAtBoundaries(p: seq<Stmt>)
    ensures AtBoundaries(p, Fresh())
  {
    ZeroIsBoundary(p);
  }

  /** So in every state such a program reaches, every stored code position is an instruction boundary or the end of the
      code, and no step fails to decode an instruction. */
  lemma {:induction false} ReachableAtBoundaries(h: Host, p: seq<Stmt>, n: nat)
    requires Compilable(p) && LiteralsHarmless(h, p)
    ensures AtBoundaries(p, After(h, Compile(p).value, Fresh(), n))
    ensures n > 0 ==> (var o := OutcomeOf(h, Compile(p).value, Fresh(), n);
      o.Failed? ==> o.fault.Located? || o.fault.EventQueueFull?)
  {
    hide Compile, TotalSize, VmStep, Harmless, AtBoundaries;
    if n == 0 {
      FreshAtBoundaries(p);
    } else {
      ReachableAtBoundaries(h, p, n - 1);
      StepKeepsBoundaries(h, p, After(h, Compile(p).value, Fresh(), n - 1));
    }
  }

  // ----- Literals that are not harmless -----

  /** JMP 1, IF_EQ 0 0 1 and EVENT_BIND "" 1 all compile, and all point inside themselves. */
  function StrayProgram(op: Opcode): seq<Stmt> {
    [Instr(1, op, if op == JMP then [Int(1)] else if op == IF_EQ then [Int(0), Int(0), Int(1)] else [Str([]), Int(1)])]
  }

  lemma {:induction false} SmallOperands(a: seq<Operand<Text>>)
    requires forall k :: 0 <= k < |a| && (a[k].Str? || a[k].Var?) ==> |a[k].text| <= 2
    ensures OperandsSize(a) <= 5 * |a|
  {
    if a != [] { SmallOperands(a[1..]); }
  }

  lemma StrayProgramSize(op: Opcode)
    requires op == JMP || op == IF_EQ || op == EVENT_BIND
    ensures var p := StrayProgram(op); 2 < TotalSize(p) < 100 && !IsBoundary(p, 1)
  {
    var p := StrayProgram(op);
    assert p[..|p| - 1] == [];
    SmallOperands(p[0].args);
    InsideFirst(p);
  }

  lemma InsideFirst(p: seq<Stmt>)
    requires |p| == 1 && TotalSize(p) > 1
    ensures !IsBoundary(p, 1)
  {
    hide TotalSize;
    AddressOfZero(p);
    AddressOfEnd(p);
  }

  lemma StrayProgramCompiles(op: Opcode)
    requires op == JMP || op == IF_EQ || op == EVENT_BIND
    ensures Compilable(StrayProgram(op)) && !IsBoundary(StrayProgram(op), 1)
  {
    hide Compile, TotalSize, IsBoundary;
    var p := StrayProgram(op);
    StrayProgramSize(op);
    CompileAccepts(p);
    assert Accepted(p);
    RowOfIs(op);
    RowAgrees(RowOf(op));
  }

  lemma FreshJumps(h: Host, op: Opcode, a: seq<Arg>, pc: nat)
    requires ArityOk(op, |a|)
    requires op == JMP || (op == IF_EQ && a[0] == a[1] == Int(0)) || op == EVENT_BIND
    ensures Jumps(h, op, a, Fresh().(pc := pc))
  {
  }

  lemma LiteralsMiss(h: Host, op: Opcode)
    requires op == JMP || op == IF_EQ || op == EVENT_BIND
    ensures var p := StrayProgram(op); Compilable(p) && !KeepsBoundaries(h, p)
    ensures var p := StrayProgram(op); !AtBoundaries(p, VmStep(h, Compile(p).value, Fresh()).s)
  {
    hide Exec, VmStep, TotalSize, Compile, AddressIn, VmArgs, AllPositions, IsBoundary, Jumps, PassesParser;
    var p := StrayProgram(op);
    StrayProgramCompiles(op);
    FreshAtBoundaries(p);
    AddressOfZero(p);
    StepAt(h, p, Fresh(), 0);
    VmArgsResolved(p, 0);
    var t := Fresh().(pc := AddressIn(p, 1));
    FreshJumps(h, op, VmArgs(p, 0), t.pc);
    JumpLands(Boundary(p), h, op, VmArgs(p, 0), t);
    assert AtBoundaries(p, Fresh()) && !AtBoundaries(p, VmStep(h, Compile(p).value, Fresh()).s);
  }

  // ----- Labels -----

  /** A label operand stands for the position where it is declared. */
  lemma LabelArg(p: seq<Stmt>, j: nat, k: nat)
    requires Compilable(p) && j < |p| && p[j].Instr? && k < |p[j].args| && p[j].args[k].Addr?
    ensures var o := SourceArgs(p, p[j].op, p[j].args)[k];
      o.Addr? && o.addr.pos < |p| && p[o.addr.pos] == Label(p[j].args[k].addr)
  {
    hide PassesParser, TotalSize, Compile, Position, Pc, LiteralTarget;
    CompileAccepts(p);
    assert Encodable(p, p[j].args[k]);
  }

  lemma Counted(p: seq<Stmt>, j: nat)
    requires Compilable(p) && j < |p| && p[j].Instr?
    ensures ArgsCounted(p) && ArityOk(p[j].op, |p[j].args|)
  {
    hide PassesParser, TotalSize, Compile, ArityOk, CleanTexts;
    ParserArityPassesVm(p[j].op, |p[j].args|);
  }

  lemma SourceStepIs(h: Host, p: seq<Stmt>, s: State)
    requires Compilable(p) && !s.halted && NextInstr(p, s.pc) < |p|
    ensures var j := NextInstr(p, s.pc); var op, a := p[j].op, p[j].args;
      && ArgsCounted(p) && ArityOk(op, |a|)
      && SourceStep(h, p, s) == Finish(Exec(h, op, SourceArgs(p, op, a), s.(pc := j + 1)), p[j].line)
  {
    hide Compilable, ArgsCounted, SourceArgs, Exec, ArityOk, Finish;
    Counted(p, NextInstr(p, s.pc));
  }

  lemma GotoExec(h: Host, op: Opcode, a: seq<Arg>, s: State)
    requires ArityOk(op, |a|) && a != [] && a[0].Addr? && (op == JMP || (op == CALL && |s.frames| < 128))
    ensures Exec(h, op, a, s)
      == Done(s.(pc := a[0].addr.pos, frames := s.frames + if op == CALL then [Frame(s.pc, [])] else []))
  {
    hide Exec, ArityOk;
    if op == JMP { JumpExec(h, a, s); } else { CallExec(h, a, s); }
    assert s.frames + [] == s.frames;
  }

  /** In the source machine a CALL of a label, at a depth below 128, and a JMP to it go on at the label; the CALL pushes
      a frame that returns to the statement after it. */
  lemma GoesToLabel(h: Host, p: seq<Stmt>, s: State)
    requires Compilable(p) && !s.halted && NextInstr(p, s.pc) < |p|
    requires var st := p[NextInstr(p, s.pc)];
      && st.args != [] && st.args[0].Addr? && (st.op == JMP || (st.op == CALL && |s.frames| < 128))
    ensures var j, r := NextInstr(p, s.pc), SourceStep(h, p, s);
      && r.outcome == Ran && r.s.pc < |p| && p[r.s.pc] == Label(p[j].args[0].addr)
      && r.s == s.(pc := r.s.pc, frames := s.frames + if p[j].op == CALL then [Frame(j + 1, [])] else [])
  {
    hide Compilable, ArgsCounted, SourceArgs, Exec, ArityOk, SourceStep, NextInstr;
    var j := NextInstr(p, s.pc);
    SourceStepIs(h, p, s);
    LabelArg(p, j, 0);
    GotoExec(h, p[j].op, SourceArgs(p, p[j].op, p[j].args), s.(pc := j + 1));
  }

  // ----- Destination operands -----

  /** The operand an opcode stores its result in. */
  function DestOperand(op: Opcode): Option<nat> {
    if IsBinary(op) || IsUnary(op) || op == STORE || op == SUBSTR then Some(0)
    else if op == HEAP_LOAD || op == SPAN_READ_U8 || op == ARRAY_LEN then Some(0)
    else if op == HEAP_ALLOC || op == ARRAY_CREATE || op == SPAN_CREATE || op == FILE_READ || op == INPUT then Some(1)
    else if op == ENTITY_SPAWN then Some(4)
    else None
  }

  /** The destination, if there is one, is a variable (or a string, which names one too). */
  predicate DestNamed<A>(op: Opcode, a: seq<Operand<A>>) {
    match DestOperand(op)
    case None => true
    case Some(d) => d < |a| && (a[d].Var? || a[d].Str?)
  }

  predicate NullName(e: Effect) {
    e.Fail? && e.msg.NullName?
  }

  lemma HeapNamesDest(h: Host, op: Opcode, a: seq<Arg>, s: State)
    requires IsHeapOp(op) && ArityOk(op, |a|) && DestNamed(op, a)
    ensures !NullName(ExecHeap(h, op, a, s))
  {
    hide Eval, SlotOf, FirstVacant, Drawable, Renders, TrySetVar, ToInt;
  }

  lemma ExecNamesDest(h: Host, op: Opcode, a: seq<Arg>, s: State)
    requires ArityOk(op, |a|) && DestNamed(op, a)
    ensures !NullName(Exec(h, op, a, s))
  {
    hide Eval, EvalAll, TrySetVar, SetVar, Binary, Unary, Taken, SubString, ExecHeap, BindEvent, Dispatch, ToText;
    if IsHeapOp(op) {
      HeapNamesDest(h, op, a, s);
    } else if IsBinary(op) {
      BinaryNeverNull(h, op, Eval(s, a[1]), Eval(s, a[2]));
    } else if IsUnary(op) {
      UnaryNeverNull(h, op, Eval(s, a[1]));
    }
  }

  lemma BinaryNeverNull(h: Host, op: Opcode, a: Value, b: Value)
    ensures Binary(h, op, a, b) != Failure(Msg.NullName)
  {
    hide Quotient, IntResult, Repeated, ToInt, ToFloat;
  }

  lemma UnaryNeverNull(h: Host, op: Opcode, v: Value)
    ensures Unary(h, op, v) != Failure(Msg.NullName)
  {
  }

  lemma VmDestNamed(p: seq<Stmt>, j: nat)
    requires Compilable(p) && j < |p| && p[j].Instr? && DestNamed(p[j].op, p[j].args)
    ensures DestNamed(p[j].op, VmArgs(p, j))
  {
    hide Compilable, VmArgs, IsBoundary, DestOperand, AddressIn, LabelPosition, Pc, SourceArgs;
    VmArgsResolved(p, j);
  }

  /** If every destination names a variable, no step from an instruction boundary reads a missing name. */
  lemma NamesNeverMissing(h: Host, p: seq<Stmt>, s: State)
    requires Compilable(p) && (s.pc < TotalSize(p) ==> IsBoundary(p, s.pc))
    requires forall i :: 0 <= i < |p| && p[i].Instr? ==> DestNamed(p[i].op, p[i].args)
    ensures var o := VmStep(h, Compile(p).value, s).outcome; !(o.Failed? && o.fault.Located? && o.fault.msg.NullName?)
  {
    hide PassesParser, ArgsCounted, Exec, Fetch, CurrentLine, TotalSize, Dispatch, Compile, AddressIn, VmArgs,
      IsBoundary, DestNamed, ArityOk;
    CodeSize(p);
    if !s.halted && s.pc < |Compile(p).value.code| {
      hide VmStep;
      var j := InstrAtBoundary(p, s.pc);
      StepAt(h, p, s, j);
      VmDestNamed(p, j);
      ExecNamesDest(h, p[j].op, VmArgs(p, j), s.(pc := AddressIn(p, j + 1)));
    }
  }
}
