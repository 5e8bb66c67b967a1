/** What scml_compile_files (compiler/compiler.c) computes: label and line tables, addresses, and code. */
module Layout {
  import opened Bytes
  import opened Program
  import opened Encoding

  datatype LabelEntry = LabelEntry(name: Text, addr: uint32)
  datatype LineEntry = LineEntry(pc: uint32, line: uint32)
  datatype Image = Image(code: seq<byte>, lines: seq<LineEntry>, labels: seq<LabelEntry>)

  datatype CompileError = DuplicateLabel(name: Text) | Unresolved(name: Text) | TextTooLong | LabelTooLong

  /** The statements of all source files, in order. */
  function Flat(sources: seq<seq<Stmt>>): seq<Stmt> {
    if sources == [] then [] else Flat(sources[..|sources| - 1]) + sources[|sources| - 1]
  }

  // ----- Sizes and addresses -----

  function OperandsSize<A>(a: seq<Operand<A>>): nat {
    if a == [] then 0
    else (if a[0].Str? || a[0].Var? then 3 + |a[0].text| else 5) + OperandsSize(a[1..])
  }

  /** stmt_size. */
  function Size(st: Stmt): nat {
    match st case Label(_) => 0 case Instr(_, _, args) => 2 + OperandsSize(args)
  }

  function TotalSize(p: seq<Stmt>): nat {
    if p == [] then 0 else TotalSize(p[..|p| - 1]) + Size(p[|p| - 1])
  }

  /** The compiler's 32-bit pc after the statements p. */
  function Pc(p: seq<Stmt>): uint32 {
    TotalSize(p) % 0x1_0000_0000
  }

  // ----- Pass one: tables -----

  function LabelIndex(t: seq<LabelEntry>, name: Text): (i: nat)
    ensures i <= |t| && (i < |t| ==> t[i].name == name)
    ensures forall j :: 0 <= j < i ==> t[j].name != name
  {
    if t == [] || t[0].name == name then 0 else 1 + LabelIndex(t[1..], name)
  }

  function Labels(p: seq<Stmt>): Result<seq<LabelEntry>, CompileError> {
    if p == [] then Success([])
    else
      var before := p[..|p| - 1];
      match Labels(before)
      case Failure(e) => Failure(e)
      case Success(t) =>
        match p[|p| - 1]
        case Instr(_, _, _) => Success(t)
        case Label(n) =>
          if LabelIndex(t, n) < |t| then Failure(DuplicateLabel(n)) else Success(t + [LabelEntry(n, Pc(before))])
  }

  function Lines(p: seq<Stmt>): seq<LineEntry> {
    if p == [] then []
    else
      var before := p[..|p| - 1];
      match p[|p| - 1]
      case Label(_) => Lines(before)
      case Instr(line, _, _) => Lines(before) + [LineEntry(Pc(before), line)]
  }

  // ----- Pass two: code -----

  function EmitOperand(t: seq<LabelEntry>, o: Operand<Text>): (r: Result<CodeOperand, CompileError>)
    ensures r.Success? ==> TextFits(r.value)
  {
    match o
    case Int(i) => Success(Int(i))
    case Float(f) => Success(Float(f))
    case Addr(n) => var i := LabelIndex(t, n); if i < |t| then Success(Addr(t[i].addr)) else Failure(Unresolved(n))
    case Str(s) => if |s| > TEXT_MAX then Failure(TextTooLong) else Success(Str(s))
    case Var(s) => if |s| > TEXT_MAX then Failure(TextTooLong) else Success(Var(s))
  }

  function EmitOperands(t: seq<LabelEntry>, a: seq<Operand<Text>>): (r: Result<seq<CodeOperand>, CompileError>)
    ensures r.Success? ==> |r.value| == |a| && TextsFit(r.value)
    ensures r.Success? ==> forall i :: 0 <= i < |a| ==> EmitOperand(t, a[i]) == Success(r.value[i])
  {
    if a == [] then Success([])
    else
      match EmitOperands(t, a[..|a| - 1])
      case Failure(e) => Failure(e)
      case Success(os) =>
        match EmitOperand(t, a[|a| - 1])
        case Failure(e) => Failure(e)
        case Success(o) => Success(os + [o])
  }

  function EmitStmt(t: seq<LabelEntry>, st: Stmt): Result<seq<byte>, CompileError> {
    match st
    case Label(_) => Success([])
    case Instr(_, op, args) =>
      match EmitOperands(t, args)
      case Failure(e) => Failure(e)
      case Success(os) => Success(EncodeInstr(op, os))
  }

  function Emit(t: seq<LabelEntry>, p: seq<Stmt>): Result<seq<byte>, CompileError> {
    if p == [] then Success([])
    else
      match Emit(t, p[..|p| - 1])
      case Failure(e) => Failure(e)
      case Success(bs) =>
        match EmitStmt(t, p[|p| - 1])
        case Failure(e) => Failure(e)
        case Success(more) => Success(bs + more)
  }

  predicate NamesFit(t: seq<LabelEntry>) {
    forall i :: 0 <= i < |t| ==> |t[i].name| <= TEXT_MAX
  }

  function Compile(p: seq<Stmt>): Result<Image, CompileError> {
    match Labels(p)
    case Failure(e) => Failure(e)
    case Success(t) =>
      match Emit(t, p)
      case Failure(e) => Failure(e)
      case Success(code) => if NamesFit(t) then Success(Image(code, Lines(p), t)) else Failure(LabelTooLong)
  }

  // ----- What is accepted -----

  ghost predicate UniqueLabels(p: seq<Stmt>) {
    forall i, j :: 0 <= i < j < |p| && p[i].Label? && p[j].Label? ==> p[i].name != p[j].name
  }

  ghost predicate Encodable(p: seq<Stmt>, o: Operand<Text>) {
    (o.Addr? ==> Label(o.addr) in p) && TextFits(o)
  }

  ghost predicate AllEncodable(p: seq<Stmt>, q: seq<Stmt>) {
    forall i, j :: 0 <= i < |q| && q[i].Instr? && 0 <= j < |q[i].args| ==> Encodable(p, q[i].args[j])
  }

  ghost predicate Accepted(p: seq<Stmt>) {
    && UniqueLabels(p)
    && AllEncodable(p, p)
    && forall n :: Label(n) in p ==> |n| <= TEXT_MAX
  }

  lemma {:induction false} IndexAppend(t: seq<LabelEntry>, e: LabelEntry, n: Text)
    ensures LabelIndex(t + [e], n) ==
      if LabelIndex(t, n) < |t| then LabelIndex(t, n) else if e.name == n then |t| else |t| + 1
  {
    var i, j, u := LabelIndex(t, n), LabelIndex(t + [e], n), t + [e];
    assert i < |t| ==> u[i].name == n;
    assert u[|t|] == e;
    assert j < |t| ==> t[j] == u[j];
  }

  lemma UniqueAppend(before: seq<Stmt>, last: Stmt)
    ensures UniqueLabels(before + [last]) <==> UniqueLabels(before) && (last.Label? ==> last !in before)
  {
    var p := before + [last];
    assert forall i :: 0 <= i < |before| ==> p[i] == before[i];
    assert p[|before|] == last;
    if last.Label? && last in before {
      var i :| 0 <= i < |before| && before[i] == last;
      assert p[i].Label? && p[i].name == p[|before|].name;
    }
    if UniqueLabels(p) {
      forall i, j | 0 <= i < j < |before| && before[i].Label? && before[j].Label?
        ensures before[i].name != before[j].name
      {
        assert p[i].name != p[j].name;
      }
    }
  }

  /** The first pass succeeds exactly on unique labels, and its table then holds exactly the labels declared. */
  lemma {:induction false} LabelsExact(p: seq<Stmt>)
    ensures Labels(p).Success? <==> UniqueLabels(p)
    ensures Labels(p).Failure? ==> Labels(p).error.DuplicateLabel?
    ensures Labels(p).Success? ==> forall n :: LabelIndex(Labels(p).value, n) < |Labels(p).value| <==> Label(n) in p
  {
    if p != [] {
      var before, last := p[..|p| - 1], p[|p| - 1];
      LabelsExact(before);
      assert p == before + [last];
      UniqueAppend(before, last);
      if Labels(p).Success? {
        var t, u := Labels(before).value, Labels(p).value;
        forall n ensures LabelIndex(u, n) < |u| <==> Label(n) in p {
          assert Label(n) in p <==> Label(n) in before || Label(n) == last;
          if last.Label? { IndexAppend(t, LabelEntry(last.name, Pc(before)), n); }
        }
      }
    }
  }

  /** A label's address is the total size of the statements before it, in whatever file they stand. */
  lemma {:induction false} LabelAddress(p: seq<Stmt>, i: nat)
    requires Labels(p).Success? && i < |p| && p[i].Label?
    ensures var t := Labels(p).value; var k := LabelIndex(t, p[i].name);
      k < |t| && t[k] == LabelEntry(p[i].name, Pc(p[..i]))
  {
    var before, last := p[..|p| - 1], p[|p| - 1];
    LabelsExact(p);
    assert p[i] in p;
    if i < |before| {
      LabelAddress(before, i);
      assert before[..i] == p[..i];
      if last.Label? { IndexAppend(Labels(before).value, LabelEntry(last.name, Pc(before)), p[i].name); }
    } else if last.Label? {
      IndexAppend(Labels(before).value, LabelEntry(last.name, Pc(before)), last.name);
    }
  }

  /** Every address in the table is that of a declared label. */
  lemma {:induction false} EntryDeclared(p: seq<Stmt>, k: nat)
    requires Labels(p).Success? && k < |Labels(p).value|
    ensures Label(Labels(p).value[k].name) in p
  {
    var t := Labels(p).value;
    LabelsExact(p);
    assert LabelIndex(t, t[k].name) <= k;
  }

  lemma {:induction false} OperandsEncodable(t: seq<LabelEntry>, p: seq<Stmt>, a: seq<Operand<Text>>)
    requires forall n :: LabelIndex(t, n) < |t| <==> Label(n) in p
    ensures EmitOperands(t, a).Success? <==> forall j :: 0 <= j < |a| ==> Encodable(p, a[j])
  {
    if a != [] { OperandsEncodable(t, p, a[..|a| - 1]); }
  }

  lemma StmtEncodable(t: seq<LabelEntry>, p: seq<Stmt>, st: Stmt)
    requires forall n :: LabelIndex(t, n) < |t| <==> Label(n) in p
    ensures EmitStmt(t, st).Success? <==> AllEncodable(p, [st])
  {
    if st.Instr? { OperandsEncodable(t, p, st.args); }
    assert [st][0] == st;
  }

  lemma EncodableAppend(p: seq<Stmt>, before: seq<Stmt>, last: Stmt)
    ensures AllEncodable(p, before + [last]) <==> AllEncodable(p, before) && AllEncodable(p, [last])
  {
    var q := before + [last];
    assert q[|before|] == last == [last][0];
    assert forall i :: 0 <= i < |before| ==> q[i] == before[i];
  }

  lemma {:induction false} EmitExact(t: seq<LabelEntry>, p: seq<Stmt>, q: seq<Stmt>)
    requires forall n :: LabelIndex(t, n) < |t| <==> Label(n) in p
    ensures Emit(t, q).Success? <==> AllEncodable(p, q)
  {
    hide EmitStmt;
    if q != [] {
      var before, last := q[..|q| - 1], q[|q| - 1];
      EmitExact(t, p, before);
      StmtEncodable(t, p, last);
      EncodableAppend(p, before, last);
      assert q == before + [last];
    }
  }

  /** The compiler accepts exactly unique labels, bound references, and texts and label names of at most 65535 bytes. */
  lemma CompileAccepts(p: seq<Stmt>)
    ensures Compile(p).Success? <==> Accepted(p)
    ensures !UniqueLabels(p) <==> Compile(p).Failure? && Compile(p).error.DuplicateLabel?
  {
    LabelsExact(p);
    if UniqueLabels(p) {
      var t := Labels(p).value;
      EmitExact(t, p, p);
      forall k | 0 <= k < |t| ensures Label(t[k].name) in p { EntryDeclared(p, k); }
      if Emit(t, p).Success? && NamesFit(t) {
        forall n | Label(n) in p ensures |n| <= TEXT_MAX { assert t[LabelIndex(t, n)].name == n; }
      }
      if Emit(t, p).Failure? { EmitErrors(t, p); }
    }
  }

  lemma {:induction false} EmitErrors(t: seq<LabelEntry>, q: seq<Stmt>)
    requires Emit(t, q).Failure?
    ensures !Emit(t, q).error.DuplicateLabel?
  {
    if q != [] {
      if Emit(t, q[..|q| - 1]).Failure? { EmitErrors(t, q[..|q| - 1]); }
      else { OperandErrors(t, q[|q| - 1].args); }
    }
  }

  lemma {:induction false} OperandErrors(t: seq<LabelEntry>, a: seq<Operand<Text>>)
    requires EmitOperands(t, a).Failure?
    ensures !EmitOperands(t, a).error.DuplicateLabel?
  {
    if a != [] && EmitOperands(t, a[..|a| - 1]).Failure? { OperandErrors(t, a[..|a| - 1]); }
  }

  lemma {:induction false} LabelsError(p: seq<Stmt>) returns (i: nat, j: nat)
    requires Labels(p).Failure?
    ensures Labels(p).error.DuplicateLabel? && i < j < |p| && p[i] == p[j] == Label(Labels(p).error.name)
  {
    var before, last := p[..|p| - 1], p[|p| - 1];
    if Labels(before).Failure? {
      i, j := LabelsError(before);
    } else {
      LabelsExact(before);
      assert last in before;
      i :| 0 <= i < |before| && before[i] == last;
      j := |p| - 1;
    }
  }

  lemma {:induction false} OperandsError(t: seq<LabelEntry>, a: seq<Operand<Text>>) returns (k: nat)
    requires EmitOperands(t, a).Failure?
    ensures k < |a| && EmitOperand(t, a[k]) == Failure(EmitOperands(t, a).error)
  {
    hide EmitOperand;
    if EmitOperands(t, a[..|a| - 1]).Failure? { k := OperandsError(t, a[..|a| - 1]); } else { k := |a| - 1; }
  }

  lemma {:induction false} EmitError(t: seq<LabelEntry>, p: seq<Stmt>) returns (i: nat, k: nat)
    requires Emit(t, p).Failure?
    ensures i < |p| && p[i].Instr? && k < |p[i].args| && EmitOperand(t, p[i].args[k]) == Failure(Emit(t, p).error)
  {
    hide EmitOperand;
    if Emit(t, p[..|p| - 1]).Failure? {
      i, k := EmitError(t, p[..|p| - 1]);
    } else {
      i := |p| - 1;
      k := OperandsError(t, p[i].args);
    }
  }

  /** Some operand of the program is o. */
  ghost predicate HasOperand(p: seq<Stmt>, o: Operand<Text>) {
    exists i, k :: 0 <= i < |p| && p[i].Instr? && 0 <= k < |p[i].args| && p[i].args[k] == o
  }

  /** The reported error is there: a label declared twice, a reference to no label, a text or a label name that is too
      long. */
  lemma ErrorsMean(p: seq<Stmt>) returns (o: Operand<Text>)
    requires Compile(p).Failure?
    ensures match Compile(p).error
      case DuplicateLabel(n) => exists i, j :: 0 <= i < j < |p| && p[i] == p[j] == Label(n)
      case Unresolved(n) => Label(n) !in p && HasOperand(p, Addr(n))
      case TextTooLong => HasOperand(p, o) && !TextFits(o)
      case LabelTooLong => exists n :: Label(n) in p && |n| > 65535
  {
    hide Emit, Labels, LabelIndex, Lines;
    o := Int(0);
    if Labels(p).Failure? {
      var i, j := LabelsError(p);
    } else {
      var t := Labels(p).value;
      LabelsExact(p);
      if Emit(t, p).Failure? {
        var i, k := EmitError(t, p);
        o := p[i].args[k];
      } else {
        var k :| 0 <= k < |t| && |t[k].name| > TEXT_MAX;
        EntryDeclared(p, k);
      }
    }
  }

  // ----- Where each statement's bytes are -----

  lemma {:induction false} EncodedSize(a: seq<CodeOperand>)
    requires TextsFit(a)
    ensures |EncodeOperands(a)| == OperandsSize(a)
  {
    if a != [] { EncodedSize(a[1..]); }
  }

  lemma {:induction false} ResolvedSize(t: seq<LabelEntry>, a: seq<Operand<Text>>, os: seq<CodeOperand>)
    requires |os| == |a| && forall i :: 0 <= i < |a| ==> EmitOperand(t, a[i]) == Success(os[i])
    ensures OperandsSize(os) == OperandsSize(a)
  {
    if a != [] {
      assert EmitOperand(t, a[0]) == Success(os[0]);
      ResolvedSize(t, a[1..], os[1..]);
    }
  }

  /** A statement is emitted as exactly stmt_size bytes. */
  lemma StmtEmitted(t: seq<LabelEntry>, st: Stmt)
    requires EmitStmt(t, st).Success?
    ensures |EmitStmt(t, st).value| == Size(st)
  {
    if st.Instr? {
      var os := EmitOperands(t, st.args).value;
      EncodedSize(os);
      ResolvedSize(t, st.args, os);
    }
  }

  lemma {:induction false} EmittedSize(t: seq<LabelEntry>, p: seq<Stmt>)
    requires Emit(t, p).Success?
    ensures |Emit(t, p).value| == TotalSize(p)
  {
    if p != [] {
      EmittedSize(t, p[..|p| - 1]);
      StmtEmitted(t, p[|p| - 1]);
    }
  }

  /** The code of p[..i] is followed by the bytes of p[i]. */
  lemma {:induction false} EmittedAt(t: seq<LabelEntry>, p: seq<Stmt>, i: nat)
    requires Emit(t, p).Success? && i < |p|
    ensures var code := Emit(t, p).value;
      && EmitStmt(t, p[i]).Success?
      && TotalSize(p[..i + 1]) == TotalSize(p[..i]) + Size(p[i]) <= |code|
      && code[TotalSize(p[..i])..TotalSize(p[..i + 1])] == EmitStmt(t, p[i]).value
  {
    hide EmitStmt, Size;
    var before := p[..|p| - 1];
    EmittedSize(t, before);
    EmittedSize(t, p);
    if i < |before| {
      EmittedAt(t, before, i);
      assert before[..i] == p[..i] && before[..i + 1] == p[..i + 1];
      assert Emit(t, p).value[..|Emit(t, before).value|] == Emit(t, before).value;
    } else {
      assert p[..i + 1] == p && p[..i] == before;
    }
  }

  // ----- The line table -----

  /** current_line: the scan stops at the first entry past pc. */
  function LineFrom(lines: seq<LineEntry>, pc: nat, line: uint32): uint32 {
    if lines == [] || lines[0].pc > pc then line else LineFrom(lines[1..], pc, lines[0].line)
  }

  function CurrentLine(lines: seq<LineEntry>, pc: nat): uint32 {
    LineFrom(lines, pc, 0)
  }

  lemma {:induction false} LineAppend(lines: seq<LineEntry>, e: LineEntry, pc: nat, line: uint32)
    ensures e.pc > pc ==> LineFrom(lines + [e], pc, line) == LineFrom(lines, pc, line)
    ensures e.pc <= pc && (forall i :: 0 <= i < |lines| ==> lines[i].pc <= pc) ==>
      LineFrom(lines + [e], pc, line) == e.line
    decreases |lines|
  {
    if lines == [] {
      assert lines + [e] == [e];
      assert LineFrom([e][1..], pc, e.line) == e.line;
    } else {
      assert (lines + [e])[1..] == lines[1..] + [e];
      LineAppend(lines[1..], e, pc, lines[0].line);
    }
  }

  /** Line-table addresses are strictly increasing and lie below the code size. */
  lemma {:induction false} LinesIncreasing(p: seq<Stmt>)
    requires TotalSize(p) < 0x1_0000_0000
    ensures forall i :: 0 <= i < |Lines(p)| ==> Lines(p)[i].pc < TotalSize(p)
    ensures forall i, j :: 0 <= i < j < |Lines(p)| ==> Lines(p)[i].pc < Lines(p)[j].pc
  {
    if p != [] { LinesIncreasing(p[..|p| - 1]); }
  }

  lemma {:induction false} SizesGrow(p: seq<Stmt>, i: nat)
    requires i <= |p|
    ensures TotalSize(p[..i]) <= TotalSize(p)
  {
    if i == |p| { assert p[..i] == p; }
    else {
      SizesGrow(p[..|p| - 1], i);
      assert p[..|p| - 1][..i] == p[..i];
    }
  }

  /** Every pc inside a statement's bytes is reported at that statement's source line. */
  lemma {:induction false} CurrentLineExact(p: seq<Stmt>, i: nat, pc: nat)
    requires TotalSize(p) < 0x1_0000_0000 && i < |p| && p[i].Instr?
    requires TotalSize(p[..i]) <= pc < TotalSize(p[..i + 1])
    ensures CurrentLine(Lines(p), pc) == p[i].line
  {
    hide LineFrom, OperandsSize;
    var before, last := p[..|p| - 1], p[|p| - 1];
    LinesIncreasing(before);
    if last.Instr? { LineAppend(Lines(before), LineEntry(Pc(before), last.line), pc, 0); }
    if i < |before| {
      assert before[..i] == p[..i] && before[..i + 1] == p[..i + 1];
      SizesGrow(before, i + 1);
      CurrentLineExact(before, i, pc);
    } else {
      assert p[..i] == before;
    }
  }

  /** Every byte of code belongs to exactly one instruction, and the scan reports that instruction's line. */
  lemma LineOfEveryByte(p: seq<Stmt>, pc: nat) returns (i: nat)
    requires TotalSize(p) < 0x1_0000_0000 && pc < TotalSize(p)
    ensures i < |p| && p[i].Instr? && TotalSize(p[..i]) <= pc < TotalSize(p[..i + 1])
    ensures CurrentLine(Lines(p), pc) == p[i].line
    ensures forall k :: 0 <= k < |p| && TotalSize(p[..k]) <= pc < TotalSize(p[..k + 1]) ==> k == i
  {
    i := StatementAt(p, pc);
    CurrentLineExact(p, i, pc);
    forall k | 0 <= k < |p| && TotalSize(p[..k]) <= pc < TotalSize(p[..k + 1]) ensures k == i {
      if k < i { PrefixesGrow(p, k + 1, i); } else if i < k { PrefixesGrow(p, i + 1, k); }
    }
  }

  lemma PrefixesGrow(p: seq<Stmt>, i: nat, j: nat)
    requires i <= j <= |p|
    ensures TotalSize(p[..i]) <= TotalSize(p[..j])
  {
    SizesGrow(p[..j], i);
    assert p[..j][..i] == p[..i];
  }

  lemma {:induction false} StatementAt(p: seq<Stmt>, pc: nat) returns (i: nat)
    requires pc < TotalSize(p)
    ensures i < |p| && p[i].Instr? && TotalSize(p[..i]) <= pc < TotalSize(p[..i + 1])
    decreases |p|
  {
    var before := p[..|p| - 1];
    if pc < TotalSize(before) {
      i := StatementAt(before, pc);
      assert before[..i] == p[..i] && before[..i + 1] == p[..i + 1];
    } else {
      i := |p| - 1;
      assert p[..i + 1] == p;
    }
  }
}
