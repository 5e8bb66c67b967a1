/** scml_compile_files (compiler/compiler.c): two passes over the statements of all source files. */
module Compiler {
  import opened Bytes
  import opened Program
  import opened Encoding
  import opened Layout
  import opened ImageFile

  /** The bytes of the output file, or why there is none. */
  function CompiledFile(p: seq<Stmt>): Result<seq<byte>, CompileError> {
    match Compile(p)
    case Failure(e) => Failure(e)
    case Success(img) => Success(FileBytes(img))
  }

  method FindLabel(labels: seq<LabelEntry>, name: Text) returns (i: nat)
    ensures i == LabelIndex(labels, name)
  {
    i := 0;
    while i < |labels|
      invariant i <= |labels| && LabelIndex(labels, name) == i + LabelIndex(labels[i..], name)
    {
      if labels[i].name == name { return; }
      assert labels[i..][1..] == labels[i + 1..];
      i := i + 1;
    }
  }

  /** 32-bit sums wrap. */
  lemma WrapAdd(a: nat, b: nat)
    ensures (a % 0x1_0000_0000 + b) % 0x1_0000_0000 == (a + b) % 0x1_0000_0000
    ensures (a % 0x1_0000_0000 + b % 0x1_0000_0000) % 0x1_0000_0000 == (a + b) % 0x1_0000_0000
  {
    var q := a / 0x1_0000_0000;
    assert a + b == q * 0x1_0000_0000 + (a % 0x1_0000_0000 + b);
  }

  method StmtSize(st: Stmt) returns (n: uint32)
    ensures n == Size(st) % 0x1_0000_0000
  {
    match st
    case Label(_) => n := 0;
    case Instr(_, _, args) =>
      n := 2;
      var i := 0;
      ghost var exact: nat := 2;
      while i < |args|
        invariant i <= |args| && n == exact % 0x1_0000_0000 && exact + OperandsSize(args[i..]) == Size(st)
      {
        var o := args[i];
        assert args[i..][1..] == args[i + 1..];
        var size := if o.Str? || o.Var? then 3 + |o.text| else 5;
        WrapAdd(exact, size);
        n := (n + size) % 0x1_0000_0000;
        exact := exact + size;
        i := i + 1;
      }
  }

  // ----- Failures of a prefix are failures of the whole -----

  lemma {:induction false} LabelsFailureStays(p: seq<Stmt>, k: nat)
    requires k <= |p| && Labels(p[..k]).Failure?
    ensures Labels(p) == Labels(p[..k])
  {
    if k == |p| {
      assert p[..k] == p;
    } else {
      assert p[..|p| - 1][..k] == p[..k];
      LabelsFailureStays(p[..|p| - 1], k);
    }
  }

  lemma {:induction false} EmitFailureStays(t: seq<LabelEntry>, p: seq<Stmt>, k: nat)
    requires k <= |p| && Emit(t, p[..k]).Failure?
    ensures Emit(t, p) == Emit(t, p[..k])
  {
    if k == |p| {
      assert p[..k] == p;
    } else {
      assert p[..|p| - 1][..k] == p[..k];
      EmitFailureStays(t, p[..|p| - 1], k);
    }
  }

  lemma {:induction false} OperandFailureStays(t: seq<LabelEntry>, a: seq<Operand<Text>>, k: nat)
    requires k <= |a| && EmitOperands(t, a[..k]).Failure?
    ensures EmitOperands(t, a) == EmitOperands(t, a[..k])
  {
    if k == |a| {
      assert a[..k] == a;
    } else {
      assert a[..|a| - 1][..k] == a[..k];
      OperandFailureStays(t, a[..|a| - 1], k);
    }
  }

  lemma {:induction false} FlatPrefix(sources: seq<seq<Stmt>>, k: nat, i: nat)
    requires k < |sources| && i <= |sources[k]|
    ensures var done := Flat(sources[..k]) + sources[k][..i]; done <= Flat(sources)
  {
    var last := |sources| - 1;
    if k < last {
      assert sources[..last][..k] == sources[..k];
      FlatPrefix(sources[..last], k, i);
    } else {
      assert sources[..k] == sources[..last];
    }
  }

  // ----- Pass one -----

  datatype Tables = Tables(labels: seq<LabelEntry>, lines: seq<LineEntry>)

  lemma AfterStatement(done: seq<Stmt>, st: Stmt, t: seq<LabelEntry>)
    requires Labels(done) == Success(t)
    ensures Pc(done + [st]) == (Pc(done) + Size(st) % 0x1_0000_0000) % 0x1_0000_0000
    ensures Lines(done + [st]) == if st.Label? then Lines(done) else Lines(done) + [LineEntry(Pc(done), st.line)]
    ensures Labels(done + [st]) ==
      if st.Instr? then Success(t)
      else if LabelIndex(t, st.name) < |t| then Failure(DuplicateLabel(st.name))
      else Success(t + [LabelEntry(st.name, Pc(done))])
  {
    var next := done + [st];
    assert next[..|next| - 1] == done && next[|next| - 1] == st;
    WrapAdd(TotalSize(done), Size(st));
  }

  lemma InOrder(sources: seq<seq<Stmt>>, f: nat, i: nat)
    requires f < |sources| && i < |sources[f]|
    ensures Flat(sources[..f]) + sources[f][..i] + [sources[f][i]]
      == Flat(sources[..f]) + sources[f][..i + 1] <= Flat(sources)
  {
    hide Flat;
    FlatPrefix(sources, f, i + 1);
    assert sources[f][..i + 1] == sources[f][..i] + [sources[f][i]];
  }

  lemma DuplicateFails(p: seq<Stmt>, next: seq<Stmt>)
    requires next <= p && Labels(next).Failure?
    ensures Labels(p) == Labels(next)
  {
    assert p[..|next|] == next;
    LabelsFailureStays(p, |next|);
  }

  lemma NextFile(sources: seq<seq<Stmt>>, f: nat)
    requires f < |sources|
    ensures Flat(sources[..f]) + sources[f] == Flat(sources[..f + 1])
    ensures sources[f][..|sources[f]|] == sources[f]
  {
    assert sources[..f + 1][..f] == sources[..f];
  }

  /** The compiler's variables after the statements p. */
  ghost predicate LaidOut(p: seq<Stmt>, labels: seq<LabelEntry>, lines: seq<LineEntry>, pc: uint32) {
    Labels(p) == Success(labels) && lines == Lines(p) && pc == Pc(p)
  }

  lemma StatementLaidOut(p: seq<Stmt>, st: Stmt, labels: seq<LabelEntry>, lines: seq<LineEntry>, pc: uint32)
    requires LaidOut(p, labels, lines, pc)
    ensures st.Instr? ==>
      LaidOut(p + [st], labels, lines + [LineEntry(pc, st.line)], (pc + Size(st) % 0x1_0000_0000) % 0x1_0000_0000)
    ensures st.Label? && LabelIndex(labels, st.name) == |labels| ==>
      LaidOut(p + [st], labels + [LabelEntry(st.name, pc)], lines, pc)
    ensures st.Label? && LabelIndex(labels, st.name) < |labels| ==>
      Labels(p + [st]) == Failure(DuplicateLabel(st.name))
  {
    hide Labels, Lines, TotalSize, LabelIndex;
    AfterStatement(p, st, labels);
  }

  lemma InFile(done: seq<Stmt>, items: seq<Stmt>, i: nat)
    requires i < |items|
    ensures done + items[..i] + [items[i]] == done + items[..i + 1] <= done + items
  {
  }

  /** One source file's statements. */
  method LayOutFile(ghost done: seq<Stmt>, items: seq<Stmt>, before: Tables, at: uint32)
    returns (r: Result<Tables, CompileError>, pc: uint32)
    requires LaidOut(done, before.labels, before.lines, at)
    ensures r.Failure? ==> Labels(done + items) == Failure(r.error)
    ensures r.Success? ==> LaidOut(done + items, r.value.labels, r.value.lines, pc)
  {
    var labels, lines := before.labels, before.lines;
    pc := at;
    var i := 0;
    assert done + items[..0] == done;
    hide Labels, LaidOut, LabelIndex, Size;
    while i < |items|
      invariant i <= |items| && LaidOut(done + items[..i], labels, lines, pc)
    {
      var st := items[i];
      StatementLaidOut(done + items[..i], st, labels, lines, pc);
      InFile(done, items, i);
      if st.Label? {
        var k := FindLabel(labels, st.name);
        if k < |labels| {
          DuplicateFails(done + items, done + items[..i + 1]);
          return Failure(DuplicateLabel(st.name)), pc;
        }
        labels := labels + [LabelEntry(st.name, pc)];
      } else {
        lines := lines + [LineEntry(pc, st.line)];
        var n := StmtSize(st);
        pc := (pc + n) % 0x1_0000_0000;
      }
      i := i + 1;
    }
    assert items[..i] == items;
    r := Success(Tables(labels, lines));
  }

  method LayOut(sources: seq<seq<Stmt>>) returns (r: Result<Tables, CompileError>)
    ensures var p := Flat(sources);
      match Labels(p)
      case Failure(e) => r == Failure(e)
      case Success(t) => r == Success(Tables(t, Lines(p)))
  {
    var tables, pc := Tables([], []), 0;
    ghost var done: seq<Stmt> := [];
    var f := 0;
    while f < |sources|
      invariant f <= |sources| && done == Flat(sources[..f])
      invariant LaidOut(done, tables.labels, tables.lines, pc)
    {
      NextFile(sources, f);
      var items := sources[f];
      hide Labels, Lines, Pc, Flat;
      var laid, pc' := LayOutFile(done, items, tables, pc);
      if laid.Failure? {
        FlatPrefix(sources, f, |items|);
        DuplicateFails(Flat(sources), done + items);
        return Failure(laid.error);
      }
      tables, pc := laid.value, pc';
      done := done + items;
      f := f + 1;
    }
    assert sources[..f] == sources;
    r := Success(tables);
  }

  // ----- Pass two -----

  lemma {:induction false} EncodeAppend(a: seq<CodeOperand>, o: CodeOperand)
    requires TextsFit(a) && TextFits(o)
    ensures TextsFit(a + [o]) && EncodeOperands(a + [o]) == EncodeOperands(a) + EncodeOperand(o)
  {
    hide EncodeOperand;
    if a == [] {
      assert [o][1..] == [];
    } else {
      EncodeAppend(a[1..], o);
      assert (a + [o])[1..] == a[1..] + [o];
    }
  }

  lemma EmitNextOperand(t: seq<LabelEntry>, a: seq<Operand<Text>>, i: nat)
    requires i < |a| && EmitOperands(t, a[..i]).Success?
    ensures EmitOperands(t, a[..i + 1]) ==
      (match EmitOperand(t, a[i])
       case Failure(e) => Failure(e)
       case Success(o) => Success(EmitOperands(t, a[..i]).value + [o]))
  {
    assert a[..i + 1][..i] == a[..i];
  }

  /** The inner loop: tag, then a word or a length and text. */
  method WriteOperand(labels: seq<LabelEntry>, o: Operand<Text>) returns (r: Result<seq<byte>, CompileError>)
    ensures match EmitOperand(labels, o)
      case Failure(e) => r == Failure(e)
      case Success(c) => r == Success(EncodeOperand(c))
  {
    match o
    case Float(bits) => r := Success([Tag(o)] + W32(bits));
    case Int(i) => r := Success([Tag(o)] + W32(U32(i)));
    case Addr(n) =>
      var k := FindLabel(labels, n);
      if k == |labels| { return Failure(Unresolved(n)); }
      r := Success([Tag(o)] + W32(labels[k].addr));
    case Str(t) =>
      if |t| > TEXT_MAX { return Failure(TextTooLong); }
      r := Success([Tag(o)] + (W16(|t|) + t));
    case Var(t) =>
      if |t| > TEXT_MAX { return Failure(TextTooLong); }
      r := Success([Tag(o)] + (W16(|t|) + t));
  }

  method WriteOperands(labels: seq<LabelEntry>, args: seq<Operand<Text>>) returns (r: Result<seq<byte>, CompileError>)
    ensures match EmitOperands(labels, args)
      case Failure(e) => r == Failure(e)
      case Success(os) => r == Success(EncodeOperands(os))
  {
    var out: seq<byte> := [];
    var j := 0;
    ghost var os: seq<CodeOperand> := [];
    assert EmitOperands(labels, args[..0]) == Success(os) && out == EncodeOperands(os);
    hide EncodeOperand, EmitOperand, EncodeOperands, EmitOperands;
    while j < |args|
      invariant j <= |args| && EmitOperands(labels, args[..j]) == Success(os)
      invariant TextsFit(os) && out == EncodeOperands(os)
    {
      EmitNextOperand(labels, args, j);
      var bytes := WriteOperand(labels, args[j]);
      if bytes.Failure? {
        OperandFailureStays(labels, args, j + 1);
        return bytes;
      }
      ghost var o := EmitOperand(labels, args[j]).value;
      EncodeAppend(os, o);
      os := os + [o];
      out := out + bytes.value;
      j := j + 1;
    }
    assert args[..j] == args;
    r := Success(out);
  }

  method WriteStmt(labels: seq<LabelEntry>, st: Stmt) returns (r: Result<seq<byte>, CompileError>)
    ensures r == EmitStmt(labels, st)
  {
    hide EncodeOperands, EmitOperands;
    if st.Label? { return Success([]); }
    var operands := WriteOperands(labels, st.args);
    if operands.Failure? { return operands; }
    r := Success([st.op, |st.args| % 0x100] + operands.value);
  }

  lemma EmitNextStmt(t: seq<LabelEntry>, done: seq<Stmt>, st: Stmt)
    requires Emit(t, done).Success?
    ensures Emit(t, done + [st]) ==
      (match EmitStmt(t, st)
       case Failure(e) => Failure(e)
       case Success(bs) => Success(Emit(t, done).value + bs))
  {
    var next := done + [st];
    assert next[..|next| - 1] == done && next[|next| - 1] == st;
  }

  method WriteCode(labels: seq<LabelEntry>, sources: seq<seq<Stmt>>) returns (r: Result<seq<byte>, CompileError>)
    ensures r == Emit(labels, Flat(sources))
  {
    var out: seq<byte> := [];
    ghost var done: seq<Stmt> := [];
    var f := 0;
    while f < |sources|
      invariant f <= |sources| && done == Flat(sources[..f]) && Emit(labels, done) == Success(out)
    {
      hide Emit, EmitStmt, Flat;
      var items, i := sources[f], 0;
      while i < |items|
        invariant i <= |items| && done == Flat(sources[..f]) + items[..i] && Emit(labels, done) == Success(out)
      {
        InOrder(sources, f, i);
        EmitNextStmt(labels, done, items[i]);
        var bytes := WriteStmt(labels, items[i]);
        if bytes.Failure? {
          ghost var next := done + [items[i]];
          assert Flat(sources)[..|next|] == next;
          EmitFailureStays(labels, Flat(sources), |next|);
          return bytes;
        }
        out := out + bytes.value;
        done := done + [items[i]];
        i := i + 1;
      }
      NextFile(sources, f);
      f := f + 1;
    }
    assert sources[..f] == sources;
    r := Success(out);
  }

  method WriteLines(lines: seq<LineEntry>) returns (out: seq<byte>)
    ensures out == LinesBytes(lines)
  {
    out := [];
    var i := 0;
    while i < |lines|
      invariant i <= |lines| && out + LinesBytes(lines[i..]) == LinesBytes(lines)
    {
      assert lines[i..][1..] == lines[i + 1..];
      out := out + W32(lines[i].pc) + W32(lines[i].line);
      i := i + 1;
    }
  }

  method WriteLabels(labels: seq<LabelEntry>) returns (r: Result<seq<byte>, CompileError>)
    ensures if NamesFit(labels) then r == Success(LabelsBytes(labels)) else r == Failure(LabelTooLong)
  {
    var out: seq<byte> := [];
    var i := 0;
    while i < |labels|
      invariant i <= |labels| && NamesFit(labels[..i])
      invariant out + LabelsBytes(labels[i..]) == LabelsBytes(labels)
    {
      var e := labels[i];
      if |e.name| > TEXT_MAX { return Failure(LabelTooLong); }
      assert labels[i..][1..] == labels[i + 1..];
      out := out + W32(e.addr) + W16(|e.name| % 0x1_0000) + e.name;
      i := i + 1;
    }
    assert labels[..i] == labels && labels[i..] == [] && out + [] == out;
    r := Success(out);
  }

  /** The whole compiler behind the parser: the file it writes for the statements of all sources, in order. */
  method CompileFiles(sources: seq<seq<Stmt>>) returns (r: Result<seq<byte>, CompileError>)
    ensures r == CompiledFile(Flat(sources))
    ensures r.Success? <==> Accepted(Flat(sources))
  {
    CompileAccepts(Flat(sources));
    var tables := LayOut(sources);
    if tables.Failure? { return Failure(tables.error); }
    var labels, lines := tables.value.labels, tables.value.lines;
    var code := WriteCode(labels, sources);
    if code.Failure? { return code; }
    var lineBytes := WriteLines(lines);
    var labelBytes := WriteLabels(labels);
    if labelBytes.Failure? { return labelBytes; }
    var header := Header(|code.value| % 0x1_0000_0000, |lines| % 0x1_0000_0000, |labels| % 0x1_0000_0000);
    r := Success(header + code.value + lineBytes + labelBytes.value);
  }
}
