/** What each opcode does, said of the values of its operands and of variables as maps: an account of the switch of
    scml_vm_step (vm/vm.c), apart from the heap, that does not say how Machine computes it. */
module Semantics {
  import opened Bytes
  import opened Chars
  import opened Opcodes
  import opened Program
  import opened Machine
  import Screen

  // ----- Variables -----

  /** The first binding of a name counts. */
  function Vars(table: seq<Binding>): map<Text, Value> {
    if table == [] then map[] else Vars(table[1..])[table[0].name := table[0].value]
  }

  /** Inside a call, names without a leading dollar sign are local. */
  predicate Local(s: State, n: Text) {
    s.frames != [] && (n == [] || n[0] != DOLLAR)
  }

  function Scope(s: State, n: Text): seq<Binding> {
    if Local(s, n) then s.frames[|s.frames| - 1].locals else s.globals
  }

  /** The value of an operand; an unknown variable reads as 0. */
  function Read(s: State, o: Arg): Value {
    match o
    case Int(i) => VInt(i)
    case Addr(r) => VInt(r.value)
    case Float(f) => VFloat(f)
    case Str(t) => VStr(t)
    case Var(n) => if n in Vars(Scope(s, n)) then Vars(Scope(s, n))[n] else VInt(0)
  }

  /** n is known, or its table is not full: 64 locals, 256 globals. */
  predicate Room(s: State, n: Text) {
    n in Vars(Scope(s, n)) || |Scope(s, n)| < if Local(s, n) then 64 else 256
  }

  /** In table b, n has the value v; all else is as in table a, and b is longer only if n is new. */
  ghost predicate Updated(a: seq<Binding>, b: seq<Binding>, n: Text, v: Value) {
    Vars(b) == Vars(a)[n := v] && |b| == |a| + if n in Vars(a) then 0 else 1
  }

  /** t is s after n := v, which does nothing if n is new and its table is full. */
  ghost predicate Assigned(s: State, n: Text, v: Value, t: State) {
    if !Room(s, n) then t == s
    else if Local(s, n) then
      var k := |s.frames| - 1;
      && t == s.(frames := t.frames) && |t.frames| == |s.frames| && t.frames[..k] == s.frames[..k]
      && t.frames[k].ret == s.frames[k].ret && Updated(s.frames[k].locals, t.frames[k].locals, n, v)
    else t == s.(globals := t.globals) && Updated(s.globals, t.globals, n, v)
  }

  /** The effect stores v under the name in o. A destination without a name is read as the empty name if no name has to
      be compared with it. */
  ghost predicate Yields(s: State, o: Arg, v: Value, e: Effect) {
    if o.Var? || o.Str? then e.Done? && Assigned(s, o.text, v, e.s)
    else if Scope(s, []) == [] then e.Done? && Assigned(s, [], v, e.s)
    else e == Fail(s, NullName)
  }

  lemma {:induction false} VarsAt(table: seq<Binding>, n: Text)
    ensures var i := IndexOf(table, n); if i < |table| then n in Vars(table) && Vars(table)[n] == table[i].value
      else n !in Vars(table)
  {
    if table != [] && table[0].name != n { VarsAt(table[1..], n); }
  }

  lemma {:induction false} VarsReplaced(table: seq<Binding>, n: Text, v: Value)
    requires IndexOf(table, n) < |table|
    ensures Vars(table[IndexOf(table, n) := Binding(n, v)]) == Vars(table)[n := v]
    decreases |table|
  {
    var i, rest := IndexOf(table, n), table[1..];
    var t := table[i := Binding(n, v)];
    if i > 0 {
      VarsReplaced(rest, n, v);
      assert t[1..] == rest[i - 1 := Binding(n, v)];
    } else {
      assert t[1..] == rest;
    }
  }

  lemma {:induction false} VarsAdded(table: seq<Binding>, n: Text, v: Value)
    requires IndexOf(table, n) == |table|
    ensures Vars(table + [Binding(n, v)]) == Vars(table)[n := v]
    decreases |table|
  {
    var t := table + [Binding(n, v)];
    if table == [] {
      assert t[1..] == [];
    } else {
      VarsAdded(table[1..], n, v);
      assert t[1..] == table[1..] + [Binding(n, v)];
    }
  }

  /** Evaluation reads operands. */
  lemma EvalReads(s: State, o: Arg)
    ensures Eval(s, o) == Read(s, o)
  {
    hide IndexOf;
    if o.Var? { VarsAt(Scope(s, o.text), o.text); }
  }

  lemma PutUpdates(table: seq<Binding>, max: nat, n: Text, v: Value)
    ensures var r := Put(table, max, n, v);
      if n in Vars(table) || |table| < max then r.Some? && Updated(table, r.value, n, v) else r.None?
  {
    hide Vars;
    VarsAt(table, n);
    if IndexOf(table, n) < |table| { VarsReplaced(table, n, v); } else { VarsAdded(table, n, v); }
  }

  lemma SetVarAssigns(s: State, n: Text, v: Value)
    ensures SetVar(s, n, v).Some? <==> Room(s, n)
    ensures Assigned(s, n, v, TrySetVar(s, n, v))
  {
    hide Put, Vars, Updated;
    PutUpdates(Scope(s, n), if Local(s, n) then 64 else 256, n, v);
  }

  lemma SetDestYields(s: State, o: Arg, v: Value)
    ensures Yields(s, o, v, SetDest(s, o, v))
  {
    hide TrySetVar, Assigned;
    SetVarAssigns(s, if o.Var? || o.Str? then o.text else [], v);
  }

  /** A variable that was set is read back, and no other name reads differently. */
  lemma ReadBack(s: State, n: Text, v: Value, t: State)
    requires Assigned(s, n, v, t)
    ensures Room(s, n) ==> Read(t, Var(n)) == v
    ensures forall o :: o != Operand<Ref>.Var(n) ==> Read(t, o) == Read(s, o)
  {
    hide Vars;
  }

  // ----- Jumps -----

  /** An address operand's position, or an integer as a size_t. */
  function Target(o: Arg): nat {
    match o case Addr(r) => r.pos case Int(i) => i % 0x1_0000_0000_0000_0000 case _ => 0
  }

  /** pc becomes the target if taken is true; nothing else changes. */
  ghost predicate Branches(s: State, o: Arg, taken: bool, e: Effect) {
    e == Done(if taken then s.(pc := Target(o)) else s)
  }

  lemma JumpTargetIs(o: Arg)
    ensures JumpTarget(o) == Target(o)
  {
  }

  lemma JumpExec(h: Host, a: seq<Arg>, s: State)
    requires ArityOk(JMP, |a|)
    ensures Branches(s, a[0], true, Exec(h, JMP, a, s))
  {
    JumpTargetIs(a[0]);
  }

  lemma BranchIs(h: Host, op: Opcode, a: seq<Arg>, s: State)
    requires IsBranch(op) && ArityOk(op, |a|)
    ensures Branches(s, a[2], Taken(h, op, Read(s, a[0]), Read(s, a[1])), Exec(h, op, a, s))
  {
    hide Taken, Eval, Read;
    EvalReads(s, a[0]);
    EvalReads(s, a[1]);
    JumpTargetIs(a[2]);
  }

  /** Integers, and texts read as integers, are compared as numbers. */
  lemma BranchOnInts(h: Host, op: Opcode, a: seq<Arg>, s: State)
    requires IsBranch(op) && ArityOk(op, |a|)
    requires !Read(s, a[0]).VFloat? && !Read(s, a[1]).VFloat? && !(Read(s, a[0]).VStr? && Read(s, a[1]).VStr?)
    ensures var x, y, e := ToInt(h, Read(s, a[0])), ToInt(h, Read(s, a[1])), Exec(h, op, a, s);
      && (op == IF_EQ ==> Branches(s, a[2], x == y, e)) && (op == IF_NE ==> Branches(s, a[2], x != y, e))
      && (op == IF_GT ==> Branches(s, a[2], x > y, e)) && (op == IF_LT ==> Branches(s, a[2], x < y, e))
      && (op == IF_GE ==> Branches(s, a[2], x >= y, e)) && (op == IF_LE ==> Branches(s, a[2], x <= y, e))
  {
    hide Exec, Read, Branches;
    BranchIs(h, op, a, s);
  }

  /** Lexicographic order on bytes: a is a proper prefix of b, or smaller at the first byte in which they differ. */
  ghost predicate TextLess(a: Text, b: Text) {
    exists k :: 0 <= k <= |a| && k < |b| && a[..k] == b[..k] && (k < |a| ==> a[k] < b[k])
  }

  lemma TextLessStep(a: Text, b: Text)
    requires a != [] && b != [] && a[0] == b[0]
    ensures TextLess(a, b) <==> TextLess(a[1..], b[1..])
  {
    var c, d := a[1..], b[1..];
    if TextLess(a, b) {
      var k :| 0 <= k <= |a| && k < |b| && a[..k] == b[..k] && (k < |a| ==> a[k] < b[k]);
      assert c[..k - 1] == a[..k][1..] == b[..k][1..] == d[..k - 1];
    }
    if TextLess(c, d) {
      var k :| 0 <= k <= |c| && k < |d| && c[..k] == d[..k] && (k < |c| ==> c[k] < d[k]);
      assert a[..k + 1] == [a[0]] + c[..k] && b[..k + 1] == [b[0]] + d[..k];
    }
  }

  lemma {:induction false} CompareIsOrder(a: Text, b: Text)
    ensures CompareText(a, b) < 0 <==> TextLess(a, b)
    ensures CompareText(a, b) > 0 <==> TextLess(b, a)
    ensures CompareText(a, b) == 0 <==> a == b
    decreases |a|
  {
    if a != [] && b != [] && a[0] == b[0] {
      TextLessStep(a, b);
      TextLessStep(b, a);
      CompareIsOrder(a[1..], b[1..]);
      assert a == [a[0]] + a[1..] && b == [b[0]] + b[1..];
    } else if a != [] && b != [] {
      assert a[..0] == b[..0];
      forall k | 0 < k <= |a| && k <= |b| ensures a[..k] != b[..k] {
        assert a[..k][0] != b[..k][0];
      }
    } else {
      assert a[..0] == b[..0];
    }
  }

  /** Two texts are compared in lexicographic order. */
  lemma BranchOnTexts(h: Host, op: Opcode, a: seq<Arg>, s: State)
    requires IsBranch(op) && ArityOk(op, |a|) && Read(s, a[0]).VStr? && Read(s, a[1]).VStr?
    ensures var x, y, e := Read(s, a[0]).s, Read(s, a[1]).s, Exec(h, op, a, s);
      && (op == IF_EQ ==> Branches(s, a[2], x == y, e)) && (op == IF_NE ==> Branches(s, a[2], x != y, e))
      && (op == IF_GT ==> Branches(s, a[2], TextLess(y, x), e))
      && (op == IF_LT ==> Branches(s, a[2], TextLess(x, y), e))
      && (op == IF_GE ==> Branches(s, a[2], !TextLess(x, y), e))
      && (op == IF_LE ==> Branches(s, a[2], !TextLess(y, x), e))
  {
    hide Exec, Read, Branches, CompareText, TextLess;
    BranchIs(h, op, a, s);
    CompareIsOrder(Read(s, a[0]).s, Read(s, a[1]).s);
  }

  /** With a float among them, values are compared as floats; greater and less may both fail to hold. */
  lemma BranchOnFloats(h: Host, op: Opcode, a: seq<Arg>, s: State)
    requires IsBranch(op) && ArityOk(op, |a|) && (Read(s, a[0]).VFloat? || Read(s, a[1]).VFloat?)
    ensures var x, y, e := ToFloat(h, Read(s, a[0])), ToFloat(h, Read(s, a[1])), Exec(h, op, a, s);
      var less, greater := h.floatLess(x, y), h.floatLess(y, x);
      && (op == IF_EQ ==> Branches(s, a[2], h.floatEq(x, y), e))
      && (op == IF_NE ==> Branches(s, a[2], !h.floatEq(x, y), e))
      && (op == IF_GT ==> Branches(s, a[2], greater && !less, e))
      && (op == IF_LT ==> Branches(s, a[2], less && !greater, e))
      && (op == IF_GE ==> Branches(s, a[2], greater || !less, e))
      && (op == IF_LE ==> Branches(s, a[2], less || !greater, e))
  {
    hide Exec, Read, Branches, ToFloat;
    BranchIs(h, op, a, s);
  }

  // ----- Computing a value -----

  lemma BinaryIs(h: Host, op: Opcode, a: seq<Arg>, s: State)
    requires IsBinary(op) && ArityOk(op, |a|)
    ensures var r, e := Binary(h, op, Read(s, a[1]), Read(s, a[2])), Exec(h, op, a, s);
      if r.Success? then Yields(s, a[0], r.value, e) else e == Fail(s, r.error)
  {
    hide Binary, Eval, Read, SetDest, Yields;
    EvalReads(s, a[1]);
    EvalReads(s, a[2]);
    var r := Binary(h, op, Read(s, a[1]), Read(s, a[2]));
    if r.Success? { SetDestYields(s, a[0], r.value); }
  }

  lemma UnaryIs(h: Host, op: Opcode, a: seq<Arg>, s: State)
    requires IsUnary(op) && ArityOk(op, |a|)
    ensures var r, e := Unary(h, op, Read(s, a[1])), Exec(h, op, a, s);
      if r.Success? then Yields(s, a[0], r.value, e) else e == Fail(s, r.error)
  {
    hide Unary, Eval, Read, SetDest, Yields;
    EvalReads(s, a[1]);
    var r := Unary(h, op, Read(s, a[1]));
    if r.Success? { SetDestYields(s, a[0], r.value); }
  }

  predicate Fits(i: int) {
    -0x8000_0000 <= i < 0x8000_0000
  }

  /** q and r are quotient and remainder of a division that truncates toward zero, as C's does. */
  predicate Divides(x: int, y: int, q: int, r: int) {
    x == y * q + r && -Abs(y) < r < Abs(y) && (r == 0 || (r < 0 <==> x < 0))
  }

  function Abs(i: int): int {
    if i < 0 then -i else i
  }

  lemma NatQuotient(p: nat, d: nat)
    requires d > 0
    ensures p == d * (p / d) + p % d && 0 <= p / d
  {
  }

  lemma ProductGrows(d: nat, q: nat)
    requires d > 0
    ensures q <= d * q
  {
    assert d * q == (d - 1) * q + q;
  }

  lemma Negations(y: int, q: int)
    ensures (-y) * q == -(y * q) && y * -q == -(y * q) && (-y) * -q == y * q
  {
  }

  lemma QuotientDivides(x: int, y: int)
    requires y != 0
    ensures Divides(x, y, Quotient(x, y), x - y * Quotient(x, y))
    ensures -Abs(x) <= Quotient(x, y) <= Abs(x)
  {
    var p, d: int := Abs(x), Abs(y);
    NatQuotient(p, d);
    ProductGrows(d, p / d);
    Negations(y, p / d);
    Negations(d, p / d);
  }

  /** ADD, SUB and MUL on integers; where the exact result does not fit, the result is the host's. */
  lemma SumExec(h: Host, op: Opcode, a: seq<Arg>, s: State)
    requires (op == ADD || op == SUB || op == MUL) && ArityOk(op, |a|)
    requires !Read(s, a[1]).VFloat? && !Read(s, a[2]).VFloat?
    ensures var x, y, e := ToInt(h, Read(s, a[1])), ToInt(h, Read(s, a[2])), Exec(h, op, a, s);
      var z: int := if op == ADD then x + y else if op == SUB then x - y else x * y;
      Yields(s, a[0], VInt(if Fits(z) then z else h.intOp(op, x, y)), e)
  {
    hide Exec, Read, Yields, ToInt;
    BinaryIs(h, op, a, s);
  }

  /** DIV on integers and MOD on any values: the truncated quotient and its remainder, or an error exactly on a zero
      divisor. */
  lemma DivisionExec(h: Host, op: Opcode, a: seq<Arg>, s: State) returns (q: int, r: int)
    requires (op == MOD || op == DIV) && ArityOk(op, |a|)
    requires op == MOD || (!Read(s, a[1]).VFloat? && !Read(s, a[2]).VFloat?)
    ensures var x, y, e := ToInt(h, Read(s, a[1])), ToInt(h, Read(s, a[2])), Exec(h, op, a, s);
      if y == 0 then e == Fail(s, if op == DIV then DivisionByZero else ModByZero)
      else
        && Divides(x, y, q, r)
        && Yields(s, a[0], VInt(if !Fits(q) then h.intOp(op, x, y) else if op == DIV then q else r), e)
  {
    hide Exec, Read, Yields, ToInt, Quotient;
    BinaryIs(h, op, a, s);
    var x, y := ToInt(h, Read(s, a[1])), ToInt(h, Read(s, a[2]));
    q, r := 0, 0;
    if y != 0 {
      q, r := Quotient(x, y), x - y * Quotient(x, y);
      QuotientDivides(x, y);
    }
  }

  /** Arithmetic with a float among the operands, and POW and ATAN2 on any: the host's, on the operands in order. */
  lemma FloatExec(h: Host, op: Opcode, a: seq<Arg>, s: State)
    requires ArityOk(op, |a|) && (op == POW || op == ATAN2 || op == ADD || op == SUB || op == MUL || op == DIV)
    requires op == POW || op == ATAN2 || Read(s, a[1]).VFloat? || Read(s, a[2]).VFloat?
    ensures var x, y, e := ToFloat(h, Read(s, a[1])), ToFloat(h, Read(s, a[2])), Exec(h, op, a, s);
      if op == DIV && h.floatEq(y, 0) then e == Fail(s, DivisionByZero)
      else Yields(s, a[0], VFloat(h.floatOp(op, x, y)), e)
  {
    hide Exec, Read, Yields, ToFloat;
    BinaryIs(h, op, a, s);
  }

  /** Bitwise operations are the host's, on the operands in order; a shift count is from 0 to 30. */
  lemma BitExec(h: Host, op: Opcode, a: seq<Arg>, s: State)
    requires ArityOk(op, |a|) && (op == BIT_AND || op == BIT_OR || op == BIT_XOR || op == SHL || op == SHR)
    ensures var x, y, e := ToInt(h, Read(s, a[1])), ToInt(h, Read(s, a[2])), Exec(h, op, a, s);
      if (op == SHL || op == SHR) && (y < 0 || y >= 31) then e == Fail(s, InvalidShift)
      else Yields(s, a[0], VInt(h.intOp(op, x, y)), e)
  {
    hide Exec, Read, Yields, ToInt;
    BinaryIs(h, op, a, s);
  }

  lemma {:induction false} RepeatedLength(t: Text, n: nat)
    ensures |Repeated(t, n)| == n * |t|
  {
    if n > 0 {
      RepeatedLength(t, n - 1);
      assert n * |t| == |t| + (n - 1) * |t|;
    }
  }

  /** Copy k of t stands at k * |t|. */
  lemma {:induction false} RepeatedAt(t: Text, n: nat, k: nat)
    requires k < n
    ensures k * |t| + |t| <= |Repeated(t, n)| && Repeated(t, n)[k * |t|..k * |t| + |t|] == t
  {
    RepeatedLength(t, n - 1);
    if k == 0 {
      assert Repeated(t, n)[..|t|] == t;
    } else {
      RepeatedAt(t, n - 1, k - 1);
      var r, at := Repeated(t, n - 1), (k - 1) * |t|;
      assert k * |t| == at + |t|;
      assert (t + r)[at + |t|..at + |t| + |t|] == r[at..at + |t|];
    }
  }

  /** n copies of u, one after another. */
  ghost predicate IsCopies(t: Text, u: Text, n: int) {
    && |t| == (if n < 0 then 0 else n) * |u|
    && forall k :: 0 <= k < n ==> k * |u| + |u| <= |t| && t[k * |u|..k * |u| + |u|] == u
  }

  lemma RepeatedIsCopies(u: Text, n: int)
    ensures IsCopies(Repeated(u, if n < 0 then 0 else n), u, n)
  {
    hide Repeated;
    var t := Repeated(u, if n < 0 then 0 else n);
    RepeatedLength(u, if n < 0 then 0 else n);
    forall k | 0 <= k < n ensures k * |u| + |u| <= |t| && t[k * |u|..k * |u| + |u|] == u { RepeatedAt(u, n, k); }
  }

  /** STRCAT joins two texts; STR_REPEAT puts n copies of a text after one another, none if n is negative. */
  lemma TextExec(h: Host, op: Opcode, a: seq<Arg>, s: State) returns (t: Text)
    requires ArityOk(op, |a|) && (op == STRCAT || op == STR_REPEAT)
    ensures Yields(s, a[0], VStr(t), Exec(h, op, a, s))
    ensures if op == STRCAT then t == ToText(h, Read(s, a[1])) + ToText(h, Read(s, a[2]))
      else IsCopies(t, ToText(h, Read(s, a[1])), ToInt(h, Read(s, a[2])))
  {
    hide Exec, Read, Yields, ToInt, ToText, Repeated, IsCopies;
    BinaryIs(h, op, a, s);
    var u, v, n := ToText(h, Read(s, a[1])), ToText(h, Read(s, a[2])), ToInt(h, Read(s, a[2]));
    t := if op == STRCAT then u + v else Repeated(u, if n < 0 then 0 else n);
    if op == STR_REPEAT { RepeatedIsCopies(u, n); }
  }

  /** TO_INT, TO_FLOAT, BIT_NOT and STRLEN; conversions between types are the host's. */
  lemma ConvertExec(h: Host, op: Opcode, a: seq<Arg>, s: State)
    requires ArityOk(op, |a|) && (op == TO_INT || op == TO_FLOAT || op == BIT_NOT || op == STRLEN)
    ensures var v, e := Read(s, a[1]), Exec(h, op, a, s);
      var i := match v case VInt(i) => i case VFloat(f) => h.floatToInt(f) case VStr(t) => h.textToInt(t);
      var x := match v case VFloat(f) => f case VInt(i) => h.intToFloat(i) case VStr(t) => h.textToFloat(t);
      && (op == TO_INT ==> Yields(s, a[0], VInt(i), e)) && (op == TO_FLOAT ==> Yields(s, a[0], VFloat(x), e))
      && (op == BIT_NOT ==> Yields(s, a[0], VInt(-1 - ToInt(h, v)), e))
      && (op == STRLEN && |ToText(h, v)| < 0x8000_0000 ==> Yields(s, a[0], VInt(|ToText(h, v)|), e))
  {
    hide Exec, Read, Yields, ToText;
    UnaryIs(h, op, a, s);
  }

  /** The functions of one float are the host's; SQRT fails on a negative one. */
  lemma FunctionExec(h: Host, op: Opcode, a: seq<Arg>, s: State)
    requires ArityOk(op, |a|) && (op == SIN || op == COS || op == TAN || op == SQRT || op == FLOOR || op == CEIL
      || op == ROUND || op == ABS)
    ensures var x, e := ToFloat(h, Read(s, a[1])), Exec(h, op, a, s);
      if op == SQRT && h.floatLess(x, 0) then e == Fail(s, SqrtDomain)
      else Yields(s, a[0], VFloat(h.floatOp(op, x, 0)), e)
  {
    hide Exec, Read, Yields, ToFloat;
    UnaryIs(h, op, a, s);
  }

  /** SUBSTR yields n bytes from index st on: start and length as given, or the nearest ones that lie in the text. */
  lemma SubstrExec(h: Host, a: seq<Arg>, s: State) returns (st: nat, n: nat)
    requires ArityOk(SUBSTR, |a|)
    ensures var t, start, len := ToText(h, Read(s, a[1])), ToInt(h, Read(s, a[2])), ToInt(h, Read(s, a[3]));
      && st + n <= |t| && Yields(s, a[0], VStr(t[st..st + n]), Exec(h, SUBSTR, a, s))
      && (0 <= start <= |t| ==> st == start) && (start < 0 ==> st == 0) && (start > |t| ==> st == |t|)
      && (0 <= len <= |t| - st ==> n == len) && (len < 0 ==> n == 0) && (len > |t| - st ==> n == |t| - st)
  {
    hide Read, Eval, Yields, ToText, ToInt, SetDest;
    EvalReads(s, a[1]);
    EvalReads(s, a[2]);
    EvalReads(s, a[3]);
    SetDestYields(s, a[0], SubString(h, Read(s, a[1]), Read(s, a[2]), Read(s, a[3])));
    var t, start, len := ToText(h, Read(s, a[1])), ToInt(h, Read(s, a[2])), ToInt(h, Read(s, a[3]));
    st := if start < 0 then 0 else if start > |t| then |t| else start;
    n := if len < 0 then 0 else if len > |t| - st then |t| - st else len;
  }

  // ----- Stack, variables and control -----

  /** PUSH_INT, PUSH_STR and LOAD push one value, unless the stack holds 1024. */
  lemma PushExec(h: Host, op: Opcode, a: seq<Arg>, s: State)
    requires ArityOk(op, |a|) && (op == PUSH_INT || op == PUSH_STR || op == LOAD)
    ensures var o, e := a[0], Exec(h, op, a, s);
      if |s.stack| >= 1024 then e == Fail(s, StackOverflow)
      else
        && e.Done? && |e.s.stack| == |s.stack| + 1 && e.s == s.(stack := e.s.stack) && e.s.stack[..|s.stack|] == s.stack
        && (op == LOAD ==> e.s.stack[|s.stack|] == Read(s, o))
        && (op == PUSH_INT ==> e.s.stack[|s.stack|] == if o.Int? || o.Addr? then Read(s, o) else VInt(0))
        && (op == PUSH_STR ==> e.s.stack[|s.stack|] == VStr(if o.Str? || o.Var? then o.text else []))
  {
    hide Eval, Vars;
    EvalReads(s, a[0]);
  }

  /** STORE assigns the value of its second operand to its first, or fails where other opcodes drop a result. */
  lemma StoreExec(h: Host, a: seq<Arg>, s: State)
    requires ArityOk(STORE, |a|) && (a[0].Var? || a[0].Str?)
    ensures var n, e := a[0].text, Exec(h, STORE, a, s);
      if Room(s, n) then e.Done? && Assigned(s, n, Read(s, a[1]), e.s) else e == Fail(s, VariableTableFull)
  {
    hide Eval, Read, Assigned, SetVar, Room;
    EvalReads(s, a[1]);
    SetVarAssigns(s, a[0].text, Read(s, a[1]));
  }

  /** HALT, NOP, ENTITY_SET, RETURN and END_THREAD. */
  lemma ControlExec(h: Host, op: Opcode, a: seq<Arg>, s: State)
    requires ArityOk(op, |a|) && (op == HALT || op == NOP || op == ENTITY_SET || op == RETURN || op == END_THREAD)
    ensures var e := Exec(h, op, a, s);
      && (op == HALT ==> e == Done(s.(halted := true)))
      && (op == NOP || op == ENTITY_SET ==> e == Done(s))
      && (op == RETURN ==>
        if s.frames == [] then e == Fail(s, ReturnWithoutCall)
        else
          && e == Done(s.(pc := s.frames[|s.frames| - 1].ret, frames := e.s.frames))
          && e.s.frames == s.frames[..|s.frames| - 1])
      && (op == END_THREAD ==>
        if s.queue == [] then e == Done(s.(halted := true))
        else
          var due, u := DueHandler(s.events, s.queue[0]), s.(queue := Rotate(s.events, s.queue));
          e == Done(if due.Some? then u.(pc := due.value, halted := false) else u.(halted := true)))
  {
    hide DueHandler, Rotate;
  }

  /** CALL with an address enters it: a new frame without locals returns to the instruction after the CALL. At depth 128
      it fails. */
  lemma CallExec(h: Host, a: seq<Arg>, s: State)
    requires ArityOk(CALL, |a|) && a[0].Addr?
    ensures Exec(h, CALL, a, s) ==
      if |s.frames| >= 128 then Fail(s, CallStackOverflow)
      else Done(s.(pc := a[0].addr.pos, frames := s.frames + [Frame(s.pc, [])]))
  {
  }

  // ----- Native functions -----

  function Values(s: State, a: seq<Arg>): (vs: seq<Value>)
    ensures |vs| == |a| && forall i :: 0 <= i < |a| ==> vs[i] == Read(s, a[i])
  {
    seq(|a|, i requires 0 <= i < |a| => Read(s, a[i]))
  }

  lemma EvalAllReads(s: State, a: seq<Arg>)
    ensures EvalAll(s, a) == Values(s, a)
  {
    hide Eval, Read;
    forall i | 0 <= i < |a| ensures EvalAll(s, a)[i] == Values(s, a)[i] { EvalReads(s, a[i]); }
  }

  /** CALL with a name and CALL_NATIVE pass the values after the name, in order, and assign the answer to $RETVAL. */
  lemma NamedExec(h: Host, op: Opcode, a: seq<Arg>, s: State)
    requires ArityOk(op, |a|) && (op == CALL || op == CALL_NATIVE) && (a[0].Str? || a[0].Var?)
    ensures var callee := if op == CALL then Registered(a[0].text) else Module(a[0].text);
      var r, t, e := h.native(s.natives, callee, Values(s, a[1..])), s.(natives := s.natives + 1), Exec(h, op, a, s);
      if r.None? then e == Fail(t, NativeFailed) else e.Done? && Assigned(t, RETVAL, r.value, e.s)
  {
    hide EvalAll, Values, TrySetVar, Assigned;
    EvalAllReads(s, a[1..]);
    var callee := if op == CALL then Registered(a[0].text) else Module(a[0].text);
    var r := h.native(s.natives, callee, Values(s, a[1..]));
    if r.Some? { SetVarAssigns(s.(natives := s.natives + 1), RETVAL, r.value); }
  }

  /** WAIT, FILE_WRITE, FILE_READ, INPUT and ENTITY_SPAWN pass their leading operands' values; the last three store the
      answer in the operand after those. */
  lemma ModuleExec(h: Host, op: Opcode, a: seq<Arg>, s: State)
    requires ArityOk(op, |a|)
    requires op == WAIT || op == FILE_WRITE || op == FILE_READ || op == INPUT || op == ENTITY_SPAWN
    ensures var callee := if op == WAIT then Callee.Wait else if op == FILE_WRITE then FileWrite
        else if op == FILE_READ then FileRead else if op == INPUT then InputRead else EntitySpawn;
      var n := if op == FILE_WRITE then 2 else if op == ENTITY_SPAWN then 4 else 1;
      var r, t, e := h.native(s.natives, callee, Values(s, a[..n])), s.(natives := s.natives + 1), Exec(h, op, a, s);
      if r.None? then e == Fail(t, NativeFailed)
      else if op == WAIT || op == FILE_WRITE then e == Done(t)
      else Yields(t, a[n], r.value, e)
  {
    hide EvalAll, Values, SetDest, Yields;
    var n := if op == FILE_WRITE then 2 else if op == ENTITY_SPAWN then 4 else 1;
    EvalAllReads(s, a[..n]);
    assert op == WAIT || op == FILE_WRITE ==> a[..n] == a;
    var t := s.(natives := s.natives + 1);
    forall o, v ensures Yields(t, o, v, SetDest(t, o, v)) { SetDestYields(t, o, v); }
  }

  // ----- The console -----

  ghost predicate Writes(s: State, o: Out, e: Effect) {
    e == Done(s.(out := s.out + [o]))
  }

  /** Printing: a text as it is, anything else as the host formats it. */
  lemma PrintExec(h: Host, op: Opcode, a: seq<Arg>, s: State)
    requires ArityOk(op, |a|) && (op == PRINT || op == LOG || op == PRINT_RAW)
    ensures var v := Read(s, a[0]);
      Writes(s, Print(if v.VStr? then v.s else h.format(v), op != PRINT_RAW), Exec(h, op, a, s))
  {
    hide Eval, Read;
    EvalReads(s, a[0]);
  }

  /** The other console opcodes emit their event, and fail exactly on an argument out of range. */
  lemma ConsoleExec(h: Host, op: Opcode, a: seq<Arg>, s: State)
    requires ArityOk(op, |a|)
    requires op == CONSOLE_CLEAR || op == CONSOLE_RESET || op == CONSOLE_ERASE_LINE || op == CONSOLE_STYLE
      || op == CONSOLE_MOVE
    ensures var e := Exec(h, op, a, s);
      && (op == CONSOLE_CLEAR ==> Writes(s, Clear, e)) && (op == CONSOLE_RESET ==> Writes(s, Reset, e))
      && (op == CONSOLE_ERASE_LINE ==> Writes(s, EraseLine, e))
      && (op == CONSOLE_STYLE ==>
        var i := ToInt(h, Read(s, a[0]));
        if 0 <= i <= 9 then Writes(s, Style(i), e) else e == Fail(s, ArgumentOutOfRange))
      && (op == CONSOLE_MOVE ==>
        var r, c := ToInt(h, Read(s, a[0])), ToInt(h, Read(s, a[1]));
        if 1 <= r <= 9999 && 1 <= c <= 9999 then Writes(s, Render(Screen.Move(r, c)), e)
        else e == Fail(s, ArgumentOutOfRange))
  {
    hide Eval, EvalAll, Read, ToInt;
    forall i | 0 <= i < |a| ensures Eval(s, a[i]) == Read(s, a[i]) { EvalReads(s, a[i]); }
  }

  /** CONSOLE_COLOR takes a foreground and perhaps a background. */
  lemma ColorExec(h: Host, a: seq<Arg>, s: State)
    requires ArityOk(CONSOLE_COLOR, |a|)
    ensures var fg, e := ToInt(h, Read(s, a[0])), Exec(h, CONSOLE_COLOR, a, s);
      if |a| == 1 then if 0 <= fg <= 255 then Writes(s, Color(fg, None), e) else e == Fail(s, ArgumentOutOfRange)
      else
        var bg := ToInt(h, Read(s, a[1]));
        if 0 <= fg <= 255 && 0 <= bg <= 255 then Writes(s, Color(fg, Some(bg as int)), e)
        else e == Fail(s, ArgumentOutOfRange)
  {
    hide EvalAll, Read, ToInt, Values;
    EvalAllReads(s, a);
  }
}
