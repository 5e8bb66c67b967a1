/** Conditional preprocessing (preprocess_text in parser/parser.c) against the tree of conditional groups. */
module Preprocessor {
  import opened Bytes

  const DEPTH_MAX: nat := 64

  datatype Macro = Macro(name: Text, body: Text)

  /** What eval_expr_simple tells apart: defined(X) or defined X, and anything else. */
  datatype Expr = IsDefined(name: Text) | Bare(text: Text)

  datatype Cond = IfDef(name: Text) | IfNotDef(name: Text) | IfExpr(e: Expr)

  /** A line, classified by its first word. */
  datatype Line =
    | If(c: Cond) | Elif(e: Expr) | Else | Endif | Define(m: Macro) | Undef(name: Text) | Source(text: Text)

  /** The macro list, newest first, and the lines emitted so far, each with the macros that apply to it. */
  datatype Env = Env(macros: seq<Macro>, out: seq<(Text, seq<Macro>)>)

  /** strtol(text) != 0, left to the C library. */
  type Numeric = Text -> bool

  // ----- Macros -----

  function FindMacro(macros: seq<Macro>, name: Text): (i: nat)
    ensures i <= |macros| && (i < |macros| ==> macros[i].name == name)
    ensures forall j :: 0 <= j < i ==> macros[j].name != name
  {
    if macros == [] || macros[0].name == name then 0 else 1 + FindMacro(macros[1..], name)
  }

  predicate Known(macros: seq<Macro>, name: Text) {
    FindMacro(macros, name) < |macros|
  }

  /** macro_remove drops the newest definition only; an older one of the same name comes back into force. */
  function RemoveMacro(macros: seq<Macro>, name: Text): seq<Macro> {
    var i := FindMacro(macros, name);
    if i < |macros| then macros[..i] + macros[i + 1..] else macros
  }

  function Value(nz: Numeric, macros: seq<Macro>, e: Expr): bool {
    match e
    case IsDefined(n) => Known(macros, n)
    case Bare(t) => Known(macros, t) || nz(t)
  }

  function Holds(nz: Numeric, macros: seq<Macro>, c: Cond): bool {
    match c
    case IfDef(n) => Known(macros, n)
    case IfNotDef(n) => !Known(macros, n)
    case IfExpr(e) => Value(nz, macros, e)
  }

  /** What a line other than a conditional directive does when it takes effect. */
  function Effect(env: Env, l: Line): Env {
    match l
    case Define(m) => env.(macros := [m] + env.macros)
    case Undef(n) => env.(macros := RemoveMacro(env.macros, n))
    case Source(t) => if t == [] then env else env.(out := env.out + [(t, env.macros)])
    case _ => env
  }

  // ----- The loop -----

  datatype CondFrame = CondFrame(parentActive: bool, branchTaken: bool, active: bool)

  datatype State = State(active: bool, cond: seq<CondFrame>, env: Env)

  datatype Error = TooDeep | ElifWithoutIf | ElseWithoutIf | EndifWithoutIf | Unterminated

  function Top(s: State): CondFrame
    requires s.cond != []
  {
    s.cond[|s.cond| - 1]
  }

  function WithTop(s: State, f: CondFrame): State
    requires s.cond != []
  {
    s.(cond := s.cond[|s.cond| - 1 := f], active := f.active)
  }

  /** One iteration of the loop. */
  function Step(nz: Numeric, s: State, l: Line): Result<State, Error> {
    match l
    case If(c) =>
      if |s.cond| >= DEPTH_MAX then Failure(TooDeep)
      else
        var v := Holds(nz, s.env.macros, c);
        Success(s.(cond := s.cond + [CondFrame(s.active, v, s.active && v)], active := s.active && v))
    case Elif(e) =>
      if s.cond == [] then Failure(ElifWithoutIf)
      else
        var f := Top(s);
        var v := !f.branchTaken && Value(nz, s.env.macros, e);
        Success(WithTop(s, CondFrame(f.parentActive, f.branchTaken || v, f.parentActive && v)))
    case Else =>
      if s.cond == [] then Failure(ElseWithoutIf)
      else
        var f := Top(s);
        Success(WithTop(s, CondFrame(f.parentActive, true, f.parentActive && !f.branchTaken)))
    case Endif =>
      if s.cond == [] then Failure(EndifWithoutIf)
      else
        var rest := s.cond[..|s.cond| - 1];
        Success(s.(cond := rest, active := if rest == [] then true else rest[|rest| - 1].active))
    case _ => Success(if s.active then s.(env := Effect(s.env, l)) else s)
  }

  function Fold(nz: Numeric, s: State, lines: seq<Line>): Result<State, Error>
    decreases |lines|
  {
    if lines == [] then Success(s)
    else
      match Step(nz, s, lines[0])
      case Failure(e) => Failure(e)
      case Success(t) => Fold(nz, t, lines[1..])
  }

  function Start(env: Env): State {
    State(true, [], env)
  }

  function Process(nz: Numeric, env: Env, lines: seq<Line>): Result<Env, Error> {
    match Fold(nz, Start(env), lines)
    case Failure(e) => Failure(e)
    case Success(s) => if s.cond != [] then Failure(Unterminated) else Success(s.env)
  }

  lemma FoldFrom(nz: Numeric, s: State, lines: seq<Line>, i: nat)
    requires i < |lines|
    ensures Fold(nz, s, lines[i..]) ==
      (match Step(nz, s, lines[i]) case Failure(e) => Failure(e) case Success(t) => Fold(nz, t, lines[i + 1..]))
  {
    hide Step;
    assert lines[i..][1..] == lines[i + 1..];
  }

  lemma FoldNil(nz: Numeric, s: State)
    ensures Fold(nz, s, []) == Success(s)
  {
  }

  /** The loop itself, with its fixed array of 64 frames. */
  method Preprocess(nz: Numeric, start: Env, lines: seq<Line>) returns (r: Result<Env, Error>)
    ensures r == Process(nz, start, lines)
  {
    hide Effect, Holds, Value, Fold;
    var cond := new CondFrame[DEPTH_MAX](_ => CondFrame(true, false, true));
    var ctop, active, env, i := 0, true, start, 0;
    assert cond[..0] == [] && lines[0..] == lines;
    while i < |lines|
      invariant i <= |lines| && ctop <= DEPTH_MAX
      invariant Fold(nz, Start(start), lines) == Fold(nz, State(active, cond[..ctop], env), lines[i..])
    {
      ghost var s := State(active, cond[..ctop], env);
      FoldFrom(nz, s, lines, i);
      match lines[i] {
        case If(c) =>
          if ctop >= DEPTH_MAX { return Failure(TooDeep); }
          var v := Holds(nz, env.macros, c);
          cond[ctop] := CondFrame(active, v, active && v);
          ctop := ctop + 1;
          active := cond[ctop - 1].active;
          assert cond[..ctop] == s.cond + [CondFrame(s.active, v, s.active && v)];
        case Elif(e) =>
          if ctop == 0 { return Failure(ElifWithoutIf); }
          var f := cond[ctop - 1];
          var v := !f.branchTaken && Value(nz, env.macros, e);
          cond[ctop - 1] := CondFrame(f.parentActive, f.branchTaken || v, f.parentActive && v);
          active := cond[ctop - 1].active;
          assert cond[..ctop] == s.cond[ctop - 1 := cond[ctop - 1]];
        case Else =>
          if ctop == 0 { return Failure(ElseWithoutIf); }
          var f := cond[ctop - 1];
          cond[ctop - 1] := CondFrame(f.parentActive, true, f.parentActive && !f.branchTaken);
          active := cond[ctop - 1].active;
          assert cond[..ctop] == s.cond[ctop - 1 := cond[ctop - 1]];
        case Endif =>
          if ctop == 0 { return Failure(EndifWithoutIf); }
          ctop := ctop - 1;
          active := if ctop == 0 then true else cond[ctop - 1].active;
          assert cond[..ctop] == s.cond[..ctop];
        case _ =>
          if active { env := Effect(env, lines[i]); }
      }
      i := i + 1;
    }
    FoldNil(nz, State(active, cond[..ctop], env));
    assert lines[i..] == [];
    if ctop != 0 { return Failure(Unterminated); }
    r := Success(env);
  }

  // ----- Tree semantics -----

  /** Lines and groups in order. A group is an #if branch, then #elif and #else branches in any order, then #endif. */
  datatype Forest = Nil | Leaf(line: Line, next: Forest) | Group(c: Cond, body: Forest, alts: Alts, next: Forest)
  datatype Alts = End | ElifBranch(e: Expr, body: Forest, alts: Alts) | ElseBranch(body: Forest, alts: Alts)

  function Flatten(f: Forest): seq<Line> {
    match f
    case Nil => []
    case Leaf(l, next) => [l] + Flatten(next)
    case Group(c, body, alts, next) => [If(c)] + Flatten(body) + FlattenAlts(alts) + [Endif] + Flatten(next)
  }

  function FlattenAlts(a: Alts): seq<Line> {
    match a
    case End => []
    case ElifBranch(e, body, alts) => [Elif(e)] + Flatten(body) + FlattenAlts(alts)
    case ElseBranch(body, alts) => [Else] + Flatten(body) + FlattenAlts(alts)
  }

  /** Exactly the first branch whose condition holds is run; #else holds, and what comes after it is dead. */
  function Run(nz: Numeric, f: Forest, env: Env): Env {
    match f
    case Nil => env
    case Leaf(l, next) => Run(nz, next, Effect(env, l))
    case Group(c, body, alts, next) =>
      Run(nz, next, if Holds(nz, env.macros, c) then Run(nz, body, env) else RunAlts(nz, alts, env))
  }

  function RunAlts(nz: Numeric, a: Alts, env: Env): Env {
    match a
    case End => env
    case ElifBranch(e, body, alts) => if Value(nz, env.macros, e) then Run(nz, body, env) else RunAlts(nz, alts, env)
    case ElseBranch(body, _) => Run(nz, body, env)
  }

  predicate IsLeaf(l: Line) {
    l.Define? || l.Undef? || l.Source?
  }

  predicate Proper(f: Forest) {
    match f
    case Nil => true
    case Leaf(l, next) => IsLeaf(l) && Proper(next)
    case Group(_, body, alts, next) => Proper(body) && ProperAlts(alts) && Proper(next)
  }

  predicate ProperAlts(a: Alts) {
    match a
    case End => true
    case ElifBranch(_, body, alts) => Proper(body) && ProperAlts(alts)
    case ElseBranch(body, alts) => Proper(body) && ProperAlts(alts)
  }

  function Max(a: nat, b: nat): nat { if a < b then b else a }

  /** How deep groups are nested. */
  function Depth(f: Forest): nat {
    match f
    case Nil => 0
    case Leaf(_, next) => Depth(next)
    case Group(_, body, alts, next) => Max(1 + Max(Depth(body), DepthAlts(alts)), Depth(next))
  }

  function DepthAlts(a: Alts): nat {
    match a
    case End => 0
    case ElifBranch(_, body, alts) => Max(Depth(body), DepthAlts(alts))
    case ElseBranch(body, alts) => Max(Depth(body), DepthAlts(alts))
  }

  // ----- The loop computes the tree semantics -----

  lemma {:induction false} FoldConcat(nz: Numeric, s: State, a: seq<Line>, b: seq<Line>)
    ensures Fold(nz, s, a + b) ==
      (match Fold(nz, s, a) case Failure(e) => Failure(e) case Success(t) => Fold(nz, t, b))
    decreases |a|
  {
    hide Step;
    if a == [] {
      assert a + b == b;
    } else {
      assert (a + b)[1..] == a[1..] + b;
      if Step(nz, s, a[0]).Success? { FoldConcat(nz, Step(nz, s, a[0]).value, a[1..], b); }
    }
  }

  /** The active flag is that of the innermost frame. */
  predicate Consistent(s: State) {
    s.active == if s.cond == [] then true else Top(s).active
  }

  function EnvAfter(nz: Numeric, f: Forest, s: State): Env {
    if s.active then Run(nz, f, s.env) else s.env
  }

  lemma FlattenGroup(f: Forest)
    requires f.Group?
    ensures Flatten(f) == [If(f.c)] + Flatten(f.body) + FlattenAlts(f.alts) + [Endif] + Flatten(f.next)
  {
  }

  lemma OpenGroup(nz: Numeric, s: State, c: Cond)
    requires |s.cond| < DEPTH_MAX
    ensures var v := Holds(nz, s.env.macros, c);
      Step(nz, s, If(c)) == Success(State(s.active && v, s.cond + [CondFrame(s.active, v, s.active && v)], s.env))
  {
    hide Holds;
  }

  lemma CloseGroup(nz: Numeric, outer: State, s: State)
    requires |s.cond| == |outer.cond| + 1 && s.cond[..|outer.cond|] == outer.cond && Consistent(outer)
    ensures Step(nz, s, Endif) == Success(outer.(env := s.env))
  {
    assert s.cond[..|s.cond| - 1] == outer.cond;
  }

  lemma OtherLine(nz: Numeric, s: State, l: Line)
    requires IsLeaf(l)
    ensures Step(nz, s, l) == Success(s.(env := if s.active then Effect(s.env, l) else s.env))
  {
    hide Effect;
  }

  /** In the middle of any nesting, a forest leaves the frames alone; it takes effect exactly in an active region. */
  lemma {:induction false} FoldForest(nz: Numeric, f: Forest, s: State)
    requires Proper(f) && Consistent(s) && |s.cond| + Depth(f) <= DEPTH_MAX
    ensures Fold(nz, s, Flatten(f)) == Success(s.(env := EnvAfter(nz, f, s)))
    decreases f
  {
    match f
    case Nil =>
    case Leaf(l, next) =>
      hide Effect, Holds, Value, Step;
      OtherLine(nz, s, l);
      FoldForest(nz, next, Step(nz, s, l).value);
      FoldCons(nz, s, l, Flatten(next));
    case Group(c, body, alts, next) =>
      hide Effect, Holds, Value, Step, Fold, Flatten;
      OpenGroup(nz, s, c);
      var s1 := Step(nz, s, If(c)).value;
      FoldForest(nz, body, s1);
      var s2 := s1.(env := EnvAfter(nz, body, s1));
      FoldAlts(nz, alts, s2);
      var s3 := Fold(nz, s2, FlattenAlts(alts)).value;
      assert s3.cond[..|s.cond|] == s.cond;
      CloseGroup(nz, s, s3);
      FoldForest(nz, next, s.(env := s3.env));
      FoldGroup(nz, s, c, Flatten(body), FlattenAlts(alts), Flatten(next));
      FlattenGroup(f);
  }

  lemma FoldGroup(nz: Numeric, s: State, c: Cond, body: seq<Line>, alts: seq<Line>, next: seq<Line>)
    requires Step(nz, s, If(c)).Success? && Fold(nz, Step(nz, s, If(c)).value, body).Success?
    requires var s2 := Fold(nz, Step(nz, s, If(c)).value, body).value;
      Fold(nz, s2, alts).Success? && Step(nz, Fold(nz, s2, alts).value, Endif).Success?
    ensures var s2 := Fold(nz, Step(nz, s, If(c)).value, body).value;
      Fold(nz, s, [If(c)] + body + alts + [Endif] + next)
      == Fold(nz, Step(nz, Fold(nz, s2, alts).value, Endif).value, next)
  {
    hide Step;
    var s1 := Step(nz, s, If(c)).value;
    var lines := [If(c)] + body + alts + [Endif] + next;
    assert lines[1..] == body + (alts + ([Endif] + next));
    FoldConcat(nz, s1, body, alts + ([Endif] + next));
    var s2 := Fold(nz, s1, body).value;
    FoldConcat(nz, s2, alts, [Endif] + next);
    assert ([Endif] + next)[1..] == next;
  }

  function Separator(a: Alts): Line
    requires a != End
  {
    if a.ElifBranch? then Elif(a.e) else Else
  }

  /** Whether a later branch is the one to take, provided none has been taken before it. */
  predicate Wanted(nz: Numeric, s: State, a: Alts)
    requires a != End
  {
    a.ElseBranch? || Value(nz, s.env.macros, a.e)
  }

  /** What #elif and #else do to the innermost frame. */
  lemma AltStep(nz: Numeric, s: State, a: Alts)
    requires a != End && s.cond != []
    ensures var taken := Top(s).branchTaken; var wanted := Wanted(nz, s, a); var up := Top(s).parentActive;
      Step(nz, s, Separator(a)) ==
        Success(WithTop(s, CondFrame(up, taken || wanted, up && !taken && wanted)))
  {
    hide Value;
  }

  lemma FoldAlt(nz: Numeric, s: State, a: Alts)
    requires a != End
    requires Step(nz, s, Separator(a)).Success? && Fold(nz, Step(nz, s, Separator(a)).value, Flatten(a.body)).Success?
    ensures Fold(nz, s, FlattenAlts(a)) ==
      Fold(nz, Fold(nz, Step(nz, s, Separator(a)).value, Flatten(a.body)).value, FlattenAlts(a.alts))
  {
    hide Step, Fold, Flatten, FlattenAlts, Separator;
    FlattenAlt(a);
    FoldCons(nz, s, Separator(a), Flatten(a.body) + FlattenAlts(a.alts));
    FoldConcat(nz, Step(nz, s, Separator(a)).value, Flatten(a.body), FlattenAlts(a.alts));
  }

  lemma FlattenAlt(a: Alts)
    requires a != End
    ensures FlattenAlts(a) == [Separator(a)] + (Flatten(a.body) + FlattenAlts(a.alts))
  {
    hide Flatten;
    var b, n := Flatten(a.body), FlattenAlts(a.alts);
    assert [Separator(a)] + b + n == [Separator(a)] + (b + n);
  }

  lemma FoldCons(nz: Numeric, s: State, l: Line, lines: seq<Line>)
    requires Step(nz, s, l).Success?
    ensures Fold(nz, s, [l] + lines) == Fold(nz, Step(nz, s, l).value, lines)
  {
    hide Step;
    assert ([l] + lines)[1..] == lines;
  }

  /** Later branches of a group run exactly if the group is in an active region and no branch has been taken. */
  lemma {:induction false} FoldAlts(nz: Numeric, a: Alts, s: State)
    requires ProperAlts(a) && s.cond != [] && Consistent(s) && |s.cond| + DepthAlts(a) <= DEPTH_MAX
    requires s.active ==> Top(s).branchTaken
    ensures var r := Fold(nz, s, FlattenAlts(a));
      && r.Success? && |r.value.cond| == |s.cond| && Consistent(r.value)
      && r.value.cond[..|s.cond| - 1] == s.cond[..|s.cond| - 1]
      && r.value.env == if Top(s).parentActive && !Top(s).branchTaken then RunAlts(nz, a, s.env) else s.env
    decreases a
  {
    hide Effect, Value, Step, Flatten, Run;
    if a != End {
      AltStep(nz, s, a);
      var s1 := Step(nz, s, Separator(a)).value;
      FoldForest(nz, a.body, s1);
      FoldAlt(nz, s, a);
      FoldAlts(nz, a.alts, s1.(env := EnvAfter(nz, a.body, s1)));
    }
  }

  // ----- Which line sequences are accepted -----

  /** Groups are balanced, and never nested deeper than limit. */
  predicate Nested(lines: seq<Line>, d: nat, limit: nat)
    decreases |lines|
  {
    if lines == [] then d == 0
    else
      match lines[0]
      case If(_) => d < limit && Nested(lines[1..], d + 1, limit)
      case Elif(_) => d > 0 && Nested(lines[1..], d, limit)
      case Else => d > 0 && Nested(lines[1..], d, limit)
      case Endif => d > 0 && Nested(lines[1..], d - 1, limit)
      case _ => Nested(lines[1..], d, limit)
  }

  lemma {:induction false} AcceptedFrom(nz: Numeric, s: State, lines: seq<Line>)
    requires |s.cond| <= DEPTH_MAX
    ensures Nested(lines, |s.cond|, DEPTH_MAX) <==> Fold(nz, s, lines).Success? && Fold(nz, s, lines).value.cond == []
    decreases |lines|
  {
    hide Effect, Holds, Value;
    if lines != [] && Step(nz, s, lines[0]).Success? { AcceptedFrom(nz, Step(nz, s, lines[0]).value, lines[1..]); }
  }

  lemma LeafText(f: Forest)
    ensures f.Nil? ==> Flatten(f) == []
    ensures f.Leaf? ==> Flatten(f) == [f.line] + Flatten(f.next)
  {
  }

  lemma MaxBounds(a: nat, b: nat)
    ensures Max(a, b) >= a && Max(a, b) >= b
  {
  }

  lemma GroupDepth(d: nat, limit: nat, body: nat, alts: nat, next: nat)
    requires d < limit && d + 1 + body <= Max(d + 1, limit) && d + 1 + alts <= Max(d + 1, limit)
    requires d + next <= Max(d, limit)
    ensures d + Max(1 + Max(body, alts), next) <= Max(d, limit)
  {
  }

  lemma GroupText(lines: seq<Line>, f: Forest, r1: seq<Line>, r2: seq<Line>, r3: seq<Line>)
    requires f.Group? && lines != [] && lines[0] == If(f.c) && lines[1..] == Flatten(f.body) + r1
    requires r1 == FlattenAlts(f.alts) + r2 && r2 != [] && r2[0] == Endif && r2[1..] == Flatten(f.next) + r3
    ensures lines == Flatten(f) + r3
  {
    hide Flatten, FlattenAlts;
    var b, a, n := Flatten(f.body), FlattenAlts(f.alts), Flatten(f.next);
    assert r2 == [Endif] + (n + r3);
    assert lines == [If(f.c)] + (b + (a + ([Endif] + (n + r3))));
    assert lines == [If(f.c)] + b + a + [Endif] + n + r3;
    FlattenGroup(f);
  }

  lemma AltsText(lines: seq<Line>, a: Alts, r1: seq<Line>, r2: seq<Line>)
    requires a != End && lines != [] && lines[0] == Separator(a) && lines[1..] == Flatten(a.body) + r1
    requires r1 == FlattenAlts(a.alts) + r2
    ensures lines == FlattenAlts(a) + r2
  {
    hide Flatten, FlattenAlts, Separator;
    var b, n := Flatten(a.body), FlattenAlts(a.alts);
    assert lines == [lines[0]] + (b + (n + r2));
    assert lines == [lines[0]] + (b + n) + r2;
    FlattenAlt(a);
  }

  lemma MaxSplits(d: nat, a: nat, b: nat, m: nat)
    requires d + a <= m && d + b <= m
    ensures d + Max(a, b) <= m
  {
  }

  /** Balanced lines form a forest, up to the separator that ends the enclosing branch if there is one. */
  lemma {:induction false} BuildForest(lines: seq<Line>, d: nat, limit: nat) returns (f: Forest, rest: seq<Line>)
    requires Nested(lines, d, limit)
    ensures Proper(f) && lines == Flatten(f) + rest && Nested(rest, d, limit) && d + Depth(f) <= Max(d, limit)
    ensures if d == 0 then rest == [] else rest != [] && (rest[0].Elif? || rest[0].Else? || rest[0].Endif?)
    decreases |lines|
  {
    hide Max, Flatten;
    if lines == [] || lines[0].Elif? || lines[0].Else? || lines[0].Endif? {
      f, rest := Nil, lines;
      MaxBounds(d, limit);
      LeafText(f);
    } else if lines[0].If? {
      var body, r1 := BuildForest(lines[1..], d + 1, limit);
      var alts, r2 := BuildAlts(r1, d + 1, limit);
      var next, r3 := BuildForest(r2[1..], d, limit);
      f, rest := Group(lines[0].c, body, alts, next), r3;
      GroupText(lines, f, r1, r2, r3);
      GroupDepth(d, limit, Depth(body), DepthAlts(alts), Depth(next));
    } else {
      var next, r := BuildForest(lines[1..], d, limit);
      f, rest := Leaf(lines[0], next), r;
      LeafText(f);
      assert lines == [lines[0]] + (Flatten(next) + r);
    }
  }

  lemma {:induction false} BuildAlts(lines: seq<Line>, d: nat, limit: nat) returns (a: Alts, rest: seq<Line>)
    requires d > 0 && Nested(lines, d, limit) && lines != [] && (lines[0].Elif? || lines[0].Else? || lines[0].Endif?)
    ensures ProperAlts(a) && lines == FlattenAlts(a) + rest && Nested(rest, d, limit)
    ensures d + DepthAlts(a) <= Max(d, limit)
    ensures rest != [] && rest[0] == Endif
    decreases |lines|
  {
    hide Flatten, Max;
    if lines[0].Endif? {
      a, rest := End, lines;
      MaxBounds(d, limit);
    } else {
      var body, r1 := BuildForest(lines[1..], d, limit);
      var alts, r2 := BuildAlts(r1, d, limit);
      a, rest := if lines[0].Elif? then ElifBranch(lines[0].e, body, alts) else ElseBranch(body, alts), r2;
      AltsText(lines, a, r1, r2);
      MaxSplits(d, Depth(body), DepthAlts(alts), Max(d, limit));
    }
  }

  /** For any lines: the loop fails exactly if conditionals are unbalanced or nested deeper than 64; otherwise the lines
      are the text of a tree, and the result is that tree's. */
  lemma ProcessIsTreeSemantics(nz: Numeric, env: Env, lines: seq<Line>)
    ensures Process(nz, env, lines).Success? <==> Nested(lines, 0, DEPTH_MAX)
    ensures Process(nz, env, lines).Success? ==>
      exists f :: Proper(f) && Flatten(f) == lines && Process(nz, env, lines) == Success(Run(nz, f, env))
  {
    AcceptedFrom(nz, Start(env), lines);
    if Nested(lines, 0, DEPTH_MAX) {
      var f, rest := BuildForest(lines, 0, DEPTH_MAX);
      assert Flatten(f) + [] == Flatten(f);
      FoldForest(nz, f, Start(env));
    }
  }

  /** Any tree within the depth limit has its text processed to its meaning. */
  lemma TextDeterminesResult(nz: Numeric, env: Env, f: Forest)
    requires Proper(f) && Depth(f) <= DEPTH_MAX
    ensures Process(nz, env, Flatten(f)) == Success(Run(nz, f, env))
  {
    FoldForest(nz, f, Start(env));
  }

  // ----- A text has one tree -----

  /** Nothing follows, or a line that ends a branch does. */
  predicate EndsBranch(lines: seq<Line>) {
    lines == [] || lines[0].Elif? || lines[0].Else? || lines[0].Endif?
  }

  /** What follows the condition of a group: the rest of the group, then the lines after it. */
  function AfterBody(f: Forest, rest: seq<Line>): seq<Line>
    requires f.Group?
  {
    FlattenAlts(f.alts) + ([Endif] + (Flatten(f.next) + rest))
  }

  lemma ForestStarts(f: Forest, rest: seq<Line>)
    requires Proper(f)
    ensures var lines := Flatten(f) + rest;
      match f
      case Nil => lines == rest
      case Leaf(l, next) => lines != [] && IsLeaf(lines[0]) && lines[0] == l && lines[1..] == Flatten(next) + rest
      case Group(c, body, _, _) => lines != [] && lines[0] == If(c) && lines[1..] == Flatten(body) + AfterBody(f, rest)
  {
    hide Flatten, FlattenAlts;
    LeafText(f);
    match f
    case Nil => assert [] + rest == rest;
    case Leaf(l, next) => assert [l] + Flatten(next) + rest == [l] + (Flatten(next) + rest);
    case Group(c, body, alts, next) =>
      FlattenGroup(f);
      GroupLines(If(c), Flatten(body), FlattenAlts(alts), Flatten(next), rest);
  }

  lemma GroupLines(first: Line, b: seq<Line>, a: seq<Line>, n: seq<Line>, rest: seq<Line>)
    ensures var lines := [first] + b + a + [Endif] + n + rest;
      lines[0] == first && lines[1..] == b + (a + ([Endif] + (n + rest)))
  {
    assert [first] + b + a + [Endif] + n + rest == [first] + (b + (a + ([Endif] + (n + rest))));
  }

  lemma AltsStart(a: Alts, rest: seq<Line>)
    requires rest != [] && rest[0] == Endif
    ensures var lines := FlattenAlts(a) + rest;
      && lines != [] && EndsBranch(lines)
      && if a == End then lines == rest
         else lines[0] == Separator(a) && lines[1..] == Flatten(a.body) + (FlattenAlts(a.alts) + rest)
  {
    hide Flatten, FlattenAlts;
    if a == End {
      NoAlts();
      assert [] + rest == rest;
    } else {
      FlattenAlt(a);
      var b, n := Flatten(a.body), FlattenAlts(a.alts);
      assert [Separator(a)] + (b + n) + rest == [Separator(a)] + (b + (n + rest));
    }
  }

  lemma NoAlts()
    ensures FlattenAlts(End) == []
  {
  }

  lemma {:induction false} ForestUnique(f: Forest, g: Forest, r: seq<Line>, q: seq<Line>)
    requires Proper(f) && Proper(g) && EndsBranch(r) && EndsBranch(q) && Flatten(f) + r == Flatten(g) + q
    ensures f == g && r == q
    decreases f
  {
    hide Flatten, FlattenAlts, Separator;
    ForestStarts(f, r);
    ForestStarts(g, q);
    if f.Leaf? && g.Leaf? {
      ForestUnique(f.next, g.next, r, q);
    } else if f.Group? && g.Group? {
      var y, z := [Endif] + (Flatten(f.next) + r), [Endif] + (Flatten(g.next) + q);
      AltsStart(f.alts, y);
      AltsStart(g.alts, z);
      ForestUnique(f.body, g.body, AfterBody(f, r), AfterBody(g, q));
      AltsUnique(f.alts, g.alts, y, z);
      assert y[1..] == Flatten(f.next) + r && z[1..] == Flatten(g.next) + q;
      ForestUnique(f.next, g.next, r, q);
    }
  }

  lemma {:induction false} AltsUnique(a: Alts, b: Alts, r: seq<Line>, q: seq<Line>)
    requires ProperAlts(a) && ProperAlts(b) && FlattenAlts(a) + r == FlattenAlts(b) + q
    requires r != [] && q != [] && r[0] == q[0] == Endif
    ensures a == b && r == q
    decreases a
  {
    hide Flatten, FlattenAlts;
    AltsStart(a, r);
    AltsStart(b, q);
    if a != End && b != End {
      AltsStart(a.alts, r);
      AltsStart(b.alts, q);
      ForestUnique(a.body, b.body, FlattenAlts(a.alts) + r, FlattenAlts(b.alts) + q);
      AltsUnique(a.alts, b.alts, r, q);
    }
  }

  /** Two trees with the same text are the same tree. */
  lemma TextDeterminesTree(f: Forest, g: Forest)
    requires Proper(f) && Proper(g) && Flatten(f) == Flatten(g)
    ensures f == g
  {
    hide Flatten;
    ForestUnique(f, g, [], []);
  }

  // ----- What conditions mean -----

  /** Some definition of the name is in force. */
  ghost predicate Defined(macros: seq<Macro>, name: Text) {
    exists i :: 0 <= i < |macros| && macros[i].name == name
  }

  ghost predicate IsTrue(nz: Numeric, macros: seq<Macro>, c: Cond) {
    match c
    case IfDef(n) => Defined(macros, n)
    case IfNotDef(n) => !Defined(macros, n)
    case IfExpr(IsDefined(n)) => Defined(macros, n)
    case IfExpr(Bare(t)) => Defined(macros, t) || nz(t)
  }

  lemma HoldsIsTrue(nz: Numeric, macros: seq<Macro>, c: Cond)
    ensures Holds(nz, macros, c) <==> IsTrue(nz, macros, c)
    ensures c.IfExpr? ==> (Value(nz, macros, c.e) <==> IsTrue(nz, macros, c))
  {
    forall n ensures Known(macros, n) <==> Defined(macros, n) {
      var i := FindMacro(macros, n);
      assert i < |macros| ==> macros[i].name == n;
    }
  }

  /** Lines with balanced groups, nested at most 63 deep, as a tree. */
  lemma BodyTree(nz: Numeric, env: Env, lines: seq<Line>) returns (f: Forest)
    requires Nested(lines, 0, DEPTH_MAX - 1)
    ensures Proper(f) && Flatten(f) == lines && Depth(f) < DEPTH_MAX
    ensures Process(nz, env, lines) == Success(Run(nz, f, env))
  {
    hide Flatten, Depth, Run, Process;
    var rest;
    f, rest := BuildForest(lines, 0, DEPTH_MAX - 1);
    assert Flatten(f) + [] == Flatten(f);
    TextDeterminesResult(nz, env, f);
  }

  lemma GroupProcessed(nz: Numeric, env: Env, c: Cond, body: Forest, alts: Alts)
    requires Proper(body) && ProperAlts(alts) && Depth(body) < DEPTH_MAX && DepthAlts(alts) < DEPTH_MAX
    ensures Process(nz, env, [If(c)] + Flatten(body) + FlattenAlts(alts) + [Endif])
      == Success(if IsTrue(nz, env.macros, c) then Run(nz, body, env) else RunAlts(nz, alts, env))
  {
    hide Process, Holds, IsTrue, Run, RunAlts, Flatten, FlattenAlts;
    var f := Group(c, body, alts, Nil);
    HoldsIsTrue(nz, env.macros, c);
    TextDeterminesResult(nz, env, f);
    FlattenGroup(f);
    LeafText(Nil);
    RunGroup(nz, f, env);
    assert Flatten(f) == [If(c)] + Flatten(body) + FlattenAlts(alts) + [Endif];
  }

  lemma RunGroup(nz: Numeric, f: Forest, env: Env)
    requires f.Group? && f.next == Nil
    ensures Run(nz, f, env) ==
      if Holds(nz, env.macros, f.c) then Run(nz, f.body, env) else RunAlts(nz, f.alts, env)
  {
  }

  /** A group with one branch is its body if the condition is true, and nothing otherwise. */
  lemma IfRuns(nz: Numeric, env: Env, c: Cond, body: seq<Line>)
    requires Nested(body, 0, DEPTH_MAX - 1)
    ensures Process(nz, env, [If(c)] + body + [Endif])
      == if IsTrue(nz, env.macros, c) then Process(nz, env, body) else Success(env)
  {
    hide Process, IsTrue, Run, Flatten, Nested;
    var f := BodyTree(nz, env, body);
    GroupProcessed(nz, env, c, f, End);
    NoAlts();
    assert [If(c)] + body + [] + [Endif] == [If(c)] + body + [Endif];
  }

  /** Of three branches the first whose condition is true is run, the last one if none is. */
  lemma FirstTrueRuns(nz: Numeric, env: Env, c: Cond, a: seq<Line>, e: Expr, b: seq<Line>, d: seq<Line>)
    requires Nested(a, 0, DEPTH_MAX - 1) && Nested(b, 0, DEPTH_MAX - 1) && Nested(d, 0, DEPTH_MAX - 1)
    ensures Process(nz, env, [If(c)] + a + ([Elif(e)] + (b + ([Else] + d))) + [Endif]) ==
      if IsTrue(nz, env.macros, c) then Process(nz, env, a)
      else if IsTrue(nz, env.macros, IfExpr(e)) then Process(nz, env, b)
      else Process(nz, env, d)
  {
    hide Process, IsTrue, Run, Flatten, Nested, FlattenAlts, Value;
    var f := BodyTree(nz, env, a);
    var g := BodyTree(nz, env, b);
    var k := BodyTree(nz, env, d);
    var last := ElseBranch(k, End);
    var alts := ElifBranch(e, g, last);
    FlattenAlt(alts);
    FlattenAlt(last);
    NoAlts();
    assert d + [] == d;
    assert ProperAlts(last) && DepthAlts(last) < DEPTH_MAX;
    HoldsIsTrue(nz, env.macros, IfExpr(e));
    GroupProcessed(nz, env, c, f, alts);
  }

  // ----- What definitions do -----

  /** The bodies a name has, newest first. */
  function Definitions(macros: seq<Macro>, name: Text): seq<Text> {
    if macros == [] then []
    else (if macros[0].name == name then [macros[0].body] else []) + Definitions(macros[1..], name)
  }

  lemma {:induction false} DefinedExactly(macros: seq<Macro>, name: Text)
    ensures Defined(macros, name) <==> Definitions(macros, name) != []
    ensures Defined(macros, name) ==>
      var i := FindMacro(macros, name); i < |macros| && macros[i].body == Definitions(macros, name)[0]
  {
    if macros != [] {
      DefinedExactly(macros[1..], name);
      assert Defined(macros, name) <==> macros[0].name == name || Defined(macros[1..], name) by {
        if Defined(macros[1..], name) {
          var i :| 0 <= i < |macros[1..]| && macros[1..][i].name == name;
          assert macros[i + 1].name == name;
        }
        if Defined(macros, name) && macros[0].name != name {
          var i :| 0 <= i < |macros| && macros[i].name == name;
          assert macros[1..][i - 1].name == name;
        }
      }
    }
  }

  lemma DefinitionsCons(m: Macro, macros: seq<Macro>, name: Text)
    ensures Definitions([m] + macros, name)
      == (if m.name == name then [m.body] else []) + Definitions(macros, name)
  {
    assert ([m] + macros)[1..] == macros;
  }

  lemma RemoveFront(m: Macro, macros: seq<Macro>, name: Text)
    ensures RemoveMacro([m] + macros, name)
      == if m.name == name then macros else [m] + RemoveMacro(macros, name)
  {
    var all, i := [m] + macros, FindMacro(macros, name);
    assert all[1..] == macros;
    if m.name == name {
      assert FindMacro(all, name) == 0 && all[..0] + all[1..] == macros;
    } else {
      assert FindMacro(all, name) == i + 1;
      if i < |macros| { WithoutLater(m, macros, i); }
    }
  }

  lemma WithoutLater(m: Macro, macros: seq<Macro>, i: nat)
    requires i < |macros|
    ensures var all := [m] + macros; all[..i + 1] + all[i + 2..] == [m] + (macros[..i] + macros[i + 1..])
  {
  }

  lemma WithoutFirst(x: Text, w: seq<Text>)
    ensures ([x] + w)[1..] == w && [] + w == w
  {
  }

  lemma {:induction false} DefinitionsRemoved(macros: seq<Macro>, name: Text, other: Text)
    ensures var now, was := Definitions(RemoveMacro(macros, name), other), Definitions(macros, other);
      now == if other == name && was != [] then was[1..] else was
  {
    hide RemoveMacro, Definitions;
    if macros == [] {
      NothingDefined(name, other);
    } else {
      var m, rest := macros[0], macros[1..];
      var below := Definitions(rest, other);
      assert macros == [m] + rest;
      RemoveFront(m, rest, name);
      DefinitionsCons(m, rest, other);
      WithoutFirst(m.body, below);
      if m.name != name {
        var left := Definitions(RemoveMacro(rest, name), other);
        DefinitionsCons(m, RemoveMacro(rest, name), other);
        WithoutFirst(m.body, left);
        DefinitionsRemoved(rest, name, other);
      }
    }
  }

  lemma NothingDefined(name: Text, other: Text)
    ensures RemoveMacro([], name) == [] && Definitions([], other) == []
  {
  }

  lemma ProcessOne(nz: Numeric, env: Env, l: Line)
    requires IsLeaf(l)
    ensures Process(nz, env, [l]) == Success(Effect(env, l))
  {
    hide Effect, Step, Fold;
    var s := Start(env);
    OtherLine(nz, s, l);
    FoldCons(nz, s, l, []);
    FoldNil(nz, s.(env := Effect(env, l)));
    assert [l] + [] == [l];
  }

  /** #define puts a definition in front of a name's others, #undef takes the newest one away, and a line of text is
      emitted with the definitions in force. Nothing else changes. */
  lemma LeavesTakeEffect(nz: Numeric, env: Env, l: Line)
    requires IsLeaf(l)
    ensures var r := Process(nz, env, [l]);
      && r.Success?
      && (l.Source? ==>
        r.value == env.(out := if l.text == [] then env.out else env.out + [(l.text, env.macros)]))
      && (!l.Source? ==> r.value.out == env.out)
      && (l.Define? ==> forall n ::
        Definitions(r.value.macros, n)
          == (if n == l.m.name then [l.m.body] else []) + Definitions(env.macros, n))
      && (l.Undef? ==> forall n ::
        var was := Definitions(env.macros, n);
        Definitions(r.value.macros, n) == if n == l.name && was != [] then was[1..] else was)
  {
    hide Process, RemoveMacro;
    ProcessOne(nz, env, l);
    if l.Define? {
      assert ([l.m] + env.macros)[1..] == env.macros;
    } else if l.Undef? {
      forall n ensures var was := Definitions(env.macros, n);
        Definitions(RemoveMacro(env.macros, l.name), n) == if n == l.name && was != [] then was[1..] else was
      {
        DefinitionsRemoved(env.macros, l.name, n);
      }
    }
  }

  /** Balanced lines are processed as if what follows them were a text of its own. */
  lemma ProcessConcat(nz: Numeric, env: Env, a: seq<Line>, b: seq<Line>)
    requires Nested(a, 0, DEPTH_MAX)
    ensures Process(nz, env, a).Success? && Process(nz, env, a + b) == Process(nz, Process(nz, env, a).value, b)
  {
    hide Fold, Flatten, Nested, Depth, Run;
    var f, rest := BuildForest(a, 0, DEPTH_MAX);
    assert Flatten(f) + [] == Flatten(f);
    FoldForest(nz, f, Start(env));
    FoldConcat(nz, Start(env), a, b);
  }

  /** A name is defined after its #define; after its #undef exactly if an older definition remains. */
  lemma DefinedAfter(nz: Numeric, env: Env, m: Macro, body: seq<Line>)
    requires Nested(body, 0, DEPTH_MAX - 1)
    ensures Process(nz, env, [Define(m)] + ([If(IfDef(m.name))] + body + [Endif]))
      == Process(nz, env, [Define(m)] + body)
    ensures Process(nz, env, [Define(m)] + ([If(IfNotDef(m.name))] + body + [Endif]))
      == Process(nz, env, [Define(m)])
    ensures Process(nz, env, [Undef(m.name)] + ([If(IfDef(m.name))] + body + [Endif])) ==
      if |Definitions(env.macros, m.name)| >= 2 then Process(nz, env, [Undef(m.name)] + body)
      else Process(nz, env, [Undef(m.name)])
  {
    hide Process, Definitions, Nested;
    LeavesTakeEffect(nz, env, Define(m));
    LeavesTakeEffect(nz, env, Undef(m.name));
    var d, u := Process(nz, env, [Define(m)]).value, Process(nz, env, [Undef(m.name)]).value;
    DefinedExactly(d.macros, m.name);
    DefinedExactly(u.macros, m.name);
    IfRuns(nz, d, IfDef(m.name), body);
    IfRuns(nz, d, IfNotDef(m.name), body);
    IfRuns(nz, u, IfDef(m.name), body);
    OneIsNested(Define(m));
    OneIsNested(Undef(m.name));
    ProcessConcat(nz, env, [Define(m)], [If(IfDef(m.name))] + body + [Endif]);
    ProcessConcat(nz, env, [Define(m)], [If(IfNotDef(m.name))] + body + [Endif]);
    ProcessConcat(nz, env, [Define(m)], body);
    ProcessConcat(nz, env, [Undef(m.name)], [If(IfDef(m.name))] + body + [Endif]);
    ProcessConcat(nz, env, [Undef(m.name)], body);
  }

  lemma OneIsNested(l: Line)
    requires IsLeaf(l)
    ensures Nested([l], 0, DEPTH_MAX)
  {
    assert [l][1..] == [];
  }

  // ----- Which error is reported -----

  function Endifs(k: nat): (lines: seq<Line>)
    ensures |lines| == k && forall i :: 0 <= i < k ==> lines[i] == Endif
  {
    seq(k, _ => Endif)
  }

  lemma {:induction false} NestedEndifs(k: nat, d: nat, limit: nat)
    ensures Nested(Endifs(k), d, limit) <==> d == k
    decreases k
  {
    if k > 0 && d > 0 {
      assert Endifs(k)[1..] == Endifs(k - 1);
      NestedEndifs(k - 1, d - 1, limit);
    }
  }

  /** Lines that k more #endif would balance leave k groups open. */
  lemma {:induction false} OpenGroups(nz: Numeric, s: State, lines: seq<Line>, k: nat)
    requires |s.cond| <= DEPTH_MAX && Nested(lines + Endifs(k), |s.cond|, DEPTH_MAX)
    ensures Fold(nz, s, lines).Success? && |Fold(nz, s, lines).value.cond| == k
    decreases |lines|
  {
    hide Effect, Holds, Value;
    if lines == [] {
      assert lines + Endifs(k) == Endifs(k);
      NestedEndifs(k, |s.cond|, DEPTH_MAX);
    } else {
      assert (lines + Endifs(k))[0] == lines[0] && (lines + Endifs(k))[1..] == lines[1..] + Endifs(k);
      OpenGroups(nz, Step(nz, s, lines[0]).value, lines[1..], k);
    }
  }

  /** Where k groups are open: a directive that closes or continues a group is an error if k is 0, one more #if if k is
      64, and the end of the text if k is not 0. */
  lemma ErrorsReported(nz: Numeric, env: Env, lines: seq<Line>, k: nat, l: Line, rest: seq<Line>)
    requires Nested(lines + Endifs(k), 0, DEPTH_MAX)
    ensures var r := Process(nz, env, lines + ([l] + rest));
      && (k == 0 ==>
        (l.Elif? ==> r == Failure(ElifWithoutIf)) && (l.Else? ==> r == Failure(ElseWithoutIf))
        && (l.Endif? ==> r == Failure(EndifWithoutIf)))
      && (k == DEPTH_MAX && l.If? ==> r == Failure(TooDeep))
    ensures k > 0 ==> Process(nz, env, lines) == Failure(Unterminated)
  {
    hide Effect, Holds, Value, Nested;
    OpenGroups(nz, Start(env), lines, k);
    FoldConcat(nz, Start(env), lines, [l] + rest);
  }
}
