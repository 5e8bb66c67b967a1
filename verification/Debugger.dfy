/** The debugger (debugger/debugger.c): breakpoints interrupt a run but never change it. */
module Debugger {
  import opened Bytes
  import opened Encoding
  import opened ImageFile
  import opened Layout
  import opened Machine
  import opened Steps
  import Vm

  const BREAKPOINTS_MAX: nat := 128

  /** Breakpoints are compared with pc cast to 32 bits. */
  predicate IsBreak(breakpoints: seq<uint32>, pc: nat) {
    pc % 0x1_0000_0000 in breakpoints
  }

  /** The k-th step is a place to stop: the run is over, or pc is a breakpoint. */
  ghost predicate Stop(h: Host, img: Image, bps: seq<uint32>, s: State, k: nat)
    requires k > 0
  {
    OutcomeOf(h, img, s, k) != Ran || IsBreak(bps, After(h, img, s, k).pc)
  }

  /** Continue stops after exactly k steps: at the first place to stop, and never before taking one step. */
  ghost predicate ContinueStops(h: Host, img: Image, bps: seq<uint32>, s: State, k: nat) {
    k > 0 && Stop(h, img, bps, s, k) && forall j :: 1 <= j < k ==> !Stop(h, img, bps, s, j)
  }

  class Debugger {
    const vm: Vm.Vm
    var breakpoints: seq<uint32>
    var paused: bool

    /** scml_debugger_init. */
    constructor (machine: Vm.Vm)
      ensures vm == machine && breakpoints == [] && !paused
    {
      vm := machine;
      breakpoints, paused := [], false;
    }

    /** scml_debugger_add_pc_breakpoint. */
    method AddBreakpoint(pc: uint32) returns (ok: bool)
      modifies this
      ensures ok <==> |old(breakpoints)| < BREAKPOINTS_MAX
      ensures breakpoints == if ok then old(breakpoints) + [pc] else old(breakpoints)
      ensures paused == old(paused)
    {
      if |breakpoints| >= BREAKPOINTS_MAX { return false; }
      breakpoints := breakpoints + [pc];
      ok := true;
    }

    /** scml_debugger_add_label_breakpoint. */
    method AddLabelBreakpoint(name: Text) returns (ok: bool)
      modifies this
      ensures paused == old(paused)
      ensures match FindLabel(vm.image.labels, name)
        case None => !ok && breakpoints == old(breakpoints)
        case Some(pc) =>
          && (ok <==> |old(breakpoints)| < BREAKPOINTS_MAX)
          && breakpoints == if ok then old(breakpoints) + [pc] else old(breakpoints)
    {
      var pc := vm.LabelAddress(name);
      if pc.None? { return false; }
      ok := AddBreakpoint(pc.value);
    }

    /** scml_debugger_is_breakpoint. */
    method IsBreakpoint(pc: nat) returns (hit: bool)
      ensures hit <==> IsBreak(breakpoints, pc)
    {
      var i := 0;
      while i < |breakpoints|
        invariant i <= |breakpoints| && pc % 0x1_0000_0000 !in breakpoints[..i]
      {
        if breakpoints[i] == pc % 0x1_0000_0000 { return true; }
        i := i + 1;
      }
      hit := false;
    }

    /** scml_debugger_step. */
    method Step(h: Host) returns (rc: Outcome)
      requires vm.Valid()
      modifies this, vm, vm.heap, vm.queue, vm.queue.ring
      ensures vm.Valid() && vm.image == old(vm.image) && breakpoints == old(breakpoints)
      ensures vm.Now() == After(h, old(vm.image), old(vm.Now()), 1)
      ensures rc == OutcomeOf(h, old(vm.image), old(vm.Now()), 1)
      ensures paused <==> rc == Ran && IsBreak(breakpoints, vm.pc)
    {
      hide VmStep;
      paused := false;
      ghost var before := vm.Now();
      assert After(h, vm.image, before, 0) == before;
      rc := vm.Step(h);
      if rc == Ran { paused := IsBreakpoint(vm.pc); }
    }

    /** scml_debugger_continue, for at most fuel steps: the number k of steps taken and, if it stopped, what it
        returns. */
    method Continue(h: Host, fuel: nat) returns (k: nat, rc: Option<Outcome>)
      requires vm.Valid()
      modifies this, vm, vm.heap, vm.queue, vm.queue.ring
      ensures vm.Valid() && vm.image == old(vm.image) && breakpoints == old(breakpoints)
      ensures vm.Now() == After(h, old(vm.image), old(vm.Now()), k)
      ensures if rc.Some? then
          && ContinueStops(h, old(vm.image), breakpoints, old(vm.Now()), k)
          && rc.value == OutcomeOf(h, old(vm.image), old(vm.Now()), k) && (paused <==> rc.value == Ran)
        else k == fuel && forall j :: 1 <= j <= k ==> !Stop(h, old(vm.image), breakpoints, old(vm.Now()), j)
    {
      hide VmStep;
      paused := false;
      k := 0;
      while k < fuel
        invariant k <= fuel && !paused && breakpoints == old(breakpoints)
        invariant vm.Valid() && vm.image == old(vm.image)
        invariant vm.Now() == After(h, old(vm.image), old(vm.Now()), k)
        invariant forall j :: 1 <= j <= k ==> !Stop(h, old(vm.image), breakpoints, old(vm.Now()), j)
      {
        var r := vm.Step(h);
        k := k + 1;
        assert r == OutcomeOf(h, old(vm.image), old(vm.Now()), k);
        assert vm.Now() == After(h, old(vm.image), old(vm.Now()), k);
        if r != Ran { return k, Some(r); }
        var hit := IsBreakpoint(vm.pc);
        if hit {
          paused := true;
          return k, Some(Ran);
        }
      }
      rc := None;
    }
  }

  // ----- Sessions -----

  /** A command, with the breakpoints set when it is given. */
  datatype Command = StepOnce | ContinueWith(breakpoints: seq<uint32>)

  /** What a command given in state s does is take k steps. */
  ghost predicate Takes(h: Host, img: Image, s: State, c: Command, k: nat) {
    match c
    case StepOnce => k == 1
    case ContinueWith(bps) => ContinueStops(h, img, bps, s, k)
  }

  /** A session: ks[i] is the number of steps taken by the i-th command. */
  ghost predicate Session(h: Host, img: Image, s: State, cs: seq<Command>, ks: seq<nat>)
    decreases |ks|
  {
    |cs| == |ks| &&
    (ks != [] ==> Takes(h, img, s, cs[0], ks[0]) && Session(h, img, After(h, img, s, ks[0]), cs[1..], ks[1..]))
  }

  /** No command is given after one has reported the end of the run. */
  ghost predicate StopsAtEnd(h: Host, img: Image, s: State, ks: seq<nat>)
    decreases |ks|
  {
    |ks| > 1 ==>
      ks[0] > 0 && OutcomeOf(h, img, s, ks[0]) == Ran && StopsAtEnd(h, img, After(h, img, s, ks[0]), ks[1..])
  }

  /** The states after each of the next n steps of the plain run. */
  ghost function Trace(h: Host, img: Image, s: State, n: nat): (t: seq<State>)
    ensures |t| == n && forall i :: 0 <= i < n ==> t[i] == After(h, img, s, i + 1)
  {
    seq(n, i requires 0 <= i < n => After(h, img, s, i + 1))
  }

  /** The states a session visits, in order. */
  ghost function Visited(h: Host, img: Image, s: State, ks: seq<nat>): seq<State>
    decreases |ks|
  {
    if ks == [] then [] else Trace(h, img, s, ks[0]) + Visited(h, img, After(h, img, s, ks[0]), ks[1..])
  }

  /** What the last command reports. */
  ghost function Reported(h: Host, img: Image, s: State, ks: seq<nat>): Outcome
    requires ks != [] && ks[|ks| - 1] > 0
    decreases |ks|
  {
    if |ks| == 1 then OutcomeOf(h, img, s, ks[0]) else Reported(h, img, After(h, img, s, ks[0]), ks[1..])
  }

  function Sum(ks: seq<nat>): nat {
    if ks == [] then 0 else ks[0] + Sum(ks[1..])
  }

  /** scml_vm_run ends after exactly n steps. */
  ghost predicate RunEndsAfter(h: Host, img: Image, s: State, n: nat) {
    n > 0 && OutcomeOf(h, img, s, n) != Ran && forall j :: 1 <= j < n ==> OutcomeOf(h, img, s, j) == Ran
  }

  lemma Shifted(h: Host, img: Image, s: State, k: nat, j: nat)
    requires j > 0
    ensures OutcomeOf(h, img, After(h, img, s, k), j) == OutcomeOf(h, img, s, k + j)
    ensures After(h, img, After(h, img, s, k), j) == After(h, img, s, k + j)
  {
    hide VmStep;
    AfterSplit(h, img, s, k, j - 1);
    AfterSplit(h, img, s, k, j);
  }

  lemma TraceSplit(h: Host, img: Image, s: State, k: nat, n: nat)
    ensures Trace(h, img, s, k + n) == Trace(h, img, s, k) + Trace(h, img, After(h, img, s, k), n)
  {
    hide VmStep, After;
    var a, b := Trace(h, img, s, k + n), Trace(h, img, s, k) + Trace(h, img, After(h, img, s, k), n);
    forall i | 0 <= i < k + n ensures a[i] == b[i] {
      if i >= k { Shifted(h, img, s, k, i - k + 1); }
    }
  }

  lemma {:induction false} VisitsRun(h: Host, img: Image, s: State, ks: seq<nat>)
    ensures Visited(h, img, s, ks) == Trace(h, img, s, Sum(ks))
    decreases |ks|
  {
    hide VmStep, After, Trace;
    if ks != [] {
      VisitsRun(h, img, After(h, img, s, ks[0]), ks[1..]);
      TraceSplit(h, img, s, ks[0], Sum(ks[1..]));
    } else {
      assert Trace(h, img, s, 0) == [];
    }
  }

  lemma RestOfRun(h: Host, img: Image, s: State, n: nat, k: nat)
    requires RunEndsAfter(h, img, s, n) && k < n
    ensures RunEndsAfter(h, img, After(h, img, s, k), n - k)
  {
    hide VmStep;
    forall j | 1 <= j <= n - k
      ensures OutcomeOf(h, img, After(h, img, s, k), j) == OutcomeOf(h, img, s, k + j)
    {
      Shifted(h, img, s, k, j);
    }
  }

  /** A command given before the end of the run stays in it, and reports the end exactly when it has reached it. */
  lemma CommandStaysInRun(h: Host, img: Image, s: State, n: nat, c: Command, k: nat)
    requires RunEndsAfter(h, img, s, n) && Takes(h, img, s, c, k)
    ensures 0 < k <= n && (OutcomeOf(h, img, s, k) != Ran <==> k == n)
    ensures k < n ==> RunEndsAfter(h, img, After(h, img, s, k), n - k)
  {
    hide VmStep, IsBreak;
    assert k <= n by { if c.ContinueWith? { assert Stop(h, img, c.breakpoints, s, n); } }
    if k < n { RestOfRun(h, img, s, n, k); }
  }

  /** If the run ends, every continue command stops, no later than where the run ends. */
  lemma ContinueTerminates(h: Host, img: Image, bps: seq<uint32>, s: State, n: nat) returns (k: nat)
    requires RunEndsAfter(h, img, s, n)
    ensures ContinueStops(h, img, bps, s, k) && k <= n
  {
    hide VmStep, IsBreak;
    k := 1;
    while !Stop(h, img, bps, s, k)
      invariant 1 <= k <= n && forall j :: 1 <= j < k ==> !Stop(h, img, bps, s, j)
      decreases n - k
    {
      k := k + 1;
    }
  }

  lemma {:induction false} SessionWithinRun(h: Host, img: Image, s: State, n: nat, cs: seq<Command>, ks: seq<nat>)
    requires RunEndsAfter(h, img, s, n) && Session(h, img, s, cs, ks)
    ensures Sum(ks) <= n <==> StopsAtEnd(h, img, s, ks)
    ensures ks != [] ==> ks[|ks| - 1] > 0
    ensures ks != [] && Sum(ks) <= n ==> (Reported(h, img, s, ks) != Ran <==> Sum(ks) == n)
    decreases |ks|
  {
    hide VmStep, After, Takes, RunEndsAfter;
    if ks != [] {
      CommandStaysInRun(h, img, s, n, cs[0], ks[0]);
      if ks[0] < n {
        SessionWithinRun(h, img, After(h, img, s, ks[0]), n - ks[0], cs[1..], ks[1..]);
      } else if |ks| > 1 {
        AllTakeSteps(h, img, After(h, img, s, ks[0]), cs[1..], ks[1..]);
      }
    }
  }

  lemma {:induction false} AllTakeSteps(h: Host, img: Image, s: State, cs: seq<Command>, ks: seq<nat>)
    requires Session(h, img, s, cs, ks) && ks != []
    ensures Sum(ks) > 0 && ks[|ks| - 1] > 0
    decreases |ks|
  {
    hide VmStep, After, Stop;
    if |ks| > 1 { AllTakeSteps(h, img, After(h, img, s, ks[0]), cs[1..], ks[1..]); }
  }

  /** Debugging does not change a run that ends after n steps. The states visited by a session of step and continue
      commands, with breakpoints set in between, form a prefix of the run's states if and only if no command follows one
      that reported the end; the last command then reports the end exactly if the whole run has been visited. */
  lemma SessionFollowsRun(h: Host, img: Image, s: State, n: nat, cs: seq<Command>, ks: seq<nat>)
    requires RunEndsAfter(h, img, s, n) && Session(h, img, s, cs, ks)
    ensures Visited(h, img, s, ks) <= Trace(h, img, s, n) <==> StopsAtEnd(h, img, s, ks)
    ensures ks != [] && StopsAtEnd(h, img, s, ks) ==>
      ks[|ks| - 1] > 0 && (Reported(h, img, s, ks) != Ran <==> Visited(h, img, s, ks) == Trace(h, img, s, n))
  {
    hide VmStep, After, Reported, StopsAtEnd, Session, RunEndsAfter, Visited;
    VisitsRun(h, img, s, ks);
    SessionWithinRun(h, img, s, n, cs, ks);
    var m := Sum(ks);
    if m <= n {
      TraceSplit(h, img, s, m, n - m);
    } else {
      assert |Visited(h, img, s, ks)| > |Trace(h, img, s, n)|;
    }
  }

  /** Repeating continue visits exactly the run's states and reports its outcome last, whatever the breakpoints. */
  lemma {:induction false} ContinueToEnd(h: Host, img: Image, bps: seq<uint32>, s: State, n: nat)
    returns (cs: seq<Command>, ks: seq<nat>)
    requires RunEndsAfter(h, img, s, n)
    ensures forall i :: 0 <= i < |cs| ==> cs[i] == ContinueWith(bps)
    ensures Session(h, img, s, cs, ks) && Sum(ks) == n && Visited(h, img, s, ks) == Trace(h, img, s, n)
    ensures ks != [] && ks[|ks| - 1] > 0 && Reported(h, img, s, ks) == OutcomeOf(h, img, s, n)
    decreases n
  {
    hide VmStep, IsBreak, Visited, Trace;
    var c := ContinueWith(bps);
    var k := ContinueTerminates(h, img, bps, s, n);
    if k == n {
      cs, ks := [c], [n];
      assert ks[1..] == [] && cs[1..] == [];
    } else {
      RestOfRun(h, img, s, n, k);
      var ds, ls := ContinueToEnd(h, img, bps, After(h, img, s, k), n - k);
      cs, ks := [c] + ds, [k] + ls;
      assert ks[1..] == ls && cs[1..] == ds;
      Shifted(h, img, s, k, n - k);
    }
    VisitsRun(h, img, s, ks);
  }

  // ----- A session that goes on after the end -----

  /** Two events are queued; only the second has a handler. */
  function TwoQueued(): State {
    Fresh().(events := [Event([98], [0])], queue := [Item([97], 0), Item([98], 0)])
  }

  /** The run of an empty image from there ends with the first step. A second step command nevertheless dispatches the
      second event and runs, so the session visits a state that the run does not. */
  lemma SessionPastEnd(h: Host)
    ensures var img, s := Image([], [], []), TwoQueued();
      && RunEndsAfter(h, img, s, 1) && Session(h, img, s, [StepOnce, StepOnce], [1, 1])
      && !StopsAtEnd(h, img, s, [1, 1]) && Reported(h, img, s, [1, 1]) == Ran
      && !(Visited(h, img, s, [1, 1]) <= Trace(h, img, s, 1))
  {
    hide Exec, Fetch;
    var img, s, ks := Image([], [], []), TwoQueued(), [1, 1];
    FirstStepIdles(h);
    SecondStepRuns(h);
    var t := After(h, img, s, 1);
    assert ks[1..] == [1] && [1][1..] == [] && [StepOnce, StepOnce][1..] == [StepOnce] && [StepOnce][1..] == [];
    assert Session(h, img, t, [StepOnce], [1]);
    assert Reported(h, img, t, [1]) == OutcomeOf(h, img, t, 1);
    SessionFollowsRun(h, img, s, 1, [StepOnce, StepOnce], ks);
  }

  lemma FirstStepIdles(h: Host)
    ensures var img, s := Image([], [], []), TwoQueued();
      OutcomeOf(h, img, s, 1) == Idle && After(h, img, s, 1) == s.(halted := true, queue := [Item([98], 0)])
  {
    hide Exec, Fetch;
    var img, s := Image([], [], []), TwoQueued();
    assert EventIndex(s.events, [97]) == 1;
    assert After(h, img, s, 0) == s;
    assert s.queue[1..] + [] == [Item([98], 0)];
  }

  lemma SecondStepRuns(h: Host)
    ensures var img, s := Image([], [], []), TwoQueued();
      OutcomeOf(h, img, After(h, img, s, 1), 1) == Ran
  {
    hide Exec, Fetch;
    FirstStepIdles(h);
    var img, s := Image([], [], []), TwoQueued();
    var t := After(h, img, s, 1);
    assert After(h, img, t, 0) == t;
    assert EventIndex(t.events, [98]) == 0;
  }
}
