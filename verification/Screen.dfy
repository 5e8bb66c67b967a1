/** The full and dirty framebuffer renderers (vm/vm.c) against a terminal that obeys CUP, section 8.3.21 of ECMA-48. */
module Screen {

  /** Output: a cursor move (CUP, one-based) or a run of cells written from the cursor on. */
  datatype Draw = Move(row: nat, col: nat) | Cells(cells: seq<int>)

  datatype Terminal = Terminal(cell: (nat, nat) -> int, row: nat, col: nat)

  function Apply(s: Terminal, d: Draw): Terminal {
    match d
    case Move(r, c) => Terminal(s.cell, r, c)
    case Cells(bs) =>
      var cell := (r: nat, c: nat) =>
        if r == s.row && s.col <= c < s.col + |bs| then bs[c - s.col] else s.cell(r, c);
      Terminal(cell, s.row, s.col + |bs|)
  }

  function Replay(s: Terminal, ds: seq<Draw>): Terminal
    decreases |ds|
  {
    if ds == [] then s else Replay(Apply(s, ds[0]), ds[1..])
  }

  lemma {:induction false} ReplayConcat(s: Terminal, a: seq<Draw>, b: seq<Draw>)
    ensures Replay(s, a + b) == Replay(Replay(s, a), b)
    decreases |a|
  {
    if a == [] {
      assert a + b == b;
    } else {
      assert (a + b)[1..] == a[1..] + b;
      ReplayConcat(Apply(s, a[0]), a[1..], b);
    }
  }

  // ----- What the renderers emit -----

  /** w * h, by addition. */
  function Area(w: nat, h: nat): nat {
    if h == 0 then 0 else Area(w, h - 1) + w
  }

  lemma AreaGrows(w: nat, r: nat)
    ensures Area(w, 0) == 0 && Area(w, r + 1) == Area(w, r) + w
  {
  }

  lemma {:induction false} AreaIsProduct(w: nat, h: nat)
    ensures Area(w, h) == w * h
  {
    if h > 0 {
      AreaIsProduct(w, h - 1);
      assert w * h == w * (h - 1) + w;
    }
  }

  /** The first w * h cells of a buffer, cut into h rows of w. */
  function Rows(buf: seq<int>, w: nat, h: nat): (rows: seq<seq<int>>)
    requires Area(w, h) <= |buf|
    ensures |rows| == h && forall r :: 0 <= r < h ==> |rows[r]| == w
    decreases h
  {
    if h == 0 then [] else [buf[..w]] + Rows(buf[w..], w, h - 1)
  }

  /** Row r is the cells from r * w to r * w + w. */
  lemma {:induction false} RowIs(buf: seq<int>, w: nat, h: nat, r: nat)
    requires Area(w, h) <= |buf| && r < h
    ensures Area(w, r) + w <= |buf| && Rows(buf, w, h)[r] == buf[Area(w, r)..Area(w, r) + w]
    decreases h
  {
    if r > 0 {
      var rest := buf[w..];
      RowIs(rest, w, h - 1, r - 1);
      Shift(buf, w, Area(w, r - 1));
    }
  }

  lemma Shift(buf: seq<int>, w: nat, j: nat)
    requires w <= |buf| && j + w <= |buf| - w
    ensures buf[w..][j..j + w] == buf[j + w..j + w + w]
  {
  }

  /** Where the run of differing cells that includes column c ends. */
  function RunEnd(cur: seq<int>, prev: seq<int>, c: nat): (e: nat)
    requires |cur| == |prev| && c <= |cur|
    ensures c <= e <= |cur| && forall k :: c <= k < e ==> cur[k] != prev[k]
    ensures e == |cur| || cur[e] == prev[e]
    decreases |cur| - c
  {
    if c == |cur| || cur[c] == prev[c] then c else RunEnd(cur, prev, c + 1)
  }

  /** The runs, as (start, end) pairs, of one row from column c on. */
  function Runs(cur: seq<int>, prev: seq<int>, c: nat): (rs: seq<(nat, nat)>)
    requires |cur| == |prev| && c <= |cur|
    ensures forall k :: 0 <= k < |rs| ==> c <= rs[k].0 <= rs[k].1 <= |cur|
    decreases |cur| - c
  {
    if c == |cur| then []
    else if cur[c] == prev[c] then Runs(cur, prev, c + 1)
    else var e := RunEnd(cur, prev, c + 1); [(c, e)] + Runs(cur, prev, e)
  }

  function RunDraws(cur: seq<int>, rs: seq<(nat, nat)>, row: nat): seq<Draw>
    requires forall k :: 0 <= k < |rs| ==> rs[k].0 <= rs[k].1 <= |cur|
  {
    if rs == [] then []
    else [Move(row + 1, rs[0].0 + 1), Cells(cur[rs[0].0..rs[0].1])] + RunDraws(cur, rs[1..], row)
  }

  function RowDraws(cur: seq<int>, prev: seq<int>, row: nat, c: nat): seq<Draw>
    requires |cur| == |prev| && c <= |cur|
  {
    RunDraws(cur, Runs(cur, prev, c), row)
  }

  predicate SameShape(a: seq<seq<int>>, b: seq<seq<int>>) {
    |a| == |b| && forall r :: 0 <= r < |a| ==> |a[r]| == |b[r]|
  }

  /** CONSOLE_RENDER_SPAN_DIRTY on the first rows. */
  function DirtyUpTo(cur: seq<seq<int>>, prev: seq<seq<int>>, rows: nat): seq<Draw>
    requires SameShape(cur, prev) && rows <= |cur|
  {
    if rows == 0 then [] else DirtyUpTo(cur, prev, rows - 1) + RowDraws(cur[rows - 1], prev[rows - 1], rows - 1, 0)
  }

  /** CONSOLE_RENDER_SPAN on the first rows. */
  function FullUpTo(cur: seq<seq<int>>, rows: nat): seq<Draw>
    requires rows <= |cur|
  {
    if rows == 0 then [] else FullUpTo(cur, rows - 1) + [Move(rows, 1), Cells(cur[rows - 1])]
  }

  function Dirty(cur: seq<int>, prev: seq<int>, w: nat, h: nat): seq<Draw>
    requires Area(w, h) <= |cur| && Area(w, h) <= |prev|
  {
    DirtyUpTo(Rows(cur, w, h), Rows(prev, w, h), h)
  }

  function Full(cur: seq<int>, w: nat, h: nat): seq<Draw>
    requires Area(w, h) <= |cur|
  {
    FullUpTo(Rows(cur, w, h), h)
  }

  // ----- Which cells are written -----

  /** Runs from column c on, nonempty and with an equal cell (or the row's edge) on both sides of each. */
  ghost predicate Maximal(cur: seq<int>, prev: seq<int>, c: nat, rs: seq<(nat, nat)>)
    requires |cur| == |prev|
  {
    forall k :: 0 <= k < |rs| ==>
      && c <= rs[k].0 < rs[k].1 <= |cur|
      && (rs[k].0 == c || cur[rs[k].0 - 1] == prev[rs[k].0 - 1])
      && (rs[k].1 == |cur| || cur[rs[k].1] == prev[rs[k].1])
  }

  ghost predicate Ordered(rs: seq<(nat, nat)>) {
    forall j, k :: 0 <= j < k < |rs| ==> rs[j].1 < rs[k].0
  }

  predicate InRun(rs: seq<(nat, nat)>, x: nat) {
    exists k :: 0 <= k < |rs| && rs[k].0 <= x < rs[k].1
  }

  ghost predicate Exact(cur: seq<int>, prev: seq<int>, c: nat, rs: seq<(nat, nat)>)
    requires |cur| == |prev|
  {
    && Maximal(cur, prev, c, rs) && Ordered(rs)
    && forall x :: c <= x < |cur| ==> (InRun(rs, x) <==> cur[x] != prev[x])
  }

  /** Putting an equal cell in front of runs. */
  lemma EqualBefore(cur: seq<int>, prev: seq<int>, c: nat, rs: seq<(nat, nat)>)
    requires |cur| == |prev| && c < |cur| && cur[c] == prev[c]
    requires Exact(cur, prev, c + 1, rs)
    ensures Exact(cur, prev, c, rs)
  {
  }

  lemma GapAfter(cur: seq<int>, prev: seq<int>, e: nat, rest: seq<(nat, nat)>, k: nat)
    requires |cur| == |prev| && e <= |cur| && (e == |cur| || cur[e] == prev[e])
    requires Exact(cur, prev, e, rest) && k < |rest|
    ensures e < rest[k].0
  {
    assert InRun(rest, rest[k].0);
  }

  lemma OrderedAfter(c: nat, e: nat, rest: seq<(nat, nat)>)
    requires Ordered(rest) && forall k :: 0 <= k < |rest| ==> e < rest[k].0
    ensures Ordered([(c, e)] + rest)
  {
    var rs := [(c, e)] + rest;
    assert forall k :: 0 < k < |rs| ==> rs[k] == rest[k - 1];
  }

  lemma MaximalAfter(cur: seq<int>, prev: seq<int>, c: nat, e: nat, rest: seq<(nat, nat)>)
    requires |cur| == |prev| && c < e <= |cur| && (e == |cur| || cur[e] == prev[e])
    requires Maximal(cur, prev, e, rest) && forall k :: 0 <= k < |rest| ==> e < rest[k].0
    ensures Maximal(cur, prev, c, [(c, e)] + rest)
  {
    var rs := [(c, e)] + rest;
    assert forall k :: 0 < k < |rs| ==> rs[k] == rest[k - 1];
  }

  /** Putting the run [c, e) in front of the runs from e on. */
  lemma RunsAfter(cur: seq<int>, prev: seq<int>, c: nat, e: nat, rest: seq<(nat, nat)>)
    requires |cur| == |prev| && c < e <= |cur| && (e == |cur| || cur[e] == prev[e])
    requires forall x :: c <= x < e ==> cur[x] != prev[x]
    requires Exact(cur, prev, e, rest)
    ensures Exact(cur, prev, c, [(c, e)] + rest)
  {
    hide InRun, Maximal, Ordered;
    forall k | 0 <= k < |rest| ensures e < rest[k].0 { GapAfter(cur, prev, e, rest, k); }
    MaximalAfter(cur, prev, c, e, rest);
    OrderedAfter(c, e, rest);
    forall x | c <= x < |cur| ensures InRun([(c, e)] + rest, x) <==> cur[x] != prev[x] {
      InRunAfter(c, e, rest, x);
      if x < e { assert cur[x] != prev[x]; } else { assert InRun(rest, x) <==> cur[x] != prev[x]; }
    }
  }

  lemma InRunAfter(c: nat, e: nat, rest: seq<(nat, nat)>, x: nat)
    ensures InRun([(c, e)] + rest, x) <==> c <= x < e || InRun(rest, x)
  {
    var rs := [(c, e)] + rest;
    assert rs[0] == (c, e);
    assert forall k :: 0 <= k < |rest| ==> rs[k + 1] == rest[k];
    if InRun(rest, x) {
      var k :| 0 <= k < |rest| && rest[k].0 <= x < rest[k].1;
      assert rs[k + 1].0 <= x < rs[k + 1].1;
    }
  }

  /** The runs of a row are maximal and ordered, and a column lies in a run exactly when its cell differs. */
  lemma {:induction false} RunsExact(cur: seq<int>, prev: seq<int>, c: nat)
    requires |cur| == |prev| && c <= |cur|
    ensures Exact(cur, prev, c, Runs(cur, prev, c))
    decreases |cur| - c
  {
    if c == |cur| {
    } else if cur[c] == prev[c] {
      RunsExact(cur, prev, c + 1);
      EqualBefore(cur, prev, c, Runs(cur, prev, c + 1));
    } else {
      var e := RunEnd(cur, prev, c + 1);
      RunsExact(cur, prev, e);
      RunsAfter(cur, prev, c, e, Runs(cur, prev, e));
    }
  }

  // ----- Dirty rendering and full rendering leave the same screen -----

  /** What replaying a row's runs from column from on does to the cell at (r, c). */
  lemma {:induction false} RowReplay(s: Terminal, cur: seq<int>, prev: seq<int>, row: nat, from: nat, r: nat, c: nat)
    requires |cur| == |prev| && from <= |cur|
    ensures Replay(s, RowDraws(cur, prev, row, from)).cell(r, c) ==
      if r == row + 1 && from < c <= |cur| && cur[c - 1] != prev[c - 1] then cur[c - 1] else s.cell(r, c)
    decreases |cur| - from
  {
    var ds := RowDraws(cur, prev, row, from);
    if from == |cur| {
    } else if cur[from] == prev[from] {
      RowReplay(s, cur, prev, row, from + 1, r, c);
    } else {
      var e := RunEnd(cur, prev, from + 1);
      var rest := RowDraws(cur, prev, row, e);
      assert Runs(cur, prev, from)[1..] == Runs(cur, prev, e);
      assert ds == [Move(row + 1, from + 1), Cells(cur[from..e])] + rest;
      assert ds[1..][1..] == rest;
      var s2 := Apply(Apply(s, ds[0]), ds[1]);
      assert Replay(s, ds) == Replay(s2, rest);
      RowReplay(s2, cur, prev, row, e, r, c);
    }
  }

  /** The cell at (r, c) lies in one of the first rows. */
  predicate Inside(cells: seq<seq<int>>, rows: nat, r: nat, c: nat)
    requires rows <= |cells|
  {
    0 < r <= rows && 0 < c <= |cells[r - 1]|
  }

  lemma {:induction false} DirtyReplay(s: Terminal, cur: seq<seq<int>>, prev: seq<seq<int>>, rows: nat, r: nat, c: nat)
    requires SameShape(cur, prev) && rows <= |cur|
    ensures Replay(s, DirtyUpTo(cur, prev, rows)).cell(r, c) ==
      if Inside(cur, rows, r, c) && cur[r - 1][c - 1] != prev[r - 1][c - 1] then cur[r - 1][c - 1] else s.cell(r, c)
  {
    if rows > 0 {
      var before, ds := DirtyUpTo(cur, prev, rows - 1), RowDraws(cur[rows - 1], prev[rows - 1], rows - 1, 0);
      ReplayConcat(s, before, ds);
      DirtyReplay(s, cur, prev, rows - 1, r, c);
      RowReplay(Replay(s, before), cur[rows - 1], prev[rows - 1], rows - 1, 0, r, c);
    }
  }

  lemma {:induction false} FullReplay(s: Terminal, cur: seq<seq<int>>, rows: nat, r: nat, c: nat)
    requires rows <= |cur|
    ensures Replay(s, FullUpTo(cur, rows)).cell(r, c) ==
      if Inside(cur, rows, r, c) then cur[r - 1][c - 1] else s.cell(r, c)
  {
    if rows > 0 {
      var before, ds := FullUpTo(cur, rows - 1), [Move(rows, 1), Cells(cur[rows - 1])];
      ReplayConcat(s, before, ds);
      FullReplay(s, cur, rows - 1, r, c);
      var s1 := Replay(s, before);
      assert ds[1..] == [ds[1]] && ds[1..][1..] == [];
      assert Replay(s1, ds) == Replay(Apply(s1, ds[0]), ds[1..]) == Replay(Apply(Apply(s1, ds[0]), ds[1]), []);
    }
  }

  /** The terminal shows the first w * h cells of a buffer in its top left corner. */
  ghost predicate Shows(s: Terminal, buf: seq<int>, w: nat, h: nat)
    requires Area(w, h) <= |buf|
  {
    forall r: nat, c: nat :: Inside(Rows(buf, w, h), h, r, c) ==> s.cell(r, c) == Rows(buf, w, h)[r - 1][c - 1]
  }

  ghost predicate SameCells(s: Terminal, t: Terminal) {
    forall r: nat, c: nat :: s.cell(r, c) == t.cell(r, c)
  }

  /** Where the two buffers agree, the terminal already shows what they hold. */
  ghost predicate ShowsUnchanged(s: Terminal, cur: seq<int>, prev: seq<int>, w: nat, h: nat)
    requires Area(w, h) <= |cur| && Area(w, h) <= |prev|
  {
    forall r: nat, c: nat :: Inside(Rows(cur, w, h), h, r, c) ==>
      Rows(cur, w, h)[r - 1][c - 1] == Rows(prev, w, h)[r - 1][c - 1] ==> s.cell(r, c) == Rows(cur, w, h)[r - 1][c - 1]
  }

  /** The dirty renderer leaves, cell for cell, what the full renderer leaves exactly when the terminal showed
      the unchanged cells before. */
  lemma DirtyEqualsFull(s: Terminal, cur: seq<int>, prev: seq<int>, w: nat, h: nat)
    requires Area(w, h) <= |cur| && Area(w, h) <= |prev|
    ensures SameCells(Replay(s, Dirty(cur, prev, w, h)), Replay(s, Full(cur, w, h))) <==>
      ShowsUnchanged(s, cur, prev, w, h)
  {
    var dirty, full := Replay(s, Dirty(cur, prev, w, h)), Replay(s, Full(cur, w, h));
    forall r: nat, c: nat
      ensures dirty.cell(r, c) == full.cell(r, c) <==>
        (Inside(Rows(cur, w, h), h, r, c) ==>
          Rows(cur, w, h)[r - 1][c - 1] == Rows(prev, w, h)[r - 1][c - 1] ==>
          s.cell(r, c) == Rows(cur, w, h)[r - 1][c - 1])
    {
      DirtyReplay(s, Rows(cur, w, h), Rows(prev, w, h), h, r, c);
      FullReplay(s, Rows(cur, w, h), h, r, c);
    }
  }

  /** A terminal that does not show an unchanged zero cell: the dirty renderer writes nothing, the full one the zero. */
  lemma RenderersDiffer(s: Terminal)
    requires s.cell(1, 1) != 0
    ensures !SameCells(Replay(s, Dirty([0], [0], 1, 1)), Replay(s, Full([0], 1, 1)))
  {
    var buf: seq<int> := [0];
    DirtyEqualsFull(s, buf, buf, 1, 1);
    assert Rows(buf, 1, 1)[0] == [0] by { RowIs(buf, 1, 1, 0); }
    assert Inside(Rows(buf, 1, 1), 1, 1, 1);
  }

  /** On a terminal that shows prev, dirty rendering shows cur, and leaves what the full renderer leaves. */
  lemma DirtyShowsCurrent(s: Terminal, cur: seq<int>, prev: seq<int>, w: nat, h: nat)
    requires Area(w, h) <= |cur| && Area(w, h) <= |prev| && Shows(s, prev, w, h)
    ensures Shows(Replay(s, Dirty(cur, prev, w, h)), cur, w, h)
    ensures SameCells(Replay(s, Dirty(cur, prev, w, h)), Replay(s, Full(cur, w, h)))
  {
    DirtyEqualsFull(s, cur, prev, w, h);
    forall r: nat, c: nat | Inside(Rows(cur, w, h), h, r, c)
      ensures Replay(s, Dirty(cur, prev, w, h)).cell(r, c) == Rows(cur, w, h)[r - 1][c - 1]
    {
      DirtyReplay(s, Rows(cur, w, h), Rows(prev, w, h), h, r, c);
      assert Inside(Rows(prev, w, h), h, r, c);
    }
  }

  // ----- Frame after frame -----

  predicate AllCover(frames: seq<seq<int>>, n: nat) {
    forall i :: 0 <= i < |frames| ==> n <= |frames[i]|
  }

  /** What previous holds after a frame is rendered. */
  function Rendered(cur: seq<int>, prev: seq<int>, n: nat): (r: seq<int>)
    requires n <= |cur| && n <= |prev|
    ensures |r| == |prev|
  {
    cur[..n] + prev[n..]
  }

  /** The output of rendering frames in turn with the same previous buffer. */
  function Animation(prev: seq<int>, frames: seq<seq<int>>, w: nat, h: nat): seq<Draw>
    requires Area(w, h) <= |prev| && AllCover(frames, Area(w, h))
    decreases |frames|
  {
    if frames == [] then []
    else Dirty(frames[0], prev, w, h) + Animation(Rendered(frames[0], prev, Area(w, h)), frames[1..], w, h)
  }

  lemma RenderedPrefix(cur: seq<int>, prev: seq<int>, n: nat)
    requires n <= |cur| && n <= |prev|
    ensures Rendered(cur, prev, n)[..n] == cur[..n]
  {
  }

  lemma SameRow(a: seq<int>, b: seq<int>, w: nat, h: nat, r: nat)
    requires Area(w, h) <= |a| && Area(w, h) <= |b| && a[..Area(w, h)] == b[..Area(w, h)] && r < h
    ensures Rows(a, w, h)[r] == Rows(b, w, h)[r]
  {
    hide Area, Rows;
    RowIs(a, w, h, r);
    RowIs(b, w, h, r);
    RowInArea(w, h, r);
    SamePrefix(a, b, Area(w, h), Area(w, r), Area(w, r) + w);
  }

  lemma RowsOfRendered(cur: seq<int>, prev: seq<int>, w: nat, h: nat)
    requires Area(w, h) <= |cur| && Area(w, h) <= |prev|
    ensures Rows(Rendered(cur, prev, Area(w, h)), w, h) == Rows(cur, w, h)
  {
    hide Area, Rows, Rendered;
    var r := Rendered(cur, prev, Area(w, h));
    RenderedPrefix(cur, prev, Area(w, h));
    forall i | 0 <= i < h ensures Rows(r, w, h)[i] == Rows(cur, w, h)[i] { SameRow(r, cur, w, h, i); }
  }

  lemma SamePrefix(a: seq<int>, b: seq<int>, n: nat, i: nat, j: nat)
    requires i <= j <= n <= |a| && n <= |b| && a[..n] == b[..n]
    ensures a[i..j] == b[i..j]
  {
    assert a[i..j] == a[..n][i..j] && b[i..j] == b[..n][i..j];
  }

  lemma {:induction false} RowInArea(w: nat, h: nat, r: nat)
    requires r < h
    ensures Area(w, r) + w <= Area(w, h)
    decreases h
  {
    if r < h - 1 { RowInArea(w, h - 1, r); }
  }

  lemma SameFull(s: Terminal, t: Terminal, dirty: seq<int>, prev: seq<int>, buf: seq<int>, w: nat, h: nat)
    requires Area(w, h) <= |dirty| && Area(w, h) <= |prev| && Area(w, h) <= |buf|
    requires t == Replay(s, Dirty(dirty, prev, w, h))
    ensures SameCells(Replay(t, Full(buf, w, h)), Replay(s, Full(buf, w, h)))
  {
    hide Rows, Area, Replay;
    forall r: nat, c: nat
      ensures Replay(t, Full(buf, w, h)).cell(r, c) == Replay(s, Full(buf, w, h)).cell(r, c)
    {
      FullReplay(t, Rows(buf, w, h), h, r, c);
      FullReplay(s, Rows(buf, w, h), h, r, c);
      DirtyReplay(s, Rows(dirty, w, h), Rows(prev, w, h), h, r, c);
    }
  }

  /** On a terminal that shows previous, any sequence of frames rendered in turn leaves the last frame on the screen,
      cell for cell what one full rendering of it leaves. */
  lemma {:induction false} AnimationShowsLast(s: Terminal, prev: seq<int>, frames: seq<seq<int>>, w: nat, h: nat)
    requires Area(w, h) <= |prev| && AllCover(frames, Area(w, h)) && frames != [] && Shows(s, prev, w, h)
    ensures var t, last := Replay(s, Animation(prev, frames, w, h)), frames[|frames| - 1];
      Shows(t, last, w, h) && SameCells(t, Replay(s, Full(last, w, h)))
    decreases |frames|
  {
    hide Rows, Area, Replay, Dirty, Full;
    var cur, n := frames[0], Area(w, h);
    var next := Rendered(cur, prev, n);
    var t := Replay(s, Dirty(cur, prev, w, h));
    DirtyShowsCurrent(s, cur, prev, w, h);
    ReplayConcat(s, Dirty(cur, prev, w, h), Animation(next, frames[1..], w, h));
    RowsOfRendered(cur, prev, w, h);
    if |frames| > 1 {
      var last := frames[|frames| - 1];
      assert frames[1..][|frames| - 2] == last;
      AnimationShowsLast(t, next, frames[1..], w, h);
      SameFull(s, t, cur, prev, last, w, h);
    } else {
      assert Animation(next, frames[1..], w, h) == [];
      ReplayNothing(t);
    }
  }

  lemma ReplayNothing(s: Terminal)
    ensures Replay(s, []) == s
  {
  }

  // ----- The renderers themselves -----

  /** The row's cells up to column c are current, and everything else is as it was. */
  ghost predicate RowDone(buf: seq<int>, cur: seq<int>, prev: seq<int>, base: nat, c: nat) {
    && base + c <= |buf| == |prev| && base + c <= |cur|
    && forall i :: 0 <= i < |buf| ==> buf[i] == if base <= i < base + c then cur[i] else prev[i]
  }

  /** Copying the cells [c, d) of the row takes it from c cells done, with the cells up to start equal, to d. */
  lemma RowDoneStep(was: seq<int>, buf: seq<int>, cur: seq<int>, prev: seq<int>, base: nat, c: nat, start: nat, d: nat)
    requires RowDone(was, cur, prev, base, c) && c <= start <= d && base + d <= |cur| && base + d <= |prev|
    requires forall i :: base + c <= i < base + start ==> cur[i] == prev[i]
    requires |buf| == |was|
    requires forall i :: 0 <= i < |buf| ==> buf[i] == if base + start <= i < base + d then cur[i] else was[i]
    ensures RowDone(buf, cur, prev, base, d)
  {
  }

  /** A row done after the rows before it. */
  lemma NextRowDone(was: seq<int>, buf: seq<int>, cur: seq<int>, prev: seq<int>, base: nat, w: nat)
    requires RowDone(was, cur, prev, 0, base) && RowDone(buf, cur, was, base, w)
    ensures RowDone(buf, cur, prev, 0, base + w)
  {
  }

  lemma NothingDone(buf: seq<int>, cur: seq<int>)
    ensures RowDone(buf, cur, buf, 0, 0)
  {
  }

  lemma RowDoneIs(buf: seq<int>, cur: seq<int>, prev: seq<int>, n: nat)
    requires RowDone(buf, cur, prev, 0, n)
    ensures buf == cur[..n] + prev[n..]
  {
  }

  /** The two scanning loops: over equal cells, and over differing ones. */
  method SkipEqual(current: array<int>, previous: array<int>, base: nat, w: nat, col: nat) returns (c: nat)
    requires base + w <= current.Length && base + w <= previous.Length && col <= w
    ensures col <= c <= w && forall i :: base + col <= i < base + c ==> current[i] == previous[i]
    ensures c == w || current[base + c] != previous[base + c]
  {
    c := col;
    while c < w && current[base + c] == previous[base + c]
      invariant col <= c <= w && forall i :: base + col <= i < base + c ==> current[i] == previous[i]
    {
      c := c + 1;
    }
  }

  method SkipDiffering(current: array<int>, previous: array<int>, base: nat, w: nat, col: nat) returns (c: nat)
    requires base + w <= current.Length && base + w <= previous.Length && col <= w
    ensures col <= c <= w && forall i :: base + col <= i < base + c ==> current[i] != previous[i]
    ensures c == w || current[base + c] == previous[base + c]
  {
    c := col;
    while c < w && current[base + c] != previous[base + c]
      invariant col <= c <= w && forall i :: base + col <= i < base + c ==> current[i] != previous[i]
    {
      c := c + 1;
    }
  }

  lemma {:induction false} NoDrawsBetween(cur: seq<int>, prev: seq<int>, row: nat, c: nat, e: nat)
    requires |cur| == |prev| && c <= e <= |cur| && forall k :: c <= k < e ==> cur[k] == prev[k]
    ensures RowDraws(cur, prev, row, c) == RowDraws(cur, prev, row, e)
    decreases e - c
  {
    if c < e { NoDrawsBetween(cur, prev, row, c + 1, e); }
  }

  lemma {:induction false} RunEndIs(cur: seq<int>, prev: seq<int>, c: nat, e: nat)
    requires |cur| == |prev| && c <= e <= |cur| && forall k :: c <= k < e ==> cur[k] != prev[k]
    requires e == |cur| || cur[e] == prev[e]
    ensures RunEnd(cur, prev, c) == e
    decreases e - c
  {
    if c < e { RunEndIs(cur, prev, c + 1, e); }
  }

  /** Having skipped the equal cells [from, start), emitting the run [start, end) accounts for all draws before end. */
  lemma EmitRun(out: seq<Draw>, cur: seq<int>, prev: seq<int>, row: nat, from: nat, start: nat, end: nat)
    requires |cur| == |prev| && from <= start < end <= |cur|
    requires forall k :: from <= k < start ==> cur[k] == prev[k]
    requires (forall k :: start <= k < end ==> cur[k] != prev[k]) && (end == |cur| || cur[end] == prev[end])
    ensures out + [Move(row + 1, start + 1), Cells(cur[start..end])] + RowDraws(cur, prev, row, end)
      == out + RowDraws(cur, prev, row, from)
  {
    NoDrawsBetween(cur, prev, row, from, start);
    RunEndIs(cur, prev, start + 1, end);
    assert Runs(cur, prev, start)[1..] == Runs(cur, prev, end);
  }

  /** The memcpy of one run. */
  method CopyRun(src: array<int>, dst: array<int>, at: nat, end: nat)
    requires at <= end <= src.Length && end <= dst.Length && src != dst
    modifies dst
    ensures forall i :: 0 <= i < dst.Length ==> dst[i] == if at <= i < end then src[i] else old(dst[i])
  {
    forall i | at <= i < end { dst[i] := src[i]; }
  }

  lemma SliceOfSlice(s: seq<int>, base: nat, w: nat, a: nat, b: nat)
    requires base + w <= |s| && a <= b <= w
    ensures s[base..base + w][a..b] == s[base + a..base + b]
  {
    var row := s[base..base + w];
    assert forall i :: a <= i < b ==> row[i] == s[base + i];
  }

  /** The body of the dirty renderer's row loop. */
  method RenderRow(current: array<int>, previous: array<int>, base: nat, w: nat, row: nat) returns (out: seq<Draw>)
    requires base + w <= current.Length && base + w <= previous.Length
    modifies previous
    ensures out == RowDraws(old(current[..])[base..base + w], old(previous[..])[base..base + w], row, 0)
    ensures RowDone(previous[..], old(current[..]), old(previous[..]), base, w)
    ensures current[..] == old(current[..])
  {
    ghost var all, before := current[..], previous[..];
    ghost var cur, prev := all[base..base + w], before[base..base + w];
    out := [];
    var col := 0;
    while col < w
      invariant 0 <= col <= w
      invariant current[..] == all && RowDone(previous[..], all, before, base, col)
      invariant out + RowDraws(cur, prev, row, col) == RowDraws(cur, prev, row, 0)
    {
      ghost var was, from := previous[..], col;
      col := SkipEqual(current, previous, base, w, col);
      if col >= w {
        NoDrawsBetween(cur, prev, row, from, col);
        break;
      }
      var start := col;
      col := SkipDiffering(current, previous, base, w, start);
      EmitRun(out, cur, prev, row, from, start, col);
      SliceOfSlice(all, base, w, start, col);
      out := out + [Move(row + 1, start + 1), Cells(current[base + start..base + col])];
      CopyRun(current, previous, base + start, base + col);
      RowDoneStep(was, previous[..], all, before, base, from, start, col);
    }
  }

  lemma UndoneTail(was: seq<int>, cur: seq<int>, prev: seq<int>, n: nat, w: nat)
    requires RowDone(was, cur, prev, 0, n) && n + w <= |prev|
    ensures was[n..n + w] == prev[n..n + w]
  {
  }

  lemma SameLength(was: seq<int>, cur: seq<int>, prev: seq<int>, n: nat)
    requires RowDone(was, cur, prev, 0, n)
    ensures |was| == |prev|
  {
  }

  lemma RowStart(all: seq<int>, before: seq<int>, was: seq<int>, w: nat, h: nat, row: nat, base: nat)
    requires Area(w, h) <= |all| && Area(w, h) <= |before| && row < h && base == Area(w, row)
    requires RowDone(was, all, before, 0, base)
    ensures base + w <= |all| && base + w <= |was|
    ensures all[base..base + w] == Rows(all, w, h)[row] && was[base..base + w] == Rows(before, w, h)[row]
  {
    hide Rows, RowDone, Area;
    SameLength(was, all, before, base);
    RowIs(all, w, h, row);
    RowIs(before, w, h, row);
    UndoneTail(was, all, before, base, w);
  }

  /** The two buffers may be the same object; then nothing differs and nothing is written. */
  method RenderDirty(current: array<int>, previous: array<int>, w: nat, h: nat) returns (out: seq<Draw>)
    requires Area(w, h) <= current.Length && Area(w, h) <= previous.Length
    modifies previous
    ensures out == Dirty(old(current[..]), old(previous[..]), w, h)
    ensures previous[..] == old(current[..])[..Area(w, h)] + old(previous[..])[Area(w, h)..]
    ensures current[..] == old(current[..])
  {
    hide RowDone, Rows, Area, RowDraws;
    ghost var all, before := current[..], previous[..];
    ghost var cur, prev := Rows(all, w, h), Rows(before, w, h);
    out := [];
    var row, base := 0, 0;
    NothingDone(before, all);
    AreaGrows(w, 0);
    while row < h
      invariant 0 <= row <= h && base == Area(w, row)
      invariant current[..] == all && RowDone(previous[..], all, before, 0, base)
      invariant out == DirtyUpTo(cur, prev, row)
    {
      ghost var was := previous[..];
      RowStart(all, before, was, w, h, row, base);
      var draws := RenderRow(current, previous, base, w, row);
      out := out + draws;
      NextRowDone(was, previous[..], all, before, base, w);
      AreaGrows(w, row);
      row, base := row + 1, base + w;
    }
    RowDoneIs(previous[..], all, before, Area(w, h));
  }

  /** CONSOLE_RENDER_SPAN. */
  method RenderFull(buf: seq<int>, w: nat, h: nat) returns (out: seq<Draw>)
    requires Area(w, h) <= |buf|
    ensures out == Full(buf, w, h)
  {
    out := [];
    var row, base := 0, 0;
    while row < h
      invariant 0 <= row <= h && base == Area(w, row)
      invariant out == FullUpTo(Rows(buf, w, h), row)
    {
      RowIs(buf, w, h, row);
      out := out + [Move(row + 1, 1), Cells(buf[base..base + w])];
      row, base := row + 1, base + w;
    }
  }
}
