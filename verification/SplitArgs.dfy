/** split_args (parser/parser.c) against joining arguments with commas. */
module SplitArgs {
  import opened Bytes
  import opened Chars

  /** Where in quotes and parentheses a character stands. */
  datatype Nesting = Nesting(quoted: bool, depth: nat)

  const BARE := Nesting(false, 0)

  function Advance(n: Nesting, c: byte): Nesting {
    if c == QUOTE then n.(quoted := !n.quoted)
    else if !n.quoted && c == OPEN_PAREN then n.(depth := n.depth + 1)
    else if !n.quoted && c == CLOSE_PAREN && n.depth > 0 then n.(depth := n.depth - 1)
    else n
  }

  function After(t: Text, n: Nesting): Nesting {
    if t == [] then n else After(t[1..], Advance(n, t[0]))
  }

  predicate Separator(c: byte) {
    IsSpace(c) || c == COMMA
  }

  /** An argument runs to the end of the text or to a comma outside quotes and parentheses. */
  function Extent(s: Text, n: Nesting): (k: nat)
    ensures k <= |s|
  {
    if CharAt(s, 0) == 0 || (n == BARE && s[0] == COMMA) then 0 else 1 + Extent(s[1..], Advance(n, s[0]))
  }

  function Trim(t: Text): (r: Text)
    ensures r <= t && (r != [] ==> !IsSpace(r[|r| - 1]))
    ensures t != [] && !IsSpace(t[0]) ==> r != []
    decreases |t|
  {
    if t != [] && IsSpace(t[|t| - 1]) then Trim(t[..|t| - 1]) else t
  }

  function Split(s: Text): seq<Text>
    decreases |s|
  {
    if CharAt(s, 0) == 0 then []
    else if Separator(s[0]) then Split(s[1..])
    else
      var k := Extent(s, BARE);
      [Trim(s[..k])] + if CharAt(s, k) == 0 then [] else Split(s[k + 1..])
  }

  method SkipSeparators(s: Text, start: nat) returns (p: nat)
    requires start <= |s|
    ensures start <= p <= |s| && !Separator(CharAt(s, p)) && Split(s[start..]) == Split(s[p..])
  {
    hide Split;
    p := start;
    while Separator(CharAt(s, p))
      invariant start <= p <= |s| && Split(s[start..]) == Split(s[p..])
      decreases |s| - p
    {
      SplitSkips(s[p..]);
      assert s[p..][1..] == s[p + 1..];
      p := p + 1;
    }
  }

  method ScanArgument(s: Text, start: nat) returns (p: nat)
    requires start <= |s|
    ensures p == start + Extent(s[start..], BARE)
  {
    hide Extent;
    var quoted, depth: nat := false, 0;
    p := start;
    while CharAt(s, p) != 0 && (quoted || depth > 0 || s[p] != COMMA)
      invariant start <= p <= |s|
      invariant Extent(s[start..], BARE) == p - start + Extent(s[p..], Nesting(quoted, depth))
      decreases |s| - p
    {
      ExtentSteps(s, p, Nesting(quoted, depth));
      if s[p] == QUOTE {
        quoted := !quoted;
      } else if !quoted && s[p] == OPEN_PAREN {
        depth := depth + 1;
      } else if !quoted && s[p] == CLOSE_PAREN && depth > 0 {
        depth := depth - 1;
      }
      p := p + 1;
    }
    ExtentEnds(s[p..], Nesting(quoted, depth));
  }

  method TrimEnd(t: Text) returns (r: Text)
    ensures r == Trim(t)
  {
    hide Trim;
    var e := |t|;
    assert t[..e] == t;
    while e > 0 && IsSpace(t[e - 1])
      invariant e <= |t| && Trim(t) == Trim(t[..e])
    {
      TrimSteps(t[..e]);
      assert t[..e][..e - 1] == t[..e - 1];
      e := e - 1;
    }
    TrimEnds(t[..e]);
    r := t[..e];
  }

  /** split_args. */
  method SplitArgs(s: Text) returns (out: seq<Text>)
    ensures out == Split(s)
  {
    hide Split, Extent, Trim;
    var p := 0;
    out := [];
    assert s[0..] == s;
    while CharAt(s, p) != 0
      invariant p <= |s| && Split(s) == out + Split(s[p..])
      decreases |s| - p
    {
      p := SkipSeparators(s, p);
      if CharAt(s, p) == 0 { break; }
      var start := p;
      p := ScanArgument(s, start);
      var a := TrimEnd(s[start..p]);
      SplitTakesAt(s, start, p);
      if CharAt(s, p) != 0 {
        p := p + 1;
      } else {
        SplitEnds(s[p..]);
      }
      assert out + ([a] + Split(s[p..])) == out + [a] + Split(s[p..]);
      out := out + [a];
    }
    SplitEnds(s[p..]);
  }

  lemma SplitSkips(s: Text)
    requires CharAt(s, 0) != 0 && Separator(s[0])
    ensures Split(s) == Split(s[1..])
  {
  }

  lemma SplitEnds(s: Text)
    ensures CharAt(s, 0) == 0 ==> Split(s) == []
  {
  }

  lemma SplitTakes(s: Text)
    requires CharAt(s, 0) != 0 && !Separator(s[0])
    ensures var k := Extent(s, BARE);
      Split(s) == [Trim(s[..k])] + if CharAt(s, k) == 0 then [] else Split(s[k + 1..])
  {
    hide Extent, Trim;
  }

  lemma SplitTakesAt(s: Text, start: nat, p: nat)
    requires CharAt(s, start) != 0 && !Separator(s[start]) && p == start + Extent(s[start..], BARE)
    ensures start < p <= |s|
    ensures Split(s[start..]) == [Trim(s[start..p])] + if CharAt(s, p) == 0 then [] else Split(s[p + 1..])
  {
    hide Split, Trim, Extent;
    ExtentSteps(s, start, BARE);
    SplitTakes(s[start..]);
    assert s[start..][..p - start] == s[start..p];
    if p < |s| { assert s[start..][p - start + 1..] == s[p + 1..]; }
  }

  lemma ExtentSteps(s: Text, p: nat, n: Nesting)
    requires CharAt(s, p) != 0 && !(n == BARE && s[p] == COMMA)
    ensures Extent(s[p..], n) == 1 + Extent(s[p + 1..], Advance(n, s[p]))
  {
    assert s[p..][1..] == s[p + 1..];
  }

  lemma ExtentEnds(s: Text, n: Nesting)
    ensures CharAt(s, 0) == 0 || (n == BARE && s[0] == COMMA) ==> Extent(s, n) == 0
  {
  }

  lemma TrimSteps(t: Text)
    ensures t != [] && IsSpace(t[|t| - 1]) ==> Trim(t) == Trim(t[..|t| - 1])
  {
  }

  lemma TrimEnds(t: Text)
    ensures t == [] || !IsSpace(t[|t| - 1]) ==> Trim(t) == t
  {
  }

  // ----- Joining -----

  function Join(args: seq<Text>): Text {
    if args == [] then [] else if |args| == 1 then args[0] else args[0] + [COMMA] + Join(args[1..])
  }

  /** No NUL, and every comma is inside quotes or parentheses. */
  predicate Whole(t: Text, n: Nesting) {
    Extent(t, n) == |t|
  }

  predicate Argument(a: Text) {
    a != [] && !IsSpace(a[0]) && !IsSpace(a[|a| - 1]) && Whole(a, BARE)
  }

  /** Trimmed arguments; in all but the last, quotes and parentheses are closed. */
  predicate Separable(args: seq<Text>) {
    && (forall i :: 0 <= i < |args| ==> Argument(args[i]))
    && (forall i :: 0 <= i < |args| - 1 ==> After(args[i], BARE) == BARE)
  }

  lemma {:induction false} ExtentConcat(a: Text, b: Text, n: Nesting)
    ensures After(a + b, n) == After(b, After(a, n))
    ensures Whole(a, n) ==> Extent(a + b, n) == |a| + Extent(b, After(a, n))
    ensures Whole(a + b, n) ==> Whole(a, n) && Whole(b, After(a, n))
    decreases |a|
  {
    if a == [] {
      assert a + b == b;
    } else {
      assert (a + b)[1..] == a[1..] + b;
      ExtentConcat(a[1..], b, Advance(n, a[0]));
    }
  }

  /** What is cut off holds together, and ends where the text does or at a bare comma. */
  lemma {:induction false} ExtentCuts(s: Text, n: Nesting)
    ensures var k := Extent(s, n);
      Whole(s[..k], n) && (CharAt(s, k) == 0 || (s[k] == COMMA && After(s[..k], n) == BARE))
    decreases |s|
  {
    if Extent(s, n) != 0 {
      var k := Extent(s, n);
      ExtentCuts(s[1..], Advance(n, s[0]));
      assert s[..k][1..] == s[1..][..k - 1];
    }
  }

  /** Trimming drops no quote, parenthesis or comma. */
  lemma {:induction false} TrimWhole(t: Text, n: Nesting)
    requires Whole(t, n)
    ensures Whole(Trim(t), n) && After(Trim(t), n) == After(t, n)
    decreases |t|
  {
    if t != [] && IsSpace(t[|t| - 1]) {
      var u := t[..|t| - 1];
      assert t == u + [t[|t| - 1]];
      ExtentConcat(u, [t[|t| - 1]], n);
      assert After([t[|t| - 1]], After(u, n)) == After(u, n);
      TrimWhole(u, n);
    }
  }

  lemma ExtentArgument(s: Text)
    requires CharAt(s, 0) != 0 && !Separator(s[0])
    ensures var k := Extent(s, BARE);
      Argument(Trim(s[..k])) && (CharAt(s, k) != 0 ==> After(Trim(s[..k]), BARE) == BARE)
  {
    hide Extent, After, Trim;
    ExtentCuts(s, BARE);
    assert s[0..] == s;
    ExtentSteps(s, 0, BARE);
    TrimWhole(s[..Extent(s, BARE)], BARE);
  }

  lemma SeparableCons(a: Text, args: seq<Text>)
    requires Argument(a) && Separable(args) && (args == [] || After(a, BARE) == BARE)
    ensures Separable([a] + args)
  {
    hide Argument, After;
    var all := [a] + args;
    assert forall i :: 0 < i < |all| ==> all[i] == args[i - 1];
  }

  /** Whatever the text, what split_args returns can be joined again. */
  lemma {:induction false} SplitSeparable(s: Text)
    ensures Separable(Split(s))
    decreases |s|
  {
    hide Split, Extent, After, Trim, Argument, Separable;
    if CharAt(s, 0) == 0 {
      SplitEnds(s);
      NothingSeparable();
    } else if Separator(s[0]) {
      SplitSkips(s);
      SplitSeparable(s[1..]);
    } else {
      var k := Extent(s, BARE);
      ExtentArgument(s);
      SplitTakes(s);
      NothingSeparable();
      if CharAt(s, k) != 0 { SplitSeparable(s[k + 1..]); }
      SeparableCons(Trim(s[..k]), if CharAt(s, k) == 0 then [] else Split(s[k + 1..]));
    }
  }

  lemma NothingSeparable()
    ensures Separable([])
  {
  }

  /** The first argument is cut off whole, wherever a comma or the end follows it. */
  lemma SplitFirst(a: Text, rest: Text)
    requires Argument(a) && (rest == [] || (rest[0] == COMMA && After(a, BARE) == BARE))
    ensures Split(a + rest) == [a] + if rest == [] then [] else Split(rest[1..])
  {
    hide Extent, After, Trim, Split;
    var s := a + rest;
    ExtentConcat(a, rest, BARE);
    ArgumentStarts(a);
    ExtentEnds(rest, After(a, BARE));
    SplitTakes(s);
    assert s[..|a|] == a;
    if rest != [] { assert s[|a| + 1..] == rest[1..]; }
    TrimEnds(a);
  }

  lemma {:induction false} SplitJoined(args: seq<Text>)
    requires Separable(args)
    ensures Split(Join(args)) == args
    decreases |args|
  {
    hide After, Split, Argument;
    if args == [] {
      SplitEnds([]);
    } else if |args| == 1 {
      SplitFirst(args[0], []);
      assert args[0] + [] == args[0] && [args[0]] + [] == args;
    } else {
      var a, rest := args[0], [COMMA] + Join(args[1..]);
      assert Join(args) == a + rest && rest[1..] == Join(args[1..]);
      SplitFirst(a, rest);
      SplitJoined(args[1..]);
      assert args == [a] + args[1..];
    }
  }

  lemma ArgumentStarts(a: Text)
    requires Argument(a)
    ensures a[0] != 0 && a[0] != COMMA
  {
  }

  /** split_args undoes joining with commas for exactly these lists of arguments. */
  lemma SplitUndoesJoin(args: seq<Text>)
    ensures Split(Join(args)) == args <==> Separable(args)
  {
    SplitSeparable(Join(args));
    if Separable(args) { SplitJoined(args); }
  }

  /** So joining and splitting again never changes a list of arguments that came from a text. */
  lemma SplitTwice(s: Text)
    ensures Split(Join(Split(s))) == Split(s)
  {
    SplitSeparable(s);
    SplitJoined(Split(s));
  }

  // ----- Quotes and parentheses, counted -----

  /** An odd number of quotes stands before index i. */
  predicate InQuotes(s: Text, i: nat)
    requires i <= |s|
  {
    multiset(s[..i])[QUOTE] % 2 == 1
  }

  /** How many more parentheses open than close from j up to i, outside quotes. */
  function Net(s: Text, j: nat, i: nat): int
    requires j <= i <= |s|
    decreases i - j
  {
    if j == i then 0
    else Net(s, j, i - 1) + if InQuotes(s, i - 1) then 0
      else if s[i - 1] == OPEN_PAREN then 1 else if s[i - 1] == CLOSE_PAREN then -1 else 0
  }

  /** Index i is inside quotes, or some stretch before it opens more parentheses than it closes. */
  ghost predicate Protected(s: Text, i: nat)
    requires i <= |s|
  {
    InQuotes(s, i) || exists j :: 0 <= j <= i && Net(s, j, i) > 0
  }

  lemma AfterStep(s: Text, i: nat)
    requires 0 < i <= |s|
    ensures After(s[..i], BARE) == Advance(After(s[..i - 1], BARE), s[i - 1])
    ensures InQuotes(s, i) <==> InQuotes(s, i - 1) != (s[i - 1] == QUOTE)
  {
    var a, b := s[..i - 1], [s[i - 1]];
    assert s[..i] == a + b;
    ExtentConcat(a, b, BARE);
    assert b[1..] == [];
  }

  /** The depth is the most that any stretch up to i leaves open. */
  lemma {:induction false} NestingIs(s: Text, i: nat) returns (most: nat)
    requires i <= |s|
    ensures var n := After(s[..i], BARE);
      && (n.quoted <==> InQuotes(s, i))
      && (forall j :: 0 <= j <= i ==> Net(s, j, i) <= n.depth) && most <= i && Net(s, most, i) == n.depth
  {
    hide After, InQuotes;
    if i == 0 {
      most := 0;
      NoQuotes(s);
    } else {
      most := NestingIs(s, i - 1);
      AfterStep(s, i);
      var n, c := After(s[..i - 1], BARE), s[i - 1];
      if !n.quoted && c == CLOSE_PAREN && n.depth == 0 { most := i; }
    }
  }

  lemma NoQuotes(s: Text)
    ensures After(s[..0], BARE) == BARE && !InQuotes(s, 0)
  {
  }

  lemma BareExactly(s: Text, i: nat)
    requires i <= |s|
    ensures After(s[..i], BARE) == BARE <==> !Protected(s, i)
  {
    hide After, InQuotes, Net;
    var most := NestingIs(s, i);
  }

  lemma {:induction false} ExtentBefore(s: Text, n: Nesting, i: nat)
    requires i < Extent(s, n)
    ensures s[i] != 0 && !(s[i] == COMMA && After(s[..i], n) == BARE)
    decreases i
  {
    if i > 0 {
      ExtentBefore(s[1..], Advance(n, s[0]), i - 1);
      assert s[..i][1..] == s[1..][..i - 1];
    }
  }

  /** An argument ends at the first comma that is not protected, or where the text ends. */
  lemma ExtentExactly(s: Text)
    ensures var k := Extent(s, BARE);
      && (k < |s| ==> s[k] == 0 || (s[k] == COMMA && !Protected(s, k)))
      && forall i :: 0 <= i < k ==> s[i] != 0 && (s[i] == COMMA ==> Protected(s, i))
  {
    hide Extent, After, Protected;
    var k := Extent(s, BARE);
    ExtentCuts(s, BARE);
    BareExactly(s, k);
    forall i | 0 <= i < k ensures s[i] != 0 && (s[i] == COMMA ==> Protected(s, i)) {
      ExtentBefore(s, BARE, i);
      BareExactly(s, i);
    }
  }

  /** Separable lists, in terms of the characters: trimmed arguments without a NUL or an unprotected comma, all but the
      last of which close what they open. */
  lemma SeparableExactly(args: seq<Text>)
    ensures Separable(args) <==>
      && (forall i :: 0 <= i < |args| ==> var a := args[i];
        && a != [] && !IsSpace(a[0]) && !IsSpace(a[|a| - 1])
        && forall k :: 0 <= k < |a| ==> a[k] != 0 && (a[k] == COMMA ==> Protected(a, k)))
      && forall i :: 0 <= i < |args| - 1 ==> !Protected(args[i], |args[i]|)
  {
    hide Extent, After, Protected;
    forall a: Text
      ensures Whole(a, BARE) <==> forall k :: 0 <= k < |a| ==> a[k] != 0 && (a[k] == COMMA ==> Protected(a, k))
      ensures After(a, BARE) == BARE <==> !Protected(a, |a|)
    {
      ExtentExactly(a);
      BareExactly(a, |a|);
      assert a[..|a|] == a;
    }
  }
}
