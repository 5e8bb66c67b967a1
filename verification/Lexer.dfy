/** The line lexer (lexer/lexer.c) in the C locale, and its inverse: printing tokens, with strings through stringize. */
module Lexer {
  import opened Bytes
  import opened Chars

  /** The size of the string buffer. */
  const BUFFER: nat := 4096

  datatype Kind = Colon | LabelRef | Str | Identifier | Number
  datatype Token = Token(kind: Kind, text: Text)
  datatype Error = EmptyLabel | StringTooLong | UnterminatedString | UnexpectedCharacter

  // ----- Characters -----

  predicate IsDigit(c: byte) { ZERO <= c <= 57 }
  predicate IsOctal(c: byte) { ZERO <= c <= 55 }
  predicate IsLetter(c: byte) { 65 <= c <= 90 || 97 <= c <= 122 }
  predicate IsHex(c: byte) { IsDigit(c) || 65 <= c <= 70 || 97 <= c <= 102 }
  predicate IsX(c: byte) { c == 120 || c == 88 }
  predicate IsSign(c: byte) { c == PLUS || c == MINUS }

  /** One of + - * / % & | ^ ~ ! ? ( ) [ ] { } . < > and the comma. */
  predicate IsOperator(c: byte) {
    c == 33 || c == 37 || c == 38 || 40 <= c <= 47 || c == 60 || c == 62 || c == 63 || c == 91 || c == 93 || c == 94
    || 123 <= c <= 126
  }

  /** && || == != <= >= << >> :: -> ++ -- += -= */
  predicate IsPair(c: byte, d: byte) {
    || (c == d && (c == 38 || c == 124 || c == EQUALS || c == 60 || c == 62 || c == COLON || IsSign(c)))
    || (d == EQUALS && (c == 33 || c == 60 || c == 62 || IsSign(c)))
    || (c == MINUS && d == 62)
  }

  predicate IsWordStart(c: byte) {
    IsLetter(c) || IsDigit(c) || c == UNDERSCORE || c == MINUS || c == HASH || c == DOLLAR
  }

  datatype Class = Digits | HexDigits | LabelChars | WordChars

  predicate In(k: Class, c: byte) {
    match k
    case Digits => IsDigit(c)
    case HexDigits => IsHex(c)
    case LabelChars => IsLetter(c) || IsDigit(c) || c == UNDERSCORE
    case WordChars => IsWordStart(c) || c == DOT || c == AT
  }

  /** The length of the longest prefix in a class. */
  function Span(s: Text, k: Class): (n: nat)
    ensures n <= |s| && forall i :: 0 <= i < n ==> In(k, s[i])
    ensures n < |s| ==> !In(k, s[n])
  {
    if s == [] || !In(k, s[0]) then 0 else 1 + Span(s[1..], k)
  }

  // ----- Strings -----

  function HexValue(c: byte): nat
    requires IsHex(c)
  {
    if IsDigit(c) then c - ZERO else if c >= 97 then c - 87 else c - 55
  }

  /** The number in up to three octal digits, and how many there are. */
  function Octal(s: Text): (r: (nat, nat))
    requires s != [] && IsOctal(s[0])
    ensures 1 <= r.1 <= |s|
  {
    var a, b, c := s[0] - ZERO, CharAt(s, 1), CharAt(s, 2);
    if !IsOctal(b) then (a, 1)
    else if !IsOctal(c) then (8 * a + (b - ZERO), 2)
    else (8 * (8 * a + (b - ZERO)) + (c - ZERO), 3)
  }

  /** The first byte of a string body and the characters that stand for it. */
  function Unescape(s: Text): (r: (byte, nat))
    requires CharAt(s, 0) != 0
    ensures 1 <= r.1 <= |s|
  {
    var c := CharAt(s, 1);
    if s[0] != BACKSLASH || c == 0 then (s[0], 1)
    else if c == 110 then (10, 2)
    else if c == 116 then (9, 2)
    else if c == 114 then (13, 2)
    else if c == 101 then (27, 2)
    else if c == 120 && IsHex(CharAt(s, 2)) && IsHex(CharAt(s, 3)) then
      (16 * HexValue(s[2]) + HexValue(s[3]), 4)
    else if IsOctal(c) then
      var o := Octal(s[1..]);
      (o.0 % 256, 1 + o.1)
    else (c, 2)
  }

  /** The rest of a string of which k bytes are already in the buffer: its bytes, and the characters up to and with
      the closing quote. */
  function ReadString(s: Text, k: nat): (r: Result<(Text, nat), Error>)
    ensures r.Success? ==> r.value.1 <= |s| && (k <= BUFFER - 2 ==> k + |r.value.0| <= BUFFER - 2)
    decreases |s|
  {
    if CharAt(s, 0) == 0 then Failure(UnterminatedString)
    else if s[0] == QUOTE then Success(([], 1))
    else
      var u := Unescape(s);
      if k + 2 >= BUFFER then Failure(StringTooLong)
      else
        match ReadString(s[u.1..], k + 1)
        case Failure(e) => Failure(e)
        case Success((t, n)) => Success(([u.0] + t, u.1 + n))
  }

  // ----- Words and numbers -----

  /** The length of a signed number: a sign, then 0x and hexadecimal digits, or digits with an optional fraction. */
  function SignedLength(s: Text): (n: nat)
    requires |s| >= 2 && IsDigit(s[1])
    ensures 2 <= n <= |s|
  {
    if s[1] == ZERO && IsX(CharAt(s, 2)) then 3 + Span(s[3..], HexDigits)
    else
      var n := 1 + Span(s[1..], Digits);
      if CharAt(s, n) == DOT then n + 1 + Span(s[n + 1..], Digits) else n
  }

  predicate HexAt(w: Text, start: nat, j: nat)
    requires start <= j < |w|
  {
    IsHex(w[j]) || (w[j] == 120 && j == start + 1 && w[start] == ZERO)
  }

  predicate AllHex(w: Text, start: nat, end: nat)
    requires end <= |w|
  {
    AT !in w && CharAt(w, start) != DOLLAR && forall j :: start <= j < end ==> HexAt(w, start, j)
  }

  predicate Decimal(w: Text, start: nat, end: nat)
    requires end <= |w|
  {
    AT !in w && forall j :: start <= j < end ==> w[j] == DOT || IsDigit(w[j])
  }

  /** A word is a number if it starts with a digit and is hexadecimal, or decimal with a dot. */
  function WordKind(w: Text): (k: Kind)
    requires w != []
    ensures k == Number || k == Identifier
  {
    var start := if w[0] == MINUS then 1 else 0;
    var allHex, decimal := AllHex(w, start, |w|), Decimal(w, start, |w|);
    if (IsDigit(CharAt(w, start)) && (allHex || (DOT in w && decimal))) || (w[0] == MINUS && (allHex || decimal))
    then Number else Identifier
  }

  // ----- Lines -----

  /** What stands at the start of s: the end or a comment, a separator, a token of n characters, or an error. */
  datatype Item = Stop | Blank | Tok(t: Token, n: nat) | Bad(e: Error)

  function Next(s: Text): (item: Item)
    ensures item.Tok? ==> 1 <= item.n <= |s|
    ensures item.Blank? ==> s != []
  {
    var c, d := CharAt(s, 0), CharAt(s, 1);
    if c == 0 || c == SEMICOLON || (c == SLASH && d == SLASH) then Stop
    else if IsSpace(c) || c == COMMA then Blank
    else if c == COLON then Tok(Token(Colon, s[..1]), 1)
    else if c == AT then
      var n := Span(s[1..], LabelChars);
      if n == 0 then Bad(EmptyLabel) else Tok(Token(LabelRef, s[1..1 + n]), 1 + n)
    else if c == QUOTE then
      match ReadString(s[1..], 0)
      case Failure(e) => Bad(e)
      case Success((t, n)) => Tok(Token(Str, t), 1 + n)
    else if IsPair(c, d) then Tok(Token(Identifier, s[..2]), 2)
    else if IsSign(c) && IsDigit(d) then Tok(Token(Number, s[..SignedLength(s)]), SignedLength(s))
    else if IsOperator(c) || c == EQUALS then Tok(Token(Identifier, s[..1]), 1)
    else if IsWordStart(c) then
      var n := Span(s, WordChars);
      Tok(Token(WordKind(s[..n]), s[..n]), n)
    else Bad(UnexpectedCharacter)
  }

  function Lex(s: Text): Result<seq<Token>, Error>
    decreases |s|
  {
    match Next(s)
    case Stop => Success([])
    case Blank => Lex(s[1..])
    case Bad(e) => Failure(e)
    case Tok(t, n) => Prepend([t], Lex(s[n..]))
  }

  function Prepend(ts: seq<Token>, r: Result<seq<Token>, Error>): Result<seq<Token>, Error> {
    match r
    case Failure(e) => Failure(e)
    case Success(us) => Success(ts + us)
  }

  /** The one-based columns of the tokens of s, which starts at index at of its line. */
  function Columns(s: Text, at: nat): seq<nat>
    decreases |s|
  {
    match Next(s)
    case Stop => []
    case Blank => Columns(s[1..], at + 1)
    case Bad(_) => []
    case Tok(_, n) => [at + 1] + Columns(s[n..], at + n)
  }

  /** Every token has a column, columns increase, and each is where its token starts. */
  lemma {:induction false} ColumnsPoint(line: Text, at: nat, k: nat)
    requires at <= |line| && Lex(line[at..]).Success? && k < |Lex(line[at..]).value|
    ensures var ts, cols := Lex(line[at..]).value, Columns(line[at..], at);
      && |cols| == |ts| && at < cols[k] <= |line|
      && Next(line[cols[k] - 1..]).Tok? && Next(line[cols[k] - 1..]).t == ts[k]
      && (k > 0 ==> cols[k - 1] < cols[k])
    decreases |line| - at
  {
    hide Next;
    var s := line[at..];
    match Next(s)
    case Blank =>
      assert s[1..] == line[at + 1..];
      ColumnsPoint(line, at + 1, k);
    case Tok(t, n) =>
      assert s[n..] == line[at + n..];
      if k > 0 {
        ColumnsPoint(line, at + n, k - 1);
      } else if |Lex(s).value| > 1 {
        ColumnsPoint(line, at + n, 0);
      } else {
        NoColumns(line[at + n..], at + n);
      }
  }

  lemma {:induction false} NoColumns(s: Text, at: nat)
    requires Lex(s) == Success([])
    ensures Columns(s, at) == []
    decreases |s|
  {
    hide Next;
    if Next(s).Blank? { NoColumns(s[1..], at + 1); }
  }

  // ----- The lexer's own loops -----

  method ScanSpan(line: Text, i: nat, k: Class) returns (j: nat)
    requires i <= |line|
    ensures j == i + Span(line[i..], k)
  {
    j := i;
    while In(k, CharAt(line, j))
      invariant i <= j <= |line| && i + Span(line[i..], k) == j + Span(line[j..], k)
      decreases |line| - j
    {
      assert line[j..][0] == line[j] && line[j..][1..] == line[j + 1..];
      j := j + 1;
    }
  }

  /** The escape at line[i], a backslash that is not the last character; the octal digits are read in a loop. */
  method ScanEscape(line: Text, i: nat) returns (b: byte, j: nat)
    requires i + 1 < |line| && line[i] == BACKSLASH && line[i + 1] != 0
    ensures i < j && (b, j - i) == Unescape(line[i..])
  {
    var c := line[i + 1];
    b, j := c, i + 2;
    if c == 110 {
      b := 10;
    } else if c == 116 {
      b := 9;
    } else if c == 114 {
      b := 13;
    } else if c == 101 {
      b := 27;
    } else if c == 120 && IsHex(CharAt(line, i + 2)) && IsHex(CharAt(line, i + 3)) {
      b, j := 16 * HexValue(line[i + 2]) + HexValue(line[i + 3]), i + 4;
    } else if IsOctal(c) {
      var s := line[i + 1..];
      var value, digits: nat := c - ZERO, 1;
      while digits < 3 && IsOctal(CharAt(line, j))
        invariant 1 <= digits <= 3 && j == i + 1 + digits <= |line|
        invariant digits >= 2 ==> IsOctal(CharAt(s, 1))
        invariant digits == 3 ==> IsOctal(CharAt(s, 2))
        invariant value == (if digits == 1 then s[0] - ZERO else if digits == 2 then 8 * (s[0] - ZERO) + (s[1] - ZERO)
                            else 8 * (8 * (s[0] - ZERO) + (s[1] - ZERO)) + (s[2] - ZERO))
        decreases 3 - digits
      {
        value := value * 8 + (line[j] - ZERO);
        j := j + 1;
        digits := digits + 1;
      }
      assert CharAt(s, digits) == CharAt(line, j);
      assert (value, digits) == Octal(s);
      b := value % 256;
      assert line[i..][1..] == s;
    }
  }

  /** From just after the opening quote. */
  method ScanString(line: Text, i: nat) returns (r: Result<(Text, nat), Error>)
    requires i <= |line|
    ensures r == ReadString(line[i..], 0)
  {
    hide ReadString, Unescape;
    var buf: Text, j := [], i;
    AppendedNothing(ReadString(line[i..], 0));
    while CharAt(line, j) != 0 && line[j] != QUOTE
      invariant i <= j <= |line| && |buf| <= BUFFER - 2
      invariant ReadString(line[i..], 0) == Appended(buf, j - i, ReadString(line[j..], |buf|))
      decreases |line| - j
    {
      var b, next := line[j], j + 1;
      if line[j] == BACKSLASH && CharAt(line, j + 1) != 0 {
        b, next := ScanEscape(line, j);
      } else {
        PlainByte(line[j..]);
      }
      ReadStep(line, j, next, |buf|);
      if |buf| + 2 >= BUFFER { return Failure(StringTooLong); }
      AppendedTwice(buf, j - i, b, next - j, ReadString(line[next..], |buf| + 1));
      buf, j := buf + [b], next;
    }
    ReadEnd(line[j..], |buf|);
    if CharAt(line, j) != QUOTE { return Failure(UnterminatedString); }
    r := Success((buf, j + 1 - i));
    assert buf + [] == buf;
  }

  ghost function Appended(buf: Text, n: nat, r: Result<(Text, nat), Error>): Result<(Text, nat), Error> {
    match r
    case Failure(e) => Failure(e)
    case Success((t, m)) => Success((buf + t, n + m))
  }

  lemma PlainByte(s: Text)
    requires CharAt(s, 0) != 0 && (s[0] != BACKSLASH || CharAt(s, 1) == 0)
    ensures Unescape(s) == (s[0], 1)
  {
  }

  lemma ReadEnd(s: Text, k: nat)
    requires CharAt(s, 0) == 0 || s[0] == QUOTE
    ensures ReadString(s, k) == if CharAt(s, 0) == QUOTE then Success(([], 1)) else Failure(UnterminatedString)
  {
  }

  lemma ReadStep(line: Text, j: nat, next: nat, k: nat)
    requires CharAt(line, j) != 0 && line[j] != QUOTE && j < next && next - j == Unescape(line[j..]).1
    ensures ReadString(line[j..], k) ==
      if k + 2 >= BUFFER then Failure(StringTooLong)
      else Appended([Unescape(line[j..]).0], next - j, ReadString(line[next..], k + 1))
  {
    hide Unescape;
    assert line[j..][next - j..] == line[next..];
  }

  lemma AppendedNothing(r: Result<(Text, nat), Error>)
    ensures Appended([], 0, r) == r
  {
    if r.Success? { assert [] + r.value.0 == r.value.0; }
  }

  lemma AppendedTwice(buf: Text, n: nat, b: byte, m: nat, r: Result<(Text, nat), Error>)
    ensures Appended(buf, n, Appended([b], m, r)) == Appended(buf + [b], n + m, r)
  {
    if r.Success? { assert buf + ([b] + r.value.0) == buf + [b] + r.value.0; }
  }

  method ScanSigned(line: Text, i: nat) returns (j: nat)
    requires i + 1 < |line| && IsDigit(line[i + 1])
    ensures j == i + SignedLength(line[i..])
  {
    ghost var s := line[i..];
    if line[i + 1] == ZERO && IsX(CharAt(line, i + 2)) {
      assert s[3..] == line[i + 3..];
      j := ScanSpan(line, i + 3, HexDigits);
    } else {
      assert s[1..] == line[i + 1..];
      j := ScanSpan(line, i + 1, Digits);
      if CharAt(line, j) == DOT {
        assert s[j - i + 1..] == line[j + 1..];
        j := ScanSpan(line, j + 1, Digits);
      }
    }
  }

  method Classify(w: Text) returns (k: Kind)
    requires w != []
    ensures k == WordKind(w)
  {
    var start: nat := if w[0] == MINUS then 1 else 0;
    var allHex, decimal, hasDot := CharAt(w, start) != DOLLAR && AT !in w, AT !in w, false;
    var j := start;
    while j < |w|
      invariant start <= j <= |w|
      invariant allHex == AllHex(w, start, j) && decimal == Decimal(w, start, j) && hasDot == (DOT in w[start..j])
    {
      if !HexAt(w, start, j) { allHex := false; }
      if w[j] == DOT { hasDot := true; } else if !IsDigit(w[j]) { decimal := false; }
      assert w[start..j + 1] == w[start..j] + [w[j]];
      j := j + 1;
    }
    assert w[start..j] == w[start..] && w == w[..start] + w[start..];
    k := if (IsDigit(CharAt(w, start)) && (allHex || (hasDot && decimal))) || (w[0] == MINUS && (allHex || decimal))
         then Number else Identifier;
  }

  method Scan(line: Text, i: nat) returns (item: Item)
    requires i <= |line|
    ensures item == Next(line[i..])
  {
    hide Span, ReadString, SignedLength, WordKind, IsPair, IsOperator, IsWordStart, IsSpace;
    ghost var s := line[i..];
    var c, d := CharAt(line, i), CharAt(line, i + 1);
    if c == 0 || c == SEMICOLON || (c == SLASH && d == SLASH) { return Stop; }
    if IsSpace(c) || c == COMMA { return Blank; }
    if c == COLON { return Tok(Token(Colon, line[i..i + 1]), 1); }
    if c == AT {
      assert s[1..] == line[i + 1..];
      var j := ScanSpan(line, i + 1, LabelChars);
      if j == i + 1 { return Bad(EmptyLabel); }
      return Tok(Token(LabelRef, line[i + 1..j]), j - i);
    }
    if c == QUOTE {
      assert s[1..] == line[i + 1..];
      var r := ScanString(line, i + 1);
      match r {
        case Failure(e) => return Bad(e);
        case Success((t, n)) => return Tok(Token(Str, t), 1 + n);
      }
    }
    if IsPair(c, d) {
      PairNotNul(c, d);
      return Tok(Token(Identifier, line[i..i + 2]), 2);
    }
    if IsSign(c) && IsDigit(d) {
      var j := ScanSigned(line, i);
      return Tok(Token(Number, line[i..j]), j - i);
    }
    if IsOperator(c) || c == EQUALS { return Tok(Token(Identifier, line[i..i + 1]), 1); }
    if IsWordStart(c) {
      var j := ScanSpan(line, i, WordChars);
      WordNotEmpty(s);
      assert line[i..j] == s[..j - i];
      var k := Classify(line[i..j]);
      return Tok(Token(k, line[i..j]), j - i);
    }
    item := Bad(UnexpectedCharacter);
  }

  lemma PairNotNul(c: byte, d: byte)
    requires IsPair(c, d)
    ensures d != 0
  {
  }

  lemma WordNotEmpty(s: Text)
    requires s != [] && IsWordStart(s[0])
    ensures Span(s, WordChars) >= 1
  {
  }

  /** scml_lex_line: the tokens and their columns. (Every token also carries the line number it was called with.) */
  method LexLine(line: Text) returns (r: Result<seq<Token>, Error>, cols: seq<nat>)
    ensures r == Lex(line)
    ensures r.Success? ==> cols == Columns(line, 0)
  {
    hide Next;
    var i: nat, toks: seq<Token> := 0, [];
    cols := [];
    assert line[0..] == line;
    PrependNothing(Lex(line));
    while true
      invariant i <= |line| && Lex(line) == Prepend(toks, Lex(line[i..]))
      invariant Columns(line, 0) == cols + Columns(line[i..], i)
      decreases |line| - i
    {
      var item := Scan(line, i);
      match item {
        case Stop =>
          assert toks + [] == toks;
          return Success(toks), cols;
        case Bad(e) => return Failure(e), cols;
        case Blank =>
          assert line[i..][1..] == line[i + 1..];
          i := i + 1;
        case Tok(t, n) =>
          assert line[i..][n..] == line[i + n..];
          PrependTwice(toks, [t], Lex(line[i + n..]));
          assert cols + ([i + 1] + Columns(line[i + n..], i + n)) == cols + [i + 1] + Columns(line[i + n..], i + n);
          toks, cols, i := toks + [t], cols + [i + 1], i + n;
      }
    }
  }

  lemma PrependNothing(r: Result<seq<Token>, Error>)
    ensures Prepend([], r) == r
  {
    if r.Success? { assert [] + r.value == r.value; }
  }

  lemma PrependTwice(a: seq<Token>, b: seq<Token>, r: Result<seq<Token>, Error>)
    ensures Prepend(a, Prepend(b, r)) == Prepend(a + b, r)
  {
    if r.Success? { assert a + (b + r.value) == a + b + r.value; }
  }

  // ----- Printing -----

  function EscapedByte(c: byte): Text {
    if c == QUOTE || c == BACKSLASH then [BACKSLASH, c] else [c]
  }

  function Escape(t: Text): Text {
    if t == [] then [] else EscapedByte(t[0]) + Escape(t[1..])
  }

  /** stringize measures its argument with strlen. */
  function Quoted(t: Text): Text {
    [QUOTE] + Escape(CString(t)) + [QUOTE]
  }

  method Stringize(s: Text) returns (o: Text)
    ensures o == Quoted(s)
  {
    var c := CString(s);
    o := [QUOTE];
    var i := 0;
    while i < |c|
      invariant i <= |c| && o + Escape(c[i..]) == [QUOTE] + Escape(c)
    {
      assert c[i..][0] == c[i] && c[i..][1..] == c[i + 1..];
      if c[i] == QUOTE || c[i] == BACKSLASH { o := o + [BACKSLASH]; }
      o := o + [c[i]];
      i := i + 1;
    }
    assert Escape(c[i..]) == [] && o + [] == o;
    o := o + [QUOTE];
  }

  function Printed(t: Token): Text {
    match t.kind
    case LabelRef => [AT] + t.text
    case Str => Quoted(t.text)
    case _ => t.text
  }

  /** Tokens separated by spaces. */
  function Print(ts: seq<Token>): Text {
    if ts == [] then [] else if |ts| == 1 then Printed(ts[0]) else Printed(ts[0]) + [SPACE] + Print(ts[1..])
  }

  // ----- The tokens of a line -----

  predicate All(k: Class, t: Text) {
    forall i :: 0 <= i < |t| ==> In(k, t[i])
  }

  predicate IsWord(t: Text) {
    t != [] && IsWordStart(t[0]) && t[0] != MINUS && All(WordChars, t)
  }

  predicate IsSymbol(t: Text) {
    || (|t| == 1 && (IsOperator(t[0]) || t[0] == EQUALS) && t[0] != COMMA)
    || (|t| == 2 && IsPair(t[0], t[1]) && t[0] != COLON)
  }

  /** A sign, then 0x and hexadecimal digits, or digits and at most one fraction. */
  predicate IsSigned(t: Text) {
    && |t| >= 2 && IsSign(t[0]) && IsDigit(t[1])
    && (if t[1] == ZERO && IsX(CharAt(t, 2)) then All(HexDigits, t[3..])
        else
          || All(Digits, t[1..])
          || exists k :: 2 <= k < |t| && t[k] == DOT && All(Digits, t[1..k]) && All(Digits, t[k + 1..]))
  }

  predicate Valid(t: Token) {
    match t.kind
    case Colon => t.text == [COLON]
    case LabelRef => t.text != [] && All(LabelChars, t.text)
    case Str => |t.text| <= BUFFER - 2
    case Identifier => IsSymbol(t.text) || (IsWord(t.text) && WordKind(t.text) == Identifier)
    case Number => IsSigned(t.text) || (IsWord(t.text) && WordKind(t.text) == Number)
  }

  predicate AllValid(ts: seq<Token>) {
    forall i :: 0 <= i < |ts| ==> Valid(ts[i])
  }

  lemma SignedValid(s: Text)
    requires |s| >= 2 && IsSign(s[0]) && IsDigit(s[1])
    ensures IsSigned(s[..SignedLength(s)])
  {
    var n := SignedLength(s);
    var t := s[..n];
    if s[1] == ZERO && IsX(CharAt(s, 2)) {
      assert t[3..] == s[3..][..n - 3];
    } else {
      var k := 1 + Span(s[1..], Digits);
      assert t[1..k] == s[1..][..k - 1];
      if CharAt(s, k) == DOT {
        assert t[k + 1..] == s[k + 1..][..n - k - 1];
        assert 2 <= k < |t| && t[k] == DOT && All(Digits, t[1..k]) && All(Digits, t[k + 1..]);
      } else {
        assert t[1..] == t[1..k];
      }
    }
  }

  lemma NextValid(s: Text)
    requires Next(s).Tok?
    ensures Valid(Next(s).t)
  {
    hide SignedLength, WordKind, ReadString, IsSigned;
    var c, d := CharAt(s, 0), CharAt(s, 1);
    if c == COLON {
    } else if c == AT {
    } else if c == QUOTE {
    } else if IsPair(c, d) {
      assert IsSymbol(s[..2]);
    } else if IsSign(c) && IsDigit(d) {
      SignedValid(s);
    } else if IsOperator(c) || c == EQUALS {
      assert IsSymbol(s[..1]);
    } else {
      assert IsWord(s[..Span(s, WordChars)]);
    }
  }

  /** Every token of a line has one of the printable shapes. */
  lemma {:induction false} LexedValid(s: Text)
    requires Lex(s).Success?
    ensures AllValid(Lex(s).value)
    decreases |s|
  {
    hide Next, Valid;
    match Next(s)
    case Stop =>
    case Blank => LexedValid(s[1..]);
    case Tok(t, n) =>
      NextValid(s);
      LexedValid(s[n..]);
  }

  // ----- Lexing what was printed -----

  predicate Ends(rest: Text) {
    rest == [] || rest[0] == SPACE
  }

  lemma {:induction false} SpanAll(t: Text, rest: Text, k: Class)
    requires All(k, t) && (rest == [] || !In(k, rest[0]))
    ensures Span(t + rest, k) == |t|
    decreases |t|
  {
    if t == [] {
      assert t + rest == rest;
    } else {
      assert (t + rest)[1..] == t[1..] + rest;
      SpanAll(t[1..], rest, k);
    }
  }

  lemma UnescapeByte(c: byte, rest: Text)
    requires c != 0
    ensures var s := EscapedByte(c) + rest;
      CharAt(s, 0) != 0 && s[0] != QUOTE && Unescape(s) == (c, |EscapedByte(c)|) && s[|EscapedByte(c)|..] == rest
  {
  }

  lemma UnescapeEscaped(t: Text, rest: Text)
    requires t != [] && t[0] != 0
    ensures var s := Escape(t) + rest; var n := |EscapedByte(t[0])|;
      && CharAt(s, 0) != 0 && s[0] != QUOTE && Unescape(s) == (t[0], n) && s[n..] == Escape(t[1..]) + rest
  {
    hide EscapedByte, Unescape;
    var e := Escape(t[1..]);
    assert Escape(t) + rest == EscapedByte(t[0]) + (e + rest);
    UnescapeByte(t[0], e + rest);
  }

  lemma {:induction false} ReadEscaped(t: Text, rest: Text, k: nat)
    requires 0 !in t && k + |t| <= BUFFER - 2
    ensures ReadString(Escape(t) + ([QUOTE] + rest), k) == Success((t, |Escape(t)| + 1))
    decreases |t|
  {
    hide ReadString, Unescape;
    var s := Escape(t) + ([QUOTE] + rest);
    if t == [] {
      ReadEnd(s, k);
    } else {
      UnescapeEscaped(t, [QUOTE] + rest);
      assert s[0..] == s;
      ReadStep(s, 0, Unescape(s).1, k);
      ReadEscaped(t[1..], rest, k + 1);
      assert [t[0]] + t[1..] == t;
    }
  }

  lemma HexWhole(t: Text, rest: Text)
    requires |t| >= 3 && t[1] == ZERO && IsX(t[2]) && All(HexDigits, t[3..]) && Ends(rest)
    ensures SignedLength(t + rest) == |t|
  {
    assert (t + rest)[3..] == t[3..] + rest;
    SpanAll(t[3..], rest, HexDigits);
  }

  lemma DigitsWhole(t: Text, k: nat, rest: Text)
    requires 2 <= k <= |t| && IsDigit(t[1]) && All(Digits, t[1..k]) && Ends(rest)
    requires !(t[1] == ZERO && IsX(CharAt(t, 2)))
    requires k == |t| || (t[k] == DOT && All(Digits, t[k + 1..]))
    ensures SignedLength(t + rest) == |t|
  {
    hide Span, All;
    var s, tail := t + rest, t[k..] + rest;
    assert s[1..] == t[1..k] + tail;
    SpanAll(t[1..k], tail, Digits);
    assert CharAt(s, 2) == CharAt(t, 2) || |t| == 2;
    if k < |t| {
      assert s[k + 1..] == t[k + 1..] + rest;
      SpanAll(t[k + 1..], rest, Digits);
    }
  }

  lemma SignedWhole(t: Text, rest: Text)
    requires IsSigned(t) && Ends(rest)
    ensures SignedLength(t + rest) == |t|
  {
    hide SignedLength, All;
    if t[1] == ZERO && IsX(CharAt(t, 2)) {
      HexWhole(t, rest);
    } else if All(Digits, t[1..]) {
      assert t[1..|t|] == t[1..];
      DigitsWhole(t, |t|, rest);
    } else {
      var k :| 2 <= k < |t| && t[k] == DOT && All(Digits, t[1..k]) && All(Digits, t[k + 1..]);
      DigitsWhole(t, k, rest);
    }
  }

  /** What comes back: a string up to its first NUL, anything else unchanged. */
  function Reread(t: Token): Token {
    if t.kind == Str then t.(text := CString(t.text)) else t
  }

  lemma NextString(t: Token, rest: Text)
    requires t.kind == Str && Valid(t)
    ensures Next(Printed(t) + rest) == Tok(Reread(t), |Printed(t)|)
  {
    hide ReadString, Escape;
    var c := CString(t.text);
    var s := Printed(t) + rest;
    assert s[1..] == Escape(c) + ([QUOTE] + rest);
    ReadEscaped(c, rest, 0);
  }

  lemma NextWord(t: Text, rest: Text)
    requires IsWord(t) && Ends(rest)
    ensures Next(t + rest) == Tok(Token(WordKind(t), t), |t|)
  {
    hide WordKind, Span, SignedLength, ReadString;
    SpanAll(t, rest, WordChars);
    assert (t + rest)[..|t|] == t;
  }

  lemma NextSymbol(t: Text, rest: Text)
    requires IsSymbol(t) && Ends(rest)
    ensures Next(t + rest) == Tok(Token(Identifier, t), |t|)
  {
    hide WordKind, Span, SignedLength, ReadString;
    assert (t + rest)[..|t|] == t;
  }

  lemma NextSigned(t: Text, rest: Text)
    requires IsSigned(t) && Ends(rest)
    ensures Next(t + rest) == Tok(Token(Number, t), |t|)
  {
    hide WordKind, Span, SignedLength, ReadString;
    SignedWhole(t, rest);
    assert (t + rest)[..|t|] == t;
  }

  lemma NextLabel(t: Text, rest: Text)
    requires t != [] && All(LabelChars, t) && Ends(rest)
    ensures Next([AT] + t + rest) == Tok(Token(LabelRef, t), 1 + |t|)
  {
    hide WordKind, Span, SignedLength, ReadString;
    var s := [AT] + t + rest;
    assert s[1..] == t + rest;
    SpanAll(t, rest, LabelChars);
    assert s[1..1 + |t|] == t;
  }

  lemma NextPrinted(t: Token, rest: Text)
    requires Valid(t) && Ends(rest)
    ensures Next(Printed(t) + rest) == Tok(Reread(t), |Printed(t)|)
  {
    hide WordKind, IsSigned, IsSymbol, IsWord, Quoted, Span, SignedLength, ReadString;
    match t.kind
    case Colon => assert (t.text + rest)[..1] == t.text;
    case LabelRef => NextLabel(t.text, rest);
    case Str => NextString(t, rest);
    case Identifier => if IsSymbol(t.text) { NextSymbol(t.text, rest); } else { NextWord(t.text, rest); }
    case Number => if IsSigned(t.text) { NextSigned(t.text, rest); } else { NextWord(t.text, rest); }
  }

  function RereadAll(ts: seq<Token>): seq<Token> {
    if ts == [] then [] else [Reread(ts[0])] + RereadAll(ts[1..])
  }

  lemma {:induction false} LexPrinted(ts: seq<Token>)
    requires AllValid(ts)
    ensures Lex(Print(ts)) == Success(RereadAll(ts))
    decreases |ts|
  {
    hide Next, Printed, Reread, Valid;
    if ts == [] {
      StopsAtEnd();
    } else {
      var rest := if |ts| == 1 then [] else [SPACE] + Print(ts[1..]);
      assert Print(ts) == Printed(ts[0]) + rest;
      NextPrinted(ts[0], rest);
      assert Print(ts)[|Printed(ts[0])|..] == rest;
      LexPrinted(ts[1..]);
      if |ts| == 1 { StopsAtEnd(); } else { SkipsSpace(Print(ts[1..])); }
    }
  }

  lemma StopsAtEnd()
    ensures Next([]) == Stop
  {
  }

  lemma SkipsSpace(s: Text)
    ensures Lex([SPACE] + s) == Lex(s)
  {
    hide ReadString, Span, SignedLength, WordKind;
    assert ([SPACE] + s)[1..] == s;
  }

  predicate NulFree(ts: seq<Token>) {
    forall i :: 0 <= i < |ts| ==> ts[i].kind == Str ==> 0 !in ts[i].text
  }

  lemma {:induction false} RereadsNulFree(ts: seq<Token>)
    ensures RereadAll(ts) == ts <==> NulFree(ts)
    decreases |ts|
  {
    if ts != [] {
      RereadsNulFree(ts[1..]);
      if 0 !in ts[0].text { NoNulIsCString(ts[0].text); }
      assert ts == [ts[0]] + ts[1..];
      assert RereadAll(ts)[0] == Reread(ts[0]) && RereadAll(ts)[1..] == RereadAll(ts[1..]);
      assert NulFree(ts) <==> (ts[0].kind == Str ==> 0 !in ts[0].text) && NulFree(ts[1..]) by {
        assert forall i :: 1 <= i < |ts| ==> ts[i] == ts[1..][i - 1];
      }
    }
  }

  /** Lexing undoes printing: the tokens of any line come back, except that a string is cut at a NUL it holds. */
  lemma LexUndoesPrint(line: Text)
    requires Lex(line).Success?
    ensures var ts := Lex(line).value;
      Lex(Print(ts)) == Success(RereadAll(ts)) && (Lex(Print(ts)) == Success(ts) <==> NulFree(ts))
  {
    LexedValid(line);
    LexPrinted(Lex(line).value);
    RereadsNulFree(Lex(line).value);
  }

  /** A string with the escape \0 holds a NUL: printed, it is the empty string. */
  lemma NulIsLost()
    ensures var line: Text := [QUOTE, BACKSLASH, ZERO, QUOTE];
      Lex(line) == Success([Token(Str, [0])]) && Lex(Print(Lex(line).value)) == Success([Token(Str, [])])
  {
    var line: Text := [QUOTE, BACKSLASH, ZERO, QUOTE];
    var body := line[1..];
    assert body == [BACKSLASH, ZERO, QUOTE] && body[2..] == [QUOTE] && Unescape(body) == (0, 2);
    assert ReadString(body[2..], 1) == Success(([], 1));
    assert ReadString(body, 0) == Success(([0] + [], 3));
    assert Next(line) == Tok(Token(Str, [0]), 4);
    assert line[4..] == [];
    StopsAtEnd();
    assert Lex(line) == Prepend([Token(Str, [0])], Lex([]));
    assert [Token(Str, [0])] + [] == [Token(Str, [0])];
    var held: Text := [0];
    var ts := [Token(Str, held)];
    LexPrinted(ts);
    assert CString(held) == [] && ts[1..] == [];
    assert RereadAll(ts) == [Reread(ts[0])] + RereadAll(ts[1..]);
    assert RereadAll(ts) == [Token(Str, [])];
  }

  // ----- What escapes and words mean -----

  const HEX_LOWER: Text := [48, 49, 50, 51, 52, 53, 54, 55, 56, 57, 97, 98, 99, 100, 101, 102]
  const HEX_UPPER: Text := [48, 49, 50, 51, 52, 53, 54, 55, 56, 57, 65, 66, 67, 68, 69, 70]

  /** The character c is the hexadecimal digit of v. */
  predicate HexDigitOf(c: byte, v: int) {
    0 <= v < 16 && (c == HEX_LOWER[v] || c == HEX_UPPER[v])
  }

  function OctalNumber(ds: Text): int {
    if ds == [] then 0 else 8 * OctalNumber(ds[..|ds| - 1]) + (ds[|ds| - 1] - ZERO)
  }

  /** In front of rest, the characters of an escape stand for the byte b: n, t, r and e for newline, tab, carriage
      return and escape, x and two hexadecimal digits, up to three octal digits, any other character for itself. */
  predicate Spells(esc: Text, b: byte, rest: Text) {
    && |esc| >= 2 && esc[0] == BACKSLASH
    && var c := esc[1];
      || (esc == [BACKSLASH, 110] && b == 10) || (esc == [BACKSLASH, 116] && b == 9)
      || (esc == [BACKSLASH, 114] && b == 13) || (esc == [BACKSLASH, 101] && b == 27)
      || (|esc| == 4 && c == 120 && HexDigitOf(esc[2], b / 16) && HexDigitOf(esc[3], b % 16))
      || (|esc| <= 4 && (forall i :: 1 <= i < |esc| ==> IsOctal(esc[i]))
          && (|esc| == 4 || !IsOctal(CharAt(rest, 0))) && b == OctalNumber(esc[1..]) % 256)
      || (|esc| == 2 && c != 0 && !IsOctal(c) && c != 110 && c != 116 && c != 114 && c != 101 && b == c
          && (c == 120 ==> !IsHex(CharAt(rest, 0)) || !IsHex(CharAt(rest, 1))))
  }

  lemma HexDigitIs(c: byte, v: int)
    requires HexDigitOf(c, v)
    ensures IsHex(c) && HexValue(c) == v
  {
    if v < 10 { assert c == 48 + v; } else { assert c == 87 + v || c == 55 + v; }
  }

  lemma OctalIs(ds: Text, rest: Text)
    requires 1 <= |ds| <= 3 && (forall i :: 0 <= i < |ds| ==> IsOctal(ds[i]))
    requires |ds| == 3 || !IsOctal(CharAt(rest, 0))
    ensures Octal(ds + rest) == (OctalNumber(ds), |ds|)
  {
    var s := ds + rest;
    assert forall i :: 0 <= i < |ds| ==> CharAt(s, i) == ds[i];
    assert CharAt(s, |ds|) == CharAt(rest, 0);
    assert ds[..1][..0] == [] && OctalNumber(ds[..1]) == ds[0] - ZERO;
    if |ds| == 1 {
      assert ds[..1] == ds;
    } else {
      assert ds[..2][..1] == ds[..1] && OctalNumber(ds[..2]) == 8 * OctalNumber(ds[..1]) + (ds[1] - ZERO);
      if |ds| == 2 { assert ds[..2] == ds; }
    }
  }

  lemma SpelledByte(esc: Text, b: byte, rest: Text)
    requires Spells(esc, b, rest)
    ensures Unescape(esc + rest) == (b, |esc|)
  {
    hide Octal, HexValue, OctalNumber;
    var s, c := esc + rest, esc[1];
    assert CharAt(s, 1) == c;
    if IsOctal(c) {
      OctalIs(esc[1..], rest);
      assert s[1..] == esc[1..] + rest;
    } else if |esc| == 4 {
      HexDigitIs(esc[2], b / 16);
      HexDigitIs(esc[3], b % 16);
    } else {
      assert CharAt(s, 2) == CharAt(rest, 0) && CharAt(s, 3) == CharAt(rest, 1);
    }
  }

  /** Inside a string an escape is read as the byte it spells, if the buffer has room for it. */
  lemma EscapeRead(esc: Text, b: byte, rest: Text, k: nat)
    requires Spells(esc, b, rest)
    ensures ReadString(esc + rest, k) ==
      if k + 2 >= BUFFER then Failure(StringTooLong)
      else match ReadString(rest, k + 1)
        case Failure(e) => Failure(e)
        case Success((t, n)) => Success(([b] + t, |esc| + n))
  {
    hide ReadString, Unescape;
    var s := esc + rest;
    SpelledByte(esc, b, rest);
    assert s[0..] == s && s[|esc|..] == rest;
    ReadStep(s, 0, |esc|, k);
  }

  /** Decimal digits, with at most one dot among them, and 0x with hexadecimal digits are numbers. What starts with
      neither a digit nor a minus, holds an @, or holds a character that no number has, is an identifier. */
  lemma WordKinds(w: Text)
    requires w != []
    ensures All(Digits, w) ==> WordKind(w) == Number
    ensures forall k :: 1 <= k < |w| && w[k] == DOT && All(Digits, w[..k]) && All(Digits, w[k + 1..]) ==>
      WordKind(w) == Number
    ensures |w| > 2 && w[0] == ZERO && w[1] == 120 && All(HexDigits, w[2..]) ==> WordKind(w) == Number
    ensures !IsDigit(w[0]) && w[0] != MINUS ==> WordKind(w) == Identifier
    ensures AT in w ==> WordKind(w) == Identifier
    ensures (exists j :: 1 <= j < |w| && !IsHex(w[j]) && w[j] != 120 && w[j] != DOT) ==> WordKind(w) == Identifier
  {
    if All(Digits, w) { assert forall j :: 0 <= j < |w| ==> In(Digits, w[j]); }
    forall k | 1 <= k < |w| && w[k] == DOT && All(Digits, w[..k]) && All(Digits, w[k + 1..])
      ensures WordKind(w) == Number
    {
      assert forall j :: 0 <= j < k ==> In(Digits, w[..k][j]);
      assert forall j :: k < j < |w| ==> In(Digits, w[k + 1..][j - k - 1]) && w[j] == w[k + 1..][j - k - 1];
      assert DOT in w && Decimal(w, 0, |w|);
    }
    if |w| > 2 && w[0] == ZERO && w[1] == 120 && All(HexDigits, w[2..]) {
      assert forall j :: 2 <= j < |w| ==> w[j] == w[2..][j - 2] && In(HexDigits, w[2..][j - 2]);
      assert AllHex(w, 0, |w|);
    }
    forall j | 1 <= j < |w| && !IsHex(w[j]) && w[j] != 120 && w[j] != DOT ensures WordKind(w) == Identifier {
      var start := if w[0] == MINUS then 1 else 0;
      assert !HexAt(w, start, j) && !IsDigit(w[j]);
      assert !AllHex(w, start, |w|) && !Decimal(w, start, |w|);
    }
  }

  /** The symbols, spelled out. */
  lemma SymbolsListed(c: byte, d: byte)
    ensures IsOperator(c) <==> c as char in {
      '+', '-', '*', '/', '%', '&', '|', '^', '~', '!', '?',
      '(', ')', '[', ']', '{', '}', '.', '<', '>', ','}
    ensures IsPair(c, d) <==> (c as char, d as char) in {
      ('&', '&'), ('|', '|'), ('=', '='), ('!', '='), ('<', '='), ('>', '='), ('<', '<'),
      ('>', '>'), (':', ':'), ('-', '>'), ('+', '+'), ('-', '-'), ('+', '='), ('-', '=')}
  {
  }

  /** A comment ends the line, wherever a token could start; white space and commas only separate. */
  lemma CommentEnds(rest: Text, c: byte)
    ensures Lex([SEMICOLON] + rest) == Success([]) && Lex([SLASH, SLASH] + rest) == Success([])
    ensures IsSpace(c) || c == COMMA ==> Lex([c] + rest) == Lex(rest)
  {
    hide ReadString, Span, SignedLength, WordKind;
    assert ([c] + rest)[1..] == rest;
  }
}
