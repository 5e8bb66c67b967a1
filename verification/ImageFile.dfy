/** The .scmlbin image: what the compiler writes (compiler/compiler.c), what the VM loads and looks up (vm/vm.c). */
module ImageFile {
  import opened Bytes
  import opened Chars
  import opened Program
  import opened Encoding
  import opened Layout

  const MAGIC: uint32 := 0x4C4D4353
  const VERSION: nat := 5
  const HEADER_SIZE: nat := 18

  // ----- Writing -----

  function Header(codeSize: uint32, lineCount: uint32, labelCount: uint32): (bs: seq<byte>)
    ensures |bs| == HEADER_SIZE
  {
    W32(MAGIC) + W16(VERSION) + W32(codeSize) + W32(lineCount) + W32(labelCount)
  }

  function LinesBytes(lines: seq<LineEntry>): seq<byte> {
    if lines == [] then [] else W32(lines[0].pc) + W32(lines[0].line) + LinesBytes(lines[1..])
  }

  function LabelsBytes(labels: seq<LabelEntry>): seq<byte> {
    if labels == [] then []
    else W32(labels[0].addr) + W16(|labels[0].name| % 0x1_0000) + labels[0].name + LabelsBytes(labels[1..])
  }

  /** The sizes in the header are 32 bits wide. */
  predicate Writable(img: Image) {
    && NamesFit(img.labels)
    && |img.code| < 0x1_0000_0000 && |img.lines| < 0x1_0000_0000 && |img.labels| < 0x1_0000_0000
  }

  /** Counts and lengths are cast to the width of their field. */
  function FileBytes(img: Image): seq<byte> {
    Header(|img.code| % 0x1_0000_0000, |img.lines| % 0x1_0000_0000, |img.labels| % 0x1_0000_0000)
    + img.code + LinesBytes(img.lines) + LabelsBytes(img.labels)
  }

  // ----- Loading -----

  datatype LoadError =
    | CannotOpen | ShortHeader | NotSupported | TruncatedCode | TruncatedLines | TruncatedLabels | TruncatedLabelName

  /** n line entries from the front of bs. */
  function ParseLines(bs: seq<byte>, n: nat): (r: Option<(seq<LineEntry>, nat)>)
    ensures r.Some? ==> |r.value.0| == n && r.value.1 <= |bs|
    decreases n
  {
    if n == 0 then Some(([], 0))
    else if |bs| < 8 then None
    else
      match ParseLines(bs[8..], n - 1)
      case None => None
      case Some((es, used)) => Some(([LineEntry(R32(bs), R32(bs[4..]))] + es, 8 + used))
  }

  function ParseLabels(bs: seq<byte>, n: nat): (r: Result<(seq<LabelEntry>, nat), LoadError>)
    ensures r.Success? ==> |r.value.0| == n && r.value.1 <= |bs|
    decreases n
  {
    if n == 0 then Success(([], 0))
    else if |bs| < 6 then Failure(TruncatedLabels)
    else
      var len := R16(bs[4..]);
      if |bs| < 6 + len then Failure(TruncatedLabelName)
      else
        match ParseLabels(bs[6 + len..], n - 1)
        case Failure(e) => Failure(e)
        case Success((es, used)) => Success(([LabelEntry(bs[6..6 + len], R32(bs))] + es, 6 + len + used))
  }

  /** The code, line table and label table behind a header. */
  function ParseBody(bs: seq<byte>, codeSize: nat, lineCount: nat, labelCount: nat)
    : (r: Result<(Image, nat), LoadError>)
    ensures r.Success? ==> r.value.1 <= |bs|
  {
    if |bs| < codeSize then Failure(TruncatedCode)
    else
      match ParseLines(bs[codeSize..], lineCount)
      case None => Failure(TruncatedLines)
      case Some((lines, used)) =>
        match ParseLabels(bs[codeSize + used..], labelCount)
        case Failure(e) => Failure(e)
        case Success((labels, more)) => Success((Image(bs[..codeSize], lines, labels), codeSize + used + more))
  }

  /** scml_vm_load_file on a file's bytes; bytes after the label table are ignored. */
  function Load(file: seq<byte>): Result<Image, LoadError> {
    if |file| < HEADER_SIZE then Failure(ShortHeader)
    else if R32(file) != MAGIC || R16(file[4..]) != VERSION then Failure(NotSupported)
    else
      match ParseBody(file[18..], R32(file[6..]), R32(file[10..]), R32(file[14..]))
      case Failure(e) => Failure(e)
      case Success((img, _)) => Success(img)
  }

  // ----- Loading undoes writing -----

  lemma ReadLine(e: LineEntry, rest: seq<byte>)
    ensures var bs := W32(e.pc) + W32(e.line) + rest;
      R32(bs) == e.pc && R32(bs[4..]) == e.line && bs[8..] == rest
  {
    hide W32, R32;
    var bs := W32(e.pc) + W32(e.line) + rest;
    assert bs == W32(e.pc) + (W32(e.line) + rest);
    assert bs[4..] == W32(e.line) + rest;
    ReadWritten32(e.pc, W32(e.line) + rest);
    ReadWritten32(e.line, rest);
  }

  lemma {:induction false} ParseWrittenLines(lines: seq<LineEntry>, rest: seq<byte>)
    ensures ParseLines(LinesBytes(lines) + rest, |lines|) == Some((lines, |LinesBytes(lines)|))
  {
    hide W32, R32;
    if lines != [] {
      var e, more := lines[0], LinesBytes(lines[1..]);
      ParseWrittenLines(lines[1..], rest);
      ReadLine(e, more + rest);
      assert LinesBytes(lines) + rest == W32(e.pc) + W32(e.line) + (more + rest);
      assert lines == [e] + lines[1..];
    }
  }

  lemma ReadLabel(e: LabelEntry, rest: seq<byte>)
    requires |e.name| <= TEXT_MAX
    ensures var bs := W32(e.addr) + W16(|e.name|) + e.name + rest;
      && R32(bs) == e.addr && R16(bs[4..]) == |e.name|
      && bs[6..6 + |e.name|] == e.name && bs[6 + |e.name|..] == rest
  {
    hide W32, R32, W16, R16;
    var bs := W32(e.addr) + W16(|e.name|) + e.name + rest;
    assert bs == W32(e.addr) + (W16(|e.name|) + (e.name + rest));
    assert bs[4..] == W16(|e.name|) + (e.name + rest);
    ReadWritten32(e.addr, W16(|e.name|) + (e.name + rest));
    ReadWritten16(|e.name|, e.name + rest);
  }

  lemma WriteLabelCons(e: LabelEntry, es: seq<LabelEntry>)
    requires |e.name| <= TEXT_MAX && NamesFit(es)
    ensures NamesFit([e] + es)
    ensures LabelsBytes([e] + es) == W32(e.addr) + W16(|e.name|) + e.name + LabelsBytes(es)
  {
    hide W32, W16;
    assert ([e] + es)[1..] == es && |e.name| % 0x1_0000 == |e.name|;
  }

  lemma NoLabels(rest: seq<byte>)
    ensures LabelsBytes([]) == [] && ParseLabels(rest, 0) == Success(([], 0))
  {
  }

  lemma {:induction false} ParseWrittenLabels(labels: seq<LabelEntry>, rest: seq<byte>)
    requires NamesFit(labels)
    ensures ParseLabels(LabelsBytes(labels) + rest, |labels|) == Success((labels, |LabelsBytes(labels)|))
    decreases |labels|
  {
    hide W32, R32, W16, R16, ParseLabels, LabelsBytes;
    if labels == [] {
      NoLabels([] + rest);
    } else {
      var e, es := labels[0], labels[1..];
      var head, more := W32(e.addr) + W16(|e.name|) + e.name, LabelsBytes(es);
      assert labels == [e] + es;
      WriteLabelCons(e, es);
      assert LabelsBytes(labels) + rest == head + (more + rest);
      ReadLabel(e, more + rest);
      ParseWrittenLabels(es, rest);
      ParseLabelsCons(head + (more + rest), e, more + rest, |es|);
    }
  }

  lemma ParseLabelsCons(bs: seq<byte>, e: LabelEntry, rest: seq<byte>, n: nat)
    requires |bs| >= 6 + |e.name| && R32(bs) == e.addr && R16(bs[4..]) == |e.name|
    requires bs[6..6 + |e.name|] == e.name && bs[6 + |e.name|..] == rest
    ensures ParseLabels(bs, n + 1) ==
      (match ParseLabels(rest, n)
       case Failure(x) => Failure(x)
       case Success((es, used)) => Success(([e] + es, 6 + |e.name| + used)))
  {
    hide R32, R16;
  }

  lemma ReadHeader(a: uint32, b: uint32, c: uint32, rest: seq<byte>)
    ensures var f := Header(a, b, c) + rest;
      && R32(f) == MAGIC && R16(f[4..]) == VERSION
      && R32(f[6..]) == a && R32(f[10..]) == b && R32(f[14..]) == c && f[18..] == rest
  {
    hide R32, R16, W32, W16;
    var f14 := W32(c) + rest;
    var f10 := W32(b) + f14;
    var f6 := W32(a) + f10;
    var f4 := W16(VERSION) + f6;
    var f := W32(MAGIC) + f4;
    assert Header(a, b, c) + rest == f;
    assert f[4..] == f4 && f4[2..] == f6 && f6[4..] == f10 && f10[4..] == f14 && f14[4..] == rest;
    assert f[6..] == f6 && f[10..] == f10 && f[14..] == f14 && f[18..] == rest;
    ReadWritten32(MAGIC, f4);
    ReadWritten16(VERSION, f6);
    ReadWritten32(a, f10);
    ReadWritten32(b, f14);
    ReadWritten32(c, rest);
  }

  /** Loading what was written restores exactly the code, the line table and the label table. */
  lemma LoadWritten(img: Image, trailing: seq<byte>)
    requires Writable(img)
    ensures Load(FileBytes(img) + trailing) == Success(img)
  {
    hide Header, ParseLines, ParseLabels, LinesBytes, LabelsBytes, R32, R16;
    var labels := LabelsBytes(img.labels) + trailing;
    var lines := LinesBytes(img.lines) + labels;
    var body := img.code + lines;
    ReadHeader(|img.code|, |img.lines|, |img.labels|, body);
    assert FileBytes(img) + trailing == Header(|img.code|, |img.lines|, |img.labels|) + body;
    ParseWrittenLines(img.lines, labels);
    ParseWrittenLabels(img.labels, trailing);
    assert body[|img.code|..] == lines && body[..|img.code|] == img.code;
    assert body[|img.code| + |LinesBytes(img.lines)|..] == lines[|LinesBytes(img.lines)|..] == labels;
  }

  // ----- Writing undoes loading -----

  lemma WriteReadLine(bs: seq<byte>)
    requires |bs| >= 8
    ensures W32(R32(bs)) + W32(R32(bs[4..])) == bs[..8]
  {
    hide W32, R32;
    WrittenRead32(bs);
    WrittenRead32(bs[4..]);
    assert bs[..8] == bs[..4] + bs[4..][..4];
  }

  lemma {:induction false} WriteParsedLines(bs: seq<byte>, n: nat)
    requires ParseLines(bs, n).Some?
    ensures var (es, used) := ParseLines(bs, n).value; LinesBytes(es) == bs[..used]
    decreases n
  {
    hide W32, R32;
    if n > 0 {
      WriteParsedLines(bs[8..], n - 1);
      var (es, used) := ParseLines(bs[8..], n - 1).value;
      WriteReadLine(bs);
      var e := LineEntry(R32(bs), R32(bs[4..]));
      assert ([e] + es)[1..] == es;
      assert bs[..8 + used] == bs[..8] + bs[8..][..used];
    }
  }

  lemma WriteReadLabel(bs: seq<byte>, len: nat)
    requires |bs| >= 6 + len && len == R16(bs[4..])
    ensures len < 0x1_0000 && W32(R32(bs)) + W16(len) + bs[6..6 + len] == bs[..6 + len]
  {
    hide W32, R32, W16, R16;
    WrittenRead32(bs);
    WrittenRead16(bs[4..]);
    assert bs[..6 + len] == bs[..4] + bs[4..][..2] + bs[6..6 + len];
  }

  lemma {:induction false} WriteParsedLabels(bs: seq<byte>, n: nat)
    requires ParseLabels(bs, n).Success?
    ensures var (es, used) := ParseLabels(bs, n).value; NamesFit(es) && LabelsBytes(es) == bs[..used]
    decreases n
  {
    hide W32, R32, W16, R16;
    if n > 0 {
      var len := R16(bs[4..]);
      WriteParsedLabels(bs[6 + len..], n - 1);
      var (es, used) := ParseLabels(bs[6 + len..], n - 1).value;
      WriteReadLabel(bs, len);
      var e := LabelEntry(bs[6..6 + len], R32(bs));
      assert |e.name| % 0x1_0000 == len;
      WriteLabelCons(e, es);
      assert bs[..6 + len + used] == bs[..6 + len] + bs[6 + len..][..used];
    }
  }

  /** Whatever loads begins with the bytes the compiler writes for it. */
  lemma WriteLoaded(file: seq<byte>)
    requires Load(file).Success?
    ensures var img := Load(file).value; Writable(img) && FileBytes(img) <= file
  {
    hide Header, ParseLines, ParseLabels, LinesBytes, LabelsBytes, R32, R16, W32, W16;
    var a, b, c, body := R32(file[6..]), R32(file[10..]), R32(file[14..]), file[18..];
    var (lines, used) := ParseLines(body[a..], b).value;
    var (labels, more) := ParseLabels(body[a + used..], c).value;
    WriteParsedLines(body[a..], b);
    WriteParsedLabels(body[a + used..], c);
    WriteReadHeader(file);
    assert body[..a + used + more] == body[..a] + LinesBytes(lines) + LabelsBytes(labels);
    assert file[..18 + a + used + more] == file[..18] + body[..a + used + more];
  }

  /** A file loads as img exactly when it begins with the bytes the compiler writes for img. */
  lemma LoadsExactly(file: seq<byte>, img: Image)
    ensures Load(file) == Success(img) <==> Writable(img) && FileBytes(img) <= file
  {
    hide FileBytes, Load;
    if Writable(img) && FileBytes(img) <= file {
      LoadWritten(img, file[|FileBytes(img)|..]);
      assert file == FileBytes(img) + file[|FileBytes(img)|..];
    }
    if Load(file) == Success(img) { WriteLoaded(file); }
  }

  lemma WriteReadHeader(file: seq<byte>)
    requires |file| >= HEADER_SIZE && R32(file) == MAGIC && R16(file[4..]) == VERSION
    ensures Header(R32(file[6..]), R32(file[10..]), R32(file[14..])) == file[..18]
  {
    hide R32, R16;
    WrittenRead32(file);
    WrittenRead16(file[4..]);
    WrittenRead32(file[6..]);
    WrittenRead32(file[10..]);
    WrittenRead32(file[14..]);
    assert file[..18] == file[..4] + file[4..][..2] + file[6..][..4] + file[10..][..4] + file[14..][..4];
  }

  // ----- Label lookup -----

  /** A query may carry a leading @ or :, which is dropped. */
  function Unmarked(query: Text): Text {
    if query != [] && (query[0] == AT || query[0] == COLON) then query[1..] else query
  }

  /** scml_vm_find_label. Names are compared as C strings. */
  function FindLabel(labels: seq<LabelEntry>, query: Text): Option<uint32> {
    if labels == [] then None
    else if CString(labels[0].name) == Unmarked(query) then Some(labels[0].addr)
    else FindLabel(labels[1..], query)
  }

  lemma {:induction false} FindsFirst(labels: seq<LabelEntry>, query: Text)
    requires forall i :: 0 <= i < |labels| ==> 0 !in labels[i].name
    ensures FindLabel(labels, query) ==
      (var k := LabelIndex(labels, Unmarked(query)); if k < |labels| then Some(labels[k].addr) else None)
  {
    if labels != [] {
      assert 0 !in labels[0].name;
      NoNulIsCString(labels[0].name);
      FindsFirst(labels[1..], query);
    }
  }

  /** A name finds the first entry of that name, with an @ or a colon in front or, if it does not start with one itself,
      without. */
  lemma NameFound(labels: seq<LabelEntry>, name: Text)
    requires forall i :: 0 <= i < |labels| ==> 0 !in labels[i].name
    ensures var k := LabelIndex(labels, name); var r := if k < |labels| then Some(labels[k].addr) else None;
      && FindLabel(labels, [AT] + name) == FindLabel(labels, [COLON] + name) == r
      && (name == [] || (name[0] != AT && name[0] != COLON) ==> FindLabel(labels, name) == r)
  {
    hide FindLabel, LabelIndex;
    FindsFirst(labels, [AT] + name);
    FindsFirst(labels, [COLON] + name);
    FindsFirst(labels, name);
    assert ([AT] + name)[1..] == name == ([COLON] + name)[1..];
  }

  lemma {:induction false} TablesFit(p: seq<Stmt>)
    requires Labels(p).Success?
    ensures |Lines(p)| <= |p| && |Labels(p).value| <= |p|
  {
    if p != [] { TablesFit(p[..|p| - 1]); }
  }

  lemma CompiledIsWritable(p: seq<Stmt>)
    requires Compile(p).Success? && TotalSize(p) < 0x1_0000_0000 && |p| < 0x1_0000_0000
    ensures Writable(Compile(p).value)
  {
    hide Emit, Labels, Lines, TotalSize;
    TablesFit(p);
    EmittedSize(Compile(p).value.labels, p);
  }

  /** In the loaded image of a program, a query finds exactly the label it names once a leading mark is dropped. */
  lemma LabelsFound(p: seq<Stmt>, query: Text, i: nat)
    requires Compile(p).Success? && Writable(Compile(p).value)
    requires forall j :: 0 <= j < |p| && p[j].Label? ==> 0 !in p[j].name
    ensures var r := Load(FileBytes(Compile(p).value));
      && r.Success?
      && (FindLabel(r.value.labels, query).Some? <==> Label(Unmarked(query)) in p)
      && (i < |p| && p[i] == Label(Unmarked(query)) ==> FindLabel(r.value.labels, query) == Some(Pc(p[..i])))
  {
    hide FileBytes, Load, Emit, Lines, FindLabel, LabelIndex, Labels, CString, TotalSize, Unmarked;
    var img := Compile(p).value;
    LoadWritten(img, []);
    assert FileBytes(img) + [] == FileBytes(img);
    forall k | 0 <= k < |img.labels| ensures 0 !in img.labels[k].name {
      EntryDeclared(p, k);
      var j :| 0 <= j < |p| && p[j] == Label(img.labels[k].name);
      assert p[j].Label?;
    }
    FindsFirst(img.labels, query);
    LabelsExact(p);
    if i < |p| && p[i] == Label(Unmarked(query)) { LabelAddress(p, i); }
  }

  // ----- The format, and files that do not load -----

  function LabelsSize(labels: seq<LabelEntry>): nat {
    if labels == [] then 0 else 6 + |labels[0].name| + LabelsSize(labels[1..])
  }

  /** The 32-bit number at an index. */
  predicate WordAt(bs: seq<byte>, i: nat, v: nat) {
    i + 4 <= |bs| && Number(bs[i..i + 4]) == v
  }

  lemma WordIn(a: seq<byte>, v: uint32, b: seq<byte>)
    ensures WordAt(a + W32(v) + b, |a|, v)
  {
    hide W32, Number;
    assert (a + W32(v) + b)[|a|..|a| + 4] == W32(v);
    Word32(v);
  }

  lemma {:induction false} LineAt(lines: seq<LineEntry>, a: seq<byte>, b: seq<byte>, k: nat)
    requires k < |lines|
    ensures var bs, i := a + LinesBytes(lines) + b, |a| + 8 * k;
      WordAt(bs, i, lines[k].pc) && WordAt(bs, i + 4, lines[k].line)
    decreases k
  {
    hide W32, WordAt;
    var pc, line, rest := W32(lines[0].pc), W32(lines[0].line), LinesBytes(lines[1..]);
    var bs := a + LinesBytes(lines) + b;
    if k == 0 {
      assert bs == a + pc + (line + rest + b);
      WordIn(a, lines[0].pc, line + rest + b);
      assert bs == (a + pc) + line + (rest + b);
      WordIn(a + pc, lines[0].line, rest + b);
    } else {
      assert bs == (a + pc + line) + rest + b;
      LineAt(lines[1..], a + pc + line, b, k - 1);
    }
  }

  /** A label's record: address, length of the name, name. */
  predicate LabelAt(bs: seq<byte>, i: nat, e: LabelEntry) {
    && WordAt(bs, i, e.addr) && i + 6 + |e.name| <= |bs|
    && Number(bs[i + 4..i + 6]) == |e.name| && bs[i + 6..i + 6 + |e.name|] == e.name
  }

  lemma LabelIn(a: seq<byte>, e: LabelEntry, b: seq<byte>)
    requires |e.name| <= TEXT_MAX
    ensures LabelAt(a + (W32(e.addr) + W16(|e.name|) + e.name) + b, |a|, e)
  {
    hide W32, W16, Number, WordAt;
    var i, bs := |a|, a + (W32(e.addr) + W16(|e.name|) + e.name) + b;
    assert bs == a + W32(e.addr) + (W16(|e.name|) + e.name + b);
    WordIn(a, e.addr, W16(|e.name|) + e.name + b);
    assert bs[i + 4..i + 6] == W16(|e.name|);
    Word16(|e.name|);
    assert bs[i + 6..i + 6 + |e.name|] == e.name;
  }

  lemma {:induction false} LabelsAt(labels: seq<LabelEntry>, a: seq<byte>, b: seq<byte>, k: nat)
    requires NamesFit(labels) && k < |labels|
    ensures LabelAt(a + LabelsBytes(labels) + b, |a| + LabelsSize(labels[..k]), labels[k])
    decreases k
  {
    hide W32, W16, LabelAt, LabelsBytes;
    var e, es := labels[0], labels[1..];
    var head, rest := W32(e.addr) + W16(|e.name|) + e.name, LabelsBytes(es);
    assert labels == [e] + es;
    WriteLabelCons(e, es);
    var bs := a + LabelsBytes(labels) + b;
    if k == 0 {
      assert bs == a + head + (rest + b);
      LabelIn(a, e, rest + b);
    } else {
      assert bs == (a + head) + rest + b;
      LabelsAt(es, a + head, b, k - 1);
      assert labels[..k][1..] == es[..k - 1];
    }
  }

  lemma {:induction false} TableSizes(img: Image)
    ensures |LinesBytes(img.lines)| == 8 * |img.lines|
    decreases |img.lines|
  {
    if img.lines != [] { TableSizes(img.(lines := img.lines[1..])); }
  }

  /** Where everything stands in a file: magic number, version 5, sizes, code, line records and label records. */
  lemma FileFormat(img: Image, i: nat, k: nat)
    requires Writable(img)
    ensures var f, c := FileBytes(img), |img.code|;
      && |f| >= 18 + c && f[..6] == [0x53, 0x43, 0x4D, 0x4C, 5, 0]
      && WordAt(f, 6, c) && WordAt(f, 10, |img.lines|) && WordAt(f, 14, |img.labels|) && f[18..18 + c] == img.code
      && (i < |img.lines| ==>
        WordAt(f, 18 + c + 8 * i, img.lines[i].pc) && WordAt(f, 18 + c + 8 * i + 4, img.lines[i].line))
      && (k < |img.labels| ==> LabelAt(f, 18 + c + 8 * |img.lines| + LabelsSize(img.labels[..k]), img.labels[k]))
  {
    hide W32, WordAt, LabelAt, LinesBytes, LabelsBytes, Number, LabelsSize;
    var f, c, l, n := FileBytes(img), |img.code|, |img.lines|, |img.labels|;
    var magic, h := W32(MAGIC) + W16(VERSION), Header(c, l, n);
    var body := img.code + LinesBytes(img.lines) + LabelsBytes(img.labels);
    assert f == h + body;
    assert magic == [0x53, 0x43, 0x4D, 0x4C, 5, 0] by { MagicIs(); }
    assert f == magic + W32(c) + (W32(l) + W32(n) + body);
    WordIn(magic, c, W32(l) + W32(n) + body);
    assert f == (magic + W32(c)) + W32(l) + (W32(n) + body);
    WordIn(magic + W32(c), l, W32(n) + body);
    assert f == (magic + W32(c) + W32(l)) + W32(n) + body;
    WordIn(magic + W32(c) + W32(l), n, body);
    TableSizes(img);
    if i < l { LineAt(img.lines, h + img.code, LabelsBytes(img.labels), i); }
    if k < n {
      LabelsAt(img.labels, h + img.code + LinesBytes(img.lines), [], k);
      assert h + img.code + LinesBytes(img.lines) + LabelsBytes(img.labels) + [] == f;
    }
    assert f == h + img.code + LinesBytes(img.lines) + LabelsBytes(img.labels);
  }

  lemma MagicIs()
    ensures W32(MAGIC) + W16(VERSION) == [0x53, 0x43, 0x4D, 0x4C, 5, 0]
  {
  }

  lemma {:induction false} LinesFit(bs: seq<byte>, n: nat)
    ensures ParseLines(bs, n).Some? <==> |bs| >= 8 * n
    ensures ParseLines(bs, n).Some? ==> ParseLines(bs, n).value.1 == 8 * n
    decreases n
  {
    if n > 0 && |bs| >= 8 { LinesFit(bs[8..], n - 1); }
  }

  lemma {:induction false} LabelErrors(bs: seq<byte>, n: nat)
    requires ParseLabels(bs, n).Failure?
    ensures var e := ParseLabels(bs, n).error; e == TruncatedLabels || e == TruncatedLabelName
    decreases n
  {
    if n > 0 && |bs| >= 6 && |bs| >= 6 + R16(bs[4..]) { LabelErrors(bs[6 + R16(bs[4..])..], n - 1); }
  }

  /** Every file is loaded or rejected for the first thing that is wrong with it: it is shorter than a header, the
      magic number or the version is another, or code, line table or label table is cut off. */
  lemma LoadReports(file: seq<byte>)
    ensures var r := Load(file);
      if |file| < 18 then r == Failure(ShortHeader)
      else if file[..6] != [0x53, 0x43, 0x4D, 0x4C, 5, 0] then r == Failure(NotSupported)
      else
        var code, lines := R32(file[6..]), R32(file[10..]);
        if |file| < 18 + code then r == Failure(TruncatedCode)
        else if |file| < 18 + code + 8 * lines then r == Failure(TruncatedLines)
        else r.Success? || r == Failure(TruncatedLabels) || r == Failure(TruncatedLabelName)
  {
    hide ParseLines, ParseLabels, R32;
    if |file| >= 18 {
      MagicBytes(file);
      var body, code: int, lines: int := file[18..], R32(file[6..]), R32(file[10..]);
      if |body| >= code {
        LinesFit(body[code..], lines);
        if ParseLines(body[code..], lines).Some? {
          var rest, count := body[code + 8 * lines..], R32(file[14..]);
          if ParseLabels(rest, count).Failure? { LabelErrors(rest, count); }
        }
      }
    }
  }

  lemma MagicBytes(file: seq<byte>)
    requires |file| >= 6
    ensures R32(file) == MAGIC && R16(file[4..]) == VERSION <==> file[..6] == [0x53, 0x43, 0x4D, 0x4C, 5, 0]
  {
    if R32(file) == MAGIC && R16(file[4..]) == VERSION {
      WrittenRead32(file);
      WrittenRead16(file[4..]);
      assert file[..6] == file[..4] + file[4..][..2];
      MagicIs();
    }
  }
}
