/** Instruction bytes: what the compiler writes (compiler/compiler.c) and what the VM decodes (vm/vm.c). */
module Encoding {
  import opened Bytes
  import opened Opcodes
  import opened Program

  type CodeOperand = Operand<uint32>

  const TEXT_MAX: nat := 0xFFFF

  predicate TextFits<A>(o: Operand<A>) {
    o.Str? || o.Var? ==> |o.text| <= TEXT_MAX
  }

  predicate TextsFit<A>(a: seq<Operand<A>>) {
    forall i :: 0 <= i < |a| ==> TextFits(a[i])
  }

  /** The operand tags of ScmlOperandType. */
  function Tag<A>(o: Operand<A>): byte {
    match o case Int(_) => 1 case Str(_) => 2 case Var(_) => 3 case Addr(_) => 4 case Float(_) => 5
  }

  function EncodeOperand(o: CodeOperand): (bs: seq<byte>)
    requires TextFits(o)
  {
    [Tag(o)] + match o
      case Int(i) => W32(U32(i))
      case Addr(a) => W32(a)
      case Float(f) => W32(f)
      case Str(t) => W16(|t|) + t
      case Var(t) => W16(|t|) + t
  }

  function EncodeOperands(a: seq<CodeOperand>): seq<byte>
    requires TextsFit(a)
  {
    if a == [] then [] else EncodeOperand(a[0]) + EncodeOperands(a[1..])
  }

  function EncodeInstr(op: Opcode, a: seq<CodeOperand>): seq<byte>
    requires TextsFit(a)
  {
    [op, |a| % 0x100] + EncodeOperands(a)
  }

  datatype DecodeError =
    | TruncatedOperand | TruncatedInteger | TruncatedFloat | TruncatedLength | TruncatedText | BadTag(tag: byte)

  /** A decoded value and how many bytes were consumed, also when decoding fails. */
  datatype Decoded<T> = Good(value: T, used: nat) | Bad(err: DecodeError, used: nat)

  function DecodeOperand(bs: seq<byte>): (r: Decoded<CodeOperand>)
    ensures r.used <= |bs|
  {
    if bs == [] then Bad(TruncatedOperand, 0)
    else
      var tag := bs[0];
      if tag == 1 || tag == 4 then
        if |bs| < 5 then Bad(TruncatedInteger, 1)
        else var v := R32(bs[1..]); Good(if tag == 1 then Int(I32(v)) else Addr(v), 5)
      else if tag == 5 then
        if |bs| < 5 then Bad(TruncatedFloat, 1) else Good(Float(R32(bs[1..])), 5)
      else if tag == 2 || tag == 3 then
        if |bs| < 3 then Bad(TruncatedLength, 1)
        else
          var n := R16(bs[1..]);
          if 3 + n > |bs| then Bad(TruncatedText, 3)
          else Good(if tag == 2 then Str(bs[3..3 + n]) else Var(bs[3..3 + n]), 3 + n)
      else Bad(BadTag(tag), 1)
  }

  function DecodeOperands(bs: seq<byte>, k: nat): (r: Decoded<seq<CodeOperand>>)
    ensures r.used <= |bs| && (r.Good? ==> |r.value| == k)
    decreases k
  {
    if k == 0 then Good([], 0)
    else
      match DecodeOperand(bs)
      case Bad(e, n) => Bad(e, n)
      case Good(o, n) =>
        match DecodeOperands(bs[n..], k - 1)
        case Bad(e, m) => Bad(e, n + m)
        case Good(os, m) => Good([o] + os, n + m)
  }

  datatype HeaderError = TruncatedHeader | UnknownOpcode | OperandCountMismatch

  datatype Fetched =
    | Fetched(op: Opcode, args: seq<CodeOperand>, used: nat)
    | BadHeader(header: HeaderError, used: nat)
    | BadOperand(operand: DecodeError, used: nat)

  /** The fetch and decode half of scml_vm_step. */
  function Fetch(bs: seq<byte>): (r: Fetched)
    ensures r.used <= |bs| && (r.Fetched? ==> ArityOk(r.op, |r.args|))
  {
    if |bs| < 2 then BadHeader(TruncatedHeader, 0)
    else if OpcodeInfo(bs[0]).None? then BadHeader(UnknownOpcode, 2)
    else if !ArityOk(bs[0], bs[1]) then BadHeader(OperandCountMismatch, 2)
    else
      match DecodeOperands(bs[2..], bs[1])
      case Bad(e, n) => BadOperand(e, 2 + n)
      case Good(a, n) => Fetched(bs[0], a, 2 + n)
  }

  // ----- Decoding undoes encoding -----

  lemma DecodeEncodedOperand(o: CodeOperand, rest: seq<byte>)
    requires TextFits(o)
    ensures DecodeOperand(EncodeOperand(o) + rest) == Good(o, |EncodeOperand(o)|)
  {
    var bs := EncodeOperand(o) + rest;
    match o
    case Int(i) => ReadWritten32(U32(i), rest); assert bs[1..] == W32(U32(i)) + rest;
    case Addr(a) => ReadWritten32(a, rest); assert bs[1..] == W32(a) + rest;
    case Float(f) => ReadWritten32(f, rest); assert bs[1..] == W32(f) + rest;
    case Str(t) =>
      ReadWritten16(|t|, t + rest);
      assert bs[1..] == W16(|t|) + (t + rest);
      assert bs[3..3 + |t|] == t;
    case Var(t) =>
      ReadWritten16(|t|, t + rest);
      assert bs[1..] == W16(|t|) + (t + rest);
      assert bs[3..3 + |t|] == t;
  }

  lemma EncodeCons(o: CodeOperand, os: seq<CodeOperand>)
    requires TextFits(o) && TextsFit(os)
    ensures TextsFit([o] + os) && EncodeOperands([o] + os) == EncodeOperand(o) + EncodeOperands(os)
  {
    assert ([o] + os)[1..] == os;
  }

  lemma DecodeCons(bs: seq<byte>, rest: seq<byte>, o: CodeOperand, n: nat, k: nat)
    requires DecodeOperand(bs + rest) == Good(o, n) && n == |bs|
    ensures DecodeOperands(bs + rest, k + 1) ==
      (match DecodeOperands(rest, k) case Bad(e, m) => Bad(e, n + m) case Good(os, m) => Good([o] + os, n + m))
  {
    hide DecodeOperand;
    assert (bs + rest)[n..] == rest;
  }

  lemma {:induction false} DecodeEncodedOperands(a: seq<CodeOperand>, rest: seq<byte>)
    requires TextsFit(a)
    ensures DecodeOperands(EncodeOperands(a) + rest, |a|) == Good(a, |EncodeOperands(a)|)
  {
    hide EncodeOperand, DecodeOperand;
    if a != [] {
      var head, tail := EncodeOperand(a[0]), EncodeOperands(a[1..]);
      DecodeEncodedOperand(a[0], tail + rest);
      DecodeCons(head, tail + rest, a[0], |head|, |a| - 1);
      DecodeEncodedOperands(a[1..], rest);
      assert EncodeOperands(a) + rest == head + (tail + rest);
      assert a == [a[0]] + a[1..];
    }
  }

  /** An emitted instruction decodes to itself and advances by exactly its size, whatever follows. */
  lemma FetchEncoded(op: Opcode, a: seq<CodeOperand>, rest: seq<byte>)
    requires TextsFit(a) && ArityOk(op, |a|)
    ensures Fetch(EncodeInstr(op, a) + rest) == Fetched(op, a, |EncodeInstr(op, a)|)
  {
    hide EncodeOperand, DecodeOperand;
    var bs := EncodeInstr(op, a) + rest;
    assert |a| % 0x100 == |a|;
    assert bs[2..] == EncodeOperands(a) + rest;
    DecodeEncodedOperands(a, rest);
  }

  // ----- Encoding undoes decoding -----

  lemma EncodeDecodedOperand(bs: seq<byte>)
    requires DecodeOperand(bs).Good?
    ensures var r := DecodeOperand(bs); TextFits(r.value) && EncodeOperand(r.value) == bs[..r.used]
  {
    var r := DecodeOperand(bs);
    if bs[0] == 2 || bs[0] == 3 {
      WrittenRead16(bs[1..]);
      assert bs[..r.used] == [bs[0]] + bs[1..][..2] + bs[3..r.used];
    } else {
      WrittenRead32(bs[1..]);
      assert bs[..5] == [bs[0]] + bs[1..][..4];
      assert U32(I32(R32(bs[1..]))) == R32(bs[1..]);
    }
  }

  lemma TakeAppend(a: seq<byte>, b: seq<byte>, m: nat)
    requires m <= |b|
    ensures (a + b)[..|a| + m] == a + b[..m]
  {
  }

  lemma {:induction false} EncodeDecodedOperands(bs: seq<byte>, k: nat)
    requires DecodeOperands(bs, k).Good?
    ensures var r := DecodeOperands(bs, k); TextsFit(r.value) && EncodeOperands(r.value) == bs[..r.used]
    decreases k
  {
    hide EncodeOperand, DecodeOperand;
    if k > 0 {
      var first := DecodeOperand(bs);
      var n := first.used;
      var head, tail := bs[..n], bs[n..];
      assert bs == head + tail;
      DecodeCons(head, tail, first.value, n, k - 1);
      EncodeDecodedOperand(bs);
      EncodeDecodedOperands(tail, k - 1);
      EncodeCons(first.value, DecodeOperands(tail, k - 1).value);
      TakeAppend(head, tail, DecodeOperands(tail, k - 1).used);
    }
  }

  /** On any bytes, a successful fetch stays inside them and re-encodes to exactly the bytes it consumed. */
  lemma EncodeFetched(bs: seq<byte>)
    requires Fetch(bs).Fetched?
    ensures var r := Fetch(bs); TextsFit(r.args) && r.used <= |bs| && EncodeInstr(r.op, r.args) == bs[..r.used]
  {
    hide EncodeOperand, DecodeOperand, EncodeOperands, DecodeOperands;
    var r := Fetch(bs);
    EncodeDecodedOperands(bs[2..], bs[1]);
    assert |r.args| % 0x100 == bs[1];
    assert bs[..r.used] == [bs[0], bs[1]] + bs[2..][..r.used - 2];
  }

  // ----- Which bytes decode -----

  /** A fetch succeeds exactly on bytes that begin with some encoded instruction. */
  lemma FetchesExactly(bs: seq<byte>)
    ensures Fetch(bs).Fetched? <==>
      exists op, a :: TextsFit(a) && ArityOk(op, |a|) && EncodeInstr(op, a) <= bs
  {
    hide Fetch, EncodeInstr, ArityOk;
    forall op, a | TextsFit(a) && ArityOk(op, |a|) && EncodeInstr(op, a) <= bs ensures Fetch(bs).Fetched? {
      var n := |EncodeInstr(op, a)|;
      assert bs == EncodeInstr(op, a) + bs[n..];
      FetchEncoded(op, a, bs[n..]);
    }
    if Fetch(bs).Fetched? {
      EncodeFetched(bs);
      assert EncodeInstr(Fetch(bs).op, Fetch(bs).args) <= bs;
    }
  }

  /** What a failing fetch reports first: too few bytes, an unknown opcode, a count of operands, or an operand. */
  lemma FetchReports(bs: seq<byte>)
    requires !Fetch(bs).Fetched?
    ensures var r := Fetch(bs);
      if |bs| < 2 then r == BadHeader(TruncatedHeader, 0)
      else if bs[0] > 0x49 then r == BadHeader(UnknownOpcode, 2)
      else if !(OpcodeInfo(bs[0]).value.min <= bs[1] <= OpcodeInfo(bs[0]).value.max) then
        r == BadHeader(OperandCountMismatch, 2)
      else r.BadOperand? && r.used >= 2
  {
    hide DecodeOperands, OpcodeInfo;
  }

  /** An operand that is cut off is reported by what is missing of it, with the bytes read until then. */
  lemma CutOperand(o: CodeOperand, n: nat)
    requires TextFits(o) && n < |EncodeOperand(o)|
    ensures DecodeOperand(EncodeOperand(o)[..n]) ==
      if n == 0 then Bad(TruncatedOperand, 0)
      else if o.Int? || o.Addr? then Bad(TruncatedInteger, 1)
      else if o.Float? then Bad(TruncatedFloat, 1)
      else if n < 3 then Bad(TruncatedLength, 1)
      else Bad(TruncatedText, 3)
  {
    hide W32, R32, W16, R16;
    var bs := EncodeOperand(o)[..n];
    if n >= 3 && (o.Str? || o.Var?) {
      ReadWritten16(|o.text|, o.text[..n - 3]);
      assert bs[1..] == W16(|o.text|) + o.text[..n - 3];
    }
  }

  /** An operand is a tag and a 32-bit word, or a tag, a 16-bit length and a text. */
  lemma OperandFormat(o: CodeOperand)
    requires TextFits(o)
    ensures var bs := EncodeOperand(o);
      && |bs| >= 3
      && bs[0] == (if o.Int? then 1 else if o.Str? then 2 else if o.Var? then 3 else if o.Addr? then 4 else 5)
      && (o.Str? || o.Var? ==> Number(bs[1..3]) == |o.text| && bs[3..] == o.text)
      && (!o.Str? && !o.Var? ==>
        |bs| == 5 && Number(bs[1..]) == if o.Int? then o.i % 0x1_0000_0000 else if o.Addr? then o.addr else o.bits)
  {
    hide W16, W32, Number;
    var bs := EncodeOperand(o);
    if o.Str? || o.Var? {
      assert bs[1..3] == W16(|o.text|);
      Word16(|o.text|);
    } else {
      var v := if o.Int? then U32(o.i) else if o.Addr? then o.addr else o.bits;
      assert bs[1..] == W32(v);
      Word32(v);
    }
  }

  /** An instruction is its opcode, the number of operands, and the operands in order. */
  lemma {:induction false} InstrFormat(op: Opcode, a: seq<CodeOperand>, o: CodeOperand)
    requires TextsFit(a) && TextFits(o) && |a| < 0xFF
    ensures var bs := EncodeInstr(op, a + [o]);
      && EncodeInstr(op, []) == [op, 0] && bs[..2] == [op, |a| + 1]
      && bs[2..] == EncodeInstr(op, a)[2..] + EncodeOperand(o)
  {
    hide EncodeOperand;
    OperandsAppend(a, o);
    assert |a + [o]| % 0x100 == |a| + 1;
  }

  lemma {:induction false} OperandsAppend(a: seq<CodeOperand>, o: CodeOperand)
    requires TextsFit(a) && TextFits(o)
    ensures TextsFit(a + [o]) && EncodeOperands(a + [o]) == EncodeOperands(a) + EncodeOperand(o)
    decreases |a|
  {
    hide EncodeOperand;
    if a == [] {
      EncodeCons(o, []);
      assert a + [o] == [o] == [o] + [] && EncodeOperands([]) == [];
    } else {
      OperandsAppend(a[1..], o);
      EncodeCons(a[0], a[1..] + [o]);
      assert a + [o] == [a[0]] + (a[1..] + [o]);
    }
  }
}
