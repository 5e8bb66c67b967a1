/** The opcode registry (opcode/opcode.h, opcode/opcode.c): numbers, and the operand counts that are checked. */
module Opcodes {
  import opened Bytes

  /** The opcode byte of an instruction; 0x4A and above are unknown. */
  type Opcode = byte

  const NOP: Opcode := 0x00
  const HALT: Opcode := 0x01
  const PUSH_INT: Opcode := 0x02
  const PUSH_STR: Opcode := 0x03
  const STORE: Opcode := 0x04
  const LOAD: Opcode := 0x05
  const ADD: Opcode := 0x06
  const SUB: Opcode := 0x07
  const MUL: Opcode := 0x08
  const DIV: Opcode := 0x09
  const JMP: Opcode := 0x0A
  const WAIT: Opcode := 0x0B
  const IF_EQ: Opcode := 0x0C
  const IF_NE: Opcode := 0x0D
  const IF_GT: Opcode := 0x0E
  const IF_LT: Opcode := 0x0F
  const PRINT: Opcode := 0x10
  const LOG: Opcode := 0x11
  const FILE_READ: Opcode := 0x12
  const FILE_WRITE: Opcode := 0x13
  const ENTITY_SPAWN: Opcode := 0x14
  const ENTITY_SET: Opcode := 0x15
  const HEAP_ALLOC: Opcode := 0x16
  const HEAP_STORE: Opcode := 0x17
  const HEAP_LOAD: Opcode := 0x18
  const CALL: Opcode := 0x19
  const RETURN: Opcode := 0x1A
  const END_THREAD: Opcode := 0x1B
  const EVENT_BIND: Opcode := 0x1C
  const EVENT_TRIGGER: Opcode := 0x1D
  const FREE: Opcode := 0x1E
  const ARRAY_CREATE: Opcode := 0x1F
  const MOD: Opcode := 0x20
  const INPUT: Opcode := 0x21
  const STRCAT: Opcode := 0x22
  const TO_INT: Opcode := 0x23
  const TO_FLOAT: Opcode := 0x24
  const IF_GE: Opcode := 0x25
  const IF_LE: Opcode := 0x26
  const BIT_AND: Opcode := 0x27
  const BIT_OR: Opcode := 0x28
  const BIT_XOR: Opcode := 0x29
  const BIT_NOT: Opcode := 0x2A
  const SHL: Opcode := 0x2B
  const SHR: Opcode := 0x2C
  const POW: Opcode := 0x2D
  const STRLEN: Opcode := 0x2E
  const SUBSTR: Opcode := 0x2F
  const ARRAY_LEN: Opcode := 0x30
  const CALL_NATIVE: Opcode := 0x31
  const PRINT_RAW: Opcode := 0x32
  const CONSOLE_CLEAR: Opcode := 0x33
  const SIN: Opcode := 0x34
  const COS: Opcode := 0x35
  const TAN: Opcode := 0x36
  const SQRT: Opcode := 0x37
  const ATAN2: Opcode := 0x38
  const FLOOR: Opcode := 0x39
  const CEIL: Opcode := 0x3A
  const ROUND: Opcode := 0x3B
  const ABS: Opcode := 0x3C
  const STR_REPEAT: Opcode := 0x3D
  const CONSOLE_COLOR: Opcode := 0x3E
  const CONSOLE_RESET: Opcode := 0x3F
  const CONSOLE_MOVE: Opcode := 0x40
  const CONSOLE_ERASE_LINE: Opcode := 0x41
  const CONSOLE_STYLE: Opcode := 0x42
  const SPAN_CREATE: Opcode := 0x43
  const SPAN_PIN: Opcode := 0x44
  const SPAN_FILL: Opcode := 0x45
  const SPAN_WRITE_U8: Opcode := 0x46
  const SPAN_READ_U8: Opcode := 0x47
  const CONSOLE_RENDER_SPAN: Opcode := 0x48
  const CONSOLE_RENDER_SPAN_DIRTY: Opcode := 0x49

  datatype Info = Info(min: nat, max: nat)

  /** scml_opcode_info: the operand counts in the first table entry of an opcode. */
  function OpcodeInfo(op: Opcode): (r: Option<Info>)
    ensures r.Some? <==> op < 0x4A
    ensures r.Some? ==> r.value.min <= r.value.max <= 8
  {
    match op
    case NOP | HALT | RETURN | END_THREAD | CONSOLE_CLEAR | CONSOLE_RESET | CONSOLE_ERASE_LINE => Some(Info(0, 0))
    case PUSH_INT | PUSH_STR | LOAD | JMP | WAIT | PRINT | LOG | EVENT_TRIGGER | FREE | PRINT_RAW
      | CONSOLE_STYLE | SPAN_PIN => Some(Info(1, 1))
    case CONSOLE_COLOR => Some(Info(1, 2))
    case CALL | CALL_NATIVE => Some(Info(1, 8))
    case STORE | FILE_READ | FILE_WRITE | HEAP_ALLOC | EVENT_BIND | ARRAY_CREATE | INPUT | TO_INT | TO_FLOAT
      | BIT_NOT | STRLEN | ARRAY_LEN | SIN | COS | TAN | SQRT | FLOOR | CEIL | ROUND | ABS | CONSOLE_MOVE
      | SPAN_CREATE => Some(Info(2, 2))
    case ADD | SUB | MUL | DIV | IF_EQ | IF_NE | IF_GT | IF_LT | ENTITY_SET | HEAP_STORE | HEAP_LOAD | MOD
      | STRCAT | IF_GE | IF_LE | BIT_AND | BIT_OR | BIT_XOR | SHL | SHR | POW | ATAN2 | STR_REPEAT
      | SPAN_WRITE_U8 | SPAN_READ_U8 | CONSOLE_RENDER_SPAN => Some(Info(3, 3))
    case SUBSTR | SPAN_FILL | CONSOLE_RENDER_SPAN_DIRTY => Some(Info(4, 4))
    case ENTITY_SPAWN => Some(Info(5, 5))
    case _ => None
  }

  predicate ArityOk(op: Opcode, n: nat) {
    OpcodeInfo(op).Some? && OpcodeInfo(op).value.min <= n <= OpcodeInfo(op).value.max
  }

  // ----- The registry -----

  /** A row of g_opcodes; its name and its number in SCM code play no part here. */
  datatype Entry = Entry(op: Opcode, min: nat, max: nat)

  /** Opcodes 0x00 to 0x13, in order. */
  const BASIC: seq<Entry> := [
    Entry(NOP, 0, 0), Entry(HALT, 0, 0), Entry(PUSH_INT, 1, 1), Entry(PUSH_STR, 1, 1), Entry(STORE, 2, 2),
    Entry(LOAD, 1, 1), Entry(ADD, 3, 3), Entry(SUB, 3, 3), Entry(MUL, 3, 3), Entry(DIV, 3, 3), Entry(JMP, 1, 1),
    Entry(WAIT, 1, 1), Entry(IF_EQ, 3, 3), Entry(IF_NE, 3, 3), Entry(IF_GT, 3, 3), Entry(IF_LT, 3, 3),
    Entry(PRINT, 1, 1), Entry(LOG, 1, 1), Entry(FILE_READ, 2, 2), Entry(FILE_WRITE, 2, 2)
  ]

  /** Events, entities and the heap. */
  const OBJECTS: seq<Entry> := [
    Entry(EVENT_BIND, 2, 2), Entry(EVENT_TRIGGER, 1, 1), Entry(ENTITY_SPAWN, 5, 5), Entry(ENTITY_SET, 3, 3),
    Entry(HEAP_ALLOC, 2, 2), Entry(FREE, 1, 1), Entry(HEAP_LOAD, 3, 3), Entry(HEAP_STORE, 3, 3),
    Entry(ARRAY_CREATE, 2, 2)
  ]

  /** Opcodes 0x20 to 0x33, in order. */
  const VALUES: seq<Entry> := [
    Entry(MOD, 3, 3), Entry(INPUT, 2, 2), Entry(STRCAT, 3, 3), Entry(TO_INT, 2, 2), Entry(TO_FLOAT, 2, 2),
    Entry(IF_GE, 3, 3), Entry(IF_LE, 3, 3), Entry(BIT_AND, 3, 3), Entry(BIT_OR, 3, 3), Entry(BIT_XOR, 3, 3),
    Entry(BIT_NOT, 2, 2), Entry(SHL, 3, 3), Entry(SHR, 3, 3), Entry(POW, 3, 3), Entry(STRLEN, 2, 2),
    Entry(SUBSTR, 4, 4), Entry(ARRAY_LEN, 2, 2), Entry(CALL_NATIVE, 1, 8), Entry(PRINT_RAW, 1, 1),
    Entry(CONSOLE_CLEAR, 0, 0)
  ]

  /** Opcodes 0x34 to 0x49, in order: mathematics, console and spans. */
  const CONSOLE: seq<Entry> := [
    Entry(SIN, 2, 2), Entry(COS, 2, 2), Entry(TAN, 2, 2), Entry(SQRT, 2, 2), Entry(ATAN2, 3, 3), Entry(FLOOR, 2, 2),
    Entry(CEIL, 2, 2), Entry(ROUND, 2, 2), Entry(ABS, 2, 2), Entry(STR_REPEAT, 3, 3), Entry(CONSOLE_COLOR, 1, 2),
    Entry(CONSOLE_RESET, 0, 0), Entry(CONSOLE_MOVE, 2, 2), Entry(CONSOLE_ERASE_LINE, 0, 0),
    Entry(CONSOLE_STYLE, 1, 1), Entry(SPAN_CREATE, 2, 2), Entry(SPAN_PIN, 1, 1), Entry(SPAN_FILL, 4, 4),
    Entry(SPAN_WRITE_U8, 3, 3), Entry(SPAN_READ_U8, 3, 3), Entry(CONSOLE_RENDER_SPAN, 3, 3),
    Entry(CONSOLE_RENDER_SPAN_DIRTY, 4, 4)
  ]

  /** Second names of the heap opcodes, then CALL, GOSUB, GOTO, RETURN and END_THREAD. */
  const CALLS: seq<Entry> := [
    Entry(HEAP_ALLOC, 2, 2), Entry(HEAP_STORE, 3, 3), Entry(HEAP_LOAD, 3, 3), Entry(CALL, 1, 8), Entry(CALL, 1, 1),
    Entry(JMP, 1, 1), Entry(RETURN, 0, 0), Entry(END_THREAD, 0, 0)
  ]

  /** g_opcodes. */
  const TABLE: seq<Entry> := BASIC + OBJECTS + VALUES + CONSOLE + CALLS

  const GOSUB_ROW: nat := 75

  /** The linear search of scml_opcode_info. */
  function Search(t: seq<Entry>, op: Opcode): Option<Info> {
    if t == [] then None else if t[0].op == op then Some(Info(t[0].min, t[0].max)) else Search(t[1..], op)
  }

  predicate Agrees(e: Entry) {
    OpcodeInfo(e.op) == Some(Info(e.min, e.max))
  }

  lemma BasicRows(k: nat)
    requires k < |BASIC|
    ensures Agrees(BASIC[k]) && BASIC[k].op == k
  {
  }

  lemma ObjectRows(k: nat)
    requires k < |OBJECTS|
    ensures Agrees(OBJECTS[k])
  {
  }

  lemma ValueRows(k: nat)
    requires k < |VALUES|
    ensures Agrees(VALUES[k]) && VALUES[k].op == 0x20 + k
  {
  }

  lemma ConsoleRows(k: nat)
    requires k < |CONSOLE|
    ensures Agrees(CONSOLE[k]) && CONSOLE[k].op == 0x34 + k
  {
  }

  lemma CallRows(k: nat)
    requires k < |CALLS|
    ensures k == 4 || Agrees(CALLS[k])
  {
  }

  /** Every row but GOSUB's gives its opcode's operand counts; GOSUB's narrower ones come after CALL's. */
  lemma RowAgrees(k: nat)
    requires k < |TABLE|
    ensures if k == GOSUB_ROW then TABLE[k] == Entry(CALL, 1, 1) && TABLE[k - 1].op == CALL else Agrees(TABLE[k])
  {
    hide Agrees;
    if k < 20 { BasicRows(k); }
    else if k < 29 { ObjectRows(k - 20); }
    else if k < 49 { ValueRows(k - 29); }
    else if k < 71 { ConsoleRows(k - 49); }
    else { CallRows(k - 71); }
  }

  /** A row of an opcode. */
  function RowOf(op: Opcode): nat {
    if op < 0x14 then op
    else if op < 0x16 then op + 2  // ENTITY_SPAWN, ENTITY_SET
    else if op < 0x1C then [24, 27, 26, 74, 77, 78][op - 0x16]  // the heap, CALL, RETURN, END_THREAD
    else if op < 0x1E then op - 8  // EVENT_BIND, EVENT_TRIGGER
    else if op < 0x20 then [25, 28][op - 0x1E]  // FREE, ARRAY_CREATE
    else op - 3
  }

  lemma RowOfIs(op: Opcode)
    requires op < 0x4A
    ensures RowOf(op) < |TABLE| && TABLE[RowOf(op)].op == op
  {
    if op < 0x14 { BasicRows(op); }
    else if op >= 0x34 { ConsoleRows(op - 0x34); }
    else if op >= 0x20 { ValueRows(op - 0x20); }
  }

  lemma {:induction false} SearchStops(t: seq<Entry>, op: Opcode) returns (k: nat)
    ensures k <= |t| && forall i :: 0 <= i < k ==> t[i].op != op
    ensures if k == |t| then Search(t, op) == None
      else t[k].op == op && Search(t, op) == Some(Info(t[k].min, t[k].max))
  {
    if t == [] || t[0].op == op {
      k := 0;
    } else {
      k := SearchStops(t[1..], op);
      k := k + 1;
    }
  }

  /** Searching the table gives OpcodeInfo, for every byte. */
  lemma SearchIsOpcodeInfo(op: Opcode)
    ensures Search(TABLE, op) == OpcodeInfo(op)
  {
    hide OpcodeInfo, RowOf, Search;
    var k := SearchStops(TABLE, op);
    if op < 0x4A { RowOfIs(op); }
    if k < |TABLE| { RowAgrees(k); }
  }

  method FindInfo(op: Opcode) returns (r: Option<Info>)
    ensures r == OpcodeInfo(op)
  {
    hide OpcodeInfo;
    SearchIsOpcodeInfo(op);
    var i := 0;
    assert TABLE[0..] == TABLE;
    while i < |TABLE|
      invariant i <= |TABLE| && Search(TABLE, op) == Search(TABLE[i..], op)
    {
      if TABLE[i].op == op { return Some(Info(TABLE[i].min, TABLE[i].max)); }
      assert TABLE[i..][1..] == TABLE[i + 1..];
      i := i + 1;
    }
    r := None;
  }

  /** The parser checks a statement's operand count against whichever row its name or number found. */
  ghost predicate PassesParser(op: Opcode, n: nat) {
    exists k :: 0 <= k < |TABLE| && TABLE[k].op == op && TABLE[k].min <= n <= TABLE[k].max
  }

  /** Whatever row the parser used, the VM's check against the opcode's first row passes too. */
  lemma ParserArityPassesVm(op: Opcode, n: nat)
    requires PassesParser(op, n)
    ensures ArityOk(op, n)
  {
    var k :| 0 <= k < |TABLE| && TABLE[k].op == op && TABLE[k].min <= n <= TABLE[k].max;
    RowAgrees(k);
  }
}
