/** Parsed statements and their operands (parser/parser.h). */
module Program {
  import opened Bytes
  import opened Opcodes

  /** An operand whose ADDRESS form carries an A: a label name in source, a byte address in code. Floats are bit
      patterns. */
  datatype Operand<A> = Int(i: int32) | Str(text: Text) | Var(text: Text) | Addr(addr: A) | Float(bits: uint32)

  /** ScmlStatement: a label, or an instruction with its source line. */
  datatype Stmt = Label(name: Text) | Instr(line: uint32, op: Opcode, args: seq<Operand<Text>>)
}
