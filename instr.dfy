/** Three-address IR records produced by the tinyL front end.
    `Instr.h` is not part of this model: only the opcode set and the record
    shape (an opcode and three integer fields) are used here. */
module Instr {

  datatype OpCode = LOADI | LOAD | STORE | READ | WRITE | ADD | SUB | MUL

  /** One instruction as handed to `CodeGen`: opcode plus three operand fields. */
  datatype Instruction = Instruction(opcode: OpCode, field1: int, field2: int, field3: int)

  /** Sentinel for an unused operand field (`EMPTY_FIELD`, 0xFFFFF). */
  const EmptyField: int := 0xFFFFF

  /** The opcodes whose second and third fields are source registers. */
  predicate IsArithmetic(op: OpCode) {
    op == ADD || op == SUB || op == MUL
  }
}
