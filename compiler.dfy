/** The recursive-descent expression compiler of tinyL: a cursor into the
    input buffer, the virtual-register counter and the emitted code, updated
    step by step as in the source. A failed production stands for
    `exit(EXIT_FAILURE)`: it returns `Fail` with the offending token and the
    callers give up at once. */
module Compiler {
  import opened Instr
  import opened Chars
  import opened Grammar
  import opened ExprSpec

  class Parser {
    /** The buffer filled by `read_input`, ending with the '\0' marker. */
    const input: seq<char>
    /** The cursor (`buffer`); the current token is `input[pos]`. */
    var pos: nat
    /** The next free virtual register (`regnum`). */
    var regnum: int
    /** Every instruction passed to `CodeGen` so far, in order. */
    var out: seq<Instruction>

    ghost predicate Valid()
      reads this
    {
      |input| > 0 && input[|input| - 1] == '\0' && pos < |input|
    }

    /** The state when parsing starts: cursor on the first character of the
        text, register counter at 1, nothing emitted. */
    constructor (text: seq<char>)
      ensures Valid()
      ensures input == text + ['\0'] && pos == 0 && regnum == 1 && out == []
    {
      input := text + ['\0'];
      pos := 0;
      regnum := 1;
      out := [];
    }

    /** `token`: the character under the cursor. */
    function Token(): (c: char)
      requires Valid()
      reads this
      ensures c == At(input, pos)
    {
      input[pos]
    }

    /** `next_token`: move the cursor one character on; it is never moved
        past the end marker. */
    method NextToken()
      requires Valid() && Token() != '\0'
      modifies this`pos
      ensures Valid() && pos == old(pos) + 1
    {
      pos := pos + 1;
    }

    /** `next_register`: hand out the counter's value and bump it, so no
        register is handed out twice. */
    method NextRegister() returns (reg: int)
      modifies this`regnum
      ensures reg == old(regnum) && regnum == old(regnum) + 1
    {
      reg := regnum;
      regnum := regnum + 1;
    }

    /** `CodeGen`: append one instruction to the output. */
    method CodeGen(opcode: OpCode, field1: int, field2: int, field3: int)
      modifies this`out
      ensures out == old(out) + [Instruction(opcode, field1, field2, field3)]
    {
      out := out + [Instruction(opcode, field1, field2, field3)];
    }

    /** `digit` */
    method Digit() returns (res: Outcome)
      requires Valid()
      modifies this`pos, this`regnum, this`out
      ensures Valid()
      ensures var t := DigitStep(input, old(pos), old(regnum));
        res == t.result && pos == t.end && regnum == t.next && out == old(out) + t.code
    {
      var c := Token();
      if !IsDigit(c) {
        return Fail(c);
      }
      var reg := NextRegister();
      CodeGen(LOADI, reg, ToDigit(c), EmptyField);
      NextToken();
      return Reg(reg);
    }

    /** `variable` */
    method Variable() returns (res: Outcome)
      requires Valid()
      modifies this`pos, this`regnum, this`out
      ensures Valid()
      ensures var t := VariableStep(input, old(pos), old(regnum));
        res == t.result && pos == t.end && regnum == t.next && out == old(out) + t.code
    {
      var c := Token();
      if !IsIdentifier(c) {
        return Fail(c);
      }
      var reg := NextRegister();
      NextToken();
      return Reg(reg);
    }

    /** `expr` */
    method Expr() returns (res: Outcome)
      requires Valid()
      modifies this`pos, this`regnum, this`out
      ensures Valid()
      ensures var t := Gen(input, old(pos), old(regnum));
        res == t.result && pos == t.end && regnum == t.next && out == old(out) + t.code
      decreases |input| - pos
    {
      ghost var i0, r0, out0 := pos, regnum, out;
      var c := Token();
      if IsOperator(c) {
        NextToken();
        var left := Expr();
        ghost var lt := Gen(input, i0 + 1, r0);
        assert out == out0 + lt.code;
        if left.Fail? {
          assert Gen(input, i0, r0) == lt;
          return left;
        }
        var right := Expr();
        ghost var rt := Gen(input, lt.end, lt.next);
        assert out == out0 + (lt.code + rt.code);
        if right.Fail? {
          assert Gen(input, i0, r0) == rt.(code := lt.code + rt.code);
          return right;
        }
        var reg := NextRegister();
        CodeGen(OpCodeOf(c), reg, left.reg, right.reg);
        ghost var code := lt.code + rt.code + [Instruction(OpCodeOf(c), reg, left.reg, right.reg)];
        assert Gen(input, i0, r0) == Trace(Reg(reg), rt.end, reg + 1, code);
        assert out == out0 + code;
        return Reg(reg);
      } else if IsIdentifier(c) {
        assert Gen(input, i0, r0) == VariableStep(input, i0, r0);
        res := Variable();
      } else if IsDigit(c) {
        assert Gen(input, i0, r0) == DigitStep(input, i0, r0);
        res := Digit();
      } else {
        assert Gen(input, i0, r0) == Trace(Fail(c), i0, r0, []);
        return Fail(c);
      }
    }
  }
}
