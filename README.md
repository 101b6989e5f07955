# tinyL expression compiler, modelled in Dafny

This project models the expression part of the tinyL front end
(`students/Compiler.c`). It is an LL(1) recursive-descent parser for prefix
expressions over single-character tokens:

    EXPR ::= '+' EXPR EXPR | '-' EXPR EXPR | '*' EXPR EXPR | VARIABLE | DIGIT
    VARIABLE ::= 'a' .. 'e'        DIGIT ::= '0' .. '9'

Code is generated while parsing. The parser reads the current character
through a cursor into a '\0'-terminated buffer. It takes virtual registers
from a counter that starts at 1 and only goes up. It emits three-address
instructions in postorder.

Files:

- `instr.dfy`: the IR record (`Instruction`: an opcode and three integer
  fields), the opcode set and the unused-field sentinel `EmptyField`
  (0xFFFFF).
- `chars.dfy`: the classifiers `is_digit`, `to_digit` and `is_identifier`.
- `grammar.dfy`: the expression grammar by itself. `ExprEnd(s, i)` says
  where the prefix expression starting at `i` ends. Parse trees (`Ast`) with
  their prefix spelling `Text` are proved to be exactly the segments
  `ExprEnd` accepts.
- `exprspec.dfy`: pure reference functions for `digit`, `variable` and
  `expr`. They map the text, the cursor and the register counter to a
  `Trace`: the outcome, the new cursor, the new counter and the instructions
  emitted. The lemmas about code generation are stated over these.
- `compiler.dfy`: class `Parser`. It holds the buffer, the cursor `pos`, the
  counter `regnum` and the emitted code `out`. Its methods `NextToken`,
  `NextRegister`, `CodeGen`, `Digit`, `Variable` and `Expr` change that
  state step by step, as the C functions do. Each method's postcondition
  ties the new state to the matching reference function.

A failing production stands for `exit(EXIT_FAILURE)`. It returns
`Fail(symbol)` with the offending token, leaves the cursor on that token, and
every caller returns the failure at once. The `Trace` of a failure records
the exact state at that point, including the instructions `CodeGen` had
already written.

The pure functions read positions at or past the end of a sequence as the
end marker '\0'. This matches a C string. The `Parser` always holds a buffer
that ends in '\0', and its cursor never moves past that marker.

`variable` allocates a register and consumes its token but emits no
instruction: the load is a placeholder (`students/Compiler.c:110`). The model
follows the code as written. It does not follow tinyL's intended semantics,
in which a variable leaf loads its slot into the fresh register.
Because of this, a register that belongs to a variable is read by the
arithmetic instruction that uses it but written by no instruction.
`GenCodeLength` counts the gap: one instruction fewer per variable token.
`GenDefinesBeforeUse` and `GenWritesEachRegisterOnce` prove def-before-use, and
one write per register, only for expressions without variables. `VariableOperandNeverWritten` shows the gap on `+1b`.

## Model

| member | source | states |
|---|---|---|
| Chars.IsDigit | students/Compiler.c:319-324 | a digit is never the end marker, and it lies 0 to 9 places after '0' |
| Chars.IsIdentifier | students/Compiler.c:334-339 | a variable name is neither a digit nor the end marker, so `expr`'s variable and digit cases never overlap |
| Chars.ToDigit | students/Compiler.c:326-332 | a digit's value lies in 0..9; every non-digit gives 0 |
| Chars.DigitsExactly | students/Compiler.c:319-332 | `is_digit` holds exactly for the characters of "0123456789", and `to_digit` gives each digit's position in that string |
| Chars.IdentifiersExactly | students/Compiler.c:334-339 | `is_identifier` holds exactly for the characters of "abcde" |
| Chars.ToDigitInverse | students/Compiler.c:326-332 | for each value 0..9, `to_digit` of the matching digit character gives back the value |
| Grammar.At | students/Compiler.c:55 | the token at a position is the character there; any token other than '\0' lies inside the text, and past the end the text reads as the end marker |
| Grammar.StartsExprExactly | students/Compiler.c:119-165 | `expr` has a case for exactly the 18 characters "+-*abcde0123456789"; the end marker '\0' is not one of them |
| Grammar.ExprEnd | students/Compiler.c:115-166 | a prefix expression starting at `i` ends strictly after `i` and within the text, and its last token is not the end marker |
| Grammar.ExprEndOfText | students/Compiler.c:21-27 | the text of any well-formed parse tree is read as exactly one expression, ending right after its last token |
| Grammar.TreeAt | students/Compiler.c:21-27 | every segment `ExprEnd` accepts is the prefix text of a well-formed parse tree |
| Grammar.ExprEndCharacterised | students/Compiler.c:21-27 | `ExprEnd(s, i) == Some(j)` holds if and only if `s[i..j]` spells a well-formed expression |
| ExprSpec.OpCodeOf | students/Compiler.c:120-142 | `+` gives ADD, `-` gives SUB and `*` gives MUL, each an arithmetic opcode, and no two operators share one |
| ExprSpec.EmptyFieldUnused | students/Compiler.c:54 | the unused third field of a digit's `LOADI` holds the sentinel `EMPTY_FIELD` (0xFFFFF), which never equals the digit immediate |
| ExprSpec.DigitStep | students/Compiler.c:86-98 | succeeds if and only if the token is a digit. On success it returns the old counter value, bumps the counter by one, advances one token and emits exactly `LOADI reg, token - '0', EMPTY_FIELD` with an immediate in 0..9. Otherwise it fails on that token and changes nothing |
| ExprSpec.VariableStep | students/Compiler.c:100-113 | succeeds if and only if the token is in `a`..`e`. On success it returns the old counter value, bumps the counter by one, advances one token and emits nothing. Otherwise it fails on that token and changes nothing |
| ExprSpec.Gen | students/Compiler.c:115-166 | `expr` never moves the cursor backwards or past the end marker, and a successful call consumes at least one token |
| ExprSpec.GenFollowsGrammar | students/Compiler.c:115-166 | `expr` succeeds if and only if a well-formed expression starts at the cursor, and it then stops exactly at that expression's end |
| ExprSpec.GenCountsTokens | students/Compiler.c:115-166 | on success the counter has grown by exactly the number of tokens consumed, and the result is the last register handed out |
| ExprSpec.GenRegisters | students/Compiler.c:115-166 | each instruction writes a fresh register taken from those handed out by this call, in strictly increasing order, so none is reused. Each arithmetic operand is a register of this call allocated before that instruction's destination |
| ExprSpec.GenCodeLength | students/Compiler.c:115-166 | a successful call emits one instruction per token read, minus one per variable token, which emits none |
| ExprSpec.GenWritesEachRegisterOnce | students/Compiler.c:115-166 | for an expression without variables, the k-th instruction writes register r + k. So every register the call hands out is written by exactly one instruction |
| ExprSpec.GenOperator | students/Compiler.c:120-142 | for an operator, the left operand is compiled first and then the right one. The code is the left operand's code, then the right's, then one ADD/SUB/MUL matching the operator, with field2 = left register and field3 = right register. Left register < right register < destination |
| ExprSpec.GenFailure | students/Compiler.c:162-164 | a failure reports the token under the cursor, and that token is outside every accepted set. A token outside the sets, '\0' included, fails at once with nothing consumed or emitted |
| ExprSpec.GenReadsOneExpression | students/Compiler.c:115-166 | a successful call reads exactly the text of one well-formed parse tree and hands out one register per token of that text |
| ExprSpec.GenDefinesBeforeUse | students/Compiler.c:120-142 | for an expression without variables, each operand an ADD/SUB/MUL reads is written by an earlier instruction, and the result register is written by the code |
| ExprSpec.VariableOperandNeverWritten | students/Compiler.c:109-111 | `+1b` compiles to `LOADI 1,1; ADD 3,1,2`: register 2, the variable's, is read before any instruction writes it |
| Compiler.Parser.constructor | students/Compiler.c:59 | parsing starts on the first character of the '\0'-terminated buffer, with the counter at 1 and no code emitted |
| Compiler.Parser.Token | students/Compiler.c:55 | the token is the character under the cursor |
| Compiler.Parser.NextToken | students/Compiler.c:304-312 | the cursor moves forward by exactly one character and stays inside the buffer |
| Compiler.Parser.NextRegister | students/Compiler.c:314-317 | returns the counter value and bumps it by exactly one, so registers handed out strictly increase |
| Compiler.Parser.CodeGen | students/Compiler.c:289-302 | appends exactly the given instruction; earlier output is unchanged |
| Compiler.Parser.Digit | students/Compiler.c:86-98 | the new cursor, counter and output, and the result, are those of `DigitStep` applied to the old state; output is only appended to |
| Compiler.Parser.Variable | students/Compiler.c:100-113 | the new cursor, counter and output, and the result, are those of `VariableStep` applied to the old state |
| Compiler.Parser.Expr | students/Compiler.c:115-166 | the new cursor, counter and output, and the result, are those of `Gen` applied to the old state. Code emitted before the call stays a prefix of `out` |

## Left out

- Statement level (`assign`, `read`, `print`, `stmt`, `morestmts`, `stmtlist`, `program`, students/Compiler.c:168-284): unfinished code. `assign` passes an uninitialised value, `read` never consumes its identifier, `print` emits `STORE` then `READ`, and every `stmtlist` case falls through into the error exit. None of these gives a behaviour to specify.
- `read_input`, `main`, opening the files and the `outfile` check inside `CodeGen` (students/Compiler.c:293-296, 341-425): file I/O and buffer reallocation. The model starts from the text already in memory, with the end marker appended.
- The console echo in `next_token` and the `ERROR`/`WARNING` messages: console output. `Fail(symbol)` keeps only the offending token.
- `PrintInstruction` and the record format of `Instr.h`/`InstrUtils.h`: these headers are not part of this model. `CodeGen` appends a record to a sequence.
- The peephole optimizer (`students/Optimizer.c`): only a skeleton with no algorithm, so it is not part of this model.
- Compiler.Parser.NextRegister: `regnum` is an unbounded integer. The model does not capture the overflow of the C `int` after 2^31 - 1 registers.
