/** What `expr`, `digit` and `variable` do, as pure functions of the text, the
    cursor and the register counter. A `Trace` records the outcome, the cursor
    and counter afterwards, and the instructions appended on the way; on a
    failure it records the state at the moment the source calls `exit`. */
module ExprSpec {
  import opened Instr
  import opened Chars
  import opened Grammar

  /** A register holding the expression's value, or the offending token. */
  datatype Outcome = Reg(reg: int) | Fail(symbol: char)

  datatype Trace = Trace(result: Outcome, end: nat, next: int, code: seq<Instruction>)

  /** The arithmetic opcode `expr` emits for each operator token; distinct
      operators give distinct opcodes. */
  function OpCodeOf(c: char): (op: OpCode)
    requires IsOperator(c)
    ensures IsArithmetic(op)
    ensures (op == ADD <==> c == '+') && (op == SUB <==> c == '-') && (op == MUL <==> c == '*')
  {
    if c == '+' then ADD else if c == '-' then SUB else MUL
  }

  /** `digit`: on a digit token, one fresh register, one `LOADI` of the digit's
      value and one token consumed; on any other token, failure with nothing
      changed. */
  function DigitStep(s: seq<char>, i: nat, r: int): (t: Trace)
    ensures t.result.Reg? <==> IsDigit(At(s, i))
    ensures t.result.Reg? ==>
              && t.result.reg == r && t.next == r + 1 && t.end == i + 1
              && t.code == [Instruction(LOADI, r, At(s, i) as int - '0' as int, EmptyField)]
              && 0 <= t.code[0].field2 <= 9
    ensures t.result.Fail? ==> t == Trace(Fail(At(s, i)), i, r, [])
  {
    var c := At(s, i);
    if !IsDigit(c) then Trace(Fail(c), i, r, [])
    else Trace(Reg(r), i + 1, r + 1, [Instruction(LOADI, r, ToDigit(c), EmptyField)])
  }

  /** The unused third field of a digit's `LOADI` holds the sentinel, which no
      digit immediate can be mistaken for. */
  lemma EmptyFieldUnused(s: seq<char>, i: nat, r: int)
    requires DigitStep(s, i, r).result.Reg?
    ensures var t := DigitStep(s, i, r);
      t.code[0].field3 == EmptyField && t.code[0].field2 != EmptyField
  {
  }

  /** `variable`: on a name `a`..`e`, one fresh register and one token consumed,
      and no instruction (the load is not generated); otherwise failure with
      nothing changed. */
  function VariableStep(s: seq<char>, i: nat, r: int): (t: Trace)
    ensures t.result.Reg? <==> IsIdentifier(At(s, i))
    ensures t.result.Reg? ==> t.result.reg == r && t.next == r + 1 && t.end == i + 1 && t.code == []
    ensures t.result.Fail? ==> t == Trace(Fail(At(s, i)), i, r, [])
  {
    var c := At(s, i);
    if !IsIdentifier(c) then Trace(Fail(c), i, r, [])
    else Trace(Reg(r), i + 1, r + 1, [])
  }

  /** `expr` started at cursor `i` with register counter `r`. */
  function Gen(s: seq<char>, i: nat, r: int): (t: Trace)
    ensures i <= t.end && (t.end == i || At(s, t.end - 1) != '\0')
    ensures t.result.Reg? ==> i < t.end
    decreases |s| - i
  {
    var c := At(s, i);
    if IsOperator(c) then
      var left := Gen(s, i + 1, r);
      if left.result.Fail? then left
      else
        var right := Gen(s, left.end, left.next);
        if right.result.Fail? then right.(code := left.code + right.code)
        else
          var d := right.next;
          Trace(Reg(d), right.end, d + 1,
                left.code + right.code + [Instruction(OpCodeOf(c), d, left.result.reg, right.result.reg)])
    else if IsIdentifier(c) then VariableStep(s, i, r)
    else if IsDigit(c) then DigitStep(s, i, r)
    else Trace(Fail(c), i, r, [])
  }

  /** `expr` succeeds exactly where a well-formed expression starts, and then
      stops exactly at its end. */
  lemma {:induction false} GenFollowsGrammar(s: seq<char>, i: nat, r: int)
    ensures Gen(s, i, r).result.Reg? <==> ExprEnd(s, i).Some?
    ensures Gen(s, i, r).result.Reg? ==> Gen(s, i, r).end == ExprEnd(s, i).value
    decreases |s| - i
  {
    var c := At(s, i);
    if IsOperator(c) {
      var left := Gen(s, i + 1, r);
      GenFollowsGrammar(s, i + 1, r);
      if left.result.Reg? {
        GenFollowsGrammar(s, left.end, left.next);
      }
    }
  }

  /** One register per token consumed; the result is the last one handed out. */
  lemma {:induction false} GenCountsTokens(s: seq<char>, i: nat, r: int)
    ensures var t := Gen(s, i, r);
      t.result.Reg? ==> t.next - r == t.end - i && t.result.reg == t.next - 1
    decreases |s| - i
  {
    var c := At(s, i);
    if IsOperator(c) {
      var left := Gen(s, i + 1, r);
      GenCountsTokens(s, i + 1, r);
      if left.result.Reg? {
        GenCountsTokens(s, left.end, left.next);
      }
    }
  }

  /** Every instruction's destination lies in `[lo, hi)`. */
  ghost predicate DestsIn(code: seq<Instruction>, lo: int, hi: int) {
    forall k :: 0 <= k < |code| ==> lo <= code[k].field1 < hi
  }

  /** Destinations strictly increase in emission order, so none is reused. */
  ghost predicate Increasing(code: seq<Instruction>) {
    forall j, k :: 0 <= j < k < |code| ==> code[j].field1 < code[k].field1
  }

  /** Arithmetic sources are at least `lo` and below their own destination. */
  ghost predicate SourcesBelowDest(code: seq<Instruction>, lo: int) {
    forall k :: 0 <= k < |code| && IsArithmetic(code[k].opcode) ==>
      lo <= code[k].field2 < code[k].field1 && lo <= code[k].field3 < code[k].field1
  }

  lemma JoinCode(a: seq<Instruction>, b: seq<Instruction>, lo: int, mid: int, hi: int)
    requires lo <= mid <= hi
    requires DestsIn(a, lo, mid) && DestsIn(b, mid, hi) && Increasing(a) && Increasing(b)
    requires SourcesBelowDest(a, lo) && SourcesBelowDest(b, lo)
    ensures DestsIn(a + b, lo, hi) && Increasing(a + b) && SourcesBelowDest(a + b, lo)
  {
  }

  /** The registers an `expr` call writes are fresh: they come from `[r, next)`
      in increasing order, and every operand of an arithmetic instruction is a
      register of this call allocated before that instruction's destination. */
  lemma {:induction false} GenRegisters(s: seq<char>, i: nat, r: int)
    ensures var t := Gen(s, i, r);
      && r <= t.next
      && DestsIn(t.code, r, t.next) && Increasing(t.code) && SourcesBelowDest(t.code, r)
      && (t.result.Reg? ==> r <= t.result.reg < t.next)
    decreases |s| - i
  {
    var c := At(s, i);
    if IsOperator(c) {
      var left := Gen(s, i + 1, r);
      GenRegisters(s, i + 1, r);
      if left.result.Reg? {
        var right := Gen(s, left.end, left.next);
        GenRegisters(s, left.end, left.next);
        JoinCode(left.code, right.code, r, left.next, right.next);
        if right.result.Reg? {
          var d := right.next;
          var last := Instruction(OpCodeOf(c), d, left.result.reg, right.result.reg);
          JoinCode(left.code + right.code, [last], r, d, d + 1);
        }
      }
    }
  }

  /** For an operator token: both operands compile in textual order, the left
      operand's code comes first, then the right's, then one instruction for
      the operator writing a register above both operand registers. */
  lemma GenOperator(s: seq<char>, i: nat, r: int)
    requires IsOperator(At(s, i)) && Gen(s, i, r).result.Reg?
    ensures var t, left := Gen(s, i, r), Gen(s, i + 1, r);
      var right := Gen(s, left.end, left.next);
      && left.result.Reg? && right.result.Reg? && t.end == right.end
      && t.code == left.code + right.code
                   + [Instruction(OpCodeOf(At(s, i)), t.result.reg, left.result.reg, right.result.reg)]
      && left.result.reg < right.result.reg < t.result.reg
  {
    var left := Gen(s, i + 1, r);
    GenCountsTokens(s, i + 1, r);
    GenCountsTokens(s, left.end, left.next);
    GenRegisters(s, left.end, left.next);
  }

  /** Failure happens exactly on a token `expr` has no case for, '\0' among
      them; the failing call never gets past that token. */
  lemma {:induction false} GenFailure(s: seq<char>, i: nat, r: int)
    ensures var t := Gen(s, i, r);
      t.result.Fail? ==> t.result.symbol == At(s, t.end) && !StartsExpr(t.result.symbol)
    ensures !StartsExpr(At(s, i)) ==> Gen(s, i, r) == Trace(Fail(At(s, i)), i, r, [])
    decreases |s| - i
  {
    var c := At(s, i);
    if IsOperator(c) {
      var left := Gen(s, i + 1, r);
      GenFailure(s, i + 1, r);
      if left.result.Reg? {
        GenFailure(s, left.end, left.next);
      }
    }
  }

  /** Summary: a successful `expr` reads exactly one well-formed expression and
      hands out one register per token of it. */
  lemma GenReadsOneExpression(s: seq<char>, i: nat, r: int)
    requires Gen(s, i, r).result.Reg?
    ensures var t := Gen(s, i, r);
      ExprEnd(s, i) == Some(t.end) && WellFormed(TreeAt(s, i)) && s[i..t.end] == Text(TreeAt(s, i))
      && t.next - r == |Text(TreeAt(s, i))|
  {
    GenFollowsGrammar(s, i, r);
    GenCountsTokens(s, i, r);
  }
  /** Some instruction of `code` writes register `x`. */
  ghost predicate DefinedIn(code: seq<Instruction>, x: int) {
    exists j :: 0 <= j < |code| && code[j].field1 == x
  }

  /** Every arithmetic operand is written by an earlier instruction. */
  ghost predicate DefsPrecedeUses(code: seq<Instruction>) {
    forall k :: 0 <= k < |code| && IsArithmetic(code[k].opcode) ==>
      DefinedIn(code[..k], code[k].field2) && DefinedIn(code[..k], code[k].field3)
  }

  ghost predicate NoVariableIn(s: seq<char>, i: nat, j: nat) {
    forall k :: i <= k < j ==> !IsIdentifier(At(s, k))
  }

  lemma DefinedInAppend(a: seq<Instruction>, b: seq<Instruction>, x: int)
    ensures DefinedIn(a, x) ==> DefinedIn(a + b, x)
    ensures DefinedIn(b, x) ==> DefinedIn(a + b, x)
  {
    if DefinedIn(a, x) {
      var j :| 0 <= j < |a| && a[j].field1 == x;
      assert (a + b)[j] == a[j];
    }
    if DefinedIn(b, x) {
      var j :| 0 <= j < |b| && b[j].field1 == x;
      assert (a + b)[|a| + j] == b[j];
    }
  }

  lemma DefsPrecedeUsesAppend(a: seq<Instruction>, b: seq<Instruction>)
    requires DefsPrecedeUses(a) && DefsPrecedeUses(b)
    ensures DefsPrecedeUses(a + b)
  {
    var ab := a + b;
    forall k | 0 <= k < |ab| && IsArithmetic(ab[k].opcode)
      ensures DefinedIn(ab[..k], ab[k].field2) && DefinedIn(ab[..k], ab[k].field3)
    {
      if k < |a| {
        assert ab[..k] == a[..k] && ab[k] == a[k];
      } else {
        var kb := k - |a|;
        assert ab[..k] == a + b[..kb] && ab[k] == b[kb];
        DefinedInAppend(a, b[..kb], b[kb].field2);
        DefinedInAppend(a, b[..kb], b[kb].field3);
      }
    }
  }

  /** Without variables (whose load is not generated), an expression's code
      writes every register before reading it, ending with its result. */
  lemma {:induction false} GenDefinesBeforeUse(s: seq<char>, i: nat, r: int)
    requires Gen(s, i, r).result.Reg? && NoVariableIn(s, i, Gen(s, i, r).end)
    ensures var t := Gen(s, i, r);
      DefsPrecedeUses(t.code) && DefinedIn(t.code, t.result.reg)
    decreases |s| - i
  {
    var c := At(s, i);
    assert !IsIdentifier(c);
    if IsOperator(c) {
      var left := Gen(s, i + 1, r);
      var right := Gen(s, left.end, left.next);
      var d := right.next;
      var last := Instruction(OpCodeOf(c), d, left.result.reg, right.result.reg);
      var lr := left.code + right.code;
      assert left.result.Reg? && right.result.Reg?;
      assert Gen(s, i, r).code == lr + [last] && Gen(s, i, r).end == right.end;
      assert NoVariableIn(s, i + 1, left.end) && NoVariableIn(s, left.end, right.end) by {
        assert i + 1 <= left.end <= right.end;
      }
      GenDefinesBeforeUse(s, i + 1, r);
      GenDefinesBeforeUse(s, left.end, left.next);
      CombineDefsPrecedeUses(left.code, right.code, last);
    }
  }

  lemma CombineDefsPrecedeUses(a: seq<Instruction>, b: seq<Instruction>, last: Instruction)
    requires DefsPrecedeUses(a) && DefsPrecedeUses(b)
    requires DefinedIn(a, last.field2) && DefinedIn(b, last.field3)
    ensures DefsPrecedeUses(a + b + [last]) && DefinedIn(a + b + [last], last.field1)
  {
    var ab := a + b;
    DefsPrecedeUsesAppend(a, b);
    DefinedInAppend(a, b, last.field2);
    DefinedInAppend(a, b, last.field3);
    var all := ab + [last];
    assert all[..|ab|] == ab && all[|ab|] == last;
    forall k | 0 <= k < |all| && IsArithmetic(all[k].opcode)
      ensures DefinedIn(all[..k], all[k].field2) && DefinedIn(all[..k], all[k].field3)
    {
      if k < |ab| {
        assert all[..k] == ab[..k] && all[k] == ab[k];
      }
    }
    assert all[|ab|].field1 == last.field1;
  }

  /** `+1b` compiles to `LOADI 1 1; ADD 3 1 2`: register 2, the variable's,
      is read but never written, because `variable` generates no load. */
  lemma VariableOperandNeverWritten()
    ensures var t := Gen("+1b", 0, 1);
      && t.result == Reg(3)
      && t.code == [Instruction(LOADI, 1, 1, EmptyField), Instruction(ADD, 3, 1, 2)]
      && !DefsPrecedeUses(t.code)
  {
    var s := "+1b";
    var load := Instruction(LOADI, 1, 1, EmptyField);
    assert At(s, 0) == '+' && At(s, 1) == '1' && At(s, 2) == 'b';
    assert Gen(s, 1, 1) == DigitStep(s, 1, 1) == Trace(Reg(1), 2, 2, [load]);
    assert Gen(s, 2, 2) == VariableStep(s, 2, 2) == Trace(Reg(2), 3, 3, []);
    var t := Gen(s, 0, 1);
    assert t == Trace(Reg(3), 3, 4, [load] + [] + [Instruction(ADD, 3, 1, 2)]);
    assert t.code[..1] == [load];
    assert !DefinedIn(t.code[..1], 2);
  }
  /** The number of variable tokens among positions `[i, j)`. */
  function Vars(s: seq<char>, i: nat, j: nat): nat
    decreases j - i
  {
    if j <= i then 0 else (if IsIdentifier(At(s, i)) then 1 else 0) + Vars(s, i + 1, j)
  }

  lemma {:induction false} VarsSplit(s: seq<char>, i: nat, j: nat, k: nat)
    requires i <= j <= k
    ensures Vars(s, i, k) == Vars(s, i, j) + Vars(s, j, k)
    decreases j - i
  {
    if i < j {
      VarsSplit(s, i + 1, j, k);
    }
  }

  lemma {:induction false} NoVariableInVars(s: seq<char>, i: nat, j: nat)
    requires NoVariableIn(s, i, j)
    ensures Vars(s, i, j) == 0
    decreases j - i
  {
    if i < j {
      NoVariableInVars(s, i + 1, j);
    }
  }

  /** A successful `expr` emits one instruction per token read, except for
      the variable tokens, which emit none. */
  lemma {:induction false} GenCodeLength(s: seq<char>, i: nat, r: int)
    ensures var t := Gen(s, i, r);
      t.result.Reg? ==> |t.code| == (t.end - i) - Vars(s, i, t.end)
    decreases |s| - i
  {
    var c := At(s, i);
    if IsOperator(c) {
      var left := Gen(s, i + 1, r);
      GenCodeLength(s, i + 1, r);
      if left.result.Reg? {
        var right := Gen(s, left.end, left.next);
        GenCodeLength(s, left.end, left.next);
        if right.result.Reg? {
          VarsSplit(s, i + 1, left.end, right.end);
          assert Vars(s, i, right.end) == Vars(s, i + 1, right.end);
        }
      }
    }
  }

  /** Increasing destinations that fill an interval exactly are that interval, in order. */
  lemma {:induction false} IncreasingFills(code: seq<Instruction>, lo: int)
    requires Increasing(code) && DestsIn(code, lo, lo + |code|)
    ensures forall k :: 0 <= k < |code| ==> code[k].field1 == lo + k
    decreases |code|
  {
    if code != [] {
      var rest := code[1..];
      assert Increasing(rest) by {
        forall j, k | 0 <= j < k < |rest| ensures rest[j].field1 < rest[k].field1 {
          assert rest[j] == code[j + 1] && rest[k] == code[k + 1];
        }
      }
      assert code[0].field1 == lo by {
        if code[0].field1 > lo {
          // every destination would lie in (lo, lo + |code|), one slot too few
          assert DestsIn(code, code[0].field1, lo + |code|);
          TooFewSlots(code, code[0].field1, lo + |code|);
        }
      }
      assert DestsIn(rest, lo + 1, lo + 1 + |rest|) by {
        forall k | 0 <= k < |rest| ensures lo + 1 <= rest[k].field1 < lo + 1 + |rest| {
          assert rest[k] == code[k + 1];
        }
      }
      IncreasingFills(rest, lo + 1);
      forall k | 0 <= k < |code| ensures code[k].field1 == lo + k {
        if k > 0 {
          assert code[k] == rest[k - 1];
        }
      }
    }
  }

  /** `n` strictly increasing destinations need at least `n` slots. */
  lemma {:induction false} TooFewSlots(code: seq<Instruction>, lo: int, hi: int)
    requires lo <= hi && Increasing(code) && DestsIn(code, lo, hi)
    ensures |code| <= hi - lo
    decreases |code|
  {
    if code != [] {
      var rest := code[1..];
      assert Increasing(rest) by {
        forall j, k | 0 <= j < k < |rest| ensures rest[j].field1 < rest[k].field1 {
          assert rest[j] == code[j + 1] && rest[k] == code[k + 1];
        }
      }
      assert DestsIn(rest, code[0].field1 + 1, hi) by {
        forall k | 0 <= k < |rest| ensures code[0].field1 + 1 <= rest[k].field1 < hi {
          assert rest[k] == code[k + 1];
        }
      }
      TooFewSlots(rest, code[0].field1 + 1, hi);
      assert lo <= code[0].field1;
    }
  }

  /** Without variables, every register the call hands out is written by
      exactly one instruction: the k-th instruction writes register `r + k`. */
  lemma GenWritesEachRegisterOnce(s: seq<char>, i: nat, r: int)
    requires Gen(s, i, r).result.Reg? && NoVariableIn(s, i, Gen(s, i, r).end)
    ensures var t := Gen(s, i, r);
      && |t.code| == t.next - r
      && (forall k :: 0 <= k < |t.code| ==> t.code[k].field1 == r + k)
      && (forall x :: r <= x < t.next ==> DefinedIn(t.code, x))
  {
    var t := Gen(s, i, r);
    GenCodeLength(s, i, r);
    GenCountsTokens(s, i, r);
    GenRegisters(s, i, r);
    NoVariableInVars(s, i, t.end);
    IncreasingFills(t.code, r);
    forall x | r <= x < t.next ensures DefinedIn(t.code, x) {
      assert t.code[x - r].field1 == x;
    }
  }
}
