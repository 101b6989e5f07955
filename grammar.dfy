/** The tinyL expression grammar, independent of code generation:
      EXPR ::= '+' EXPR EXPR | '-' EXPR EXPR | '*' EXPR EXPR | VARIABLE | DIGIT
    Tokens are single characters; the text is read like a C string, so every
    position at or past the end reads as the end marker '\0'. */
module Grammar {
  import opened Chars

  datatype Option<T> = None | Some(value: T)

  /** The token at cursor `i` (`*buffer`): past the end of the text it is '\0'. */
  function At(s: seq<char>, i: int): (c: char)
    ensures c != '\0' ==> 0 <= i < |s| && c == s[i]
    ensures 0 <= i < |s| ==> c == s[i]
  {
    if 0 <= i < |s| then s[i] else '\0'
  }

  predicate IsOperator(c: char) {
    c == '+' || c == '-' || c == '*'
  }

  /** The tokens that `expr` has a case for. */
  predicate StartsExpr(c: char) {
    IsOperator(c) || IsIdentifier(c) || IsDigit(c)
  }

  /** `expr` has a case for exactly eighteen tokens; the end marker is not one. */
  lemma StartsExprExactly(c: char)
    ensures StartsExpr(c) <==> c in "+-*" + Identifiers + Digits
    ensures !StartsExpr('\0')
  {
    DigitsExactly(c);
    IdentifiersExactly(c);
  }

  /** Where the prefix expression starting at `i` ends (one past its last
      token), or None when no well-formed expression starts there. */
  function ExprEnd(s: seq<char>, i: nat): (e: Option<nat>)
    ensures e.Some? ==> i < e.value <= |s| && At(s, e.value - 1) != '\0'
    decreases |s| - i
  {
    var c := At(s, i);
    if IsOperator(c) then
      match ExprEnd(s, i + 1)
      case None => None
      case Some(m) => ExprEnd(s, m)
    else if IsIdentifier(c) || IsDigit(c) then Some(i + 1)
    else None
  }

  /** Parse trees of tinyL expressions; `Text` writes one back in prefix form. */
  datatype Ast = Binary(op: char, left: Ast, right: Ast) | Leaf(token: char)

  predicate WellFormed(e: Ast) {
    match e
    case Binary(op, l, r) => IsOperator(op) && WellFormed(l) && WellFormed(r)
    case Leaf(t) => IsIdentifier(t) || IsDigit(t)
  }

  function Text(e: Ast): seq<char> {
    match e
    case Binary(op, l, r) => [op] + Text(l) + Text(r)
    case Leaf(t) => [t]
  }

  /** The text of any well-formed tree is read as exactly one expression. */
  lemma {:induction false} ExprEndOfText(e: Ast, s: seq<char>, i: nat)
    requires WellFormed(e)
    requires i + |Text(e)| <= |s| && s[i..i + |Text(e)|] == Text(e)
    ensures ExprEnd(s, i) == Some(i + |Text(e)|)
    decreases e, 1
  {
    match e
    case Leaf(t) =>
      assert At(s, i) == s[i..i + 1][0] == t;
    case Binary(op, l, r) =>
      TextSplit(s, i, op, Text(l), Text(r));
      ExprEndOfOperands(op, l, r, s, i);
  }

  lemma {:induction false} ExprEndOfOperands(op: char, l: Ast, r: Ast, s: seq<char>, i: nat)
    requires IsOperator(op) && WellFormed(l) && WellFormed(r) && At(s, i) == op
    requires i + 1 + |Text(l)| + |Text(r)| <= |s|
    requires s[i + 1..i + 1 + |Text(l)|] == Text(l)
    requires s[i + 1 + |Text(l)|..i + 1 + |Text(l)| + |Text(r)|] == Text(r)
    ensures ExprEnd(s, i) == Some(i + 1 + |Text(l)| + |Text(r)|)
    decreases Binary(op, l, r), 0
  {
    var m := i + 1 + |Text(l)|;
    ExprEndOfText(l, s, i + 1);
    ExprEndOfText(r, s, m);
    assert ExprEnd(s, i) == ExprEnd(s, m) by {
      assert IsOperator(At(s, i)) && ExprEnd(s, i + 1) == Some(m);
    }
  }

  /** A slice spelling `[op] + a + b` starts with `op`, then spells `a`, then `b`. */
  lemma TextSplit(s: seq<char>, i: nat, op: char, a: seq<char>, b: seq<char>)
    requires i + 1 + |a| + |b| <= |s| && s[i..i + 1 + |a| + |b|] == [op] + a + b
    ensures At(s, i) == op
    ensures s[i + 1..i + 1 + |a|] == a && s[i + 1 + |a|..i + 1 + |a| + |b|] == b
  {
    var m, j := i + 1 + |a|, i + 1 + |a| + |b|;
    var w := s[i..j];
    assert w[0] == op;
    assert s[i + 1..m] == w[1..1 + |a|] == a;
    assert s[m..j] == w[1 + |a|..] == b;
  }

  /** Conversely, whatever `ExprEnd` accepts is the text of a well-formed tree. */
  function TreeAt(s: seq<char>, i: nat): (e: Ast)
    requires ExprEnd(s, i).Some?
    ensures WellFormed(e)
    ensures s[i..ExprEnd(s, i).value] == Text(e)
    decreases |s| - i
  {
    var c := At(s, i);
    assert s[i..i + 1] == [c];
    if IsOperator(c) then
      var m := ExprEnd(s, i + 1).value;
      var j := ExprEnd(s, m).value;
      assert ExprEnd(s, i).value == j;
      var l, r := TreeAt(s, i + 1), TreeAt(s, m);
      SliceJoin(s, i, i + 1, m);
      SliceJoin(s, i, m, j);
      Binary(c, l, r)
    else
      Leaf(c)
  }

  lemma SliceJoin(s: seq<char>, i: nat, m: nat, j: nat)
    requires i <= m <= j <= |s|
    ensures s[i..j] == s[i..m] + s[m..j]
  {
  }

  /** `ExprEnd(s, i) == Some(j)` exactly when `s[i..j]` spells one expression. */
  lemma ExprEndCharacterised(s: seq<char>, i: nat, j: nat)
    ensures ExprEnd(s, i) == Some(j) <==>
            (i <= j <= |s| && exists e :: WellFormed(e) && s[i..j] == Text(e))
  {
    if ExprEnd(s, i) == Some(j) {
      var e := TreeAt(s, i);
      assert WellFormed(e) && s[i..j] == Text(e);
    }
    if i <= j <= |s| && exists e :: WellFormed(e) && s[i..j] == Text(e) {
      var e :| WellFormed(e) && s[i..j] == Text(e);
      ExprEndOfText(e, s, i);
    }
  }
}
