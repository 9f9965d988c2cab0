/** Expressions written with decimal numbers and operators, and the numbers they evaluate to by the
    laws of those operators. */
module ScriptTexts {
  import opened Arith
  import opened Options
  import opened Strtoul
  import opened ScriptEval
  import opened Operators
  import opened ScriptTrees
  import opened ScriptParsing

  lemma {:induction false} NumeralLength(n: nat, base: nat, k: nat)
    requires 2 <= base <= 36 && 0 < k && n < Pow2(k)
    ensures |Numeral(n, base, false)| <= k
  {
    if base <= n {
      hide Numeral;
      var q, r := NumeralStep(n, base, false);
      MulMono(2, base, q);
      assert q * 2 <= n < 2 * Pow2(k - 1);
      NumeralLength(q, base, k - 1);
    }
  }

  lemma DecimalLength(a: Word)
    ensures |Decimal(a)| <= 32
  {
    hide Numeral;
    Pow32();
    NumeralLength(a, 10, 32);
  }

  lemma DecimalToken(s: string)
    requires 0 < |s| <= 32 && forall i :: 0 <= i < |s| ==> IsDigit(s[i])
    ensures Token(s)
  {
  }

  /** A number as a tree. */
  function Literal(a: Word): Tree {
    Num("", Decimal(a))
  }

  lemma LiteralIs(env: Env, a: Word)
    ensures Good(env, Literal(a)) && Eval(env, Literal(a)) == Val(a)
    ensures Body(Literal(a)) == Decimal(a) && LastToken(Literal(a)) == Decimal(a) && LevelOf(Literal(a)) == 4
  {
    hide Read, Decimal;
    DecimalRoundTrip(a);
    DecimalLength(a);
    DecimalToken(Decimal(a));
    assert "" + Decimal(a) == Decimal(a);
  }

  lemma OperatorOf(c: char, a: Word, b: Word, v: Word)
    requires Computes(c, a, b, v)
    ensures OpOf(c).Some? && OpChar(OpOf(c).value) == c
    ensures BinaryValue(OpOf(c).value, a, b) == Val(v)
  {
    hide HasBit, Congruent, Divided;
    var op := OpOf(c).value;
    if c == '/' {
      var r: nat :| Divided(a, b, v, r);
      DividedOnce(a, b, v, r);
    } else if c == '%' {
      var q: nat :| Divided(a, b, q, v);
      DividedOnce(a, b, q, v);
    }
    ComputesOnce(c, a, b, v, Computed(op, a, b));
  }

  /** A tree of one operator, without white space. */
  lemma BinIs(env: Env, l: Tree, op: Op, r: Tree, a: Word, b: Word)
    requires Good(env, l) && Good(env, r) && Eval(env, l) == Val(a) && Eval(env, r) == Val(b)
    requires LevelOf(l) > Level(op) && LevelOf(r) >= Level(op)
    ensures var t := Bin(l, "", op, r);
            && Good(env, t) && Eval(env, t) == BinaryValue(op, a, b) && LevelOf(t) == Level(op)
            && Body(t) == Body(l) + [OpChar(op)] + Body(r) && LastToken(t) == LastToken(r)
  {
    hide BinaryValue;
    BinText(l, op, r);
  }

  /** The text of a tree, as the evaluator reads it. */
  lemma TextRead(env: Env, t: Tree, text: string)
    requires Good(env, t) && text == Body(t)
    ensures match Eval(env, t)
            case Val(v) => Expr(env, text, 0, NO_PAREN) == Ok(v, "", LastToken(t))
            case DivisionByZero => Expr(env, text, 0, NO_PAREN) == Fault
            case Refused => true
  {
    hide Expr, Good, Eval, Body, LastToken, InRange;
    assert Render(t, 0) == Body(t) && Body(t) + "" == text;
    EvaluatesTrees(env, t, "");
  }

  /** Two decimal numbers with an operator between them evaluate to the word that obeys its law. */
  lemma BinaryText(env: Env, a: Word, c: char, b: Word, v: Word)
    requires Computes(c, a, b, v)
    ensures Expr(env, Decimal(a) + [c] + Decimal(b), 0, NO_PAREN) == Ok(v, "", Decimal(b))
  {
    hide Computes, Expr, Decimal, BinaryValue, Good, Eval, Body, LastToken, LevelOf, Literal;
    OperatorOf(c, a, b, v);
    LiteralIs(env, a);
    LiteralIs(env, b);
    BinIs(env, Literal(a), OpOf(c).value, Literal(b), a, b);
    TextRead(env, Bin(Literal(a), "", OpOf(c).value, Literal(b)), Decimal(a) + [c] + Decimal(b));
  }

  /** Unless that is a division by 0. */
  lemma DivisionText(env: Env, a: Word, c: char)
    requires c == '/' || c == '%'
    ensures Expr(env, Decimal(a) + [c] + Decimal(0), 0, NO_PAREN) == Fault
  {
    hide Expr, Decimal, Good, Eval, Body, LastToken, LevelOf, Literal;
    LiteralIs(env, a);
    LiteralIs(env, 0);
    BinIs(env, Literal(a), OpOf(c).value, Literal(0), a, 0);
    TextRead(env, Bin(Literal(a), "", OpOf(c).value, Literal(0)), Decimal(a) + [c] + Decimal(0));
  }

  lemma UnIs(env: Env, op: UnOp, e: Tree, a: Word)
    requires Good(env, e) && Eval(env, e) == Val(a) && LevelOf(e) >= 3
    ensures var t := Un("", op, e);
            && Good(env, t) && Eval(env, t) == Val(UnaryComputed(op, a))
            && Body(t) == [UnOpChar(op)] + Body(e) && LastToken(t) == LastToken(e)
  {
    hide UnaryComputes;
    assert "" + [UnOpChar(op)] + Body(e) == [UnOpChar(op)] + Body(e);
  }

  /** A decimal number behind a unary operator likewise. */
  lemma UnaryText(env: Env, c: char, a: Word, v: Word)
    requires UnaryComputes(c, a, v)
    ensures Expr(env, [c] + Decimal(a), 0, NO_PAREN) == Ok(v, "", Decimal(a))
  {
    hide Expr, Decimal, HasBit, Congruent, Good, Eval, Body, LastToken, LevelOf, Literal;
    var op := if c == '+' then Plus else if c == '-' then Minus else Not;
    UnaryComputesOnce(c, a, v, UnaryComputed(op, a));
    LiteralIs(env, a);
    UnIs(env, op, Literal(a), a);
    TextRead(env, Un("", op, Literal(a)), [c] + Decimal(a));
  }

  /** Of two operators the first is applied first exactly if it is one of * / % & and the second one of
      + - | ^; otherwise the second is. */
  lemma TwoOperators(env: Env, a: Word, c: char, b: Word, d: char, x: Word, y: Word, v: Word)
    requires if c in "*/%&" && d in "+-|^" then Computes(c, a, b, y) && Computes(d, y, x, v)
             else Computes(d, b, x, y) && Computes(c, a, y, v)
    ensures Expr(env, Decimal(a) + [c] + Decimal(b) + [d] + Decimal(x), 0, NO_PAREN) == Ok(v, "", Decimal(x))
  {
    hide Computes, Expr, Decimal, BinaryValue, Good, Eval, Body, LastToken, LevelOf, Literal, Level, OpOf, OpChar;
    var l, m, r := Literal(a), Literal(b), Literal(x);
    var text := Decimal(a) + [c] + Decimal(b) + [d] + Decimal(x);
    LiteralIs(env, a);
    LiteralIs(env, b);
    LiteralIs(env, x);
    Levels(c);
    Levels(d);
    var op, op' := OpOf(c), OpOf(d);
    if c in "*/%&" && d in "+-|^" {
      OperatorOf(c, a, b, y);
      OperatorOf(d, y, x, v);
      var inner := Bin(l, "", op.value, m);
      BinIs(env, l, op.value, m, a, b);
      BinIs(env, inner, op'.value, r, y, x);
      TextRead(env, Bin(inner, "", op'.value, r), text);
    } else {
      OperatorOf(d, b, x, y);
      OperatorOf(c, a, y, v);
      var inner := Bin(m, "", op'.value, r);
      BinIs(env, m, op'.value, r, b, x);
      BinIs(env, l, op.value, inner, a, y);
      assert text == Decimal(a) + [c] + (Decimal(b) + [d] + Decimal(x));
      TextRead(env, Bin(l, "", op.value, inner), text);
    }
  }

  lemma FiveMinusThree(env: Env)
    ensures Expr(env, "5-3", 0, NO_PAREN) == Ok(2, "", "3")
  {
    hide Expr;
    assert Decimal(5) == "5" && Decimal(3) == "3" && "5" + ['-'] + "3" == "5-3";
    BinaryText(env, 5, '-', 3, 2);
  }
}
