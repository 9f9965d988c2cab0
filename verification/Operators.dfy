/** What the operators of the HaRET script language mean: 32-bit arithmetic, stated by the laws each
    result obeys and not by how it is computed. */
module Operators {
  import opened Arith
  import opened Options
  import opened Strtoul
  import opened ScriptEval

  /** `x` and `y` are the same modulo 2^32. */
  ghost predicate Congruent(x: int, y: int) {
    (x - y) % TWO32 == 0
  }

  ghost predicate Divided(a: nat, b: nat, q: nat, r: nat) {
    a == q * b + r && r < b
  }

  /** `v` is what the operator written `c` gives for `a` and `b`. */
  ghost predicate Computes(c: char, a: Word, b: Word, v: Word) {
    match c
    case '+' => Congruent(v, a + b)
    case '-' => Congruent(v + b, a)
    case '*' => Congruent(v, a * b)
    case '/' => exists r: nat :: Divided(a, b, v, r)
    case '%' => exists q: nat :: Divided(a, b, q, v)
    case '|' => forall i: nat :: i < 32 ==> (HasBit(v, i) <==> HasBit(a, i) || HasBit(b, i))
    case '^' => forall i: nat :: i < 32 ==> (HasBit(v, i) <==> HasBit(a, i) != HasBit(b, i))
    case '&' => forall i: nat :: i < 32 ==> (HasBit(v, i) <==> HasBit(a, i) && HasBit(b, i))
    case _ => false
  }

  /** `v` is what the unary operator written `c` gives for `a`. */
  ghost predicate UnaryComputes(c: char, a: Word, v: Word) {
    match c
    case '+' => v == a
    case '-' => Congruent(v + a, 0)
    case '~' => forall i: nat :: i < 32 ==> (HasBit(v, i) <==> !HasBit(a, i))
    case _ => false
  }

  // ----- the laws fix the results ----------------------------------------------------

  /** Words that are congruent to one number, when `d` is added to them, are equal. */
  lemma CongruentOnce(v: Word, w: Word, d: nat, x: int)
    requires Congruent(v + d, x) && Congruent(w + d, x)
    ensures v == w
  {
    assert (v + d - x) - (w + d - x) == v - w;
  }

  lemma DividedOnce(a: nat, b: nat, q: nat, r: nat)
    requires Divided(a, b, q, r)
    ensures 0 < b && q == a / b && r == a % b
  {
    OneMore(q, b);
    MulMono(0, q, b);
    DivUnique(a, b, q);
  }

  lemma {:induction false} SameDigits(v: nat, w: nat, n: nat)
    requires v < Pow2(n) && w < Pow2(n) && forall i: nat :: i < n ==> (HasBit(v, i) <==> HasBit(w, i))
    ensures v == w
  {
    if n != 0 {
      hide HasBit;
      HasBitHalf(v, 0);
      HasBitHalf(w, 0);
      forall i: nat | i < n - 1 ensures HasBit(v / 2, i) <==> HasBit(w / 2, i) {
        HasBitHalf(v, i);
        HasBitHalf(w, i);
        assert HasBit(v, i + 1) <==> HasBit(w, i + 1);
      }
      SameDigits(v / 2, w / 2, n - 1);
    }
  }

  /** No two words are the result of one operation. */
  lemma ComputesOnce(c: char, a: Word, b: Word, v: Word, w: Word)
    requires Computes(c, a, b, v) && Computes(c, a, b, w)
    ensures v == w
  {
    hide HasBit, Congruent, Divided;
    Pow32();
    match c
    case '+' => CongruentOnce(v, w, 0, a + b);
    case '-' => CongruentOnce(v, w, b, a);
    case '*' => CongruentOnce(v, w, 0, a * b);
    case '/' =>
      var r: nat :| Divided(a, b, v, r);
      var r': nat :| Divided(a, b, w, r');
      DividedOnce(a, b, v, r);
      DividedOnce(a, b, w, r');
    case '%' =>
      var q: nat :| Divided(a, b, q, v);
      var q': nat :| Divided(a, b, q', w);
      DividedOnce(a, b, q, v);
      DividedOnce(a, b, q', w);
    case '|' => SameDigits(v, w, 32);
    case '^' => SameDigits(v, w, 32);
    case '&' => SameDigits(v, w, 32);
  }

  lemma UnaryComputesOnce(c: char, a: Word, v: Word, w: Word)
    requires UnaryComputes(c, a, v) && UnaryComputes(c, a, w)
    ensures v == w
  {
    hide HasBit;
    Pow32();
    match c
    case '+' =>
    case '-' => CongruentOnce(v, w, a, 0);
    case '~' => SameDigits(v, w, 32);
  }

  // ----- the evaluator obeys them ----------------------------------------------------

  lemma {:induction false} BitsAt(op: BitOp, a: nat, b: nat, n: nat, i: nat)
    requires i < n
    ensures HasBit(Bits(op, a, b, n), i) <==>
            match op
            case OrBits => HasBit(a, i) || HasBit(b, i)
            case XorBits => HasBit(a, i) != HasBit(b, i)
            case AndBits => HasBit(a, i) && HasBit(b, i)
  {
    hide HasBit;
    var j := if i == 0 then 0 else i - 1;
    HasBitHalf(a, j);
    HasBitHalf(b, j);
    HasBitHalf(Bits(op, a, b, n), j);
    assert Bits(op, a, b, n) / 2 == Bits(op, a / 2, b / 2, n - 1);
    if i != 0 {
      BitsAt(op, a / 2, b / 2, n - 1, i - 1);
    }
  }

  lemma {:induction false} Flipped(a: nat, n: nat, i: nat)
    requires a < Pow2(n) && i < n
    ensures HasBit(Pow2(n) - 1 - a, i) <==> !HasBit(a, i)
  {
    hide HasBit;
    var j, w := if i == 0 then 0 else i - 1, Pow2(n) - 1 - a;
    HasBitHalf(a, j);
    HasBitHalf(w, j);
    assert w / 2 == Pow2(n - 1) - 1 - a / 2 && (w % 2 == 1 <==> a % 2 == 0);
    if i != 0 {
      Flipped(a / 2, n - 1, i - 1);
    }
  }

  lemma BitsCompute(op: BitOp, a: Word, b: Word)
    ensures Bits(op, a, b, 32) < TWO32
    ensures var c := match op case OrBits => '|' case XorBits => '^' case AndBits => '&';
            Computes(c, a, b, Bits(op, a, b, 32))
  {
    hide HasBit, Bits;
    Pow32();
    forall i: nat | i < 32 {
      BitsAt(op, a, b, 32, i);
    }
  }

  lemma ModCongruent(x: int)
    ensures Congruent(x % TWO32, x)
  {
  }

  lemma DifferenceCongruent(a: Word, b: Word)
    ensures Congruent((a - b) % TWO32 + b, a)
  {
  }

  lemma DivModDivided(a: Word, b: Word)
    requires b != 0
    ensures a / b >= 0 && Divided(a, b, a / b, a % b) && Quotient(a, b) == a / b
  {
    DivBounds(a, b);
    DivMono(0, a, b);
  }

  lemma ApplyComputes(op: Op, a: Word, b: Word)
    requires Divides(op) ==> b != 0
    ensures Computes(OpChar(op), a, b, Apply(op, a, b))
  {
    hide HasBit, Bits, Congruent, Divided, Quotient;
    match op
    case Add => ModCongruent(a + b);
    case Sub => DifferenceCongruent(a, b);
    case Mul => ModCongruent(a * b);
    case Div => DivModDivided(a, b);
    case Mod => DivModDivided(a, b);
    case Or => BitsCompute(OrBits, a, b);
    case Xor => BitsCompute(XorBits, a, b);
    case And => BitsCompute(AndBits, a, b);
  }

  lemma UnaryApplyComputes(op: UnOp, a: Word)
    ensures UnaryComputes(UnOpChar(op), a, ApplyUnary(op, a))
  {
    hide HasBit;
    Pow32();
    if op == Not {
      forall i: nat | i < 32 { Flipped(a, 32, i); }
    }
  }

  /** The result of a binary operator that does not divide by zero. */
  ghost function Computed(op: Op, a: Word, b: Word): (v: Word)
    requires Divides(op) ==> b != 0
    ensures Computes(OpChar(op), a, b, v)
  {
    ApplyComputes(op, a, b);
    var v: Word :| Computes(OpChar(op), a, b, v);
    v
  }

  ghost function UnaryComputed(op: UnOp, a: Word): (v: Word)
    ensures UnaryComputes(UnOpChar(op), a, v)
  {
    UnaryApplyComputes(op, a);
    var v: Word :| UnaryComputes(UnOpChar(op), a, v);
    v
  }

  /** So the results are what the evaluator computes. */
  lemma ApplyIsComputed(op: Op, a: Word, b: Word)
    requires Divides(op) ==> b != 0
    ensures Computed(op, a, b) == Apply(op, a, b)
  {
    ApplyComputes(op, a, b);
    ComputesOnce(OpChar(op), a, b, Computed(op, a, b), Apply(op, a, b));
  }

  lemma UnaryApplyIsComputed(op: UnOp, a: Word)
    ensures UnaryComputed(op, a) == ApplyUnary(op, a)
  {
    UnaryApplyComputes(op, a);
    UnaryComputesOnce(UnOpChar(op), a, UnaryComputed(op, a), ApplyUnary(op, a));
  }

  /** The operators by their characters, and the level at which each binds. */
  lemma Levels(c: char)
    ensures c in "+-|^" <==> OpOf(c).Some? && Level(OpOf(c).value) == 1
    ensures c in "*/%&" <==> OpOf(c).Some? && Level(OpOf(c).value) == 2
  {
  }
}
