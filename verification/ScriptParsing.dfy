/** The evaluator computes the value of every tree from its text, and stops just past it. */
module ScriptParsing {
  import opened Arith
  import opened Options
  import opened Strtoul
  import opened ScriptEval
  import opened Operators
  import opened ScriptTrees

  /** Reading at priority `level` stops in front of `s`: what follows is an operator of a lower
      level, or the closing parenthesis if one is expected, or, if none is, anything else. */
  predicate Settles(s: string, level: nat, paren: bool) {
    var op := OpOf(Peek(s));
    if op.Some? then level > Level(op.value)
    else if Peek(s) == ')' then paren
    else !paren
  }

  /** `r` is what get_expression gives once its operand has the value `v`: it goes on reading at `s`;
      or faults; or is refused, and then the token in the buffer names no user variable. */
  predicate Continues(env: Env, r: Result, v: Value, s: string, token: string, p: nat, flags: Flags) {
    match v
    case Val(n) => r == Loop(env, n, s, token, p, flags)
    case DivisionByZero => r == Fault
    case Refused => RefusedFor(env, r)
  }

  predicate RefusedFor(env: Env, r: Result) {
    r.Fail? && UserValue(env, r.token).None?
  }

  predicate ArgsRefused(env: Env, r: ArgsResult) {
    r.ArgsFail? && UserValue(env, r.token).None?
  }

  lemma Settled(env: Env, v: Word, s: string, token: string, level: nat, paren: bool)
    requires Settles(s, level, paren)
    ensures Loop(env, v, s, token, level, Flags(paren, false)) == Ok(v, Skip(s), token)
  {
  }

  lemma {:induction false} SkipAgain(s: string)
    ensures Skip(Skip(s)) == Skip(s)
  {
  }

  lemma LoopSkips(env: Env, v: Word, s: string, token: string, p: nat, flags: Flags)
    ensures Loop(env, v, Skip(s), token, p, flags) == Loop(env, v, s, token, p, flags)
  {
    SkipAgain(s);
  }

  // ----- single steps ----------------------------------------------------------------

  lemma OperandParen(env: Env, ws: string, inner: string, flags: Flags)
    requires Spaces(ws)
    ensures Operand(env, ws + ['('] + inner, flags) == Expr(env, inner, 0, CLOSE_PAREN)
  {
    NoTokenRead(ws, '(', inner);
  }

  lemma OperandUnary(env: Env, ws: string, op: UnOp, inner: string, flags: Flags)
    requires Spaces(ws)
    ensures Operand(env, ws + [UnOpChar(op)] + inner, flags) ==
            Unary(op, Expr(env, inner, 3, flags.(eat := false)))
  {
    hide Expr, Skip, Peek, Loop, GetToken, ApplyUnary, Unary;
    NoTokenRead(ws, UnOpChar(op), inner);
  }

  lemma OperandNumber(env: Env, ws: string, tok: string, s: string, flags: Flags)
    requires Spaces(ws) && Token(tok) && TokenEnd(s) && IsDigit(tok[0]) && Read(tok, 0).1 == |tok|
    ensures Operand(env, ws + tok + s, flags) == Ok(Read(tok, 0).0, s, tok)
  {
    TokenRead(ws, tok, s);
  }

  lemma OperandVariable(env: Env, ws: string, tok: string, s: string, flags: Flags)
    requires Spaces(ws) && Token(tok) && TokenEnd(s) && !IsDigit(tok[0])
    ensures Operand(env, ws + tok + s, flags) == Variable(env, tok, s)
  {
    TokenRead(ws, tok, s);
  }

  lemma ExprContinues(env: Env, s: string, p: nat, flags: Flags, r: Result)
    requires Operand(env, s, flags) == r
    ensures r.Ok? ==> Expr(env, s, p, flags) == Loop(env, r.v, r.rest, r.token, p, flags)
    ensures !r.Ok? ==> Expr(env, s, p, flags) == r
  {
  }

  /** An operator of a high enough level is applied to the operand read at its own level. */
  lemma LoopOperator(env: Env, v: Word, ws: string, op: Op, right: string, token: string, p: nat, flags: Flags)
    requires Spaces(ws) && p <= Level(op)
    ensures Loop(env, v, ws + [OpChar(op)] + right, token, p, flags) ==
            match Expr(env, right, Level(op), flags.(eat := false))
            case Ok(b, rest, token') =>
              if Divides(op) && b == 0 then Fault
              else Loop(env, Apply(op, v, b), rest, token', p, flags)
            case Fail(rest, token') => Fail(rest, token')
            case Fault => Fault
  {
    NoTokenRead(ws, OpChar(op), right);
    OpOfChar(op);
  }

  lemma OpOfChar(op: Op)
    ensures OpOf(OpChar(op)) == Some(op)
  {
  }

  /** A closing parenthesis that is expected and to be eaten is eaten. */
  lemma LoopClose(env: Env, v: Word, ws: string, s: string, token: string)
    requires Spaces(ws)
    ensures Loop(env, v, ws + [')'] + s, token, 0, CLOSE_PAREN) == Ok(v, s, token)
    ensures forall level :: Settles(ws + [')'] + s, level, true)
  {
    hide Expr, Apply, Skip, Peek, Level;
    assert OpOf(')') == None;
    NoTokenRead(ws, ')', s);
  }

  /** A comma ends an expression outside parentheses. */
  lemma LoopComma(env: Env, v: Word, ws: string, s: string, token: string)
    requires Spaces(ws)
    ensures Loop(env, v, ws + [','] + s, token, 0, NO_PAREN) == Ok(v, [','] + s, token)
    ensures forall level :: Settles(ws + [','] + s, level, false)
    ensures Peek([','] + s) == ',' && Skip([','] + s)[1..] == s
  {
    NoTokenRead(ws, ',', s);
  }

  // ----- texts -----------------------------------------------------------------------

  lemma GroupText(ws: string, body: string, ws': string, s: string)
    ensures ws + "(" + body + ws' + ")" + s == ws + ['('] + (body + (ws' + [')'] + s))
  {
  }

  lemma ParenText(body: string)
    ensures "" + "(" + body + "" + ")" == "(" + body + ")"
  {
  }

  lemma PrefixText(ws: string, c: char, body: string, s: string)
    ensures ws + [c] + body + s == ws + [c] + (body + s)
  {
  }

  lemma InfixText(l: string, ws: string, c: char, r: string, s: string)
    ensures l + ws + [c] + r + s == l + (ws + [c] + (r + s))
  {
  }

  lemma CallText(ws: string, tok: string, ws': string, args: string, s: string)
    ensures ws + tok + ws' + "(" + args + s == ws + tok + (ws' + ['('] + (args + s))
  {
  }

  lemma LastText(e: string, ws: string, s: string)
    ensures e + ws + ")" + s == e + (ws + [')'] + s)
  {
  }

  lemma MoreText(e: string, ws: string, rest: string, s: string)
    ensures e + ws + "," + rest + s == e + (ws + [','] + (rest + s))
  {
  }

  // ----- trees -----------------------------------------------------------------------

  /** The text of a tree reads as its value, after which reading goes on at the same priority. */
  lemma {:induction false} ReadsBody(env: Env, t: Tree, p: nat, flags: Flags, s: string)
    requires Good(env, t) && p <= LevelOf(t)
    requires TokenEnd(s) && (LevelOf(t) < 4 ==> Settles(s, LevelOf(t), flags.paren))
    ensures Continues(env, Expr(env, Body(t) + s, p, flags), Eval(env, t), s, LastToken(t), p, flags)
    decreases t, 1
  {
    match t
    case Num(ws, tok) =>
      OperandNumber(env, ws, tok, s, flags);
    case Name(ws, tok) =>
      OperandVariable(env, ws, tok, s, flags);
      ReadsName(env, tok, s);
    case Call(ws, tok, ws', args) =>
      ReadsCall(env, ws, tok, ws', args, p, flags, s);
    case Un(ws, op, e) =>
      ReadsUnary(env, ws, op, e, p, flags, s);
    case Bin(l, ws, op, r) =>
      ReadsBinary(env, l, ws, op, r, p, flags, s);
    case Group(ws, e, ws') =>
      ReadsGroup(env, ws, e, ws', p, flags, s);
  }

  /** The same for a tree in a place that may want parentheses around it. */
  lemma {:induction false} Reads(env: Env, t: Tree, min: nat, p: nat, flags: Flags, s: string)
    requires Good(env, t) && p <= 4 && (min <= LevelOf(t) ==> p <= LevelOf(t))
    requires TokenEnd(s) && (min <= LevelOf(t) < 4 ==> Settles(s, LevelOf(t), flags.paren))
    ensures Continues(env, Expr(env, Render(t, min) + s, p, flags), Eval(env, t), s, LastToken(t), p, flags)
    decreases t, 3
  {
    if LevelOf(t) < min {
      assert Render(t, 0) == Body(t);
      ReadsGroup(env, "", t, "", p, flags, s);
      ParenText(Body(t));
    } else {
      ReadsBody(env, t, p, flags, s);
    }
  }

  lemma {:induction false} ReadsGroup(env: Env, ws: string, e: Tree, ws': string, p: nat, flags: Flags, s: string)
    requires Spaces(ws) && Spaces(ws') && Good(env, e)
    ensures Continues(env, Expr(env, ws + "(" + Render(e, 0) + ws' + ")" + s, p, flags),
                      Eval(env, e), s, LastToken(e), p, flags)
    decreases e, 2
  {
    var close := ws' + [')'] + s;
    var inner := Render(e, 0) + close;
    GroupText(ws, Render(e, 0), ws', s);
    OperandParen(env, ws, inner, flags);
    ClosesToken(ws', ')', s);
    LoopClose(env, if Eval(env, e).Val? then Eval(env, e).v else 0, ws', s, LastToken(e));
    assert Render(e, 0) == Body(e);
    ReadsBody(env, e, 0, CLOSE_PAREN, close);
    ExprContinues(env, ws + ['('] + inner, p, flags, Expr(env, inner, 0, CLOSE_PAREN));
  }

  /** White space and a character that is not alphanumeric end a token. */
  lemma ClosesToken(ws: string, c: char, s: string)
    requires Spaces(ws) && !IsAlnum(c)
    ensures TokenEnd(ws + [c] + s)
  {
  }

  lemma {:induction false} ReadsUnary(env: Env, ws: string, op: UnOp, e: Tree, p: nat, flags: Flags, s: string)
    requires Spaces(ws) && Good(env, e) && p <= 3
    requires TokenEnd(s) && Settles(s, 3, flags.paren)
    ensures Continues(env, Expr(env, ws + [UnOpChar(op)] + Render(e, 3) + s, p, flags),
                      Eval(env, Un(ws, op, e)), s, LastToken(e), p, flags)
    decreases e, 4
  {
    hide Loop, Expr, Operand, Skip, Peek, Render, LastToken, ApplyUnary, UnaryComputes;
    var inner := Render(e, 3) + s;
    PrefixText(ws, UnOpChar(op), Render(e, 3), s);
    OperandUnary(env, ws, op, inner, flags);
    Reads(env, e, 3, 3, flags.(eat := false), s);
    ExprContinues(env, ws + [UnOpChar(op)] + inner, p, flags, Unary(op, Expr(env, inner, 3, flags.(eat := false))));
    var v := Eval(env, e);
    if v.Val? {
      Settled(env, v.v, s, LastToken(e), 3, flags.paren);
      UnaryApplyIsComputed(op, v.v);
      LoopSkips(env, ApplyUnary(op, v.v), s, LastToken(e), p, flags);
    }
  }

  lemma {:induction false} ReadsBinary(env: Env, l: Tree, ws: string, op: Op, r: Tree, p: nat, flags: Flags, s: string)
    requires Good(env, Bin(l, ws, op, r)) && p <= Level(op)
    requires TokenEnd(s) && Settles(s, Level(op), flags.paren)
    ensures Continues(env, Expr(env, Body(Bin(l, ws, op, r)) + s, p, flags),
                      Eval(env, Bin(l, ws, op, r)), s, LastToken(r), p, flags)
    decreases Bin(l, ws, op, r), 0
  {
    hide Loop, Expr, Operand, Skip, Peek, Apply, BinaryValue;
    var right := Render(r, Level(op)) + s;
    var after := ws + [OpChar(op)] + right;
    InfixText(Render(l, Level(op) + 1), ws, OpChar(op), Render(r, Level(op)), s);
    NoTokenRead(ws, OpChar(op), right);
    OpOfChar(op);
    ClosesToken(ws, OpChar(op), right);
    Reads(env, l, Level(op) + 1, p, flags, after);
    var a := Eval(env, l);
    if a.Val? {
      ReadsRight(env, a.v, ws, op, r, LastToken(l), p, flags, s);
    }
  }

  /** An operator and its right operand, read after a left operand of value `a`. */
  lemma {:induction false} ReadsRight(env: Env, a: Word, ws: string, op: Op, r: Tree, token: string,
                                      p: nat, flags: Flags, s: string)
    requires Spaces(ws) && Good(env, r) && p <= Level(op)
    requires TokenEnd(s) && Settles(s, Level(op), flags.paren)
    ensures var b := Eval(env, r);
            var v := if b.Val? then BinaryValue(op, a, b.v) else b;
            Continues(env, Loop(env, a, ws + [OpChar(op)] + (Render(r, Level(op)) + s), token, p, flags),
                      v, s, LastToken(r), p, flags)
    decreases r, 4
  {
    hide Expr, Loop, Skip, Peek, Apply, Computes, Render, Good, Eval, LastToken;
    LoopOperator(env, a, ws, op, Render(r, Level(op)) + s, token, p, flags);
    Reads(env, r, Level(op), Level(op), flags.(eat := false), s);
    var b := Eval(env, r);
    if b.Val? {
      Settled(env, b.v, s, LastToken(r), Level(op), flags.paren);
      if !(Divides(op) && b.v == 0) {
        ApplyIsComputed(op, a, b.v);
        LoopSkips(env, Apply(op, a, b.v), s, LastToken(r), p, flags);
      }
    }
  }

  lemma ReadsName(env: Env, tok: string, s: string)
    requires Lookup(env, tok).Some?
    requires var k := Lookup(env, tok).value; k.Integer? || k.Str? || (k.Func? && k.nargs == 0)
    ensures CallValue(Lookup(env, tok).value, []).Val?
    ensures Variable(env, tok, s) == Ok(CallValue(Lookup(env, tok).value, []).v, s, tok)
  {
    assert GetArgs(env, tok, s, 0) == ArgsOk([], s, tok);
  }

  lemma {:induction false} FoundIn(name: string, vars: seq<Var>)
    ensures var k := FindVar(name, vars); k.Some? ==> exists i :: 0 <= i < |vars| && k.value == vars[i].kind
  {
    if vars != [] && !SameName(name, vars[0].name) {
      FoundIn(name, vars[1..]);
    }
  }

  /** The second look at a name finds the user variable of that name or nothing. */
  lemma LooksAgain(env: Env, token: string, s: string)
    ensures GetVar(env, token, s, env.user) ==
            match UserValue(env, token)
            case Some(v) => Ok(v, s, token)
            case None => Fail(s, token)
  {
    FoundIn(token, env.user);
  }

  /** A call reads its arguments and then has the value of the call; if the arguments are not read or
      the index is refused, the token they end with is looked up instead. */
  lemma VariableCall(env: Env, tok: string, ws: string, list: string, count: nat)
    requires Spaces(ws) && Lookup(env, tok).Some? && 0 < count
    requires var k := Lookup(env, tok).value; (k.Func? && k.nargs == count) || (k.BitSet? && count == 1)
    ensures Variable(env, tok, ws + ['('] + list) ==
            match ArgList(env, list, count)
            case ArgsFault => Fault
            case ArgsFail(rest, token) => GetVar(env, token, rest, env.user)
            case ArgsOk(vs, rest, token) =>
              match CallValue(Lookup(env, tok).value, vs)
              case Val(v) => Ok(v, rest, token)
              case _ => GetVar(env, token, rest, env.user)
  {
    hide ArgList, Skip, Peek;
    FoundIn(tok, env.user);
    NoTokenRead(ws, '(', list);
    assert GetArgs(env, tok, ws + ['('] + list, count) == ArgList(env, list, count);
  }

  lemma {:induction false} ReadsCall(env: Env, ws: string, tok: string, ws': string, args: Args,
                                     p: nat, flags: Flags, s: string)
    requires Good(env, Call(ws, tok, ws', args))
    ensures Continues(env, Expr(env, Body(Call(ws, tok, ws', args)) + s, p, flags),
                      Eval(env, Call(ws, tok, ws', args)), s, LastTokenOf(args), p, flags)
    decreases args, 3
  {
    var list := RenderArgs(args) + s;
    var after := ws' + ['('] + list;
    CallText(ws, tok, ws', RenderArgs(args), s);
    ClosesToken(ws', '(', list);
    OperandVariable(env, ws, tok, after, flags);
    ReadsArgs(env, args, s);
    VariableCall(env, tok, ws', list, Count(args));
    var r := ArgList(env, list, Count(args));
    if !r.ArgsFault? {
      LooksAgain(env, r.token, r.rest);
    }
    ExprContinues(env, ws + tok + after, p, flags, Variable(env, tok, after));
  }

  lemma {:induction false} ReadsBeforeComma(env: Env, e: Tree, ws: string, rest: string)
    requires Good(env, e) && Spaces(ws)
    ensures Peek([','] + rest) == ',' && Skip([','] + rest)[1..] == rest
    ensures var r := Expr(env, Render(e, 0) + (ws + [','] + rest), 0, NO_PAREN);
            match Eval(env, e)
            case Val(v) => r == Ok(v, [','] + rest, LastToken(e))
            case DivisionByZero => r == Fault
            case Refused => RefusedFor(env, r)
    decreases e, 2
  {
    hide Expr, Loop;
    var comma := ws + [','] + rest;
    ClosesToken(ws, ',', rest);
    LoopComma(env, if Eval(env, e).Val? then Eval(env, e).v else 0, ws, rest, LastToken(e));
    assert Render(e, 0) == Body(e);
    ReadsBody(env, e, 0, NO_PAREN, comma);
  }

  /** A list of arguments reads as their values, up to and including its closing parenthesis. */
  lemma {:induction false} ReadsArgs(env: Env, args: Args, s: string)
    requires GoodArgs(env, args)
    ensures var r := ArgList(env, RenderArgs(args) + s, Count(args));
            match EvalArgs(env, args)
            case Vals(vs) => r == ArgsOk(vs, s, LastTokenOf(args))
            case NoVals(DivisionByZero) => r == ArgsFault
            case NoVals(_) => ArgsRefused(env, r)
    decreases args, 2
  {
    hide Expr, Loop, Skip, Peek;
    if args.Last? {
      var close := args.ws + [')'] + s;
      LastText(Render(args.e, 0), args.ws, s);
      ClosesToken(args.ws, ')', s);
      LoopClose(env, if Eval(env, args.e).Val? then Eval(env, args.e).v else 0, args.ws, s, LastToken(args.e));
      assert Render(args.e, 0) == Body(args.e);
      ReadsBody(env, args.e, 0, CLOSE_PAREN, close);
    } else {
      var rest := RenderArgs(args.rest) + s;
      MoreText(Render(args.e, 0), args.ws, RenderArgs(args.rest), s);
      ReadsBeforeComma(env, args.e, args.ws, rest);
      if Eval(env, args.e).Val? {
        ReadsArgs(env, args.rest, s);
      }
    }
  }

  // ----- the result ------------------------------------------------------------------

  /** For every tree, however it is spaced and nested, get_expression on its text, at the end of the
      input or in front of a comma, stores the value of the tree and stops just past the text; or
      divides by zero, or is refused, if evaluating the tree does or is. */
  lemma EvaluatesTrees(env: Env, t: Tree, s: string)
    requires Good(env, t)
    requires s == "" || s[0] == ','
    ensures var r := Expr(env, Render(t, 0) + s, 0, NO_PAREN);
            match Eval(env, t)
            case Val(v) => r == Ok(v, s, LastToken(t))
            case DivisionByZero => r == Fault
            case Refused => r.Fail?
    ensures InRange(env, t) ==> Eval(env, t) != Refused
  {
    hide Operand, Expr;
    assert Render(t, 0) == Body(t);
    assert Skip(s) == s;
    ReadsBody(env, t, 0, NO_PAREN, s);
    if InRange(env, t) {
      InRangeNotRefused(env, t);
    }
  }

  /** An index out of range is refused exactly when the last token read with it names no user variable;
      otherwise the call silently has the value of that variable. */
  lemma RefusedExactly(env: Env, ws: string, tok: string, ws': string, args: Args, s: string)
    requires Good(env, Call(ws, tok, ws', args)) && (s == "" || s[0] == ',')
    requires Lookup(env, tok).value.BitSet? && EvalArgs(env, args).Vals?
    requires EvalArgs(env, args).vs[0] > Lookup(env, tok).value.size
    ensures var r := Expr(env, Body(Call(ws, tok, ws', args)) + s, 0, NO_PAREN);
            && (r.Fail? <==> FindVar(LastTokenOf(args), env.user).None?)
            && (!r.Fail? ==> UserValue(env, LastTokenOf(args)).Some? &&
                             r == Ok(UserValue(env, LastTokenOf(args)).value, s, LastTokenOf(args)))
  {
    var call := Call(ws, tok, ws', args);
    FoundIn(LastTokenOf(args), env.user);
    EvaluatesTrees(env, call, s);
  }

  /** With IGPIO a set of bits 0 to 84 and N = 100, IGPIO(N) is not refused but has the value 100. */
  lemma BadIndexAccepted(env: Env, bits: nat -> bool)
    requires env == Env([Var("IGPIO", BitSet(bits, 84))], [Var("N", Integer(100))])
    ensures Expr(env, "IGPIO(N)", 0, NO_PAREN) == Ok(100, "", "N")
  {
    hide Expr, Loop, Operand, Variable;
    var n := Name("", "N");
    var args := Last(n, "");
    var call := Call("", "IGPIO", "", args);
    OneVariable("IGPIO", env.script[0]);
    OneVariable("N", env.script[0]);
    OneVariable("N", env.user[0]);
    assert Good(env, n) && Good(env, call);
    assert Eval(env, n) == Val(100) && EvalArgs(env, args) == Vals([100]);
    RefusedExactly(env, "", "IGPIO", "", args, "");
    assert Render(n, 0) == "N" && RenderArgs(args) == "N)";
    assert Body(call) + "" == "IGPIO(N)";
  }

  /** Operators of one level group to the right: the text a - b - c, without parentheses, is the text
      of a - (b - c), so by EvaluatesTrees that is how it evaluates. */
  lemma GroupsRight(a: Tree, b: Tree, c: Tree, op: Op, op': Op)
    requires LevelOf(a) > Level(op) && LevelOf(b) > Level(op) && Level(op') == Level(op)
    ensures Render(Bin(a, "", op, Bin(b, "", op', c)), 0) ==
            Body(a) + [OpChar(op)] + (Body(b) + [OpChar(op')] + Render(c, Level(op)))
  {
    var inner := Bin(b, "", op', c);
    BinText(b, op', c);
    assert Render(inner, Level(op)) == Body(inner);
    BinText(a, op, inner);
  }

  lemma BinText(l: Tree, op: Op, r: Tree)
    requires LevelOf(l) > Level(op)
    ensures Body(Bin(l, "", op, r)) == Body(l) + [OpChar(op)] + Render(r, Level(op))
  {
    assert Render(l, Level(op) + 1) == Body(l);
    NoSpace(Body(l), OpChar(op), Render(r, Level(op)));
  }

  lemma NoSpace(l: string, c: char, r: string)
    ensures l + "" + [c] + r == l + [c] + r
  {
  }

  // ----- parentheses that do not match -----------------------------------------------

  /** Reading inside or outside parentheses cannot end in front of `s`, nor go on: there is no
      operator, and a closing parenthesis exactly where none is expected. */
  predicate Stuck(s: string, paren: bool) {
    TokenEnd(s) && OpOf(Peek(s)).None? && (Peek(s) == ')' <==> !paren)
  }

  /** `r` is what comes of reading up to such a place, or not as far as that. */
  predicate CutShort(env: Env, r: Result, v: Value, rest: string, token: string) {
    match v
    case Val(_) => r == Fail(rest, token)
    case DivisionByZero => r == Fault
    case Refused => RefusedFor(env, r)
  }

  lemma LoopStuck(env: Env, v: Word, s: string, token: string, p: nat, flags: Flags)
    requires Stuck(s, flags.paren)
    ensures Loop(env, v, s, token, p, flags) == Fail(Skip(s), token)
  {
  }

  lemma {:induction false} StuckBody(env: Env, t: Tree, p: nat, flags: Flags, s: string)
    requires Good(env, t) && p <= LevelOf(t) && Stuck(s, flags.paren)
    ensures CutShort(env, Expr(env, Body(t) + s, p, flags), CutOff(env, t), Skip(s), LastToken(t))
    decreases t, 1
  {
    hide Expr, Loop, Skip, Peek;
    match t
    case Un(ws, op, e) =>
      var inner := Render(e, 3) + s;
      PrefixText(ws, UnOpChar(op), Render(e, 3), s);
      OperandUnary(env, ws, op, inner, flags);
      StuckIn(env, e, 3, 3, flags.(eat := false), s);
      ExprContinues(env, ws + [UnOpChar(op)] + inner, p, flags, Unary(op, Expr(env, inner, 3, flags.(eat := false))));
    case Bin(l, ws, op, r) =>
      StuckBinary(env, l, ws, op, r, p, flags, s);
    case _ =>
      ReadsBody(env, t, p, flags, s);
      var v := Eval(env, t);
      if v.Val? {
        LoopStuck(env, v.v, s, LastToken(t), p, flags);
      }
  }

  lemma {:induction false} StuckBinary(env: Env, l: Tree, ws: string, op: Op, r: Tree, p: nat, flags: Flags, s: string)
    requires Good(env, Bin(l, ws, op, r)) && p <= Level(op) && Stuck(s, flags.paren)
    ensures CutShort(env, Expr(env, Body(Bin(l, ws, op, r)) + s, p, flags),
                     CutOff(env, Bin(l, ws, op, r)), Skip(s), LastToken(r))
    decreases Bin(l, ws, op, r), 0
  {
    hide Expr, Loop, Skip, Peek, Render, Apply;
    var right := Render(r, Level(op)) + s;
    var after := ws + [OpChar(op)] + right;
    InfixText(Render(l, Level(op) + 1), ws, OpChar(op), Render(r, Level(op)), s);
    NoTokenRead(ws, OpChar(op), right);
    OpOfChar(op);
    ClosesToken(ws, OpChar(op), right);
    Reads(env, l, Level(op) + 1, p, flags, after);
    var a := Eval(env, l);
    if a.Val? {
      StuckRight(env, a.v, ws, op, r, LastToken(l), p, flags, s);
    }
  }

  lemma {:induction false} StuckRight(env: Env, a: Word, ws: string, op: Op, r: Tree, token: string,
                                      p: nat, flags: Flags, s: string)
    requires Spaces(ws) && Good(env, r) && p <= Level(op) && Stuck(s, flags.paren)
    ensures CutShort(env, Loop(env, a, ws + [OpChar(op)] + (Render(r, Level(op)) + s), token, p, flags),
                     CutOffIn(env, r, Level(op)), Skip(s), LastToken(r))
    decreases r, 3
  {
    hide Expr, Loop, Skip, Peek, Render, Apply, Good, CutOffIn, LastToken;
    LoopOperator(env, a, ws, op, Render(r, Level(op)) + s, token, p, flags);
    StuckIn(env, r, Level(op), Level(op), flags.(eat := false), s);
  }

  lemma {:induction false} StuckIn(env: Env, t: Tree, min: nat, p: nat, flags: Flags, s: string)
    requires Good(env, t) && p <= 4 && (min <= LevelOf(t) ==> p <= LevelOf(t)) && Stuck(s, flags.paren)
    ensures CutShort(env, Expr(env, Render(t, min) + s, p, flags), CutOffIn(env, t, min), Skip(s), LastToken(t))
    decreases t, 2
  {
    if LevelOf(t) < min {
      Reads(env, t, min, p, flags, s);
      var v := Eval(env, t);
      if v.Val? {
        LoopStuck(env, v.v, s, LastToken(t), p, flags);
      }
    } else {
      StuckBody(env, t, p, flags, s);
    }
  }

  /** White space does not help. */
  lemma StuckSpaces(ws: string, s: string, paren: bool)
    requires Spaces(ws) && Stuck(s, paren)
    ensures Stuck(ws + s, paren) && Skip(ws + s) == Skip(s)
  {
    SkipSpacesOf(ws, s);
    assert ws == [] ==> ws + s == s;
  }

  /** A list of arguments that is not closed, or goes on too long, is not read. */
  lemma {:induction false} ReadsCut(env: Env, args: Args, s: string)
    requires GoodArgs(env, args) && Stuck(s, true)
    ensures var r := ArgList(env, RenderCut(args) + s, Count(args));
            match CutOffArgs(env, args)
            case Val(_) => r == ArgsFail(Skip(s), LastTokenOf(args))
            case DivisionByZero => r == ArgsFault
            case Refused => ArgsRefused(env, r)
    decreases args
  {
    hide Expr, Loop, Skip, Peek;
    assert Render(args.e, 0) == Body(args.e);
    if args.Last? {
      StuckSpaces(args.ws, s, true);
      assert RenderCut(args) + s == Body(args.e) + (args.ws + s);
      StuckBody(env, args.e, 0, CLOSE_PAREN, args.ws + s);
    } else {
      var rest := RenderCut(args.rest) + s;
      MoreText(Render(args.e, 0), args.ws, RenderCut(args.rest), s);
      ReadsBeforeComma(env, args.e, args.ws, rest);
      if Eval(env, args.e).Val? {
        ReadsCut(env, args.rest, s);
      }
    }
  }

  /** The token buffer is static, so a name that is looked up a second time, after its arguments failed
      to be read, is no longer that name.  For every built-in function and every list of arguments with
      its closing parenthesis missing, or with something else in its place, the call is accepted exactly
      when its arguments can be read as far as they go and the last token of them names a user variable;
      its value is then that variable's. */
  lemma UnclosedExactly(env: Env, ws: string, tok: string, ws': string, args: Args, s: string)
    requires Good(env, Call(ws, tok, ws', args)) && Stuck(s, true)
    ensures var r := Expr(env, ws + tok + ws' + "(" + RenderCut(args) + s, 0, NO_PAREN);
            && (r.Ok? <==> CutOffArgs(env, args).Val? && FindVar(LastTokenOf(args), env.user).Some?)
            && (r.Ok? ==> UserValue(env, LastTokenOf(args)).Some? &&
                          r == Ok(UserValue(env, LastTokenOf(args)).value, Skip(s), LastTokenOf(args)))
  {
    hide Expr, Skip, Peek;
    var list := RenderCut(args) + s;
    var after := ws' + ['('] + list;
    CallText(ws, tok, ws', RenderCut(args), s);
    ClosesToken(ws', '(', list);
    OperandVariable(env, ws, tok, after, NO_PAREN);
    ReadsCut(env, args, s);
    VariableCall(env, tok, ws', list, Count(args));
    var a := ArgList(env, list, Count(args));
    if !a.ArgsFault? {
      LooksAgain(env, a.token, a.rest);
    }
    FoundIn(LastTokenOf(args), env.user);
    ExprContinues(env, ws + tok + after, 0, NO_PAREN, Variable(env, tok, after));
    if a == ArgsFail(Skip(s), LastTokenOf(args)) && UserValue(env, LastTokenOf(args)).Some? {
      LoopSkips(env, UserValue(env, LastTokenOf(args)).value, s, LastTokenOf(args), 0, NO_PAREN);
      LoopEnds(env, UserValue(env, LastTokenOf(args)).value, s, LastTokenOf(args));
    }
  }

  lemma LoopEnds(env: Env, v: Word, s: string, token: string)
    requires Stuck(s, true)
    ensures Loop(env, v, s, token, 0, NO_PAREN) == Ok(v, Skip(s), token)
  {
  }

  /** An opening parenthesis that is not closed is never accepted. */
  lemma UnclosedGroupRefused(env: Env, ws: string, e: Tree, ws': string, s: string)
    requires Good(env, e) && Spaces(ws) && Spaces(ws') && Stuck(s, true)
    ensures !Expr(env, ws + "(" + Render(e, 0) + ws' + s, 0, NO_PAREN).Ok?
  {
    assert Render(e, 0) == Body(e);
    hide Expr, Loop, Operand, Skip, Peek, Stuck, CutOff, Body, Render, Good;
    var inner := Body(e) + (ws' + s);
    CutText(ws, Body(e), ws', s);
    StuckSpaces(ws', s, true);
    StuckBody(env, e, 0, CLOSE_PAREN, ws' + s);
    OperandParen(env, ws, inner, NO_PAREN);
    ExprContinues(env, ws + ['('] + inner, 0, NO_PAREN, Expr(env, inner, 0, CLOSE_PAREN));
  }

  lemma CutText(ws: string, body: string, ws': string, s: string)
    ensures ws + "(" + body + ws' + s == ws + ['('] + (body + (ws' + s))
  {
  }

  /** Nor is a closing parenthesis too many. */
  lemma SurplusRefused(env: Env, e: Tree, ws: string, s: string)
    requires Good(env, e) && Spaces(ws)
    ensures !Expr(env, Render(e, 0) + (ws + [')'] + s), 0, NO_PAREN).Ok?
  {
    assert Render(e, 0) == Body(e);
    hide Expr, Loop, Operand, Skip, Peek, Stuck, CutOff, Body, Render, Good;
    CloseStuck(ws, s);
    StuckBody(env, e, 0, NO_PAREN, ws + [')'] + s);
  }

  lemma CloseStuck(ws: string, s: string)
    requires Spaces(ws)
    ensures Stuck(ws + [')'] + s, false)
  {
    hide Skip, Peek;
    NoTokenRead(ws, ')', s);
    ClosesToken(ws, ')', s);
    assert OpOf(')') == None;
  }

  lemma EndStuck()
    ensures Stuck("", true) && Skip("") == ""
  {
  }

  lemma OneVariable(name: string, x: Var)
    ensures FindVar(name, [x]) == if SameName(name, x.name) then Some(x.kind) else None
  {
    assert FindVar(name, [x][1..]) == None;
  }

  /** Where V2P takes one argument and N is a user variable, the unclosed call V2P(1+N is not refused
      but has the value of N. */
  lemma UnclosedCallAccepted(env: Env, f: seq<Word> -> Word, n: Word)
    requires env == Env([Var("V2P", Func(1, f))], [Var("N", Integer(n))])
    ensures Expr(env, "V2P(1+N", 0, NO_PAREN) == Ok(n, "", "N")
  {
    hide Expr, Loop, Operand, Variable, Stuck;
    OneVariable("N", env.script[0]);
    OneVariable("V2P", env.script[0]);
    OneVariable("N", env.user[0]);
    var sum := Bin(Num("", "1"), "", Add, Name("", "N"));
    var args := Last(sum, "");
    OnePlus(env, n);
    OnePlusText();
    assert Good(env, Call("", "V2P", "", args)) && CutOffArgs(env, args) == Val(n);
    EndStuck();
    UnclosedExactly(env, "", "V2P", "", args, "");
    assert Render(sum, 0) == "1+N" && RenderCut(args) == "1+N";
    assert "" + "V2P" + "" + "(" + "1+N" + "" == "V2P(1+N";
  }

  lemma OnePlus(env: Env, n: Word)
    requires Lookup(env, "N") == Some(Integer(n))
    ensures var sum := Bin(Num("", "1"), "", Add, Name("", "N"));
            Good(env, sum) && CutOffArgs(env, Last(sum, "")) == CutOff(env, sum) == Val(n)
  {
    var one, name := Num("", "1"), Name("", "N");
    ReadOne();
    assert Eval(env, one) == Val(1) && Eval(env, name) == Val(n) && LevelOf(name) == 4;
  }

  lemma OnePlusText()
    ensures var sum := Bin(Num("", "1"), "", Add, Name("", "N")); Body(sum) == "1+N" && LastToken(sum) == "N"
  {
    var one, name := Num("", "1"), Name("", "N");
    assert Render(one, 2) == "1" && Render(name, 1) == "N";
  }

  lemma ReadOne()
    ensures var s := "1"; s[0] == '1' && Read(s, 0) == (1, 1)
  {
    assert NumberIn("1", 0, 0, 10) == 0;
    assert DigitsEnd("1", 1, 10) == 1;
  }
}
