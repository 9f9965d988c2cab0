/** Expression trees of the HaRET script language, their values, and how they are written:
    unary operators bind tightest, then * / % &, then + - | ^, and operators of one level
    group to the right. */
module ScriptTrees {
  import opened Arith
  import opened Options
  import opened Strtoul
  import opened ScriptEval
  import opened Operators

  /** A tree, with the white space written before each of its tokens. */
  datatype Tree =
    | Num(ws: string, tok: string)
    | Name(ws: string, tok: string)
    | Call(ws: string, tok: string, ws': string, args: Args)
    | Un(ws: string, unop: UnOp, e: Tree)
    | Bin(l: Tree, ws: string, op: Op, r: Tree)
    | Group(ws: string, e: Tree, ws': string)

  datatype Args = Last(e: Tree, ws: string) | More(e: Tree, ws: string, rest: Args)

  // ----- values ----------------------------------------------------------------------

  datatype Value = Val(v: Word) | DivisionByZero | Refused

  datatype Values = Vals(vs: seq<Word>) | NoVals(why: Value)

  function Lookup(env: Env, x: string): Option<Kind> {
    var k := FindVar(x, env.script);
    if k.Some? then k else FindVar(x, env.user)
  }

  function Count(args: Args): (n: nat)
    ensures 0 < n
  {
    if args.Last? then 1 else 1 + Count(args.rest)
  }

  /** What a function or a bit set gives for its arguments; a bit set refuses an index out of range. */
  function CallValue(kind: Kind, vs: seq<Word>): Value {
    match kind
    case Func(_, f) => Val(f(vs))
    case BitSet(bits, size) =>
      if vs == [] || vs[0] > size then Refused else Val(if bits(vs[0]) then 1 else 0)
    case Integer(v) => Val(v)
    case Str(address) => Val(address)
  }

  /** What is left of a call that was refused: its name is looked up once more, in a buffer that by
      then holds the last token of its arguments. */
  function SecondLook(env: Env, token: string): Value {
    match UserValue(env, token)
    case Some(v) => Val(v)
    case None => Refused
  }

  /** The value the laws of an operator fix. */
  ghost function BinaryValue(op: Op, a: Word, b: Word): Value {
    if Divides(op) && b == 0 then DivisionByZero else Val(Computed(op, a, b))
  }

  /** The value of a tree in 32-bit arithmetic, from left to right. */
  ghost function Eval(env: Env, t: Tree): Value
    requires Good(env, t)
  {
    match t
    case Num(_, tok) => Val(Read(tok, 0).0)
    case Name(_, tok) => CallValue(Lookup(env, tok).value, [])
    case Call(_, tok, _, args) =>
      (match EvalArgs(env, args)
       case Vals(vs) =>
         var v := CallValue(Lookup(env, tok).value, vs);
         if v == Refused then SecondLook(env, LastTokenOf(args)) else v
       case NoVals(why) => why)
    case Un(_, op, e) =>
      var v := Eval(env, e);
      if v.Val? then Val(UnaryComputed(op, v.v)) else v
    case Bin(l, _, op, r) =>
      var a := Eval(env, l);
      if !a.Val? then a
      else
        var b := Eval(env, r);
        if !b.Val? then b else BinaryValue(op, a.v, b.v)
    case Group(_, e, _) => Eval(env, e)
  }

  ghost function EvalArgs(env: Env, args: Args): (r: Values)
    requires GoodArgs(env, args)
    ensures r.Vals? ==> |r.vs| == Count(args)
    ensures r.NoVals? ==> !r.why.Val?
  {
    var v := Eval(env, args.e);
    if !v.Val? then NoVals(v)
    else if args.Last? then Vals([v.v])
    else
      match EvalArgs(env, args.rest)
      case Vals(vs) => Vals([v.v] + vs)
      case NoVals(why) => NoVals(why)
  }

  /** Evaluating the tree asks no bit set for a bit out of its range. */
  ghost predicate InRange(env: Env, t: Tree)
    requires Good(env, t)
  {
    match t
    case Num(_, _) => true
    case Name(_, _) => true
    case Call(_, tok, _, args) =>
      && ArgsInRange(env, args)
      && var vs := EvalArgs(env, args); vs.Vals? ==> CallValue(Lookup(env, tok).value, vs.vs) != Refused
    case Un(_, _, e) => InRange(env, e)
    case Bin(l, _, _, r) => InRange(env, l) && (Eval(env, l).Val? ==> InRange(env, r))
    case Group(_, e, _) => InRange(env, e)
  }

  ghost predicate ArgsInRange(env: Env, args: Args)
    requires GoodArgs(env, args)
  {
    InRange(env, args.e) && (args.More? && Eval(env, args.e).Val? ==> ArgsInRange(env, args.rest))
  }

  /** Then nothing in it is refused. */
  lemma {:induction false} InRangeNotRefused(env: Env, t: Tree)
    requires Good(env, t) && InRange(env, t)
    ensures Eval(env, t) != Refused
  {
    match t
    case Num(_, _) =>
    case Name(_, _) =>
    case Call(_, _, _, args) => ArgsNotRefused(env, args);
    case Un(_, _, e) => InRangeNotRefused(env, e);
    case Bin(l, _, _, r) =>
      InRangeNotRefused(env, l);
      if Eval(env, l).Val? {
        InRangeNotRefused(env, r);
      }
    case Group(_, e, _) => InRangeNotRefused(env, e);
  }

  lemma {:induction false} ArgsNotRefused(env: Env, args: Args)
    requires GoodArgs(env, args) && ArgsInRange(env, args)
    ensures EvalArgs(env, args) != NoVals(Refused)
  {
    InRangeNotRefused(env, args.e);
    if args.More? && Eval(env, args.e).Val? {
      ArgsNotRefused(env, args.rest);
    }
  }

  // ----- well-formed trees -----------------------------------------------------------

  predicate Spaces(ws: string) {
    forall i :: 0 <= i < |ws| ==> IsSpace(ws[i])
  }

  /** A token as get_token can return it: alphanumeric and short enough for its buffer. */
  predicate Token(tok: string) {
    0 < |tok| < STORAGE && forall i :: 0 <= i < |tok| ==> IsAlnum(tok[i])
  }

  /** Tokens are tokens, numbers are read to their end, names are those of variables, and functions
      have the arguments they take. */
  predicate Good(env: Env, t: Tree) {
    match t
    case Num(ws, tok) => Spaces(ws) && Token(tok) && IsDigit(tok[0]) && Read(tok, 0).1 == |tok|
    case Name(ws, tok) =>
      && Spaces(ws) && Token(tok) && !IsDigit(tok[0]) && Lookup(env, tok).Some?
      && var k := Lookup(env, tok).value; k.Integer? || k.Str? || (k.Func? && k.nargs == 0)
    case Call(ws, tok, ws', args) =>
      && Spaces(ws) && Spaces(ws') && Token(tok) && !IsDigit(tok[0]) && Lookup(env, tok).Some?
      && GoodArgs(env, args)
      && var k := Lookup(env, tok).value; (k.Func? && k.nargs == Count(args)) || (k.BitSet? && Count(args) == 1)
    case Un(ws, _, e) => Spaces(ws) && Good(env, e)
    case Bin(l, ws, _, r) => Spaces(ws) && Good(env, l) && Good(env, r)
    case Group(ws, e, ws') => Spaces(ws) && Spaces(ws') && Good(env, e)
  }

  predicate GoodArgs(env: Env, args: Args) {
    Spaces(args.ws) && Good(env, args.e) && (args.More? ==> GoodArgs(env, args.rest))
  }

  // ----- writing ---------------------------------------------------------------------

  function LevelOf(t: Tree): nat {
    match t
    case Un(_, _, _) => 3
    case Bin(_, _, op, _) => Level(op)
    case _ => 4
  }

  /** A tree where an operand of at least level `min` is wanted: in parentheses if it binds less. */
  function Render(t: Tree, min: nat): string
    decreases t, 1
  {
    if LevelOf(t) < min then "(" + Body(t) + ")" else Body(t)
  }

  function Body(t: Tree): string
    decreases t, 0
  {
    match t
    case Num(ws, tok) => ws + tok
    case Name(ws, tok) => ws + tok
    case Call(ws, tok, ws', args) => ws + tok + ws' + "(" + RenderArgs(args)
    case Un(ws, op, e) => ws + [UnOpChar(op)] + Render(e, 3)
    case Bin(l, ws, op, r) => Render(l, Level(op) + 1) + ws + [OpChar(op)] + Render(r, Level(op))
    case Group(ws, e, ws') => ws + "(" + Render(e, 0) + ws' + ")"
  }

  function RenderArgs(args: Args): string
    decreases args, 2
  {
    if args.Last? then Render(args.e, 0) + args.ws + ")"
    else Render(args.e, 0) + args.ws + "," + RenderArgs(args.rest)
  }

  /** The token that reading a tree reads last. */
  function LastToken(t: Tree): string {
    match t
    case Num(_, tok) => tok
    case Name(_, tok) => tok
    case Call(_, _, _, args) => LastTokenOf(args)
    case Un(_, _, e) => LastToken(e)
    case Bin(_, _, _, r) => LastToken(r)
    case Group(_, e, _) => LastToken(e)
  }

  function LastTokenOf(args: Args): string {
    if args.Last? then LastToken(args.e) else LastTokenOf(args.rest)
  }

  /** What is left of the value of a tree when its text breaks off in front of what would end it: the
      last operators are not applied. */
  ghost function CutOff(env: Env, t: Tree): Value
    requires Good(env, t)
    decreases t, 0
  {
    match t
    case Un(_, _, e) => CutOffIn(env, e, 3)
    case Bin(l, _, op, r) =>
      var a := Eval(env, l);
      if a.Val? then CutOffIn(env, r, Level(op)) else a
    case _ => Eval(env, t)
  }

  ghost function CutOffIn(env: Env, t: Tree, min: nat): Value
    requires Good(env, t)
    decreases t, 1
  {
    if LevelOf(t) < min then Eval(env, t) else CutOff(env, t)
  }

  ghost function CutOffArgs(env: Env, args: Args): Value
    requires GoodArgs(env, args)
  {
    if args.Last? then CutOff(env, args.e)
    else
      var v := Eval(env, args.e);
      if v.Val? then CutOffArgs(env, args.rest) else v
  }

  /** Arguments without the parenthesis that closes them. */
  function RenderCut(args: Args): string {
    if args.Last? then Render(args.e, 0) + args.ws
    else Render(args.e, 0) + args.ws + "," + RenderCut(args.rest)
  }

  // ----- reading tokens --------------------------------------------------------------

  lemma {:induction false} SkipSpacesOf(ws: string, s: string)
    requires Spaces(ws)
    ensures Skip(ws + s) == Skip(s)
  {
    if ws == [] {
      assert ws + s == s;
    } else {
      assert (ws + s)[1..] == ws[1..] + s;
      SkipSpacesOf(ws[1..], s);
    }
  }

  /** No token runs on into `s`. */
  predicate TokenEnd(s: string) {
    s == [] || !IsAlnum(s[0])
  }

  lemma {:induction false} AlnumRunOf(tok: string, s: string)
    requires (forall i :: 0 <= i < |tok| ==> IsAlnum(tok[i])) && TokenEnd(s)
    ensures AlnumRun(tok + s) == |tok|
  {
    if tok == [] {
      assert tok + s == s;
    } else {
      assert (tok + s)[1..] == tok[1..] + s;
      AlnumRunOf(tok[1..], s);
    }
  }

  lemma TokenRead(ws: string, tok: string, s: string)
    requires Spaces(ws) && Token(tok) && TokenEnd(s)
    ensures GetToken(ws + tok + s) == (tok, s)
  {
    SkipSpacesOf(ws, tok + s);
    assert ws + tok + s == ws + (tok + s);
    assert (tok + s)[0] == tok[0];
    assert Skip(tok + s) == tok + s;
    AlnumRunOf(tok, s);
    assert (tok + s)[..|tok|] == tok && (tok + s)[|tok|..] == s;
  }

  /** A name too long for the token buffer is cut to 999 characters, and what is cut off is read next. */
  lemma LongToken(tok: string, s: string)
    requires 1000 <= |tok| && (forall i :: 0 <= i < |tok| ==> IsAlnum(tok[i])) && TokenEnd(s)
    ensures GetToken(tok + s) == (tok[..999], tok[999..] + s)
  {
    var x := tok + s;
    assert x[0] == tok[0] && Skip(x) == x;
    AlnumRunOf(tok, s);
    assert x[..999] == tok[..999] && x[999..] == tok[999..] + s;
  }

  lemma {:induction false} QuotedRunOf(body: string, quote: char, s: string)
    requires quote !in body && (s == "" || s[0] == quote)
    ensures QuotedRun(body + s, quote) == |body|
  {
    if body == [] {
      assert body + s == s;
    } else {
      assert (body + s)[1..] == body[1..] + s;
      QuotedRunOf(body[1..], quote, s);
    }
  }

  /** Text between two quotation marks of one kind is a token, whatever is in it but that mark; the
      closing one may be missing at the end of the text. */
  lemma QuotedToken(ws: string, quote: char, body: string, s: string, closed: bool)
    requires Spaces(ws) && (quote == '"' || quote == '\'') && quote !in body && |body| < STORAGE
    ensures GetToken(ws + [quote] + body + if closed then [quote] + s else "") == (body, if closed then s else "")
  {
    hide QuotedRun, AlnumRun, Skip;
    var tail := if closed then [quote] + s else "";
    var x := [quote] + (body + tail);
    assert ws + [quote] + body + tail == ws + x;
    SkipSpacesOf(ws, x);
    QuoteFirst(quote, body + tail);
    QuotedRunOf(body, quote, tail);
    assert (body + tail)[..|body|] == body;
    assert closed ==> (body + tail)[|body| + 1..] == s;
  }

  lemma QuoteFirst(quote: char, s: string)
    requires IsQuote(quote)
    ensures Skip([quote] + s) == [quote] + s && ([quote] + s)[1..] == s
  {
  }

  /** In front of an operator or a parenthesis there is no token. */
  lemma NoTokenRead(ws: string, c: char, s: string)
    requires Spaces(ws) && !IsSpace(c) && !IsAlnum(c) && !IsQuote(c)
    ensures GetToken(ws + [c] + s) == ([], [c] + s)
    ensures Skip([c] + s) == [c] + s && ([c] + s)[1..] == s
    ensures Skip(ws + [c] + s) == [c] + s && Peek(ws + [c] + s) == c
  {
    assert ws + [c] + s == ws + ([c] + s);
    SkipSpacesOf(ws, [c] + s);
  }
}
