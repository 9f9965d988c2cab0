/** The expression evaluator of the HaRET script language, as a function of the text that is left
    to read.  A text ends at its end, which stands for the NUL of the C string. */
module ScriptEval {
  import opened Arith
  import opened Options
  import opened Strtoul

  // ----- 32-bit arithmetic ---------------------------------------------------------

  type Word = n: nat | n < TWO32

  datatype BitOp = OrBits | XorBits | AndBits

  function BitAt(op: BitOp, a: nat, b: nat): nat {
    match op
    case OrBits => if a % 2 == 1 || b % 2 == 1 then 1 else 0
    case XorBits => if a % 2 != b % 2 then 1 else 0
    case AndBits => if a % 2 == 1 && b % 2 == 1 then 1 else 0
  }

  /** The bits of two `n`-bit numbers combined one by one. */
  function Bits(op: BitOp, a: nat, b: nat, n: nat): (r: nat)
    ensures r < Pow2(n)
  {
    if n == 0 then 0 else BitAt(op, a, b) + 2 * Bits(op, a / 2, b / 2, n - 1)
  }

  lemma Pow32()
    ensures Pow2(32) == TWO32
  {
    assert Pow2(8) == 256;
    assert Pow2(16) == 65536;
    assert Pow2(24) == 16777216;
  }

  datatype Op = Add | Sub | Or | Xor | Mul | Div | Mod | And

  datatype UnOp = Plus | Minus | Not

  predicate Divides(op: Op) {
    op == Div || op == Mod
  }

  /** A binary operator on uint32. */
  function Apply(op: Op, a: Word, b: Word): Word
    requires Divides(op) ==> b != 0
  {
    Pow32();
    match op
    case Add => (a + b) % TWO32
    case Sub => (a - b) % TWO32
    case Or => Bits(OrBits, a, b, 32)
    case Xor => Bits(XorBits, a, b, 32)
    case Mul => (a * b) % TWO32
    case Div => Quotient(a, b)
    case Mod => a % b
    case And => Bits(AndBits, a, b, 32)
  }

  function Quotient(a: Word, b: Word): Word
    requires b != 0
  {
    DivBounds(a, b);
    MulMono(1, b, a / b);
    a / b
  }

  function ApplyUnary(op: UnOp, a: Word): Word {
    match op
    case Plus => a
    case Minus => (TWO32 - a) % TWO32
    case Not => ULONG_MAX - a
  }

  /** 1 for + - | ^, 2 for * / % &. */
  function Level(op: Op): (l: nat)
    ensures 1 <= l <= 2
  {
    if op.Add? || op.Sub? || op.Or? || op.Xor? then 1 else 2
  }

  function OpChar(op: Op): char {
    match op
    case Add => '+' case Sub => '-' case Or => '|' case Xor => '^'
    case Mul => '*' case Div => '/' case Mod => '%' case And => '&'
  }

  function UnOpChar(op: UnOp): char {
    match op case Plus => '+' case Minus => '-' case Not => '~'
  }

  function OpOf(c: char): (o: Option<Op>)
    ensures o.Some? ==> c == OpChar(o.value)
    ensures o.None? ==> forall op :: OpChar(op) != c
  {
    match c
    case '+' => Some(Add) case '-' => Some(Sub) case '|' => Some(Or) case '^' => Some(Xor)
    case '*' => Some(Mul) case '/' => Some(Div) case '%' => Some(Mod) case '&' => Some(And)
    case _ => None
  }

  // ----- variables -----------------------------------------------------------------

  /** A variable descriptor; a function or register is given by what reading it returns. */
  datatype Kind =
    | Integer(value: Word)
    | Str(address: Word)
    | BitSet(bits: nat -> bool, size: Word)
    | Func(nargs: nat, f: seq<Word> -> Word)

  datatype Var = Var(name: string, kind: Kind)

  /** The variables a script makes, which are all integers. */
  type UserVars = vs: seq<Var> | forall i :: 0 <= i < |vs| ==> vs[i].kind.Integer?

  datatype Env = Env(script: seq<Var>, user: UserVars)

  function ToUpper(c: char): char {
    if 'a' <= c <= 'z' then c - 'a' + 'A' else c
  }

  /** _stricmp finds no difference. */
  predicate SameName(a: string, b: string) {
    |a| == |b| && forall i :: 0 <= i < |a| ==> ToUpper(a[i]) == ToUpper(b[i])
  }

  /** Characters are taken for the same exactly if they are, or are the two cases of one letter. */
  lemma SameLetter(c: char, d: char)
    ensures ToUpper(c) == ToUpper(d) <==>
            c == d || exists k: nat, capital :: k < 36 && c == DigitChar(k, capital) && d == DigitChar(k, !capital)
  {
    if c != d && ToUpper(c) == ToUpper(d) {
      var capital := c <= 'Z';
      assert c == DigitChar(DigitOf(c), capital) && d == DigitChar(DigitOf(c), !capital);
    }
  }

  function FindVar(name: string, vars: seq<Var>): Option<Kind> {
    if vars == [] then None
    else if SameName(name, vars[0].name) then Some(vars[0].kind)
    else FindVar(name, vars[1..])
  }

  /** The value of the user variable of that name. */
  function UserValue(env: Env, name: string): Option<Word> {
    match FindVar(name, env.user)
    case Some(Integer(v)) => Some(v)
    case _ => None
  }

  // ----- tokens ----------------------------------------------------------------------

  const STORAGE: nat := 1000

  function Skip(s: string): (r: string)
    ensures |r| <= |s| && (r == [] || !IsSpace(r[0]))
  {
    if s != [] && IsSpace(s[0]) then Skip(s[1..]) else s
  }

  /** peek_char: the next character that is not white space, NUL at the end. */
  function Peek(s: string): char {
    var r := Skip(s);
    if r == [] then '\0' else r[0]
  }

  predicate IsQuote(c: char) {
    c == '"' || c == '\''
  }

  /** How many characters from the front are alphanumeric. */
  function AlnumRun(s: string): (n: nat)
    ensures n <= |s| && (forall i :: 0 <= i < n ==> IsAlnum(s[i])) && (n < |s| ==> !IsAlnum(s[n]))
  {
    if s != [] && IsAlnum(s[0]) then 1 + AlnumRun(s[1..]) else 0
  }

  /** How many characters come before the next `quote`. */
  function QuotedRun(s: string, quote: char): (n: nat)
    ensures n <= |s|
  {
    if s != [] && s[0] != quote then 1 + QuotedRun(s[1..], quote) else 0
  }

  /** A token does not outgrow its static buffer. */
  function Fit(n: nat): (m: nat)
    ensures m <= n && (n < STORAGE ==> m == n)
  {
    if n >= STORAGE then STORAGE - 1 else n
  }

  /** get_token: the token, and the text after it. */
  function GetToken(s: string): (r: (string, string))
    ensures |r.1| <= |s| && (r.0 != [] ==> |r.1| < |s|)
  {
    var x := Skip(s);
    if x == [] then ([], s)
    else if IsQuote(x[0]) then
      var body := x[1..];
      var n := Fit(QuotedRun(body, x[0]));
      (body[..n], if n < |body| then body[n + 1..] else [])
    else
      var n := Fit(AlnumRun(x));
      (x[..n], x[n..])
  }

  // ----- the evaluator ---------------------------------------------------------------

  /** How a call ends: with a value, or with a complaint, or in a division by zero.  `token` is what
      the static token buffer is left holding. */
  datatype Result =
    | Ok(v: Word, rest: string, token: string)
    | Fail(rest: string, token: string)
    | Fault

  datatype ArgsResult =
    | ArgsOk(vs: seq<Word>, rest: string, token: string)
    | ArgsFail(rest: string, token: string)
    | ArgsFault

  /** No more text is left than there was. */
  predicate Within(r: Result, n: nat) {
    match r
    case Ok(_, rest, _) => |rest| <= n
    case Fail(rest, _) => |rest| <= n
    case Fault => true
  }

  predicate ArgsWithin(r: ArgsResult, n: nat) {
    match r
    case ArgsOk(_, rest, _) => |rest| <= n
    case ArgsFail(rest, _) => |rest| <= n
    case ArgsFault => true
  }

  /** PAREN_EXPECT and PAREN_EAT. */
  datatype Flags = Flags(paren: bool, eat: bool)

  const NO_PAREN := Flags(false, false)
  const CLOSE_PAREN := Flags(true, true)

  /** get_expression at a priority. */
  function Expr(env: Env, s: string, priority: nat, flags: Flags): (r: Result)
    ensures Within(r, |s|)
    decreases |s|, 5
  {
    match Operand(env, s, flags)
    case Ok(v, rest, token) => Loop(env, v, rest, token, priority, flags)
    case Fail(rest, token) => Fail(rest, token)
    case Fault => Fault
  }

  /** The first half of get_expression: a number, a variable, a parenthesis or a unary operator. */
  function Operand(env: Env, s: string, flags: Flags): (r: Result)
    ensures Within(r, |s|)
    decreases |s|, 4
  {
    var (x, s1) := GetToken(s);
    if x == [] then Prefix(env, Skip(s1), flags)
    else if IsDigit(x[0]) then Number(x, s1)
    else Variable(env, x, s1)
  }

  function Number(x: string, s: string): (r: Result)
    requires x != [] && IsDigit(x[0])
    ensures Within(r, |s|)
  {
    var (v, end) := Read(x, 0);
    if end == |x| then Ok(v, s, x) else Fail(s, x)
  }

  /** An operand without a token, in front of `s`. */
  function Prefix(env: Env, s: string, flags: Flags): (r: Result)
    ensures Within(r, |s|)
    decreases |s|, 3
  {
    if s == [] then Fail(s, [])
    else match s[0]
      case '(' => Expr(env, s[1..], 0, CLOSE_PAREN)
      case '+' => Unary(Plus, Expr(env, s[1..], 3, flags.(eat := false)))
      case '-' => Unary(Minus, Expr(env, s[1..], 3, flags.(eat := false)))
      case '~' => Unary(Not, Expr(env, s[1..], 3, flags.(eat := false)))
      case _ => Fail(s, [])
  }

  function Unary(op: UnOp, r: Result): (r': Result)
    ensures forall n :: Within(r, n) ==> Within(r', n)
  {
    if r.Ok? then Ok(ApplyUnary(op, r.v), r.rest, r.token) else r
  }

  /** The second half of get_expression: the operators that follow. */
  function Loop(env: Env, v: Word, s0: string, token: string, priority: nat, flags: Flags): (r: Result)
    ensures Within(r, |s0|)
    decreases |s0|, 1
  {
    var s := Skip(s0);
    var op := OpOf(Peek(s0));
    if op.Some? then
      if priority > Level(op.value) then Ok(v, s, token)
      else
        match Expr(env, s[1..], Level(op.value), flags.(eat := false))
        case Ok(b, rest, token') =>
          if Divides(op.value) && b == 0 then Fault
          else Loop(env, Apply(op.value, v, b), rest, token', priority, flags)
        case Fail(rest, token') => Fail(rest, token')
        case Fault => Fault
    else if Peek(s0) == ')' then
      if !flags.paren then Fail(s, token)
      else Ok(v, if flags.eat then s[1..] else s, token)
    else if flags.paren then Fail(s, token)
    else Ok(v, s, token)
  }

  /** The value of the variable called `x`: first among the built-in ones, then among the user's.
      The second search uses the token buffer, which by then may hold another name. */
  function Variable(env: Env, x: string, s: string): (r: Result)
    ensures Within(r, |s|)
    decreases |s|, 4
  {
    match GetVar(env, x, s, env.script)
    case Fail(rest, token) => GetVar(env, token, rest, env.user)
    case Ok(v, rest, token) => Ok(v, rest, token)
    case Fault => Fault
  }

  function GetVar(env: Env, x: string, s: string, vars: seq<Var>): (r: Result)
    ensures Within(r, |s|)
    decreases |s|, 3
  {
    match FindVar(x, vars)
    case None => Fail(s, x)
    case Some(Integer(v)) => Ok(v, s, x)
    case Some(Str(address)) => Ok(address, s, x)
    case Some(BitSet(bits, size)) =>
      (match GetArgs(env, x, s, 1)
       case ArgsOk(vs, rest, token) =>
         if vs[0] > size then Fail(rest, token)
         else Ok(if bits(vs[0]) then 1 else 0, rest, token)
       case ArgsFail(rest, token) => Fail(rest, token)
       case ArgsFault => Fault)
    case Some(Func(nargs, f)) =>
      match GetArgs(env, x, s, nargs)
      case ArgsOk(vs, rest, token) => Ok(f(vs), rest, token)
      case ArgsFail(rest, token) => Fail(rest, token)
      case ArgsFault => Fault
  }

  /** get_args: `count` expressions in parentheses, separated by commas. */
  function GetArgs(env: Env, x: string, s: string, count: nat): (r: ArgsResult)
    ensures ArgsWithin(r, |s|) && (r.ArgsOk? ==> |r.vs| == count)
    decreases |s|, 2
  {
    if count == 0 then ArgsOk([], s, x)
    else if Peek(s) != '(' then ArgsFail(Skip(s), x)
    else ArgList(env, Skip(s)[1..], count)
  }

  function ArgList(env: Env, s: string, count: nat): (r: ArgsResult)
    requires 0 < count
    ensures ArgsWithin(r, |s|) && (r.ArgsOk? ==> |r.vs| == count)
    decreases |s|, 6
  {
    match Expr(env, s, 0, if count == 1 then CLOSE_PAREN else NO_PAREN)
    case Fail(rest, token) => ArgsFail(rest, token)
    case Fault => ArgsFault
    case Ok(v, rest, token) =>
      if count == 1 then ArgsOk([v], rest, token)
      else if Peek(rest) != ',' then ArgsFail(Skip(rest), token)
      else
        match ArgList(env, Skip(rest)[1..], count - 1)
        case ArgsOk(vs, rest', token') => ArgsOk([v] + vs, rest', token')
        case ArgsFail(rest', token') => ArgsFail(rest', token')
        case ArgsFault => ArgsFault
  }
}
