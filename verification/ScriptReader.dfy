/** The evaluator as it runs: recursive methods that move one cursor over the text and share
    one static token buffer. */
module ScriptReader {
  import opened Arith
  import opened Options
  import opened Strtoul
  import opened ScriptEval

  datatype Status = Good | Bad | Trapped

  class Reader {
    const text: Text
    const env: Env
    var pos: nat           // *s
    var storage: Text      // the static buffer of get_token

    constructor (text: Text, env: Env)
      ensures Valid() && Left() == text && storage == [] && this.env == env
    {
      this.text, this.env, pos, storage := text, env, 0, [];
    }

    ghost predicate Valid()
      reads this`pos
    {
      pos <= |text|
    }

    /** The text that is left to read. */
    ghost function Left(): (s: string)
      reads this`pos
      requires Valid()
      ensures |s| == |text| - pos
    {
      text[pos..]
    }

    /** The cursor, the token buffer and the value are left as `r` says. */
    ghost predicate Ended(r: Result, status: Status, v: Word)
      reads this
      requires Valid()
    {
      match r
      case Ok(v', rest, token) => status == Good && v == v' && Left() == rest && storage == token
      case Fail(rest, token) => status == Bad && Left() == rest && storage == token
      case Fault => status == Trapped
    }

    ghost predicate EndedArgs(r: ArgsResult, status: Status, vs: seq<Word>)
      reads this
      requires Valid()
    {
      match r
      case ArgsOk(vs', rest, token) => status == Good && vs == vs' && Left() == rest && storage == token
      case ArgsFail(rest, token) => status == Bad && Left() == rest && storage == token
      case ArgsFault => status == Trapped
    }

    /** The index after the white space at the cursor. */
    method SkipSpace() returns (x: nat)
      requires Valid()
      ensures pos <= x <= |text| && text[x..] == Skip(Left())
    {
      x := pos;
      while x < |text| && IsSpace(text[x])
        invariant pos <= x <= |text| && Skip(text[x..]) == Skip(text[pos..])
      {
        assert text[x..][1..] == text[x + 1..];
        x := x + 1;
      }
    }

    /** get_token. */
    method NextToken()
      requires Valid()
      modifies this
      ensures Valid() && (storage, Left()) == GetToken(old(Left()))
    {
      hide QuotedRun, AlnumRun, Skip, Fit;
      var x := SkipSpace();
      if x == |text| {
        storage := [];
        return;
      }
      var quote := text[x];
      if IsQuote(quote) {
        assert text[x..][1..] == text[x + 1..];
        CopyToken(x + 1, true, quote);
        SliceAgain(x + 1, |storage|);
      } else {
        CopyToken(x, false, quote);
        SliceAgain(x, |storage|);
      }
    }

    lemma SliceAgain(x: nat, n: nat)
      requires x + n <= |text|
      ensures text[x..][..n] == text[x..x + n] && text[x..][n..] == text[x + n..]
      ensures x + n < |text| ==> text[x..][n + 1..] == text[x + n + 1..]
      ensures x + n == |text| ==> text[x + n..] == []
    {
    }

    /** The second half of get_token: copy what fits of the token that starts at `x` into the buffer,
        and move the cursor past it and past the quote that ends it. */
    method CopyToken(x: nat, hasQuote: bool, quote: char)
      requires Valid() && x <= |text|
      modifies this
      ensures var n := Fit(if hasQuote then QuotedRun(text[x..], quote) else AlnumRun(text[x..]));
              && Valid() && x + n <= |text| && storage == text[x..x + n]
              && pos == if hasQuote && x + n < |text| then x + n + 1 else x + n
    {
      var e := EndOfToken(x, hasQuote, quote);
      if e >= x + STORAGE {
        e := x + STORAGE - 1;
      }
      storage := text[x..e];
      if hasQuote && e < |text| {
        e := e + 1;
      }
      pos := e;
    }

    /** The index after the token that starts at `x`. */
    method EndOfToken(x: nat, hasQuote: bool, quote: char) returns (e: nat)
      requires x <= |text|
      ensures x <= e <= |text|
      ensures e - x == if hasQuote then QuotedRun(text[x..], quote) else AlnumRun(text[x..])
    {
      e := x;
      if hasQuote {
        while e < |text| && text[e] != quote
          invariant x <= e <= |text|
          invariant QuotedRun(text[x..], quote) == e - x + QuotedRun(text[e..], quote)
        {
          assert text[e..][1..] == text[e + 1..];
          e := e + 1;
        }
      } else {
        while e < |text| && IsAlnum(text[e])
          invariant x <= e <= |text| && AlnumRun(text[x..]) == e - x + AlnumRun(text[e..])
        {
          assert text[e..][1..] == text[e + 1..];
          e := e + 1;
        }
      }
    }

    /** peek_char. */
    method PeekChar() returns (c: char)
      requires Valid()
      modifies this`pos
      ensures Valid() && c == Peek(old(Left())) && Left() == Skip(old(Left()))
    {
      var x := SkipSpace();
      pos := x;
      c := if x < |text| then text[x] else '\0';
    }

    /** (*s)++ in front of a character. */
    method Step()
      requires Valid() && pos < |text|
      modifies this`pos
      ensures Valid() && Left() == old(Left())[1..]
    {
      assert text[pos..][1..] == text[pos + 1..];
      pos := pos + 1;
    }

    /** get_expression. */
    method GetExpression(priority: nat, flags: Flags) returns (status: Status, v: Word)
      requires Valid()
      modifies this
      ensures Valid() && pos >= old(pos) && Ended(Expr(env, old(Left()), priority, flags), status, v)
      decreases |text| - pos, 5
    {
      ghost var s0 := Left();
      status, v := GetOperand(flags);
      if status != Good {
        return;
      }
      ghost var r := Operand(env, s0, flags);
      assert Expr(env, s0, priority, flags) == Loop(env, r.v, r.rest, r.token, priority, flags);
      status, v := GetOperators(v, priority, flags);
    }

    /** The token or prefix with which get_expression starts. */
    method GetOperand(flags: Flags) returns (status: Status, v: Word)
      requires Valid()
      modifies this
      ensures Valid() && pos >= old(pos) && Ended(Operand(env, old(Left()), flags), status, v)
      decreases |text| - pos, 4
    {
      ghost var s0 := Left();
      NextToken();
      if storage == [] {
        status, v := GetPrefix(flags);
      } else if IsDigit(storage[0]) {
        status, v := GetNumber();
      } else {
        status, v := GetVariable();
      }
    }

    /** A number is only read from a token that starts with a digit, so strtoul stays inside it. */
    method GetNumber() returns (status: Status, v: Word)
      requires Valid() && storage != [] && IsDigit(storage[0])
      ensures Ended(Number(storage, Left()), status, v)
    {
      var r := StrToUL(storage, 0);
      v := r.v;
      status := if r.end == |storage| then Good else Bad;
    }

    /** The prefix of get_expression when there is no token. */
    method GetPrefix(flags: Flags) returns (status: Status, v: Word)
      requires Valid() && storage == []
      modifies this
      ensures Valid() && pos >= old(pos) && Ended(Prefix(env, Skip(old(Left())), flags), status, v)
      decreases |text| - pos, 3
    {
      ghost var s0 := Left();
      var c := PeekChar();
      v := 0;
      match c
      case '(' =>
        Step();
        status, v := GetExpression(0, CLOSE_PAREN);
      case '+' =>
        Step();
        status, v := GetExpression(3, flags.(eat := false));
      case '-' =>
        Step();
        status, v := GetExpression(3, flags.(eat := false));
        if status == Good {
          v := (TWO32 - v) % TWO32;
        }
      case '~' =>
        Step();
        status, v := GetExpression(3, flags.(eat := false));
        if status == Good {
          v := ULONG_MAX - v;
        }
      case _ =>
        status := Bad;
    }

    /** The operator loop of get_expression. */
    method GetOperators(v0: Word, priority: nat, flags: Flags) returns (status: Status, v: Word)
      requires Valid()
      modifies this
      ensures Valid() && pos >= old(pos)
      ensures Ended(Loop(env, v0, old(Left()), old(storage), priority, flags), status, v)
      decreases |text| - pos, 1
    {
      hide Apply;
      v := v0;
      while true
        invariant Valid() && pos >= old(pos)
        invariant Loop(env, v, Left(), storage, priority, flags)
                  == Loop(env, v0, old(Left()), old(storage), priority, flags)
        decreases |text| - pos
      {
        ghost var s := Left();
        var c := PeekChar();
        var level := 0;
        if c == '+' || c == '-' || c == '|' || c == '^' {
          level := 1;
        } else if c == '*' || c == '/' || c == '%' || c == '&' {
          level := 2;
        }
        if level != 0 {
          if priority > level {
            return Good, v;
          }
          Step();
          var b;
          status, b := GetExpression(level, flags.(eat := false));
          if status != Good {
            return;
          }
          status, v := Operate(c, v, b);
          if status != Good {
            return;
          }
        } else if c == ')' {
          if !flags.paren {
            return Bad, v;
          }
          if flags.eat {
            Step();
          }
          return Good, v;
        } else {
          status := if flags.paren then Bad else Good;
          return;
        }
      }
    }

    /** A quotient and a remainder of words are words. */
    static lemma QuotientFits(v: Word, b: Word)
      requires b != 0
      ensures 0 <= v / b < TWO32 && 0 <= v % b < TWO32
      ensures Apply(Div, v, b) == v / b && Apply(Mod, v, b) == v % b
    {
      DivBounds(v, b);
      DivMono(0, v, b);
      MulMono(1, b, v / b);
    }

    static lemma ProductIs(v: Word, b: Word)
      ensures Apply(Mul, v, b) == (v * b) % TWO32
    {
    }

    /** What the operator loop does for the operator `c`. */
    static method Operate(c: char, v0: Word, b: Word) returns (status: Status, v: Word)
      requires OpOf(c).Some?
      ensures var op := OpOf(c).value;
              if Divides(op) && b == 0 then status == Trapped
              else status == Good && v == Apply(op, v0, b)
    {
      hide Bits, Quotient;
      Pow32();
      status, v := Good, v0;
      match c
      case '+' => v := (v + b) % TWO32;
      case '-' => v := (v - b) % TWO32;
      case '|' => v := Bits(OrBits, v, b, 32);
      case '^' => v := Bits(XorBits, v, b, 32);
      case '*' | '/' | '%' => status, v := Scale(c, v, b);
      case '&' => v := Bits(AndBits, v, b, 32);
    }

    static method Scale(c: char, v0: Word, b: Word) returns (status: Status, v: Word)
      requires c == '*' || c == '/' || c == '%'
      ensures if c != '*' && b == 0 then status == Trapped
              else status == Good && v == Apply(if c == '*' then Mul else if c == '/' then Div else Mod, v0, b)
    {
      hide Apply;
      if c == '*' {
        ProductIs(v0, b);
        return Good, (v0 * b) % TWO32;
      }
      if b == 0 {
        return Trapped, v0;
      }
      QuotientFits(v0, b);
      return Good, if c == '/' then v0 / b else v0 % b;
    }

    /** _stricmp. */
    static method SameNames(a: string, b: string) returns (same: bool)
      ensures same == SameName(a, b)
    {
      var i := 0;
      while i < |a| && i < |b| && ToUpper(a[i]) == ToUpper(b[i])
        invariant i <= |a| && i <= |b| && forall k :: 0 <= k < i ==> ToUpper(a[k]) == ToUpper(b[k])
      {
        i := i + 1;
      }
      same := i == |a| && i == |b|;
    }

    /** FindVar. */
    static method FindVariable(name: string, vars: seq<Var>) returns (kind: Option<Kind>)
      ensures kind == FindVar(name, vars)
    {
      var i := 0;
      while i < |vars|
        invariant i <= |vars| && FindVar(name, vars[i..]) == FindVar(name, vars)
      {
        var same := SameNames(name, vars[i].name);
        if same {
          return Some(vars[i].kind);
        }
        assert vars[i..][1..] == vars[i + 1..];
        i := i + 1;
      }
      return None;
    }

    /** The two calls of GetVar in get_expression, each given the token buffer. */
    method GetVariable() returns (status: Status, v: Word)
      requires Valid()
      modifies this
      ensures Valid() && pos >= old(pos) && Ended(Variable(env, old(storage), old(Left())), status, v)
      decreases |text| - pos, 4
    {
      status, v := ReadVar(env.script);
      if status == Bad {
        status, v := ReadVar(env.user);
      }
    }

    /** GetVar with the name in the token buffer. */
    method ReadVar(vars: seq<Var>) returns (status: Status, v: Word)
      requires Valid()
      modifies this
      ensures Valid() && pos >= old(pos) && Ended(GetVar(env, old(storage), old(Left()), vars), status, v)
      decreases |text| - pos, 3
    {
      v := 0;
      var kind := FindVariable(storage, vars);
      var vs;
      match kind
      case None =>
        status := Bad;
      case Some(Integer(value)) =>
        status, v := Good, value;
      case Some(Str(address)) =>
        status, v := Good, address;
      case Some(BitSet(bits, size)) =>
        status, vs := ReadArgs(1);
        if status == Good {
          if vs[0] > size {
            status := Bad;
          } else {
            v := if bits(vs[0]) then 1 else 0;
          }
        }
      case Some(Func(nargs, f)) =>
        status, vs := ReadArgs(nargs);
        if status == Good {
          v := f(vs);
        }
    }

    /** get_args. */
    method ReadArgs(count0: nat) returns (status: Status, args: seq<Word>)
      requires Valid()
      modifies this
      ensures Valid() && pos >= old(pos)
      ensures EndedArgs(GetArgs(env, old(storage), old(Left()), count0), status, args)
      decreases |text| - pos, 2
    {
      args := [];
      if count0 == 0 {
        return Good, [];
      }
      var c := PeekChar();
      if c != '(' {
        return Bad, [];
      }
      Step();
      status, args := ReadList(count0);
    }

    /** The argument loop of get_args. */
    method ReadList(count0: nat) returns (status: Status, args: seq<Word>)
      requires Valid() && 0 < count0
      modifies this
      ensures Valid() && pos >= old(pos) && EndedArgs(ArgList(env, old(Left()), count0), status, args)
      decreases |text| - pos, 6
    {
      args := [];
      var count := count0;
      while true
        invariant Valid() && pos >= old(pos) && 0 < count
        invariant ArgList(env, old(Left()), count0) == After(args, ArgList(env, Left(), count))
        decreases count
      {
        ghost var list, before := ArgList(env, Left(), count), args;
        var v;
        status, v := GetExpression(0, if count == 1 then CLOSE_PAREN else NO_PAREN);
        if status != Good {
          return;
        }
        args := args + [v];
        count := count - 1;
        if count == 0 {
          return;
        }
        var c := PeekChar();
        if c != ',' {
          return Bad, args;
        }
        Step();
        assert list == After([v], ArgList(env, Left(), count));
        AfterAfter(before, [v], ArgList(env, Left(), count));
      }
    }
  }

  /** A list read after the values `vs`. */
  function After(vs: seq<Word>, r: ArgsResult): ArgsResult {
    if r.ArgsOk? then ArgsOk(vs + r.vs, r.rest, r.token) else r
  }

  lemma AfterAfter(vs: seq<Word>, ws: seq<Word>, r: ArgsResult)
    ensures After(vs, After(ws, r)) == After(vs + ws, r)
  {
    if r.ArgsOk? {
      assert vs + (ws + r.vs) == vs + ws + r.vs;
    }
  }
}
