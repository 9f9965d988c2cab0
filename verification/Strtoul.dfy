/** The number reader of the HaRET script language: characters, and an strtoul for 32-bit longs
    that detects overflow without a wider type. */
module Strtoul {
  import opened Arith

  const ULONG_MAX: nat := 0xFFFF_FFFF

  /** A C string: no NUL, and 8-bit characters. */
  type Text = s: string | forall i :: 0 <= i < |s| ==> 0 < s[i] as int < 256

  predicate IsSpace(c: char) {
    c as int <= 13 || c == ' '
  }

  predicate IsDigit(c: char) {
    '0' <= c <= '9'
  }

  predicate IsAlnum(c: char) {
    'A' <= c <= 'Z' || 'a' <= c <= 'z' || IsDigit(c)
  }

  predicate IsXDigit(c: char) {
    IsDigit(c) || 'A' <= c <= 'F' || 'a' <= c <= 'f'
  }

  /** The digit value of a character, as the unsigned char it is computed in; no base reaches the
      values of characters that are not digits. */
  function DigitOf(c: char): (d: nat)
    ensures c < '0' && 0 < c as int ==> d > 36
  {
    if c >= 'a' then (c as int - 'a' as int + 10) % 256
    else if c >= 'A' then c as int - 'A' as int + 10
    else if c <= '9' then (c as int - '0' as int) % 256
    else 0xff
  }

  /** The character at `i`, which is NUL at the end of the string. */
  function CharAt(s: string, i: nat): char
    requires i <= |s|
  {
    if i == |s| then 0 as char else s[i]
  }

  /** There is nothing but white space. */
  predicate Blank(s: string) {
    forall i :: 0 <= i < |s| ==> IsSpace(s[i])
  }

  // ----- what strtoul should read ----------------------------------------------

  function SkipSpaces(s: string, i: nat): (j: nat)
    requires i <= |s|
    ensures i <= j <= |s|
    decreases |s| - i
  {
    if i < |s| && IsSpace(s[i]) then SkipSpaces(s, i + 1) else i
  }

  function SkipSign(s: string, i: nat): (j: nat)
    requires i <= |s|
    ensures i <= j <= |s|
  {
    if i < |s| && (s[i] == '-' || s[i] == '+') then i + 1 else i
  }

  predicate HexPrefix(s: string, i: nat) {
    i + 2 < |s| && (s[i + 1] == 'x' || s[i + 1] == 'X') && IsXDigit(s[i + 2])
  }

  /** The base, and where the digits start, for the base argument `base` with the sign skipped. */
  function BaseAt(s: string, i: nat, base: nat): (r: (nat, nat))
    requires i <= |s|
    ensures i <= r.1 <= |s|
    ensures base == 0 || 2 <= base <= 36 ==> 2 <= r.0 <= 36
  {
    if base == 16 || base == 0 then
      if i < |s| && s[i] == '0' then
        if HexPrefix(s, i) then (16, i + 2) else (if base == 0 then 8 else 16, i)
      else (if base == 0 then 10 else 16, i)
    else (base, i)
  }

  /** The end of the digits of `base` from `i` on. */
  function DigitsEnd(s: string, i: nat, base: nat): (j: nat)
    requires i <= |s|
    ensures i <= j <= |s|
    ensures forall k :: i <= k < j ==> DigitOf(s[k]) < base
    ensures j < |s| ==> DigitOf(s[j]) >= base
    decreases |s| - i
  {
    if i < |s| && DigitOf(s[i]) < base then DigitsEnd(s, i + 1, base) else i
  }

  /** The number written by the digits [i, j) in `base`. */
  function NumberIn(s: string, i: nat, j: nat, base: nat): nat
    requires i <= j <= |s|
  {
    if i == j then 0 else NumberIn(s, i, j - 1, base) * base + DigitOf(s[j - 1])
  }

  /** What strtoul returns: the number written by the longest run of digits, ULONG_MAX if it does not
      fit 32 bits, whatever the sign; and the index after the run, 0 if there is nothing to read. */
  function Read(s: string, base: nat): (r: (nat, nat))
    requires !Blank(s) && (base == 0 || 2 <= base <= 36)
    ensures r.0 < TWO32 && r.1 <= |s|
  {
    var orig := SkipSign(s, SkipSpaces(s, 0));
    var (b, from) := BaseAt(s, orig, base);
    var to := DigitsEnd(s, from, b);
    if to == orig then (0, 0)
    else
      var n := NumberIn(s, from, to, b);
      (if n < TWO32 then n else ULONG_MAX, to)
  }

  // ----- the 32-bit accumulation -----------------------------------------------

  /** The two halves of one step, v * base + c, do not overflow 32 bits; together they are the exact
      result, and the test on the upper half detects exactly a result that does not fit. */
  lemma StepExact(v: nat, base: nat, c: nat)
    requires v < TWO32 && 2 <= base <= 36 && c < base
    ensures var x := (v % 256) * base + c;
            var w := (v / 256) * base + x / 256;
            && 0 <= x < TWO32 && 0 <= w < TWO32
            && w * 256 + x % 256 == v * base + c
            && (w > ULONG_MAX / 256 <==> v * base + c >= TWO32)
  {
    var lo, hi := v % 256, v / 256;
    MulMono(lo, 255, base);
    MulMono(hi, 0xFF_FFFF, base);
    MulMono(0, lo, base);
    MulMono(0, hi, base);
    assert v * base == hi * base * 256 + lo * base by {
      assert v == hi * 256 + lo;
    }
  }

  lemma NoDigits(s: Text, from: nat, base: nat)
    requires from <= |s| && 2 <= base <= 36
    ensures NumberIn(s, from, from, base) == 0
  {
  }

  /** One turn of the digit loop of strtoul. */
  method AddDigit(v: nat, base: nat, c: nat) returns (v': nat, over: bool)
    requires v < TWO32 && 2 <= base <= 36 && c < base
    ensures v' < TWO32 && (over <==> v * base + c >= TWO32) && (!over ==> v' == v * base + c)
  {
    StepExact(v, base, c);
    var x := (v % 256) * base + c;
    var w := (v / 256) * base + x / 256;
    over := w > ULONG_MAX / 256;
    v' := (w * 256 + x % 256) % TWO32;
  }

  /** The digit loop of strtoul. */
  method Accumulate(s: Text, from: nat, base: nat) returns (v: nat, overflow: bool, nptr: nat)
    requires from <= |s| && 2 <= base <= 36
    ensures v < TWO32 && nptr == DigitsEnd(s, from, base)
    ensures overflow <==> NumberIn(s, from, nptr, base) >= TWO32
    ensures !overflow ==> v == NumberIn(s, from, nptr, base)
  {
    hide DigitOf;
    v, overflow, nptr := 0, false, from;
    while nptr < |s| && DigitOf(s[nptr]) < base
      invariant from <= nptr <= |s| && DigitsEnd(s, nptr, base) == DigitsEnd(s, from, base)
      invariant v < TWO32
      invariant overflow <==> NumberIn(s, from, nptr, base) >= TWO32
      invariant !overflow ==> v == NumberIn(s, from, nptr, base)
    {
      MulMono(if overflow then TWO32 else 0, NumberIn(s, from, nptr, base), base);
      var over;
      v, over := AddDigit(v, base, DigitOf(s[nptr]));
      if over {
        overflow := true;
      }
      nptr := nptr + 1;
    }
  }

  /** The white space and the sign, which strtoul reads and ignores.  NUL counts as white space and the
      loop has no other end, so that it leaves a string that holds nothing else. */
  method SkipPrefix(s: Text) returns (inside: bool, nptr: nat)
    ensures inside <==> !Blank(s)
    ensures inside ==> nptr == SkipSign(s, SkipSpaces(s, 0))
  {
    nptr := 0;
    while IsSpace(CharAt(s, nptr))
      invariant nptr <= |s| && SkipSpaces(s, nptr) == SkipSpaces(s, 0)
      invariant forall i :: 0 <= i < nptr ==> IsSpace(s[i])
      decreases |s| - nptr
    {
      if nptr == |s| {
        return false, nptr;
      }
      nptr := nptr + 1;
    }
    inside := true;
    if CharAt(s, nptr) == '-' {
      nptr := nptr + 1;
    } else if CharAt(s, nptr) == '+' {
      nptr := nptr + 1;
    }
  }

  /** How strtoul ends: with a number and the index after it; with 0 and no end, for a base that is
      neither 0 nor in 2..36; or outside the string. */
  datatype Outcome = Got(v: nat, end: nat) | BadBase | RunsOffTheEnd

  /** strtoul.  It stays inside the string exactly if there is a character in it that is not white
      space. */
  method StrToUL(s: Text, base0: int) returns (r: Outcome)
    ensures r == RunsOffTheEnd <==> Blank(s)
    ensures r == BadBase <==> !Blank(s) && base0 != 0 && !(2 <= base0 <= 36)
    ensures r.Got? ==> (r.v, r.end) == Read(s, base0) && r.v < TWO32
  {
    hide NumberIn, DigitsEnd, SkipSpaces;
    var base := base0;
    var inside, nptr := SkipPrefix(s);
    if !inside {
      return RunsOffTheEnd;
    }
    var orig := nptr;
    if base == 16 && nptr < |s| && s[nptr] == '0' {
      if HexPrefix(s, nptr) {
        nptr := nptr + 2;
      }
    } else if base != 0 {
      if !(2 <= base <= 36) {
        return BadBase;
      }
    } else if nptr < |s| && s[nptr] == '0' {
      base := 8;
      if HexPrefix(s, nptr) {
        nptr := nptr + 2;
        base := 16;
      }
    } else {
      base := 10;
    }
    var v, overflow;
    ghost var from := nptr;
    v, overflow, nptr := Accumulate(s, nptr, base);
    NoDigits(s, from, base);
    if nptr == orig {
      nptr := 0;
      v := 0;
    }
    if overflow {
      return Got(ULONG_MAX, nptr);
    }
    return Got(v, nptr);
  }

  /** The empty string holds nothing else, and its NUL counts as white space. */
  lemma EmptyRunsOff()
    ensures Blank("") && IsSpace(CharAt("", 0))
  {
  }

  // ----- the sign ------------------------------------------------------------------

  lemma {:induction false} DigitsBehind(c: char, s: string, i: nat, base: nat)
    requires i <= |s|
    ensures DigitsEnd([c] + s, i + 1, base) == DigitsEnd(s, i, base) + 1
    decreases |s| - i
  {
    if i < |s| {
      assert ([c] + s)[i + 1] == s[i];
      DigitsBehind(c, s, i + 1, base);
    }
  }

  lemma {:induction false} NumberBehind(c: char, s: string, i: nat, j: nat, base: nat)
    requires i <= j <= |s|
    ensures NumberIn([c] + s, i + 1, j + 1, base) == NumberIn(s, i, j, base)
  {
    if i != j {
      assert ([c] + s)[j] == s[j - 1];
      NumberBehind(c, s, i, j - 1, base);
    }
  }

  lemma BaseBehind(c: char, s: string, base: nat)
    ensures BaseAt([c] + s, 1, base) == (BaseAt(s, 0, base).0, BaseAt(s, 0, base).1 + 1)
  {
    var t := [c] + s;
    assert |t| == |s| + 1 && forall i :: 0 <= i < |s| ==> t[i + 1] == s[i];
  }

  /** Read where the white space and the sign end at `orig`. */
  lemma ReadFrom(s: string, base: nat, orig: nat, b: nat, from: nat, to: nat)
    requires !Blank(s) && (base == 0 || 2 <= base <= 36) && orig == SkipSign(s, SkipSpaces(s, 0))
    requires (b, from) == BaseAt(s, orig, base) && to == DigitsEnd(s, from, b)
    ensures Read(s, base) ==
            if to == orig then (0, 0)
            else
              var n := NumberIn(s, from, to, b);
              (if n < TWO32 then n else ULONG_MAX, to)
  {
  }

  /** A minus sign is read and ignored. */
  lemma MinusIgnored(s: string, base: nat)
    requires s != "" && !IsSpace(s[0]) && s[0] != '-' && s[0] != '+' && (base == 0 || 2 <= base <= 36)
    ensures var t := ['-'] + s;
            var (v, end) := Read(s, base);
            t[0] == '-' && Read(t, base) == (v, if end == 0 then 0 else end + 1)
  {
    hide NumberIn, DigitsEnd, BaseAt, SkipSpaces, SkipSign, IsSpace, Read;
    var t := ['-'] + s;
    MinusPrefix(s, t);
    var (b, from) := BaseAt(s, 0, base);
    var to := DigitsEnd(s, from, b);
    BaseBehind('-', s, base);
    DigitsBehind('-', s, from, b);
    NumberBehind('-', s, from, to, b);
    ReadFrom(s, base, 0, b, from, to);
    ReadFrom(t, base, 1, b, from + 1, to + 1);
  }

  lemma MinusPrefix(s: string, t: string)
    requires s != "" && !IsSpace(s[0]) && s[0] != '-' && s[0] != '+' && t == ['-'] + s
    ensures t[0] == '-' && !Blank(t) && !Blank(s)
    ensures SkipSign(t, SkipSpaces(t, 0)) == 1 && SkipSign(s, SkipSpaces(s, 0)) == 0
  {
    assert t[0] == '-' && !IsSpace(t[0]) && !IsSpace(s[0]);
  }

  function Negative(v: nat): nat
    requires v < TWO32
  {
    (TWO32 - v) % TWO32
  }

  /** So the value is the negative one in 32 bits exactly for the two words that are their own
      negatives. */
  lemma MinusRightExactly(s: string, base: nat)
    requires s != "" && !IsSpace(s[0]) && s[0] != '-' && s[0] != '+' && (base == 0 || 2 <= base <= 36)
    ensures var t := ['-'] + s;
            var v := Read(s, base).0;
            t[0] == '-' && v < TWO32 && (Read(t, base).0 == Negative(v) <==> v == 0 || v == 0x8000_0000)
  {
    hide Read, IsSpace, Negative;
    MinusIgnored(s, base);
    OwnNegative(Read(s, base).0);
  }

  lemma OwnNegative(v: nat)
    requires v < TWO32
    ensures v == Negative(v) <==> v == 0 || v == 0x8000_0000
  {
  }

  // ----- numerals ------------------------------------------------------------------

  /** The digit `d`, with letters of either case. */
  function DigitChar(d: nat, capital: bool): char
    requires d < 36
  {
    if d < 10 then '0' + d as char else if capital then 'A' + (d - 10) as char else 'a' + (d - 10) as char
  }

  lemma DigitRead(d: nat, capital: bool)
    requires d < 36
    ensures DigitOf(DigitChar(d, capital)) == d && IsAlnum(DigitChar(d, capital))
    ensures d < 10 <==> IsDigit(DigitChar(d, capital))
    ensures d < 16 <==> IsXDigit(DigitChar(d, capital))
    ensures d == 0 <==> DigitChar(d, capital) == '0'
  {
  }

  /** The alphanumeric characters are the digits of base 36, the others those of bases 10 and 16. */
  lemma CharacterClasses(c: char)
    ensures IsAlnum(c) <==> exists d: nat, capital :: d < 36 && DigitChar(d, capital) == c
    ensures IsDigit(c) <==> exists d: nat, capital :: d < 10 && DigitChar(d, capital) == c
    ensures IsXDigit(c) <==> exists d: nat, capital :: d < 16 && DigitChar(d, capital) == c
    ensures IsSpace(c) <==> c <= '\r' || c == ' '
  {
    if IsAlnum(c) {
      assert DigitChar(DigitOf(c), c <= 'Z') == c;
    }
    forall d: nat, capital | d < 36 && DigitChar(d, capital) == c
      ensures IsAlnum(c) && (d < 10 <==> IsDigit(c)) && (d < 16 <==> IsXDigit(c))
    {
      DigitRead(d, capital);
    }
  }

  /** The numeral of `n` in `base`. */
  function Numeral(n: nat, base: nat, capital: bool): (s: string)
    requires 2 <= base <= 36
    ensures |s| > 0
  {
    if n < base then [DigitChar(n, capital)]
    else
      QuotientLess(n, base);
      Numeral(n / base, base, capital) + [DigitChar(n % base, capital)]
  }

  /** A character that is a digit of `base`. */
  predicate DigitIn(c: char, base: nat) {
    IsAlnum(c) && DigitOf(c) < base && (base <= 10 ==> IsDigit(c)) && (base <= 16 ==> IsXDigit(c))
  }

  lemma NumeralStep(n: nat, base: nat, capital: bool) returns (q: nat, r: nat)
    requires 2 <= base <= 36 && base <= n
    ensures 0 < q < n && r < base && n == q * base + r
    ensures Numeral(n, base, capital) == Numeral(q, base, capital) + [DigitChar(r, capital)]
  {
    QuotientLess(n, base);
    q, r := n / base, n % base;
  }

  lemma {:induction false} NumeralDigits(n: nat, base: nat, capital: bool)
    requires 2 <= base <= 36
    ensures var s := Numeral(n, base, capital); forall i :: 0 <= i < |s| ==> DigitIn(s[i], base)
    ensures 0 < n ==> Numeral(n, base, capital)[0] != '0'
  {
    hide DigitOf, DigitChar, IsDigit, IsXDigit, IsAlnum;
    if n < base {
      DigitRead(n, capital);
    } else {
      hide Numeral;
      var q, r := NumeralStep(n, base, capital);
      DigitRead(r, capital);
      NumeralDigits(q, base, capital);
    }
  }

  lemma {:induction false} NumeralNumber(n: nat, base: nat, capital: bool)
    requires 2 <= base <= 36
    ensures var s := Numeral(n, base, capital); NumberIn(s, 0, |s|, base) == n
  {
    hide DigitOf, DigitChar;
    var s := Numeral(n, base, capital);
    if n < base {
      DigitRead(n, capital);
      NumberStep([], s[0], base);
      assert [] + [s[0]] == s;
    } else {
      hide Numeral, NumberIn;
      var q, r := NumeralStep(n, base, capital);
      DigitRead(r, capital);
      NumeralNumber(q, base, capital);
      NumberStep(Numeral(q, base, capital), DigitChar(r, capital), base);
    }
  }

  lemma NumberStep(front: string, c: char, base: nat)
    ensures NumberIn(front + [c], 0, |front| + 1, base) == NumberIn(front, 0, |front|, base) * base + DigitOf(c)
  {
    SamePrefix(front, front + [c], |front|, base);
  }

  lemma {:induction false} SamePrefix(a: string, b: string, j: nat, base: nat)
    requires j <= |a| && j <= |b| && a[..j] == b[..j]
    ensures NumberIn(a, 0, j, base) == NumberIn(b, 0, j, base)
  {
    if j != 0 {
      assert a[..j][j - 1] == b[..j][j - 1];
      assert a[..j - 1] == a[..j][..j - 1] && b[..j - 1] == b[..j][..j - 1];
      SamePrefix(a, b, j - 1, base);
    }
  }

  lemma {:induction false} AllDigits(s: string, i: nat, base: nat)
    requires i <= |s| && forall k :: i <= k < |s| ==> DigitIn(s[k], base)
    ensures DigitsEnd(s, i, base) == |s|
    decreases |s| - i
  {
    if i < |s| {
      AllDigits(s, i + 1, base);
    }
  }

  lemma AlnumFirst(s: string)
    requires s != "" && IsAlnum(s[0])
    ensures !Blank(s) && SkipSpaces(s, 0) == 0 && SkipSign(s, 0) == 0
  {
    assert !IsSpace(s[0]);
  }

  /** Reading the numeral of any 32-bit number, in any base and with letters of either case, gives the
      number back. */
  lemma NumeralRoundTrip(n: nat, base: nat, capital: bool)
    requires n < TWO32 && 2 <= base <= 36
    ensures var s := Numeral(n, base, capital); !Blank(s) && Read(s, base) == (n, |s|)
  {
    hide Read, NumberIn, DigitsEnd, SkipSpaces, SkipSign;
    var s := Numeral(n, base, capital);
    NumeralDigits(n, base, capital);
    NumeralNumber(n, base, capital);
    AlnumFirst(s);
    ReadDigits(s, base, 0, base, 0, n);
  }

  /** Read on a text that is digits from `from` on. */
  lemma ReadDigits(s: string, base: nat, orig: nat, b: nat, from: nat, n: nat)
    requires !Blank(s) && (base == 0 || 2 <= base <= 36) && orig == SkipSign(s, SkipSpaces(s, 0))
    requires (b, from) == BaseAt(s, orig, base) && orig < |s| && from <= |s| && n < TWO32
    requires forall k :: from <= k < |s| ==> DigitIn(s[k], b)
    requires NumberIn(s, from, |s|, b) == n
    ensures Read(s, base) == (n, |s|)
  {
    hide Read, NumberIn, DigitsEnd, SkipSpaces, SkipSign, BaseAt;
    AllDigits(s, from, b);
    ReadFrom(s, base, orig, b, from, |s|);
  }

  /** The decimal numeral of `n`. */
  function Decimal(n: nat): (s: string)
    ensures |s| > 0 && forall i :: 0 <= i < |s| ==> IsDigit(s[i])
  {
    NumeralDigits(n, 10, false);
    Numeral(n, 10, false)
  }

  /** Reading the decimal numeral of any 32-bit number without saying the base gives the number back. */
  lemma DecimalRoundTrip(n: nat)
    requires n < TWO32
    ensures !Blank(Decimal(n)) && Read(Decimal(n), 0) == (n, |Decimal(n)|)
  {
    hide Read, NumberIn, DigitsEnd, SkipSpaces, SkipSign, DigitOf;
    var s := Decimal(n);
    NumeralDigits(n, 10, false);
    NumeralNumber(n, 10, false);
    AlnumFirst(s);
    if n == 0 {
      NumberZero();
      ReadDigits(s, 0, 0, 8, 0, 0);
    } else {
      ReadDigits(s, 0, 0, 10, 0, n);
    }
  }

  lemma NumberZero()
    ensures Decimal(0) == "0" && NumberIn("0", 0, 1, 8) == 0 && DigitIn('0', 8)
  {
    assert NumberIn("0", 0, 0, 8) == 0;
  }

  /** So does reading the hexadecimal one behind 0x or 0X, with letters of either case. */
  lemma HexRoundTrip(n: nat, x: char, capital: bool)
    requires n < TWO32 && (x == 'x' || x == 'X')
    ensures var s := ['0', x] + Numeral(n, 16, capital);
            !Blank(s) && Read(s, 0) == (n, |s|) && Read(s, 16) == (n, |s|)
  {
    hide Read, NumberIn, DigitsEnd, SkipSpaces, SkipSign, DigitOf, Numeral;
    var digits := Numeral(n, 16, capital);
    var s := ['0', x] + digits;
    NumeralDigits(n, 16, capital);
    NumeralNumber(n, 16, capital);
    assert [x] + digits == s[1..] && ['0'] + ([x] + digits) == s;
    NumberBehind(x, digits, 0, |digits|, 16);
    NumberBehind('0', [x] + digits, 1, |digits| + 1, 16);
    AlnumFirst(s);
    assert s[2] == digits[0] && HexPrefix(s, 0);
    ReadDigits(s, 0, 0, 16, 2, n);
    ReadDigits(s, 16, 0, 16, 2, n);
  }

  /** And the octal one behind 0. */
  lemma OctalRoundTrip(n: nat)
    requires n < TWO32
    ensures var s := ['0'] + Numeral(n, 8, false); !Blank(s) && Read(s, 0) == (n, |s|)
  {
    hide Read, NumberIn, DigitsEnd, SkipSpaces, SkipSign, DigitOf, Numeral;
    var digits := Numeral(n, 8, false);
    var s := ['0'] + digits;
    NumeralDigits(n, 8, false);
    NumeralNumber(n, 8, false);
    LeadingZero(digits, |digits|, 8);
    AlnumFirst(s);
    DigitRead(0, false);
    assert s[1] == digits[0] && !HexPrefix(s, 0);
    forall k | 0 <= k < |s| ensures DigitIn(s[k], 8) {
      assert k > 0 ==> s[k] == digits[k - 1];
    }
    ReadDigits(s, 0, 0, 8, 0, n);
  }

  lemma {:induction false} LeadingZero(s: string, j: nat, base: nat)
    requires j <= |s|
    ensures NumberIn(['0'] + s, 0, j + 1, base) == NumberIn(s, 0, j, base)
  {
    var t := ['0'] + s;
    if j == 0 {
      assert NumberIn(t, 0, 0, base) == 0 && DigitOf(t[0]) == 0;
    } else {
      assert t[j] == s[j - 1];
      LeadingZero(s, j - 1, base);
    }
  }

  /** 0x is a prefix only in front of a hexadecimal digit; otherwise the number ends behind its 0. */
  lemma HexNeedsDigit(x: char, rest: string)
    requires (x == 'x' || x == 'X') && (rest == "" || rest[0] !in "0123456789abcdefABCDEF")
    ensures var s := ['0', x] + rest; !Blank(s) && Read(s, 0) == (0, 1)
  {
    hide Read, SkipSpaces, SkipSign;
    var s := ['0', x] + rest;
    AlnumFirst(s);
    assert !HexPrefix(s, 0);
    assert DigitsEnd(s, 1, 8) == 1 && DigitsEnd(s, 0, 8) == 1;
    assert NumberIn(s, 0, 0, 8) == 0 && NumberIn(s, 0, 1, 8) == 0;
    ReadFrom(s, 0, 0, 8, 0, 1);
  }
}
