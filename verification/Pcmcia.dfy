/** PCMCIA bus timing on the SA-1110: the wait-state counts of both sockets, packed into the
    MECR register, and kept long enough for the cards across changes of the CPU clock. */
module Pcmcia {
  import opened Arith

  const MILLION: nat := 1_000_000
  const IO_ACCESS: nat := 165
  const MEM_ACCESS_5V: nat := 150
  const MEM_ACCESS_3V: nat := 300

  // ----- the register -------------------------------------------------------------

  /** A 32-bit register, low bit first. */
  type Register = r: seq<bool> | |r| == 32 witness seq(32, _ => false)

  /** The timing fields of one socket. */
  datatype Field = Bsio | Bsa | Bsm

  type Sock = s: nat | s < 2

  /** The lowest bit of a field: its shift and the shift of its socket. */
  function Position(sock: Sock, f: Field): (p: nat)
    ensures p + 5 <= 32
  {
    (match f case Bsio => 0 case Bsa => 5 case Bsm => 10) + if sock == 0 then 0 else 16
  }

  function BitOf(n: nat, j: nat): bool {
    if j == 0 then n % 2 == 1 else BitOf(n / 2, j - 1)
  }

  function Bit(b: bool): (v: nat)
    ensures v <= 1
  {
    if b then 1 else 0
  }

  /** MECR_SET with the five-bit mask: the field is cleared first, but the value put in is not masked. */
  function MecrSet(mecr: Register, sock: Sock, f: Field, bs: nat): Register {
    var p := Position(sock, f);
    seq(32, i requires 0 <= i < 32 =>
      (if p <= i < p + 5 then false else mecr[i]) || (p <= i && BitOf(bs, i - p)))
  }

  /** MECR_GET with the five-bit mask. */
  function MecrGet(mecr: Register, sock: Sock, f: Field): (v: nat)
    ensures v <= 31
  {
    var p := Position(sock, f);
    Bit(mecr[p]) + 2 * Bit(mecr[p + 1]) + 4 * Bit(mecr[p + 2]) + 8 * Bit(mecr[p + 3]) + 16 * Bit(mecr[p + 4])
  }

  lemma FiveBits(n: nat)
    requires n < 32
    ensures n == Bit(BitOf(n, 0)) + 2 * Bit(BitOf(n, 1)) + 4 * Bit(BitOf(n, 2))
                 + 8 * Bit(BitOf(n, 3)) + 16 * Bit(BitOf(n, 4))
    ensures forall j: nat :: 5 <= j ==> !BitOf(n, j)
  {
    assert n / 2 / 2 / 2 / 2 / 2 == 0;
    forall j: nat | 5 <= j ensures !BitOf(n, j) {
      ZeroBits(j - 5);
      assert BitOf(n, j) == BitOf(n / 2, j - 1) == BitOf(n / 2 / 2, j - 2) == BitOf(n / 2 / 2 / 2, j - 3);
      assert BitOf(n / 2 / 2 / 2, j - 3) == BitOf(n / 2 / 2 / 2 / 2, j - 4) == BitOf(0, j - 5);
    }
  }

  lemma {:induction false} ZeroBits(j: nat)
    ensures !BitOf(0, j)
  {
    if j != 0 {
      ZeroBits(j - 1);
    }
  }

  /** A five-bit value replaces the five bits of its field. */
  lemma SetBits(mecr: Register, sock: Sock, f: Field, bs: nat, i: nat)
    requires bs <= 31 && i < 32
    ensures var p := Position(sock, f);
            MecrSet(mecr, sock, f, bs)[i] == if p <= i < p + 5 then BitOf(bs, i - p) else mecr[i]
  {
    FiveBits(bs);
  }

  lemma GetSet(mecr: Register, sock: Sock, f: Field, bs: nat)
    requires bs <= 31
    ensures MecrGet(MecrSet(mecr, sock, f, bs), sock, f) == bs
  {
    var p := Position(sock, f);
    FiveBits(bs);
    SetBits(mecr, sock, f, bs, p);
    SetBits(mecr, sock, f, bs, p + 1);
    SetBits(mecr, sock, f, bs, p + 2);
    SetBits(mecr, sock, f, bs, p + 3);
    SetBits(mecr, sock, f, bs, p + 4);
  }

  lemma GetSame(r: Register, r': Register, sock: Sock, f: Field)
    requires var p := Position(sock, f); forall i :: p <= i < p + 5 ==> r[i] == r'[i]
    ensures MecrGet(r, sock, f) == MecrGet(r', sock, f)
  {
  }

  lemma GetOther(mecr: Register, sock: Sock, f: Field, bs: nat, sock': Sock, f': Field)
    requires bs <= 31 && (sock, f) != (sock', f')
    ensures MecrGet(MecrSet(mecr, sock, f, bs), sock', f') == MecrGet(mecr, sock', f')
  {
    var p, q := Position(sock, f), Position(sock', f');
    assert p + 5 <= q || q + 5 <= p;
    var r := MecrSet(mecr, sock, f, bs);
    forall i | q <= i < q + 5 ensures r[i] == mecr[i] {
      SetBits(mecr, sock, f, bs, i);
    }
    GetSame(r, mecr, sock', f');
  }

  /** A value is stored exactly when it fits five bits, and then no other field changes. */
  lemma FieldsIndependent(mecr: Register, sock: Sock, f: Field, bs: nat)
    ensures MecrGet(MecrSet(mecr, sock, f, bs), sock, f) == bs <==> bs <= 31
    ensures bs <= 31 ==>
              forall sock': Sock, f' :: (sock, f) != (sock', f') ==>
                MecrGet(MecrSet(mecr, sock, f, bs), sock', f') == MecrGet(mecr, sock', f')
  {
    if bs <= 31 {
      GetSet(mecr, sock, f, bs);
      forall sock': Sock, f' | (sock, f) != (sock', f')
        ensures MecrGet(MecrSet(mecr, sock, f, bs), sock', f') == MecrGet(mecr, sock', f')
      {
        GetOther(mecr, sock, f, bs, sock', f');
      }
    }
  }

  lemma ThreeFields(mecr: Register, sock: Sock, a: nat, b: nat, c: nat)
    requires a <= 31 && b <= 31 && c <= 31
    ensures var r := MecrSet(MecrSet(MecrSet(mecr, sock, Bsio, a), sock, Bsa, b), sock, Bsm, c);
            && MecrGet(r, sock, Bsio) == a && MecrGet(r, sock, Bsa) == b && MecrGet(r, sock, Bsm) == c
            && forall sock': Sock, f :: sock' != sock ==> MecrGet(r, sock', f) == MecrGet(mecr, sock', f)
  {
    var r1 := MecrSet(mecr, sock, Bsio, a);
    var r2 := MecrSet(r1, sock, Bsa, b);
    GetSet(mecr, sock, Bsio, a);
    GetSet(r1, sock, Bsa, b);
    GetSet(r2, sock, Bsm, c);
    GetOther(r1, sock, Bsa, b, sock, Bsio);
    GetOther(r2, sock, Bsm, c, sock, Bsio);
    GetOther(r2, sock, Bsm, c, sock, Bsa);
    forall sock': Sock, f | sock' != sock
      ensures MecrGet(MecrSet(r2, sock, Bsm, c), sock', f) == MecrGet(mecr, sock', f)
    {
      GetOther(mecr, sock, Bsio, a, sock', f);
      GetOther(r1, sock, Bsa, b, sock', f);
      GetOther(r2, sock, Bsm, c, sock', f);
    }
  }

  // ----- the bits of the register, by number ------------------------------------------

  lemma {:induction false} BitOfIs(n: nat, j: nat)
    ensures BitOf(n, j) <==> HasBit(n, j)
  {
    hide HasBit;
    HasBitHalf(n, if j == 0 then 0 else j - 1);
    if j != 0 {
      BitOfIs(n / 2, j - 1);
    }
  }

  /** Bits p to p + 4 of the register are the binary digits of `n`. */
  ghost predicate DigitsAt(r: Register, p: nat, n: nat)
    requires p + 5 <= 32
  {
    forall j: nat :: j < 5 ==> (r[p + j] <==> HasBit(n, j))
  }

  /** Every bit but p to p + 4 is as it was. */
  ghost predicate OthersKept(before: Register, after: Register, p: nat) {
    forall i :: 0 <= i < 32 && !(p <= i < p + 5) ==> after[i] == before[i]
  }

  /** MECR_SET writes the binary digits of any value from the lowest bit of its field on, over bits of
      its field, but into bits behind it. */
  lemma MecrSetWrites(mecr: Register, sock: Sock, f: Field, bs: nat, i: nat)
    requires i < 32
    ensures var p := match f case Bsio => if sock == 0 then 0 else 16
                             case Bsa => if sock == 0 then 5 else 21
                             case Bsm => if sock == 0 then 10 else 26;
            MecrSet(mecr, sock, f, bs)[i] ==
              if i < p then mecr[i] else if i < p + 5 then HasBit(bs, i - p) else mecr[i] || HasBit(bs, i - p)
  {
    hide HasBit, BitOf;
    var p := Position(sock, f);
    if p <= i {
      BitOfIs(bs, i - p);
    }
  }

  /** So a value of five bits is written to the five bits of its field alone. */
  lemma MecrSetDigits(mecr: Register, sock: Sock, f: Field, bs: nat)
    requires bs <= 31
    ensures var p := match f case Bsio => if sock == 0 then 0 else 16
                             case Bsa => if sock == 0 then 5 else 21
                             case Bsm => if sock == 0 then 10 else 26;
            DigitsAt(MecrSet(mecr, sock, f, bs), p, bs) && OthersKept(mecr, MecrSet(mecr, sock, f, bs), p)
  {
    hide HasBit, BitOf, MecrSet;
    FiveBits(bs);
    forall i: nat | i < 32
      ensures var p := Position(sock, f);
              MecrSet(mecr, sock, f, bs)[i] == if p <= i < p + 5 then HasBit(bs, i - p) else mecr[i]
    {
      MecrSetWrites(mecr, sock, f, bs, i);
      if Position(sock, f) + 5 <= i {
        BitOfIs(bs, i - Position(sock, f));
      }
    }
  }

  // ----- the wait-state count -----------------------------------------------------

  /** sa1100_pcmcia_mecr_bs, in 32-bit arithmetic. */
  function MecrBs(cycleNs: nat, clockKhz: nat): (bs: nat) {
    var t := ((cycleNs * clockKhz) % TWO32 / 6 - MILLION) % TWO32;
    t / MILLION + if t % MILLION == 0 then 0 else 1
  }

  /** With `bs`, the three bus cycles of two clocks each that assert a command, 6 * (bs + 1) clock
      periods in all, last as long as the card's `cycleNs` at `clockKhz`, but for the truncation of
      the division by six. */
  predicate Safe(bs: nat, cycleNs: nat, clockKhz: nat) {
    Covers(bs, cycleNs * clockKhz)
  }

  predicate Covers(bs: nat, product: nat) {
    6 * (bs + 1) * MILLION + 5 >= product
  }

  /** The cycle and clock for which the 32-bit computation neither underflows nor leaves five bits. */
  predicate InRange(cycleNs: nat, clockKhz: nat) {
    6 * MILLION <= cycleNs * clockKhz < 192 * MILLION + 6
  }

  /** Within range the count is the least safe one. */
  lemma LeastSafe(cycleNs: nat, clockKhz: nat)
    requires InRange(cycleNs, clockKhz)
    ensures MecrBs(cycleNs, clockKhz) <= 31 && Safe(MecrBs(cycleNs, clockKhz), cycleNs, clockKhz)
    ensures forall bs: nat :: Safe(bs, cycleNs, clockKhz) ==> MecrBs(cycleNs, clockKhz) <= bs
  {
    LeastFor(cycleNs * clockKhz, MecrBs(cycleNs, clockKhz));
  }

  lemma LeastFor(product: nat, bs: nat)
    requires 6 * MILLION <= product < 192 * MILLION + 6
    requires var t := (product % TWO32 / 6 - MILLION) % TWO32;
             bs == t / MILLION + if t % MILLION == 0 then 0 else 1
    ensures bs <= 31 && Covers(bs, product)
    ensures forall other: nat :: Covers(other, product) ==> bs <= other
  {
    var t := product / 6 - MILLION;
    assert bs == (t + MILLION - 1) / MILLION;
  }

  /** The count computed is one the register can hold and the card can live with exactly when the
      computation is in range. */
  lemma SafeExactlyInRange(cycleNs: nat, clockKhz: nat)
    ensures MecrBs(cycleNs, clockKhz) <= 31 && Safe(MecrBs(cycleNs, clockKhz), cycleNs, clockKhz)
            <==> InRange(cycleNs, clockKhz)
  {
    var p := cycleNs * clockKhz;
    if InRange(cycleNs, clockKhz) {
      LeastSafe(cycleNs, clockKhz);
    } else if p < TWO32 {
      assert p % TWO32 == p;
    }
  }

  /** A 20 ns cycle at 59 MHz makes the computation underflow, and a 1000 ns cycle at 206.4 MHz needs a
      count that does not fit: neither gives a count the register can hold. */
  lemma OutOfRangeCounts()
    ensures MecrBs(20, 59_000) > 31 && MecrBs(1000, 206_400) == 34
  {
  }

  /** A faster clock needs no fewer wait states. */
  lemma Monotone(bs: nat, cycleNs: nat, slow: nat, fast: nat)
    requires slow <= fast && Safe(bs, cycleNs, fast)
    ensures Safe(bs, cycleNs, slow)
  {
    MulMono(slow, fast, cycleNs);
  }

  /** sa1100_pcmcia_cmd_time: the command time reported, in 32-bit arithmetic. */
  function CmdTime(clockKhz: nat, bs: nat): nat
    requires 0 < clockKhz
  {
    (20 * MILLION / clockKhz * (3 * (bs + 1))) % TWO32 / 10
  }

  /** The command time reported for a register field is never more than the time programmed, and short
      of it by no more than the rounding of its two divisions. */
  lemma CmdTimeNotAbove(clockKhz: nat, bs: nat)
    requires 0 < clockKhz && bs <= 31
    ensures CmdTime(clockKhz, bs) * clockKhz <= 6 * (bs + 1) * MILLION
    ensures 60 * (bs + 1) * MILLION < 10 * (CmdTime(clockKhz, bs) * clockKhz) + (3 * (bs + 1) + 10) * clockKhz
  {
    hide CmdTime;
    var a, n := 20 * MILLION / clockKhz, 3 * (bs + 1);
    TwentyMillionOver(clockKhz, a);
    MulMono(a, 20 * MILLION, n);
    MulMono(0, a, n);
    CmdTimeIs(clockKhz, bs, a * n);
    TimeTimesClock(CmdTime(clockKhz, bs), a, n, clockKhz);
  }

  lemma TwentyMillionOver(clockKhz: nat, a: nat)
    requires 0 < clockKhz && a == 20 * MILLION / clockKhz
    ensures a * clockKhz <= 20 * MILLION < a * clockKhz + clockKhz && a <= 20 * MILLION
  {
    DivBounds(20 * MILLION, clockKhz);
    MulMono(1, clockKhz, a);
  }

  lemma CmdTimeIs(clockKhz: nat, bs: nat, product: nat)
    requires 0 < clockKhz && product == 20 * MILLION / clockKhz * (3 * (bs + 1)) < TWO32
    ensures CmdTime(clockKhz, bs) == product / 10
  {
  }

  lemma TimeTimesClock(time: nat, a: nat, n: nat, clockKhz: nat)
    requires 10 * time <= a * n < 10 * time + 10 && 0 < n
    requires 0 < clockKhz && a * clockKhz <= 20 * MILLION < a * clockKhz + clockKhz
    ensures time * clockKhz <= 2 * MILLION * n
    ensures 20 * MILLION * n < 10 * (time * clockKhz) + (n + 10) * clockKhz
  {
    MulMono(10 * time, a * n, clockKhz);
    MulMono(a * n, 10 * time + 10, clockKhz);
    MulMono(a * clockKhz, 20 * MILLION, n);
    MulMono(20 * MILLION + 1, a * clockKhz + clockKhz, n);
    assert 10 * time * clockKhz == 10 * (time * clockKhz);
    assert (10 * time + 10) * clockKhz == 10 * (time * clockKhz) + 10 * clockKhz;
    assert a * n * clockKhz == a * clockKhz * n;
    assert (a * clockKhz + clockKhz) * n == a * clockKhz * n + n * clockKhz;
    assert (20 * MILLION + 1) * n == 20 * MILLION * n + n;
    assert (n + 10) * clockKhz == n * clockKhz + 10 * clockKhz;
  }

  // ----- the sockets and the clock ------------------------------------------------

  datatype Speeds = Speeds(io: nat, attr: nat, mem: nat)

  function SpeedOf(s: Speeds, f: Field): nat {
    match f case Bsio => s.io case Bsa => s.attr case Bsm => s.mem
  }

  function WithSpeed(s: Speeds, f: Field, speed: nat): Speeds {
    match f case Bsio => s.(io := speed) case Bsa => s.(attr := speed) case Bsm => s.(mem := speed)
  }

  /** The register after the three fields of one socket are set for its speeds. */
  function SocketSet(reg: Register, sock: Sock, s: Speeds, c: nat): Register {
    MecrSet(MecrSet(MecrSet(reg, sock, Bsio, MecrBs(s.io, c)), sock, Bsa, MecrBs(s.attr, c)),
            sock, Bsm, MecrBs(s.mem, c))
  }

  /** The timing bits of a socket, by number, for speeds in range; its other bits and the other socket's
      are kept. */
  lemma SocketSetDigits(reg: Register, sock: Sock, s: Speeds, c: nat)
    requires InRange(s.io, c) && InRange(s.attr, c) && InRange(s.mem, c)
    ensures var r, b := SocketSet(reg, sock, s, c), if sock == 0 then 0 else 16;
            && DigitsAt(r, b, MecrBs(s.io, c)) && DigitsAt(r, b + 5, MecrBs(s.attr, c))
            && DigitsAt(r, b + 10, MecrBs(s.mem, c))
            && forall i :: 0 <= i < 32 && !(b <= i < b + 15) ==> r[i] == reg[i]
  {
    hide MecrSet, MecrBs, InRange, HasBit;
    LeastSafe(s.io, c);
    LeastSafe(s.attr, c);
    LeastSafe(s.mem, c);
    var r1 := MecrSet(reg, sock, Bsio, MecrBs(s.io, c));
    var r2 := MecrSet(r1, sock, Bsa, MecrBs(s.attr, c));
    MecrSetDigits(reg, sock, Bsio, MecrBs(s.io, c));
    MecrSetDigits(r1, sock, Bsa, MecrBs(s.attr, c));
    MecrSetDigits(r2, sock, Bsm, MecrBs(s.mem, c));
  }

  const DEFAULTS: Speeds := Speeds(IO_ACCESS, MEM_ACCESS_5V, MEM_ACCESS_5V)

  /** The clocks, in kHz, at which each default speed is in range. */
  lemma DefaultClocks(clock: nat)
    ensures InRange(IO_ACCESS, clock) <==> 36_364 <= clock <= 1_163_636
    ensures InRange(MEM_ACCESS_5V, clock) <==> 40_000 <= clock <= 1_280_000
    ensures InRange(MEM_ACCESS_3V, clock) <==> 20_000 <= clock <= 640_000
  {
  }

  class Sockets {
    var mecr: Register
    var clock: nat                  // the CPU clock that is running, in kHz
    const speeds: array<Speeds>     // speed_io, speed_attr, speed_mem of both sockets
    const vcc33: array<bool>        // cs_state.Vcc == 33
    const maxIoWin: nat             // MAX_IO_WIN
    const maxWin: nat               // MAX_WIN

    /** The start of the driver: both sockets at their default speeds, and the register programmed for
        the running clock. */
    constructor (mecr: Register, clock: nat, maxIoWin: nat, maxWin: nat)
      ensures Shape() && this.clock == clock && this.maxIoWin == maxIoWin && this.maxWin == maxWin
      ensures fresh(speeds) && fresh(vcc33)
      ensures forall sock: Sock :: speeds[sock] == DEFAULTS && !vcc33[sock]
      ensures ProgrammedFor(clock) && AllSafe() <==> 40_000 <= clock <= 1_163_636
    {
      this.clock, this.maxIoWin, this.maxWin := clock, maxIoWin, maxWin;
      speeds := new Speeds[2](_ => DEFAULTS);
      vcc33 := new bool[2](_ => false);
      this.mecr := mecr;
      new;
      ProgramDefaults();
    }

    ghost predicate Shape() {
      speeds.Length == 2 && vcc33.Length == 2
    }

    /** Every field holds the count for the speed on record at clock `c`. */
    ghost predicate ProgrammedFor(c: nat)
      reads this`mecr, speeds
      requires Shape()
    {
      forall sock: Sock, f :: MecrGet(mecr, sock, f) == MecrBs(SpeedOf(speeds[sock], f), c)
    }

    /** Every command is long enough for its card at clock `c`. */
    ghost predicate SafeAt(c: nat)
      reads this`mecr, speeds
      requires Shape()
    {
      forall sock: Sock, f :: Safe(MecrGet(mecr, sock, f), SpeedOf(speeds[sock], f), c)
    }

    /** Every command is long enough for its card at the clock that is running. */
    ghost predicate AllSafe()
      reads this`mecr, this`clock, speeds
      requires Shape()
    {
      SafeAt(clock)
    }

    ghost predicate AllInRange(c: nat)
      reads speeds
      requires Shape()
    {
      forall sock: Sock, f :: InRange(SpeedOf(speeds[sock], f), c)
    }

    lemma DefaultsInRange()
      requires Shape() && forall sock: Sock :: speeds[sock] == DEFAULTS
      ensures AllInRange(clock) <==> 40_000 <= clock <= 1_163_636
    {
      hide InRange;
      DefaultClocks(clock);
      var first: Sock := 0;
      assert SpeedOf(speeds[first], Bsio) == IO_ACCESS && SpeedOf(speeds[first], Bsm) == MEM_ACCESS_5V;
    }

    lemma ProgrammedIsSafe(c: nat)
      requires Shape() && ProgrammedFor(c) && AllInRange(c) && clock <= c
      ensures AllSafe()
    {
      forall sock: Sock, f ensures Safe(MecrGet(mecr, sock, f), SpeedOf(speeds[sock], f), clock) {
        LeastSafe(SpeedOf(speeds[sock], f), c);
        Monotone(MecrGet(mecr, sock, f), SpeedOf(speeds[sock], f), clock, c);
      }
    }

    /** Record a speed and program its field, as the map calls do.  If the speed is in range the field
        gets the least safe count and every other field keeps its own. */
    method Program(sock: Sock, f: Field, speed: nat)
      requires Shape()
      modifies this`mecr, speeds
      ensures speeds[..] == old(speeds[..])[sock := WithSpeed(old(speeds[sock]), f, speed)]
      ensures mecr == MecrSet(old(mecr), sock, f, MecrBs(speed, clock))
      ensures InRange(speed, clock) ==>
                forall sock': Sock, f' :: MecrGet(mecr, sock', f') ==
                  if (sock', f') == (sock, f) then MecrBs(speed, clock) else MecrGet(old(mecr), sock', f')
      ensures InRange(speed, clock) && old(ProgrammedFor(clock)) ==> ProgrammedFor(clock)
      ensures MecrGet(mecr, sock, f) == MecrBs(speed, clock) && Safe(MecrGet(mecr, sock, f), speed, clock)
              <==> InRange(speed, clock)
    {
      hide MecrSet, MecrGet, MecrBs, Safe, InRange;
      var bs := MecrBs(speed, clock);
      FieldsIndependent(mecr, sock, f, bs);
      SafeExactlyInRange(speed, clock);
      mecr := MecrSet(mecr, sock, f, bs);
      speeds[sock] := WithSpeed(speeds[sock], f, speed);
    }

    /** The timing part of sa1100_pcmcia_set_io_map. */
    method SetIoMap(sock: Sock, win: nat, active: bool, speed0: nat) returns (r: int)
      requires Shape()
      modifies this`mecr, speeds
      ensures r == if win >= maxIoWin then -1 else 0
      ensures r == -1 || !active ==> mecr == old(mecr) && speeds[..] == old(speeds[..])
      ensures var speed := if speed0 == 0 then IO_ACCESS else speed0;
              r == 0 && active ==>
                && speeds[..] == old(speeds[..])[sock := WithSpeed(old(speeds[sock]), Bsio, speed)]
                && mecr == MecrSet(old(mecr), sock, Bsio, MecrBs(speed, clock))
                && (InRange(speed, clock) && old(ProgrammedFor(clock)) ==> ProgrammedFor(clock))
                && (InRange(speed, clock) ==>
                      var p := if sock == 0 then 0 else 16;
                      DigitsAt(mecr, p, MecrBs(speed, clock)) && OthersKept(old(mecr), mecr, p))
    {
      hide MecrSet, MecrGet, MecrBs, InRange, HasBit;
      if win >= maxIoWin {
        return -1;
      }
      if active {
        var speed := speed0;
        if speed == 0 {
          speed := IO_ACCESS;
        }
        Program(sock, Bsio, speed);
        if InRange(speed, clock) {
          LeastSafe(speed, clock);
          MecrSetDigits(old(mecr), sock, Bsio, MecrBs(speed, clock));
        }
      }
      return 0;
    }

    /** The timing part of sa1100_pcmcia_set_mem_map. */
    method SetMemMap(sock: Sock, win: nat, active: bool, attrib: bool, speed0: nat) returns (r: int)
      requires Shape()
      modifies this`mecr, speeds
      ensures r == if win >= maxWin then -1 else 0
      ensures r == -1 || !active ==> mecr == old(mecr) && speeds[..] == old(speeds[..])
      ensures var speed := if speed0 != 0 then speed0 else if vcc33[sock] then MEM_ACCESS_3V else MEM_ACCESS_5V;
              var f := if attrib then Bsa else Bsm;
              r == 0 && active ==>
                && speeds[..] == old(speeds[..])[sock := WithSpeed(old(speeds[sock]), f, speed)]
                && mecr == MecrSet(old(mecr), sock, f, MecrBs(speed, clock))
                && (InRange(speed, clock) && old(ProgrammedFor(clock)) ==> ProgrammedFor(clock))
                && (InRange(speed, clock) ==>
                      var p := if attrib then (if sock == 0 then 5 else 21) else if sock == 0 then 10 else 26;
                      DigitsAt(mecr, p, MecrBs(speed, clock)) && OthersKept(old(mecr), mecr, p))
    {
      hide MecrSet, MecrGet, MecrBs, InRange, HasBit;
      if win >= maxWin {
        return -1;
      }
      if active {
        var speed := speed0;
        if speed == 0 {
          if vcc33[sock] {
            speed := MEM_ACCESS_3V;
          } else {
            speed := MEM_ACCESS_5V;
          }
        }
        var f := if attrib then Bsa else Bsm;
        Program(sock, f, speed);
        if InRange(speed, clock) {
          LeastSafe(speed, clock);
          MecrSetDigits(old(mecr), sock, f, MecrBs(speed, clock));
        }
      }
      return 0;
    }

    /** sa1100_pcmcia_update_mecr.  Every field ends programmed and safe for `c` exactly if every speed on
        record is in range there. */
    method UpdateMecr(c: nat)
      requires Shape()
      modifies this`mecr
      ensures mecr == SocketSet(SocketSet(old(mecr), 0, speeds[0], c), 1, speeds[1], c)
      ensures ProgrammedFor(c) && SafeAt(c) <==> AllInRange(c)
      ensures AllInRange(c) ==>
                && DigitsAt(mecr, 0, MecrBs(speeds[0].io, c)) && DigitsAt(mecr, 5, MecrBs(speeds[0].attr, c))
                && DigitsAt(mecr, 10, MecrBs(speeds[0].mem, c)) && mecr[15] == old(mecr)[15]
                && DigitsAt(mecr, 16, MecrBs(speeds[1].io, c)) && DigitsAt(mecr, 21, MecrBs(speeds[1].attr, c))
                && DigitsAt(mecr, 26, MecrBs(speeds[1].mem, c)) && mecr[31] == old(mecr)[31]
    {
      hide SocketSet, MecrGet, MecrBs, InRange, HasBit;
      var reg := mecr;
      var sock := 0;
      while sock < 2
        invariant 0 <= sock <= 2
        invariant reg == (if sock == 0 then old(mecr)
                          else if sock == 1 then SocketSet(old(mecr), 0, speeds[0], c)
                          else SocketSet(SocketSet(old(mecr), 0, speeds[0], c), 1, speeds[1], c))
        invariant AllInRange(c) ==>
                    forall s: Sock, f :: s < sock ==> MecrGet(reg, s, f) == MecrBs(SpeedOf(speeds[s], f), c)
      {
        reg := SetSocket(reg, sock, speeds[sock], c);
        sock := sock + 1;
      }
      mecr := reg;
      ProgrammedSafeIsInRange(c);
      if AllInRange(c) {
        BothSocketsDigits(old(mecr), c);
      }
    }

    lemma BothSocketsDigits(reg: Register, c: nat)
      requires Shape() && AllInRange(c)
      ensures var r := SocketSet(SocketSet(reg, 0, speeds[0], c), 1, speeds[1], c);
              && DigitsAt(r, 0, MecrBs(speeds[0].io, c)) && DigitsAt(r, 5, MecrBs(speeds[0].attr, c))
              && DigitsAt(r, 10, MecrBs(speeds[0].mem, c)) && r[15] == reg[15]
              && DigitsAt(r, 16, MecrBs(speeds[1].io, c)) && DigitsAt(r, 21, MecrBs(speeds[1].attr, c))
              && DigitsAt(r, 26, MecrBs(speeds[1].mem, c)) && r[31] == reg[31]
    {
      hide SocketSet, MecrBs, InRange, HasBit;
      var zero: Sock, one: Sock := 0, 1;
      var s0, s1 := speeds[zero], speeds[one];
      assert InRange(SpeedOf(s0, Bsio), c) && InRange(SpeedOf(s0, Bsa), c) && InRange(SpeedOf(s0, Bsm), c);
      assert InRange(SpeedOf(s1, Bsio), c) && InRange(SpeedOf(s1, Bsa), c) && InRange(SpeedOf(s1, Bsm), c);
      SocketSetDigits(reg, 0, s0, c);
      SocketSetDigits(SocketSet(reg, 0, s0, c), 1, s1, c);
    }

    /** The first programming of the register, at the default speeds. */
    method ProgramDefaults()
      requires Shape() && forall sock: Sock :: speeds[sock] == DEFAULTS
      modifies this`mecr
      ensures ProgrammedFor(clock) && AllSafe() <==> 40_000 <= clock <= 1_163_636
    {
      hide MecrGet, MecrBs, Safe, InRange, SocketSet, HasBit;
      UpdateMecr(clock);
      DefaultsInRange();
    }

    /** The three MECR_SETs of one socket. */
    method SetSocket(reg0: Register, sock: Sock, s: Speeds, c: nat) returns (reg: Register)
      ensures reg == SocketSet(reg0, sock, s, c)
      ensures (forall f :: InRange(SpeedOf(s, f), c)) ==>
                && (forall f :: MecrGet(reg, sock, f) == MecrBs(SpeedOf(s, f), c))
                && (forall sock': Sock, f :: sock' != sock ==> MecrGet(reg, sock', f) == MecrGet(reg0, sock', f))
    {
      reg := MecrSet(reg0, sock, Bsio, MecrBs(s.io, c));
      reg := MecrSet(reg, sock, Bsa, MecrBs(s.attr, c));
      reg := MecrSet(reg, sock, Bsm, MecrBs(s.mem, c));
      if forall f :: InRange(SpeedOf(s, f), c) {
        assert InRange(SpeedOf(s, Bsio), c) && InRange(SpeedOf(s, Bsa), c) && InRange(SpeedOf(s, Bsm), c);
        LeastSafe(s.io, c);
        LeastSafe(s.attr, c);
        LeastSafe(s.mem, c);
        ThreeFields(reg0, sock, MecrBs(s.io, c), MecrBs(s.attr, c), MecrBs(s.mem, c));
      }
    }

    /** sa1100_pcmcia_notifier before the change. */
    method PreChange(oldFreq: nat, newFreq: nat)
      requires Shape()
      modifies this`mecr
      ensures if newFreq > oldFreq then ProgrammedFor(newFreq) && SafeAt(newFreq) <==> AllInRange(newFreq)
              else mecr == old(mecr)
    {
      if newFreq > oldFreq {
        UpdateMecr(newFreq);
      }
    }

    /** sa1100_pcmcia_notifier after the change. */
    method PostChange(oldFreq: nat, newFreq: nat)
      requires Shape()
      modifies this`mecr
      ensures if newFreq < oldFreq then ProgrammedFor(newFreq) && SafeAt(newFreq) <==> AllInRange(newFreq)
              else mecr == old(mecr)
    {
      if newFreq < oldFreq {
        UpdateMecr(newFreq);
      }
    }

    /** A clock change: the notifier, the switch, the notifier again.  From a register programmed for
        the running clock, with every recorded speed in range at both clocks, the commands are long
        enough for the clock then running in every state on the way: `trace` records AllSafe in each.  A
        change to another clock ends with every field programmed and safe exactly if every speed is in
        range there. */
    method ChangeClock(newFreq: nat) returns (ghost trace: seq<bool>)
      requires Shape()
      modifies this`mecr, this`clock
      ensures clock == newFreq && |trace| == 4
      ensures AllInRange(newFreq) && old(ProgrammedFor(clock) && AllInRange(clock)) ==>
                ProgrammedFor(clock) && forall i :: 0 <= i < 4 ==> trace[i]
      ensures newFreq != old(clock) ==> (ProgrammedFor(clock) && AllSafe() <==> AllInRange(newFreq))
    {
      ghost var good := AllInRange(newFreq) && ProgrammedFor(clock) && AllInRange(clock);
      var oldFreq := clock;
      if good {
        ProgrammedIsSafe(clock);
      }
      ghost var s0 := AllSafe();
      PreChange(oldFreq, newFreq);
      if good {
        ProgrammedIsSafe(if newFreq > oldFreq then newFreq else oldFreq);
      }
      ghost var s1 := AllSafe();
      clock := newFreq;
      if good {
        ProgrammedIsSafe(if newFreq > oldFreq then newFreq else oldFreq);
      }
      ghost var s2 := AllSafe();
      PostChange(oldFreq, newFreq);
      if good {
        ProgrammedIsSafe(newFreq);
      }
      trace := [s0, s1, s2, AllSafe()];
    }

    /** If the fields are programmed for `c` whenever every speed is in range there, they are programmed
        and safe exactly then. */
    lemma ProgrammedSafeIsInRange(c: nat)
      requires Shape() && (AllInRange(c) ==> ProgrammedFor(c))
      ensures ProgrammedFor(c) && SafeAt(c) <==> AllInRange(c)
    {
      hide MecrGet, MecrBs, Safe, InRange;
      forall sock: Sock, f
        ensures MecrBs(SpeedOf(speeds[sock], f), c) <= 31
                && Safe(MecrBs(SpeedOf(speeds[sock], f), c), SpeedOf(speeds[sock], f), c)
                <==> InRange(SpeedOf(speeds[sock], f), c)
      {
        SafeExactlyInRange(SpeedOf(speeds[sock], f), c);
      }
    }

    /** A register programmed for the running clock is safe exactly when every speed is in range. */
    lemma SafeMeansInRange()
      requires Shape() && ProgrammedFor(clock)
      ensures AllSafe() <==> AllInRange(clock)
    {
      ProgrammedSafeIsInRange(clock);
    }
  }
}
