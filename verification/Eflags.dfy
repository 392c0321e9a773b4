/**
 The eager reference for the arithmetic flags: what an instruction makes of them, defined by its operands and its
 mathematical result, as section 3.4.3.1 of volume 1 of the Intel manual describes them.
 */
module Eflags {

  datatype Width = W8 | W16 | W32 {
    function Full(): int {
      match this case W8 => 0x100 case W16 => 0x1_0000 case W32 => 0x1_0000_0000
    }

    function Half(): int {
      match this case W8 => 0x80 case W16 => 0x8000 case W32 => 0x8000_0000
    }
  }

  type Word32 = x: int | 0 <= x < 0x1_0000_0000

  datatype Flags = Flags(cf: bool, pf: bool, af: bool, zf: bool, sf: bool, of: bool)

  /** The flags that no arithmetic touches, and the bits that cpu_set_eflags cannot write. */
  datatype System = System(tf: bool, interrupts: bool, df: bool, iopl: int, nt: bool, rf: bool, vm: bool, ac: bool,
                           vif: bool, vip: bool, id: bool, fixed: int)

  datatype Register = Register(flags: Flags, system: System)

  predicate Fits(x: int, w: Width) {
    0 <= x < w.Full()
  }

  function Signed(x: int, w: Width): int {
    if x >= w.Half() then x - w.Full() else x
  }

  predicate SignedFits(x: int, w: Width) {
    -w.Half() <= x < w.Half()
  }

  /** The number of ones in x is odd. */
  predicate OddOnes(x: nat) {
    x > 0 && (x % 2 == 1) != OddOnes(x / 2)
  }

  /** The number of ones in the low byte of x is even. */
  predicate EvenParity(x: nat) {
    !OddOnes(x % 256)
  }

  /** Flags by result: r is what the destination gets. */
  function ResultFlags(r: int, w: Width, cf: bool, af: bool, of: bool): Flags
    requires Fits(r, w)
  {
    Flags(cf, EvenParity(r), af, r == 0, r >= w.Half(), of)
  }

  function Carry(c: bool): int {
    if c then 1 else 0
  }

  /** The w-bit sum: the true one, less a carry. */
  function Sum(a: int, b: int, c: bool, w: Width): (r: int)
    requires Fits(a, w) && Fits(b, w)
    ensures Fits(r, w) && r % w.Full() == (a + b + Carry(c)) % w.Full()
  {
    var s := a + b + Carry(c);
    if s >= w.Full() then s - w.Full() else s
  }

  /** Carry out of the top, carry out of bit 3, and a signed sum that does not fit. */
  function AddFlags(a: int, b: int, c: bool, w: Width): Flags
    requires Fits(a, w) && Fits(b, w)
  {
    ResultFlags(Sum(a, b, c, w), w, a + b + Carry(c) >= w.Full(), a % 16 + b % 16 + Carry(c) >= 16,
                !SignedFits(Signed(a, w) + Signed(b, w) + Carry(c), w))
  }

  /** The w-bit difference: the true one, with a borrow repaid. */
  function Difference(a: int, b: int, c: bool, w: Width): (r: int)
    requires Fits(a, w) && Fits(b, w)
    ensures Fits(r, w) && r % w.Full() == (a - b - Carry(c)) % w.Full()
  {
    var d := a - b - Carry(c);
    if d < 0 then d + w.Full() else d
  }

  function SubFlags(a: int, b: int, c: bool, w: Width): Flags
    requires Fits(a, w) && Fits(b, w)
  {
    ResultFlags(Difference(a, b, c, w), w, a < b + Carry(c), a % 16 < b % 16 + Carry(c),
                !SignedFits(Signed(a, w) - Signed(b, w) - Carry(c), w))
  }

  /** OR, AND and XOR clear CF and OF, and this machine clears AF, which the manual leaves undefined. */
  function LogicFlags(r: int, w: Width): Flags
    requires Fits(r, w)
  {
    ResultFlags(r, w, false, false, false)
  }

  /** The product of two operands, taken as signed or as unsigned numbers. */
  function Product(a: int, b: int, signed: bool, w: Width): int {
    if signed then Signed(a, w) * Signed(b, w) else a * b
  }

  /** CF and OF tell that the product does not fit; the manual leaves the rest undefined, and this machine clears AF. */
  function MulFlags(p: int, signed: bool, w: Width): Flags {
    var large := if signed then !SignedFits(p, w) else p >= w.Full();
    ResultFlags(p % w.Full(), w, large, false, large)
  }

  // ---------- Instructions ----------

  datatype Arith = ADD | OR | ADC | SBB | AND | SUB | XOR
  datatype Flag = CF | OF | AF | ZF | SF

  datatype Insn =
    | Two(op: Arith, w: Width, dest: int, src: int)
    | Inc(w: Width, dest: int)
    | Dec(w: Width, dest: int)
    | Neg(w: Width, dest: int)
    | CmpXchg(w: Width, acc: int, dest: int, src: int)
    | XAdd(w: Width, dest: int, src: int)
    | Multiply(w: Width, a: int, b: int, signed: bool)
    | SetFlag(flag: Flag, v: bool)
    | Load(value: Register)
    | Materialize

  predicate WellFormed(i: Insn) {
    match i
    case Two(_, w, a, b) => Fits(a, w) && Fits(b, w)
    case Inc(w, a) => Fits(a, w)
    case Dec(w, a) => Fits(a, w)
    case Neg(w, a) => Fits(a, w)
    case CmpXchg(w, acc, a, b) => Fits(acc, w) && Fits(a, w) && Fits(b, w)
    case XAdd(w, a, b) => Fits(a, w) && Fits(b, w)
    case Multiply(w, a, b, _) => Fits(a, w) && Fits(b, w)
    case _ => true
  }

  /** OR, AND or XOR of the n low bits. */
  function Bitwise(op: Arith, a: nat, b: nat, n: nat): nat
    decreases n
  {
    if n == 0 then 0
    else
      var x, y := a % 2 == 1, b % 2 == 1;
      Carry(match op case OR => x || y case AND => x && y case _ => x != y) + 2 * Bitwise(op, a / 2, b / 2, n - 1)
  }

  function Size(w: Width): nat {
    match w case W8 => 8 case W16 => 16 case W32 => 32
  }

  function Power2(n: nat): (p: nat)
    ensures p > 0
  {
    if n == 0 then 1 else 2 * Power2(n - 1)
  }

  lemma {:induction false} BitwiseBound(op: Arith, a: nat, b: nat, n: nat)
    ensures Bitwise(op, a, b, n) < Power2(n)
  {
    if n > 0 { BitwiseBound(op, a / 2, b / 2, n - 1); }
  }

  lemma BitwiseFits(op: Arith, a: nat, b: nat, w: Width)
    ensures Fits(Bitwise(op, a, b, Size(w)), w)
  {
    BitwiseBound(op, a, b, Size(w));
    assert Power2(4) == 16;
    assert Power2(8) == 0x100;
    assert Power2(12) == 0x1000;
    assert Power2(16) == 0x1_0000;
    assert Power2(20) == 0x10_0000;
    assert Power2(24) == 0x100_0000;
    assert Power2(28) == 0x1000_0000;
    assert Power2(32) == 0x1_0000_0000;
  }

  /** Bit k of x. */
  predicate BitOf(x: nat, k: nat) {
    x / Power2(k) % 2 == 1
  }

  lemma Monotone(x: int, y: int, m: int)
    requires x <= y && 0 < m
    ensures x * m <= y * m
  {
  }

  lemma QuotientIs(x: int, q: int, m: int, rest: int)
    requires 0 < m && x == q * m + rest && 0 <= rest < m
    ensures x / m == q
  {
    var d := x / m;
    if d < q { Monotone(1, q - d, m); } else if d > q { Monotone(1, d - q, m); }
  }

  /** A bit above the lowest is one of half the number. */
  lemma BitOfHalf(x: nat, k: nat)
    requires k > 0
    ensures BitOf(x, k) == BitOf(x / 2, k - 1)
  {
    var m, h := Power2(k - 1), x / 2;
    assert x == h / m * (2 * m) + (2 * (h % m) + x % 2);
    QuotientIs(x, h / m, 2 * m, 2 * (h % m) + x % 2);
  }

  /** Each bit of the result is the or, the and, or the exclusive or of the operands' bits. */
  lemma {:induction false} BitwiseBits(op: Arith, a: nat, b: nat, n: nat, k: nat)
    requires k < n
    ensures var x, y := BitOf(a, k), BitOf(b, k);
            BitOf(Bitwise(op, a, b, n), k) == match op case OR => x || y case AND => x && y case _ => x != y
  {
    assert Power2(0) == 1;
    if k > 0 {
      BitOfHalf(a, k);
      BitOfHalf(b, k);
      BitOfHalf(Bitwise(op, a, b, n), k);
      assert Bitwise(op, a, b, n) / 2 == Bitwise(op, a / 2, b / 2, n - 1);
      BitwiseBits(op, a / 2, b / 2, n - 1, k - 1);
    }
  }

  /** The three results add up: what the operands share counts once in OR and once in AND, and not in XOR. */
  lemma {:induction false} BitwiseSums(a: nat, b: nat, n: nat)
    requires a < Power2(n) && b < Power2(n)
    ensures Bitwise(OR, a, b, n) + Bitwise(AND, a, b, n) == a + b
    ensures Bitwise(XOR, a, b, n) + 2 * Bitwise(AND, a, b, n) == a + b
    ensures Bitwise(AND, a, b, n) <= a && Bitwise(AND, a, b, n) <= b
  {
    if n > 0 { BitwiseSums(a / 2, b / 2, n - 1); }
  }

  function ArithResult(op: Arith, a: int, b: int, cf: bool, w: Width): (r: int)
    requires Fits(a, w) && Fits(b, w)
    ensures Fits(r, w)
  {
    BitwiseFits(op, a, b, w);
    match op
    case ADD => Sum(a, b, false, w)
    case ADC => Sum(a, b, cf, w)
    case SUB => Difference(a, b, false, w)
    case SBB => Difference(a, b, cf, w)
    case _ => Bitwise(op, a, b, Size(w))
  }

  function ArithFlags(op: Arith, a: int, b: int, cf: bool, w: Width): Flags
    requires Fits(a, w) && Fits(b, w)
  {
    match op
    case ADD => AddFlags(a, b, false, w)
    case ADC => AddFlags(a, b, cf, w)
    case SUB => SubFlags(a, b, false, w)
    case SBB => SubFlags(a, b, cf, w)
    case _ => LogicFlags(ArithResult(op, a, b, cf, w), w)
  }

  function WithFlag(f: Flags, flag: Flag, v: bool): Flags {
    match flag
    case CF => f.(cf := v)
    case OF => f.(of := v)
    case AF => f.(af := v)
    case ZF => f.(zf := v)
    case SF => f.(sf := v)
  }

  /** An instruction on a machine that keeps its flags: the register after it, and the values it writes. */
  function Execute(reg: Register, i: Insn): (Register, seq<int>)
    requires WellFormed(i)
  {
    var f := reg.flags;
    match i
    case Two(op, w, a, b) =>
      (reg.(flags := ArithFlags(op, a, b, f.cf, w)), [ArithResult(op, a, b, f.cf, w)])
    case Inc(w, a) => (reg.(flags := AddFlags(a, 1, false, w).(cf := f.cf)), [Sum(a, 1, false, w)])
    case Dec(w, a) => (reg.(flags := SubFlags(a, 1, false, w).(cf := f.cf)), [Difference(a, 1, false, w)])
    case Neg(w, a) => (reg.(flags := SubFlags(0, a, false, w)), [Difference(0, a, false, w)])
    case CmpXchg(w, acc, a, b) =>
      (reg.(flags := SubFlags(acc, a, false, w)), if acc == a then [acc, b] else [a, a])
    case XAdd(w, a, b) => (reg.(flags := AddFlags(a, b, false, w)), [Sum(a, b, false, w), a])
    case Multiply(w, a, b, signed) =>
      var p := Product(a, b, signed, w);
      (reg.(flags := MulFlags(p, signed, w)), [p % w.Full(), p / w.Full() % w.Full()])
    case SetFlag(flag, v) => (reg.(flags := WithFlag(f, flag, v)), [])
    case Load(v) => (Register(v.flags, v.system.(fixed := reg.system.fixed)), [])
    case Materialize => (reg, [])
  }

  // ---------- What the instructions are for ----------

  /** A number of two limbs. */
  function Long(low: int, high: int, w: Width): int {
    low + w.Full() * high
  }

  function SignedLong(x: int, w: Width): int {
    if x >= w.Half() * w.Full() then x - w.Full() * w.Full() else x
  }

  /** x as a number of two limbs, modulo their range. */
  function LongWrap(x: int, w: Width): int {
    var range := w.Full() * w.Full();
    if x >= range then x - range else if x < 0 then x + range else x
  }

  /** Whole pairs of sixteens leave bit 4 alone. */
  lemma Bit4Is(r: int, q: int, carry: bool, pairs: int, rest: int)
    requires r == 16 * (q + Carry(carry) - 2 * pairs) + rest && 0 <= rest < 16
    ensures carry <==> r / 16 % 2 != q % 2
  {
    assert r / 16 == q + Carry(carry) - 2 * pairs;
  }

  /** AF is the carry into bit 4 of a sum, and the borrow from it of a difference: what bit 4 of the result has beside
      the bits of the operands. */
  lemma AdjustIntoBit4(a: int, b: int, c: bool, w: Width)
    requires Fits(a, w) && Fits(b, w)
    ensures AddFlags(a, b, c, w).af <==> Sum(a, b, c, w) / 16 % 2 != (a / 16 + b / 16) % 2
    ensures SubFlags(a, b, c, w).af <==> Difference(a, b, c, w) / 16 % 2 != (a / 16 - b / 16) % 2
  {
    var pairs := match w case W8 => 8 case W16 => 0x800 case W32 => 0x800_0000;
    var low, up := a % 16 + b % 16 + Carry(c), AddFlags(a, b, c, w).af;
    Bit4Is(Sum(a, b, c, w), a / 16 + b / 16, up, if a + b + Carry(c) >= w.Full() then pairs else 0,
           if up then low - 16 else low);
    var left, down := a % 16 - b % 16 - Carry(c), SubFlags(a, b, c, w).af;
    Bit4Is(Difference(a, b, c, w), a / 16 - b / 16, down,
           Carry(down) - (if a < b + Carry(c) then pairs else 0), if down then left + 16 else left);
  }

  /** Limbs compare by the upper one. */
  lemma LongBelow(low: int, high: int, bound: int, w: Width)
    requires Fits(low, w)
    ensures low + w.Full() * high < w.Full() * bound <==> high < bound
  {
    match w case W8 => case W16 => case W32 =>
  }

  lemma LongParts(low: int, high: int, w: Width)
    requires Fits(low, w) && Fits(high, w)
    ensures 0 <= Long(low, high, w) < w.Full() * w.Full()
    ensures SignedLong(Long(low, high, w), w) == low + w.Full() * Signed(high, w)
    ensures -w.Half() * w.Full() <= SignedLong(Long(low, high, w), w) < w.Half() * w.Full()
  {
    match w case W8 => case W16 => case W32 =>
  }

  lemma LongSum(a0: int, a1: int, b0: int, b1: int, w: Width)
    requires Fits(a0, w) && Fits(a1, w) && Fits(b0, w) && Fits(b1, w)
    ensures var c := a0 + b0 >= w.Full();
            var low, high := Sum(a0, b0, false, w), a1 + b1 + Carry(c);
            Long(a0, a1, w) + Long(b0, b1, w) == low + w.Full() * high
  {
    match w case W8 => case W16 => case W32 =>
  }

  lemma LongDifference(a0: int, a1: int, b0: int, b1: int, w: Width)
    requires Fits(a0, w) && Fits(a1, w) && Fits(b0, w) && Fits(b1, w)
    ensures var c := a0 < b0;
            var low, high := Difference(a0, b0, false, w), a1 - b1 - Carry(c);
            Long(a0, a1, w) - Long(b0, b1, w) == low + w.Full() * high
  {
    match w case W8 => case W16 => case W32 =>
  }

  lemma LongTurn(low: int, high: int, w: Width)
    requires Fits(low, w) && -w.Full() <= high < 2 * w.Full()
    ensures LongWrap(low + w.Full() * high, w)
        == Long(low, if high >= w.Full() then high - w.Full() else if high < 0 then high + w.Full() else high, w)
  {
    LongBelow(low, high, w.Full(), w);
    LongBelow(low, high, 0, w);
    match w case W8 => case W16 => case W32 =>
  }

  /** ADD and then ADC add numbers of two limbs: the sum, its carry, its sign and its signed overflow. */
  lemma LongAddition(reg: Register, w: Width, a0: int, a1: int, b0: int, b1: int)
    requires Fits(a0, w) && Fits(a1, w) && Fits(b0, w) && Fits(b1, w)
    ensures var (r0, low) := Execute(reg, Two(ADD, w, a0, b0));
            var (r1, high) := Execute(r0, Two(ADC, w, a1, b1));
            var a, b := Long(a0, a1, w), Long(b0, b1, w);
            && |low| == |high| == 1 && Long(low[0], high[0], w) == LongWrap(a + b, w)
            && (r1.flags.cf <==> a + b >= w.Full() * w.Full())
            && (r1.flags.of <==>
                  !(-w.Half() * w.Full() <= SignedLong(a, w) + SignedLong(b, w) < w.Half() * w.Full()))
            && (r1.flags.sf <==> SignedLong(LongWrap(a + b, w), w) < 0)
  {
    UnsignedLongSum(a0, a1, b0, b1, w);
    SignedLongSum(a0, a1, b0, b1, w);
    var c := a0 + b0 >= w.Full();
    LongParts(Sum(a0, b0, false, w), Sum(a1, b1, c, w), w);
    LongBelow(Sum(a0, b0, false, w), Signed(Sum(a1, b1, c, w), w), 0, w);
  }

  lemma UnsignedLongSum(a0: int, a1: int, b0: int, b1: int, w: Width)
    requires Fits(a0, w) && Fits(a1, w) && Fits(b0, w) && Fits(b1, w)
    ensures var c, x := a0 + b0 >= w.Full(), Long(a0, a1, w) + Long(b0, b1, w);
            && Long(Sum(a0, b0, false, w), Sum(a1, b1, c, w), w) == LongWrap(x, w)
            && (a1 + b1 + Carry(c) >= w.Full() <==> x >= w.Full() * w.Full())
  {
    var low, high := Sum(a0, b0, false, w), a1 + b1 + Carry(a0 + b0 >= w.Full());
    LongSum(a0, a1, b0, b1, w);
    LongTurn(low, high, w);
    LongBelow(low, high, w.Full(), w);
  }

  lemma SignedLongSum(a0: int, a1: int, b0: int, b1: int, w: Width)
    requires Fits(a0, w) && Fits(a1, w) && Fits(b0, w) && Fits(b1, w)
    ensures var c, x := a0 + b0 >= w.Full(), SignedLong(Long(a0, a1, w), w) + SignedLong(Long(b0, b1, w), w);
            SignedFits(Signed(a1, w) + Signed(b1, w) + Carry(c), w)
            <==> -w.Half() * w.Full() <= x < w.Half() * w.Full()
  {
    var c := a0 + b0 >= w.Full();
    var low, signed := Sum(a0, b0, false, w), Signed(a1, w) + Signed(b1, w) + Carry(c);
    LongParts(a0, a1, w);
    LongParts(b0, b1, w);
    SignedSum(a0, a1, b0, b1, w);
    LongBelow(low, signed, w.Half(), w);
    LongBelow(low, signed, -w.Half(), w);
  }

  lemma SignedSum(a0: int, a1: int, b0: int, b1: int, w: Width)
    requires Fits(a0, w) && Fits(a1, w) && Fits(b0, w) && Fits(b1, w)
    ensures var c := Carry(a0 + b0 >= w.Full());
            a0 + w.Full() * Signed(a1, w) + (b0 + w.Full() * Signed(b1, w))
            == Sum(a0, b0, false, w) + w.Full() * (Signed(a1, w) + Signed(b1, w) + c)
  {
    match w case W8 => case W16 => case W32 =>
  }

  lemma SignedDifference(a0: int, a1: int, b0: int, b1: int, w: Width)
    requires Fits(a0, w) && Fits(a1, w) && Fits(b0, w) && Fits(b1, w)
    ensures var c := Carry(a0 < b0);
            a0 + w.Full() * Signed(a1, w) - (b0 + w.Full() * Signed(b1, w))
            == Difference(a0, b0, false, w) + w.Full() * (Signed(a1, w) - Signed(b1, w) - c)
  {
    match w case W8 => case W16 => case W32 =>
  }

  /** SUB and then SBB subtract and compare them: below is CF, and less is SF not equal to OF. */
  lemma LongSubtraction(reg: Register, w: Width, a0: int, a1: int, b0: int, b1: int)
    requires Fits(a0, w) && Fits(a1, w) && Fits(b0, w) && Fits(b1, w)
    ensures var (r0, low) := Execute(reg, Two(SUB, w, a0, b0));
            var (r1, high) := Execute(r0, Two(SBB, w, a1, b1));
            var a, b := Long(a0, a1, w), Long(b0, b1, w);
            && |low| == |high| == 1 && Long(low[0], high[0], w) == LongWrap(a - b, w)
            && (Condition(r1.flags, 2) <==> a < b)
            && (Condition(r1.flags, 12) <==> SignedLong(a, w) < SignedLong(b, w))
  {
    var c := a0 < b0;
    var low, high := Difference(a0, b0, false, w), a1 - b1 - Carry(c);
    LongDifference(a0, a1, b0, b1, w);
    LongTurn(low, high, w);
    LongBelow(low, high, 0, w);
    EvenConditions(SubFlags(a1, b1, c, w));
    SignAndOverflow(a1, b1, c, w);
    SignedLongDifference(a0, a1, b0, b1, w);
  }

  lemma SignedLongDifference(a0: int, a1: int, b0: int, b1: int, w: Width)
    requires Fits(a0, w) && Fits(a1, w) && Fits(b0, w) && Fits(b1, w)
    ensures SignedLong(Long(a0, a1, w), w) < SignedLong(Long(b0, b1, w), w)
        <==> Signed(a1, w) - Signed(b1, w) - Carry(a0 < b0) < 0
  {
    LongParts(a0, a1, w);
    LongParts(b0, b1, w);
    SignedDifference(a0, a1, b0, b1, w);
    LongBelow(Difference(a0, b0, false, w), Signed(a1, w) - Signed(b1, w) - Carry(a0 < b0), 0, w);
  }

  /** The sign of a signed difference, from the flags. */
  lemma SignAndOverflow(a: int, b: int, c: bool, w: Width)
    requires Fits(a, w) && Fits(b, w)
    ensures var f := SubFlags(a, b, c, w); f.sf != f.of <==> Signed(a, w) - Signed(b, w) - Carry(c) < 0
  {
  }

  lemma UpAndDown(a: int, w: Width)
    requires Fits(a, w)
    ensures Difference(Sum(a, 1, false, w), 1, false, w) == a
    ensures Difference(0, Difference(0, a, false, w), false, w) == a
  {
  }

  /** DEC undoes INC, and neither changes CF. */
  lemma DecUndoesInc(reg: Register, w: Width, a: int)
    requires Fits(a, w)
    ensures var (r, up) := Execute(reg, Inc(w, a));
            && |up| == 1 && Fits(up[0], w) && r.flags.cf == reg.flags.cf
            && Execute(r, Dec(w, up[0])).1 == [a] && Execute(r, Dec(w, up[0])).0.flags.cf == reg.flags.cf
  {
    UpAndDown(a, w);
  }

  /** NEG undoes NEG, and tells by CF whether there was anything to negate. */
  lemma NegUndoesNeg(reg: Register, w: Width, a: int)
    requires Fits(a, w)
    ensures var (r, minus) := Execute(reg, Neg(w, a));
            && |minus| == 1 && Fits(minus[0], w) && Execute(r, Neg(w, minus[0])).1 == [a]
            && (r.flags.cf <==> a != 0) && a + minus[0] == if a == 0 then 0 else w.Full()
  {
    UpAndDown(a, w);
  }

  /** CMPXCHG stores the source exactly if it leaves ZF set, which is if the accumulator held the destination; otherwise
      it loads the destination. The destination of XADD, less the register it gave, is the source. */
  lemma Exchanges(reg: Register, w: Width, acc: int, dest: int, src: int)
    requires Fits(acc, w) && Fits(dest, w) && Fits(src, w)
    ensures var (r, out) := Execute(reg, CmpXchg(w, acc, dest, src));
            && (r.flags.zf <==> acc == dest)
            && out == if r.flags.zf then [acc, src] else [dest, dest]
    ensures var (r, out) := Execute(reg, XAdd(w, dest, src));
            |out| == 2 && out[1] == dest && Fits(out[0], w) && Difference(out[0], dest, false, w) == src
            && (r.flags.cf <==> out[0] < dest)
  {
  }

  function ExecuteAll(reg: Register, program: seq<Insn>): (Register, seq<seq<int>>)
    requires forall i | i in program :: WellFormed(i)
    decreases |program|
  {
    if program == [] then (reg, [])
    else
      var last := |program| - 1;
      var (before, results) := ExecuteAll(reg, program[..last]);
      var (after, result) := Execute(before, program[last]);
      (after, results + [result])
  }

  // ---------- Conditions ----------

  /** The conditions of Jcc, SETcc and CMOVcc by the low four bits of their opcodes. */
  predicate Condition(f: Flags, code: int) {
    var c := match code / 2 % 8
      case 0 => f.of
      case 1 => f.cf
      case 2 => f.zf
      case 3 => f.zf || f.cf
      case 4 => f.sf
      case 5 => f.pf
      case 6 => f.sf != f.of
      case _ => f.zf || f.sf != f.of;
    c != (code % 2 == 1)
  }

  lemma EvenConditions(f: Flags)
    ensures Condition(f, 0) == f.of && Condition(f, 2) == f.cf && Condition(f, 4) == f.zf
        && Condition(f, 6) == (f.zf || f.cf)
    ensures Condition(f, 8) == f.sf && Condition(f, 10) == f.pf
    ensures Condition(f, 12) == (f.sf != f.of) && Condition(f, 14) == (f.zf || f.sf != f.of)
  {
  }

  /** After comparing a with b, the conditions mean what their mnemonics say: overflow, below, equal, below or equal,
      sign, parity, less, and less or equal. */
  lemma ConditionsAfterCompare(a: int, b: int, w: Width)
    requires Fits(a, w) && Fits(b, w)
    ensures var f, d := SubFlags(a, b, false, w), Difference(a, b, false, w);
            && (Condition(f, 0) <==> !SignedFits(Signed(a, w) - Signed(b, w), w))
            && (Condition(f, 2) <==> a < b)
            && (Condition(f, 4) <==> a == b)
            && (Condition(f, 6) <==> a <= b)
            && (Condition(f, 8) <==> Signed(d, w) < 0)
            && (Condition(f, 10) <==> EvenParity(d))
            && (Condition(f, 12) <==> Signed(a, w) < Signed(b, w))
            && (Condition(f, 14) <==> Signed(a, w) <= Signed(b, w))
  {
    EvenConditions(SubFlags(a, b, false, w));
  }

  /** What setting a flag makes of the conditions that are one flag: OF, CF, ZF, SF and PF. */
  lemma FlagsByCondition(f: Flags, flag: Flag, v: bool)
    ensures var g := WithFlag(f, flag, v);
            && Condition(g, 0) == (if flag == OF then v else Condition(f, 0))
            && Condition(g, 2) == (if flag == CF then v else Condition(f, 2))
            && Condition(g, 4) == (if flag == ZF then v else Condition(f, 4))
            && Condition(g, 8) == (if flag == SF then v else Condition(f, 8))
            && Condition(g, 10) == Condition(f, 10)
            && g.af == (if flag == AF then v else f.af)
  {
    EvenConditions(f);
    EvenConditions(WithFlag(f, flag, v));
  }

  lemma OddConditionsNegate(f: Flags, code: int)
    requires code % 2 == 0
    ensures Condition(f, code + 1) == !Condition(f, code)
  {
    assert (code + 1) / 2 == code / 2;
  }
}
