/**
 The lazy flags of src/cpu/eflags.cpp and the arithmetic of src/cpu/arith.cpp: an instruction leaves its result, its
 operands and its kind behind, and each flag is worked out from them when it is read.
 */
module LazyFlags {
  import opened Eflags

  /** The kinds of operation in the low six bits of m_laux. */
  datatype Kind =
    | Add(w: Width) | Bit | Adc(w: Width) | Sbb(w: Width) | Sub(w: Width) | Mul
    | Inc(w: Width) | Dec(w: Width) | FullUpdate

  /** m_laux: the kind, and bits 31 and 7, which correct the sign and the parity of m_lr. */
  datatype Aux = Aux(kind: Kind, flipSign: bool, flipParity: bool)

  /** Bit k of x, for the bits that the flag formulas look at. */
  predicate At(x: int, k: int) {
    if k == 31 then x % 0x1_0000_0000 >= 0x8000_0000
    else if k == 15 then x % 0x1_0000 >= 0x8000
    else if k == 7 then x % 0x100 >= 0x80
    else x % 32 >= 16
  }

  function Top(w: Width): int {
    match w case W8 => 7 case W16 => 15 case W32 => 31
  }

  function Wrap(x: int): Word32 {
    x % 0x1_0000_0000
  }

  /** r sign-extended to 32 bits. */
  function Extend(r: int, w: Width): Word32
    requires Fits(r, w)
  {
    if r >= w.Half() then r + (0x1_0000_0000 - w.Full()) else r
  }

  // ---------- What the formulas see ----------

  /** The bits of 0x9669, lowest first. */
  const PARITY_TABLE :=
    [true, false, false, true, false, true, true, false, false, true, true, false, true, false, false, true]

  /** Two four-bit numbers folded onto each other. */
  function Fold(a: nat, b: nat): (r: nat)
    ensures r < 16
  {
    BitwiseBound(XOR, a, b, 4);
    assert Power2(4) == 16;
    Bitwise(XOR, a, b, 4)
  }

  lemma Halves(b: bool, y: nat)
    ensures (Carry(b) + 2 * y) % 2 == Carry(b) && (Carry(b) + 2 * y) / 2 == y
  {
  }

  lemma OnesOf(b: bool, y: nat)
    ensures OddOnes(Carry(b) + 2 * y) == (b != OddOnes(y))
  {
    Halves(b, y);
  }

  /** A number with the digit whose bits are b3, b2, b1 and b0 below h. */
  function Digit(b0: bool, b1: bool, b2: bool, b3: bool, h: nat): nat {
    Carry(b0) + 2 * (Carry(b1) + 2 * (Carry(b2) + 2 * (Carry(b3) + 2 * h)))
  }

  lemma OnesOfDigit(b0: bool, b1: bool, b2: bool, b3: bool, h: nat)
    ensures OddOnes(Digit(b0, b1, b2, b3, h)) == (b0 != (b1 != (b2 != (b3 != OddOnes(h)))))
  {
    OnesOf(b3, h);
    OnesOf(b2, Carry(b3) + 2 * h);
    OnesOf(b1, Carry(b2) + 2 * (Carry(b3) + 2 * h));
    OnesOf(b0, Carry(b1) + 2 * (Carry(b2) + 2 * (Carry(b3) + 2 * h)));
  }

  lemma DigitBits(n: int) returns (b0: bool, b1: bool, b2: bool, b3: bool)
    requires 0 <= n < 16
    ensures n == Digit(b0, b1, b2, b3, 0)
  {
    b3 := n >= 8;
    var m := n - 8 * Carry(b3);
    b2 := m >= 4;
    var l := m - 4 * Carry(b2);
    b1 := l >= 2;
    b0 := l - 2 * Carry(b1) == 1;
  }

  /** The low digit and the rest have the ones of the number between them. */
  lemma OnesOfDigits(low: int, high: nat)
    requires 0 <= low < 16
    ensures OddOnes(low + 16 * high) == (OddOnes(low) != OddOnes(high))
  {
    var b0, b1, b2, b3 := DigitBits(low);
    OnesOfDigit(b0, b1, b2, b3, high);
    OnesOfDigit(b0, b1, b2, b3, 0);
    assert low + 16 * high == Digit(b0, b1, b2, b3, high);
  }

  /** The table's bit n tells whether n has an even number of ones. */
  lemma TableParity(n: int)
    requires 0 <= n < 16
    ensures PARITY_TABLE[n] == !OddOnes(n)
  {
    var b0, b1, b2, b3 := DigitBits(n);
    OnesOfDigit(b0, b1, b2, b3, 0);
  }

  /** Folding keeps the parity. */
  lemma {:induction false} XorOnes(a: nat, b: nat, n: nat)
    requires a < Power2(n) && b < Power2(n)
    ensures OddOnes(Bitwise(XOR, a, b, n)) == (OddOnes(a) != OddOnes(b))
  {
    if n > 0 {
      XorOnes(a / 2, b / 2, n - 1);
      OnesOf((a % 2 == 1) != (b % 2 == 1), Bitwise(XOR, a / 2, b / 2, n - 1));
    }
  }

  lemma FoldOnes(a: nat, b: nat)
    requires a < 16 && b < 16
    ensures OddOnes(Fold(a, b)) == (OddOnes(a) != OddOnes(b))
  {
    assert Power2(4) == 16;
    XorOnes(a, b, 4);
  }

  /** Folding the halves of a byte and looking up the result gives its parity. */
  lemma FoldedParity(v: int)
    requires 0 <= v < 256
    ensures PARITY_TABLE[Fold(v % 16, v / 16)] == EvenParity(v)
  {
    var low, high := v % 16, v / 16;
    TableParity(Fold(low, high));
    FoldOnes(low, high);
    OnesOfDigits(low, high);
  }

  lemma TopBitOfDigit(high: nat)
    requires high < 8
    ensures OddOnes(high + 8) == !OddOnes(high)
  {
    var b0, b1, b2, b3 := DigitBits(high);
    OnesOfDigit(b0, b1, b2, false, 0);
    OnesOfDigit(b0, b1, b2, true, 0);
  }

  /** Bit 7 turned over: the parity is the other one. */
  lemma TopBitTurnsParity(low: int, high: int)
    requires 0 <= low < 16 && 0 <= high < 8
    ensures OddOnes(low + 16 * (high + 8)) == !OddOnes(low + 16 * high)
  {
    OnesOfDigits(low, high);
    OnesOfDigits(low, high + 8);
    TopBitOfDigit(high);
  }

  /** Bit 7 of a byte turned over, if flip says so. */
  function Turned(v: int, flip: bool): (r: int)
    requires 0 <= v < 256
    ensures 0 <= r < 256
  {
    if !flip then v else if v >= 128 then v - 128 else v + 128
  }

  lemma TurnedParity(v: int, flip: bool)
    requires 0 <= v < 256
    ensures OddOnes(Turned(v, flip)) == (OddOnes(v) != flip)
  {
    var u := if v >= 128 then v - 128 else v;
    TopBitTurnsParity(u % 16, u / 16);
  }

  lemma CorrectedParity(lr: Word32, flip: bool)
    ensures var v := Turned(lr % 256, flip); PARITY_TABLE[Fold(v % 16, v / 16)] == (EvenParity(lr) != flip)
  {
    TurnedParity(lr % 256, flip);
    FoldedParity(Turned(lr % 256, flip));
    ByteParity(Turned(lr % 256, flip));
  }

  lemma ByteParity(v: int)
    requires 0 <= v < 256
    ensures EvenParity(v) == !OddOnes(v)
  {
    Mod256Is(v, 0, v);
  }

  lemma Mod256Is(x: int, q: int, z: int)
    requires x == 256 * q + z && 0 <= z < 256
    ensures x % 256 == z
  {
  }

  lemma ExtendKeepsParity(r: int, w: Width)
    requires Fits(r, w)
    ensures EvenParity(Extend(r, w)) == EvenParity(r)
  {
    var k := match w case W8 => 0xFF_FFFF case W16 => 0xFF_FF00 case W32 => 0;
    Mod256Is(Extend(r, w), r / 256 + if r >= w.Half() then k else 0, r % 256);
  }

  lemma Mod32Is(x: int, q: int, z: int)
    requires x == 32 * q + z && 0 <= z < 32
    ensures x % 32 == z
  {
  }

  lemma Mod16Is(x: int, q: int, z: int)
    requires x == 16 * q + z && 0 <= z < 16
    ensures x % 16 == z
  {
  }

  lemma Mod8Is(x: int, q: int, z: int)
    requires x == 0x100 * q + z && 0 <= z < 0x100
    ensures x % 0x100 == z
  {
  }

  lemma ModWordIs(x: int, q: int, z: int)
    requires x == 0x1_0000 * q + z && 0 <= z < 0x1_0000
    ensures x % 0x1_0000 == z
  {
  }

  lemma ModDwordIs(x: int, q: int, z: int)
    requires x == 0x1_0000_0000 * q + z && 0 <= z < 0x1_0000_0000
    ensures x % 0x1_0000_0000 == z
  {
  }

  lemma ModFullIs(x: int, q: int, z: int, w: Width)
    requires x == q * w.Full() + z && Fits(z, w)
    ensures x % w.Full() == z && At(x, Top(w)) == (z >= w.Half())
  {
    match w
    case W8 => Mod8Is(x, q, z);
    case W16 => ModWordIs(x, q, z);
    case W32 => ModDwordIs(x, q, z);
  }

  lemma Mod16And32(r: int, k: int)
    ensures (r + k * 32) % 32 == r % 32 && (r + k * 32) % 16 == r % 16
  {
    Mod32Is(r + k * 32, r / 32 + k, r % 32);
    Mod16Is(r + k * 32, r / 16 + 2 * k, r % 16);
  }

  /** Adding whole turns of the width changes none of the bits that the formulas look at. */
  lemma LowBits(r: int, k: int, w: Width)
    requires Fits(r, w)
    ensures var x := r + k * w.Full();
            x % w.Full() == r && At(x, Top(w)) == (r >= w.Half()) && At(x, 4) == At(r, 4) && x % 16 == r % 16
  {
    ModFullIs(r + k * w.Full(), k, r, w);
    var turns := match w case W8 => 8 case W16 => 0x800 case W32 => 0x800_0000;
    assert k * w.Full() == k * turns * 32;
    Mod16And32(r, k * turns);
  }

  /** How many turns of the width 2^32 makes. */
  function Turns(w: Width): int {
    match w case W8 => 0x100_0000 case W16 => 0x1_0000 case W32 => 1
  }

  /** The sign, the low bits and the zero of a result survive its extension. */
  lemma ExtendBits(r: int, w: Width)
    requires Fits(r, w)
    ensures var x := Extend(r, w);
            && x % w.Full() == r && x % 16 == r % 16
            && At(x, Top(w)) == At(x, 31) == (r >= w.Half())
            && At(x, 4) == At(r, 4)
            && (x == 0 <==> r == 0)
  {
    LowBits(r, if r >= w.Half() then Turns(w) - 1 else 0, w);
  }

  /** Up to a turn of 2^32, one way or the other, a sum of whole turns of the width wraps to one. */
  lemma TurnsBack(a: int, k: int, turned: int, w: Width)
    requires Fits(a, w) && -1 <= k <= Turns(w)
    requires turned == if k < 0 then k + Turns(w) else if k == Turns(w) then 0 else k
    ensures Wrap(a + k * w.Full()) == a + turned * w.Full()
  {
    match w
    case W8 => ModDwordIs(a + k * 0x100, if k < 0 then -1 else if k == 0x100_0000 then 1 else 0, a + turned * 0x100);
    case W16 =>
      ModDwordIs(a + k * 0x1_0000, if k < 0 then -1 else if k == 0x1_0000 then 1 else 0, a + turned * 0x1_0000);
    case W32 =>
      ModDwordIs(a + k * 0x1_0000_0000, if k < 0 then -1 else if k == 1 then 1 else 0, a + turned * 0x1_0000_0000);
  }

  /** Taking the addend away again gives the first operand, as far as its width goes. */
  lemma AddRecovers(a: int, b: int, w: Width)
    requires Fits(a, w) && Fits(b, w)
    ensures var x := Wrap(Extend(Sum(a, b, false, w), w) - b);
            x % w.Full() == a && At(x, Top(w)) == (a >= w.Half()) && At(x, 4) == At(a, 4)
  {
    var r := Sum(a, b, false, w);
    var k := (if r >= w.Half() then Turns(w) - 1 else 0) - (if a + b >= w.Full() then 1 else 0);
    var turned := if k < 0 then k + Turns(w) else k;
    TurnsBack(a, k, turned, w);
    assert Extend(r, w) - b == a + k * w.Full();
    LowBits(a, turned, w);
  }

  lemma SubRecovers(a: int, b: int, w: Width)
    requires Fits(a, w) && Fits(b, w)
    ensures var x := Wrap(b + Extend(Difference(a, b, false, w), w));
            x % w.Full() == a && At(x, Top(w)) == (a >= w.Half()) && At(x, 4) == At(a, 4)
  {
    var r := Difference(a, b, false, w);
    var k := (if r >= w.Half() then Turns(w) - 1 else 0) + (if a < b then 1 else 0);
    var turned := if k == Turns(w) then 0 else k;
    TurnsBack(a, k, turned, w);
    assert b + Extend(r, w) == a + k * w.Full();
    LowBits(a, turned, w);
  }

  /** The low five bits, as a half carry and four more. */
  lemma Split32(a: int) returns (q: int, x: int)
    ensures a == 32 * q + x && 0 <= x < 32
    ensures a % 32 == x && a % 16 == if x >= 16 then x - 16 else x
  {
    q, x := a / 32, a % 32;
    if x >= 16 { Mod16Is(a, 2 * q + 1, x - 16); } else { Mod16Is(a, 2 * q, x); }
  }

  /** Bit 4 of the operands and the sum disagree exactly if bit 3 carried. */
  lemma HalfCarry(a: int, b: int, c: bool, r: int, k: int)
    requires r == a + b + Carry(c) + 32 * k
    ensures (At(a, 4) != (At(b, 4) != At(r, 4))) <==> a % 16 + b % 16 + Carry(c) >= 16
  {
    var p, x := Split32(a);
    var q, y := Split32(b);
    var z := x + y + Carry(c);
    if z >= 32 { Mod32Is(r, p + q + k + 1, z - 32); } else { Mod32Is(r, p + q + k, z); }
  }

  lemma HalfBorrow(a: int, b: int, c: bool, r: int, k: int)
    requires r == a - b - Carry(c) + 32 * k
    ensures (At(a, 4) != (At(b, 4) != At(r, 4))) <==> a % 16 < b % 16 + Carry(c)
  {
    var p, x := Split32(a);
    var q, y := Split32(b);
    var z := x - y - Carry(c);
    if z < 0 { Mod32Is(r, p - q + k - 1, z + 32); } else { Mod32Is(r, p - q + k, z); }
  }

  // ---------- The formulas of the getters, by kind ----------

  predicate AddOf(lr: Word32, b: Word32, w: Width) {
    At(Wrap(lr - b), Top(w)) == At(b, Top(w)) && At(b, Top(w)) != At(lr, Top(w))
  }

  predicate AddAf(lr: Word32, b: Word32) {
    At(Wrap(lr - b), 4) != (At(b, 4) != At(lr, 4))
  }

  predicate AddCf(lr: Word32, b: Word32, w: Width) {
    lr % w.Full() < b % w.Full()
  }

  predicate SubOf(lr: Word32, b: Word32, w: Width) {
    At(Wrap(b + lr), Top(w)) != At(b, Top(w)) && At(Wrap(b + lr), Top(w)) != At(lr, Top(w))
  }

  predicate SubAf(lr: Word32, b: Word32) {
    At(Wrap(lr + b), 4) != (At(b, 4) != At(lr, 4))
  }

  predicate SubCf(lr: Word32, b: Word32, w: Width) {
    b > Wrap(b + lr) % w.Full()
  }

  predicate AdcOf(lr: Word32, a: Word32, b: Word32, w: Width) {
    At(a, Top(w)) != At(lr, Top(w)) && At(b, Top(w)) != At(lr, Top(w))
  }

  predicate AdcCf(lr: Word32, a: Word32, b: Word32, w: Width) {
    At(a, Top(w)) != (At(a, Top(w)) != At(b, Top(w)) && At(b, Top(w)) != At(lr, Top(w)))
  }

  predicate SbbOf(lr: Word32, a: Word32, b: Word32, w: Width) {
    At(lr, Top(w)) != At(a, Top(w)) && At(b, Top(w)) != At(a, Top(w))
  }

  predicate SbbCf(lr: Word32, a: Word32, b: Word32, w: Width) {
    At(lr, Top(w)) != (At(lr, Top(w)) != At(b, Top(w)) && At(a, Top(w)) != At(b, Top(w)))
  }

  predicate CarryAf(lr: Word32, a: Word32, b: Word32) {
    At(a, 4) != (At(b, 4) != At(lr, 4))
  }

  // ---------- What they give ----------

  lemma SumHalfCarry(a: int, b: int, c: bool, w: Width)
    requires Fits(a, w) && Fits(b, w)
    ensures CarryAf(Sum(a, b, c, w), a, b) <==> a % 16 + b % 16 + Carry(c) >= 16
  {
    var turns := match w case W8 => 8 case W16 => 0x800 case W32 => 0x800_0000;
    HalfCarry(a, b, c, Sum(a, b, c, w), if a + b + Carry(c) >= w.Full() then -turns else 0);
  }

  lemma DifferenceHalfBorrow(a: int, b: int, c: bool, w: Width)
    requires Fits(a, w) && Fits(b, w)
    ensures CarryAf(Difference(a, b, c, w), a, b) <==> a % 16 < b % 16 + Carry(c)
  {
    var turns := match w case W8 => 8 case W16 => 0x800 case W32 => 0x800_0000;
    HalfBorrow(a, b, c, Difference(a, b, c, w), if a < b + Carry(c) then turns else 0);
  }

  lemma AddOfFormula(a: int, b: int, w: Width)
    requires Fits(a, w) && Fits(b, w)
    ensures AddOf(Extend(Sum(a, b, false, w), w), b, w) == AddFlags(a, b, false, w).of
  {
    ExtendBits(Sum(a, b, false, w), w);
    AddRecovers(a, b, w);
    LowBits(b, 0, w);
  }

  lemma AddAfFormula(a: int, b: int, w: Width)
    requires Fits(a, w) && Fits(b, w)
    ensures AddAf(Extend(Sum(a, b, false, w), w), b) == AddFlags(a, b, false, w).af
  {
    ExtendBits(Sum(a, b, false, w), w);
    AddRecovers(a, b, w);
    SumHalfCarry(a, b, false, w);
  }

  lemma AddFormulas(a: int, b: int, w: Width)
    requires Fits(a, w) && Fits(b, w)
    ensures var lr, f := Extend(Sum(a, b, false, w), w), AddFlags(a, b, false, w);
            AddOf(lr, b, w) == f.of && AddAf(lr, b) == f.af && AddCf(lr, b, w) == f.cf
  {
    AddOfFormula(a, b, w);
    AddAfFormula(a, b, w);
    ExtendBits(Sum(a, b, false, w), w);
    LowBits(b, 0, w);
  }

  lemma SubOfFormula(a: int, b: int, w: Width)
    requires Fits(a, w) && Fits(b, w)
    ensures SubOf(Extend(Difference(a, b, false, w), w), b, w) == SubFlags(a, b, false, w).of
  {
    ExtendBits(Difference(a, b, false, w), w);
    SubRecovers(a, b, w);
    LowBits(b, 0, w);
  }

  lemma SubAfFormula(a: int, b: int, w: Width)
    requires Fits(a, w) && Fits(b, w)
    ensures SubAf(Extend(Difference(a, b, false, w), w), b) == SubFlags(a, b, false, w).af
  {
    ExtendBits(Difference(a, b, false, w), w);
    SubRecovers(a, b, w);
    DifferenceHalfBorrow(a, b, false, w);
  }

  lemma SubFormulas(a: int, b: int, w: Width)
    requires Fits(a, w) && Fits(b, w)
    ensures var lr, f := Extend(Difference(a, b, false, w), w), SubFlags(a, b, false, w);
            SubOf(lr, b, w) == f.of && SubAf(lr, b) == f.af && SubCf(lr, b, w) == f.cf
  {
    SubOfFormula(a, b, w);
    SubAfFormula(a, b, w);
    SubRecovers(a, b, w);
  }

  /** Carry and overflow by the signs of the operands and the sum. */
  lemma CarryBySigns(a: int, b: int, c: bool, w: Width)
    requires Fits(a, w) && Fits(b, w)
    ensures var f, h := AddFlags(a, b, c, w), w.Half();
            var r := Sum(a, b, c, w);
            f.cf == if (a >= h) == (b >= h) then a >= h else r < h
  {
  }

  lemma SumOverflowBySigns(a: int, b: int, c: bool, w: Width)
    requires Fits(a, w) && Fits(b, w)
    ensures var f, h := AddFlags(a, b, c, w), w.Half();
            var r := Sum(a, b, c, w);
            f.of == ((a >= h) != (r >= h) && (b >= h) != (r >= h))
  {
  }

  lemma AdcFormulas(a: int, b: int, c: bool, w: Width)
    requires Fits(a, w) && Fits(b, w)
    ensures var lr, f := Extend(Sum(a, b, c, w), w), AddFlags(a, b, c, w);
            AdcOf(lr, a, b, w) == f.of && CarryAf(lr, a, b) == f.af && AdcCf(lr, a, b, w) == f.cf
  {
    ExtendBits(Sum(a, b, c, w), w);
    LowBits(a, 0, w);
    LowBits(b, 0, w);
    CarryBySigns(a, b, c, w);
    SumOverflowBySigns(a, b, c, w);
    SumHalfCarry(a, b, c, w);
  }

  /** Borrow and overflow by the signs of the operands and the difference. */
  lemma BorrowBySigns(a: int, b: int, c: bool, w: Width)
    requires Fits(a, w) && Fits(b, w)
    ensures var f, h := SubFlags(a, b, c, w), w.Half();
            var r := Difference(a, b, c, w);
            f.cf == if (a >= h) == (b >= h) then r >= h else b >= h
  {
  }

  lemma OverflowBySigns(a: int, b: int, c: bool, w: Width)
    requires Fits(a, w) && Fits(b, w)
    ensures var f, h := SubFlags(a, b, c, w), w.Half();
            var r := Difference(a, b, c, w);
            f.of == ((a >= h) != (b >= h) && (r >= h) != (a >= h))
  {
  }

  lemma SbbFormulas(a: int, b: int, c: bool, w: Width)
    requires Fits(a, w) && Fits(b, w)
    ensures var lr, f := Extend(Difference(a, b, c, w), w), SubFlags(a, b, c, w);
            SbbOf(lr, a, b, w) == f.of && CarryAf(lr, a, b) == f.af && SbbCf(lr, a, b, w) == f.cf
  {
    ExtendBits(Difference(a, b, c, w), w);
    LowBits(a, 0, w);
    LowBits(b, 0, w);
    BorrowBySigns(a, b, c, w);
    OverflowBySigns(a, b, c, w);
    DifferenceHalfBorrow(a, b, c, w);
  }

  /** A step overflows exactly where it lands on the far side of the signed range. */
  lemma StepOverflows(a: int, w: Width)
    requires Fits(a, w)
    ensures AddFlags(a, 1, false, w).of == (Sum(a, 1, false, w) == w.Half())
    ensures SubFlags(a, 1, false, w).of == (Difference(a, 1, false, w) == w.Half() - 1)
  {
  }

  /** The low digit of a number one up. */
  lemma DigitUp(a: int, w: Width)
    requires Fits(a, w)
    ensures Sum(a, 1, false, w) % 16 == 0 <==> a % 16 == 15
  {
    var turns := match w case W8 => 16 case W16 => 0x1000 case W32 => 0x1000_0000;
    var r, q, x := Sum(a, 1, false, w), a / 16, a % 16;
    var k := if r == a + 1 then 0 else -turns;
    if x == 15 { Mod16Is(r, q + k + 1, 0); } else { Mod16Is(r, q + k, x + 1); }
  }

  lemma DigitDown(a: int, w: Width)
    requires Fits(a, w)
    ensures Difference(a, 1, false, w) % 16 == 15 <==> a % 16 == 0
  {
    var turns := match w case W8 => 16 case W16 => 0x1000 case W32 => 0x1000_0000;
    var r, q, x := Difference(a, 1, false, w), a / 16, a % 16;
    var k := if r == a - 1 then 0 else turns;
    if x == 0 { Mod16Is(r, q + k - 1, 15); } else { Mod16Is(r, q + k, x - 1); }
  }

  lemma UnitHalfCarry(a: int, w: Width)
    requires Fits(a, w)
    ensures AddFlags(a, 1, false, w).af == (a % 16 == 15) && SubFlags(a, 1, false, w).af == (a % 16 == 0)
  {
    assert 1 % 16 == 1;
  }

  lemma IncFormulas(a: int, w: Width)
    requires Fits(a, w)
    ensures var lr := Extend(Sum(a, 1, false, w), w);
            && (lr % w.Full() == w.Half()) == AddFlags(a, 1, false, w).of
            && (lr % 16 == 0) == AddFlags(a, 1, false, w).af
  {
    ExtendBits(Sum(a, 1, false, w), w);
    StepOverflows(a, w);
    DigitUp(a, w);
    UnitHalfCarry(a, w);
  }

  lemma DecFormulas(a: int, w: Width)
    requires Fits(a, w)
    ensures var lr := Extend(Difference(a, 1, false, w), w);
            && (lr % w.Full() == w.Half() - 1) == SubFlags(a, 1, false, w).of
            && (lr % 16 == 15) == SubFlags(a, 1, false, w).af
  {
    ExtendBits(Difference(a, 1, false, w), w);
    StepOverflows(a, w);
    DigitDown(a, w);
    UnitHalfCarry(a, w);
  }

  /** What the getters make of a result after INC. */
  /** The upper half of a product is the extension of the lower one's sign exactly if the product fits. */
  lemma MulFormulas(p: int, q: int, z: int, w: Width)
    requires p == q * w.Full() + z && Fits(z, w) && -w.Half() <= q <= w.Half()
    ensures (Wrap(q) != if z >= w.Half() then 0xFFFF_FFFF else 0) == !SignedFits(p, w)
  {
    if q < 0 { ModDwordIs(q, -1, q + 0x1_0000_0000); } else { ModDwordIs(q, 0, q); }
  }

  /** Flag copies in m_eflags, which may be stale, and the rest of it. */
  class Alu {
    var lr: Word32
    var lop1: Word32
    var lop2: Word32
    var laux: Aux
    var eflags: Register

    /** cpu_get_sf. */
    predicate Sf()
      reads this
    {
      At(lr, 31) != laux.flipSign
    }

    /** What cpu_get_pf computes, by GetPf below: the parity of m_lr, or the other one. */
    predicate Pf()
      reads this
    {
      EvenParity(lr) != laux.flipParity
    }

    /** cpu_get_pf: the low byte with its correction, folded, and a look in the table. */
    method GetPf() returns (pf: bool)
      ensures pf == Pf()
    {
      var v := Turned(lr % 256, laux.flipParity);
      CorrectedParity(lr, laux.flipParity);
      pf := PARITY_TABLE[Fold(v % 16, v / 16)];
    }

    /** cpu_get_of. */
    predicate Of()
      reads this
    {
      match laux.kind
      case Mul => lop1 != lop2
      case Bit => false
      case Add(w) => AddOf(lr, lop2, w)
      case Sub(w) => SubOf(lr, lop2, w)
      case Adc(w) => AdcOf(lr, lop1, lop2, w)
      case Sbb(w) => SbbOf(lr, lop1, lop2, w)
      case Inc(w) => lr % w.Full() == w.Half()
      case Dec(w) => lr % w.Full() == w.Half() - 1
      case FullUpdate => eflags.flags.of
    }

    /** cpu_get_af. */
    predicate Af()
      reads this
    {
      match laux.kind
      case Mul => false
      case Bit => false
      case Add(_) => AddAf(lr, lop2)
      case Sub(_) => SubAf(lr, lop2)
      case Adc(_) => CarryAf(lr, lop1, lop2)
      case Sbb(_) => CarryAf(lr, lop1, lop2)
      case Inc(_) => lr % 16 == 0
      case Dec(_) => lr % 16 == 15
      case FullUpdate => eflags.flags.af
    }

    /** cpu_get_cf. */
    predicate Cf()
      reads this
    {
      match laux.kind
      case Mul => lop1 != lop2
      case Bit => false
      case Add(w) => AddCf(lr, lop2, w)
      case Sub(w) => SubCf(lr, lop2, w)
      case Adc(w) => AdcCf(lr, lop1, lop2, w)
      case Sbb(w) => SbbCf(lr, lop1, lop2, w)
      case Inc(_) => eflags.flags.cf
      case Dec(_) => eflags.flags.cf
      case FullUpdate => eflags.flags.cf
    }

    /** cpu_get_eflags: the flags as the program sees them. */
    function Visible(): Register
      reads this
    {
      Register(Flags(Cf(), Pf(), Af(), lr == 0, Sf(), Of()), eflags.system)
    }

    /** cpu_cond. */
    predicate Cond(code: int)
      reads this
      ensures Cond(code) == Condition(Visible().flags, code)
    {
      var c := match code / 2 % 8
        case 0 => Of()
        case 1 => Cf()
        case 2 => lr == 0
        case 3 => lr == 0 || Cf()
        case 4 => Sf()
        case 5 => Pf()
        case 6 => Sf() != Of()
        case _ => lr == 0 || Sf() != Of();
      c != (code % 2 == 1)
    }

    /** What every arithmetic instruction leaves: the sign-extended result and its kind. */
    method Finish(kind: Kind, r: int, w: Width)
      requires Fits(r, w)
      modifies `lr, `laux
      ensures lr == Extend(r, w) && laux == Aux(kind, false, false)
      ensures (lr == 0) == (r == 0) && Sf() == (r >= w.Half()) && Pf() == EvenParity(r)
    {
      lr := Extend(r, w);
      laux := Aux(kind, false, false);
      ExtendBits(r, w);
      ExtendKeepsParity(r, w);
    }

    /** ADD: case 0 of cpu_arith8, cpu_arith16 and cpu_arith32. */
    method AddTo(w: Width, dest: int, src: int) returns (r: int)
      requires Fits(dest, w) && Fits(src, w)
      modifies this
      ensures r == Sum(dest, src, false, w)
      ensures Visible() == old(Visible()).(flags := AddFlags(dest, src, false, w))
    {
      r := if dest + src >= w.Full() then dest + src - w.Full() else dest + src;
      lop2 := src;
      Finish(Kind.Add(w), r, w);
      AddFormulas(dest, src, w);
    }

    /** SUB and CMP: case 5. */
    method SubFrom(w: Width, dest: int, src: int) returns (r: int)
      requires Fits(dest, w) && Fits(src, w)
      modifies this
      ensures r == Difference(dest, src, false, w)
      ensures Visible() == old(Visible()).(flags := SubFlags(dest, src, false, w))
    {
      r := if dest < src then dest - src + w.Full() else dest - src;
      lop2 := src;
      Finish(Kind.Sub(w), r, w);
      SubFormulas(dest, src, w);
    }

    /** ADC: case 2. */
    method AddWithCarry(w: Width, dest: int, src: int) returns (r: int)
      requires Fits(dest, w) && Fits(src, w)
      modifies this
      ensures r == Sum(dest, src, old(Cf()), w)
      ensures Visible() == old(Visible()).(flags := AddFlags(dest, src, old(Cf()), w))
    {
      var oldCf := Cf();
      lop1 := dest;
      lop2 := src;
      var s := dest + src + if oldCf then 1 else 0;
      r := if s >= w.Full() then s - w.Full() else s;
      Finish(Kind.Adc(w), r, w);
      AdcFormulas(dest, src, oldCf, w);
    }

    /** SBB: case 3. */
    method SubWithBorrow(w: Width, dest: int, src: int) returns (r: int)
      requires Fits(dest, w) && Fits(src, w)
      modifies this
      ensures r == Difference(dest, src, old(Cf()), w)
      ensures Visible() == old(Visible()).(flags := SubFlags(dest, src, old(Cf()), w))
    {
      var oldCf := Cf();
      lop1 := dest;
      lop2 := src;
      var d := dest - (src + if oldCf then 1 else 0);
      r := if d < 0 then d + w.Full() else d;
      Finish(Kind.Sbb(w), r, w);
      SbbFormulas(dest, src, oldCf, w);
    }

    /** OR, AND and XOR: cases 1, 4 and 6. */
    method Logic(op: Arith, w: Width, dest: int, src: int) returns (r: int)
      requires Fits(dest, w) && Fits(src, w)
      modifies this
      ensures r == Bitwise(op, dest, src, Size(w)) && Fits(r, w)
      ensures forall k: nat | k < Size(w) ::
        BitOf(r, k) == match op
          case OR => BitOf(dest, k) || BitOf(src, k)
          case AND => BitOf(dest, k) && BitOf(src, k)
          case _ => BitOf(dest, k) != BitOf(src, k)
      ensures Visible() == old(Visible()).(flags := LogicFlags(r, w))
    {
      BitwiseFits(op, dest, src, w);
      r := Bitwise(op, dest, src, Size(w));
      forall k: nat | k < Size(w)
        ensures BitOf(r, k) == match op
          case OR => BitOf(dest, k) || BitOf(src, k)
          case AND => BitOf(dest, k) && BitOf(src, k)
          case _ => BitOf(dest, k) != BitOf(src, k)
      {
        BitwiseBits(op, dest, src, Size(w), k);
      }
      Finish(Bit, r, w);
    }

    /** cpu_inc8, cpu_inc16 and cpu_inc32. */
    method Increment(w: Width, dest: int) returns (r: int)
      requires Fits(dest, w)
      modifies this
      ensures r == Sum(dest, 1, false, w)
      ensures Visible() == old(Visible()).(flags := AddFlags(dest, 1, false, w).(cf := old(Cf())))
    {
      eflags := eflags.(flags := eflags.flags.(cf := Cf()));
      r := if dest + 1 == w.Full() then 0 else dest + 1;
      IncFormulas(dest, w);
      Finish(Kind.Inc(w), r, w);
    }

    /** cpu_dec8, cpu_dec16 and cpu_dec32. */
    method Decrement(w: Width, dest: int) returns (r: int)
      requires Fits(dest, w)
      modifies this
      ensures r == Difference(dest, 1, false, w)
      ensures Visible() == old(Visible()).(flags := SubFlags(dest, 1, false, w).(cf := old(Cf())))
    {
      eflags := eflags.(flags := eflags.flags.(cf := Cf()));
      r := if dest == 0 then w.Full() - 1 else dest - 1;
      assert r == Difference(dest, 1, false, w);
      Finish(Kind.Dec(w), r, w);
      DecFormulas(dest, w);
      assert Of() == SubFlags(dest, 1, false, w).of && Af() == SubFlags(dest, 1, false, w).af;
    }

    /** cpu_imul8, cpu_imul16, cpu_imul32, and the multiplications of cpu_muldiv8, cpu_muldiv16 and cpu_muldiv32. */
    method MultiplyBy(w: Width, a: int, b: int, signed: bool) returns (low: int, high: int)
      requires Fits(a, w) && Fits(b, w)
      modifies this
      ensures low == Product(a, b, signed, w) % w.Full() && high == Product(a, b, signed, w) / w.Full() % w.Full()
      ensures Visible() == old(Visible()).(flags := MulFlags(Product(a, b, signed, w), signed, w))
    {
      var p := Product(a, b, signed, w);
      var upper := p / w.Full();
      low, high := p % w.Full(), upper % w.Full();
      ProductRange(a, b, signed, w);
      lop1 := if signed && low >= w.Half() then 0xFFFF_FFFF else 0;
      lop2 := Wrap(upper);
      Finish(Mul, low, w);
      if signed {
        MulFormulas(p, upper, low, w);
      } else {
        ModDwordIs(upper, 0, upper);
      }
    }

    /** The flag values that cpu_get_oac copies into m_eflags. */
    method Materialize()
      modifies `eflags
      ensures Visible() == old(Visible())
      ensures eflags.system == old(eflags.system)
      ensures eflags.flags.of == Of() && eflags.flags.af == Af() && eflags.flags.cf == Cf()
    {
      eflags := eflags.(flags := eflags.flags.(of := Of(), af := Af(), cf := Cf()));
    }

    /** cpu_set_eflags. */
    method Load(e: Register)
      modifies this
      ensures Visible() == Register(e.flags, e.system.(fixed := old(eflags.system.fixed)))
      ensures laux.flipParity == (e.flags.zf != e.flags.pf)
    {
      eflags := Register(e.flags, e.system.(fixed := eflags.system.fixed));
      lr := if e.flags.zf then 0 else 1;
      laux := Aux(FullUpdate, e.flags.sf, if lr == 1 then e.flags.pf else !e.flags.pf);
    }

    /** What a real-mode interrupt does to m_eflags: TF, IF and AC are cleared, and no arithmetic flag changes. */
    method ClearControl()
      modifies `eflags
      ensures Visible() == old(Visible()).(system := old(eflags.system).(tf := false, interrupts := false, ac := false))
    {
      eflags := eflags.(system := eflags.system.(tf := false, interrupts := false, ac := false));
    }

    /** cpu_set_cf, cpu_set_of, cpu_set_af, cpu_set_zf and cpu_set_sf: each changes its own flag only. */
    method Set(flag: Flag, v: bool)
      modifies this
      ensures Visible() == old(Visible()).(flags := WithFlag(old(Visible()).flags, flag, v))
    {
      match flag
      case SF =>
        laux := laux.(flipSign := At(lr, 31) != v);
      case ZF =>
        var e := Visible();
        Load(e.(flags := e.flags.(zf := v)));
      case _ =>
        SetCopied(flag, v);
    }

    /** The setters of the flags that cpu_get_oac copies. */
    method SetCopied(flag: Flag, v: bool)
      requires flag == CF || flag == OF || flag == AF
      modifies this
      ensures Visible() == old(Visible()).(flags := WithFlag(old(Visible()).flags, flag, v))
    {
      Materialize();
      eflags := eflags.(flags := WithFlag(eflags.flags, flag, v));
      laux := laux.(kind := FullUpdate);
    }

    /** cpu_set_pf works exactly if bit 7 of m_laux is clear: it computes the correction from a parity already
        corrected. */
    method SetPf(v: bool)
      modifies `laux
      ensures Visible().flags.pf == v <==> !old(laux.flipParity)
      ensures Visible() == old(Visible()).(flags := old(Visible()).flags.(pf := Pf()))
    {
      laux := laux.(flipParity := Pf() != v);
    }

    /** A load of the register and PF set after it: the setter works exactly if the load found ZF and PF alike. */
    method LoadThenSetPf(e: Register, v: bool)
      modifies this
      ensures Visible().flags.pf == v <==> e.flags.zf == e.flags.pf
    {
      Load(e);
      SetPf(v);
    }

    /** One instruction. */
    method Step(i: Insn) returns (result: seq<int>)
      requires WellFormed(i)
      modifies this
      ensures (Visible(), result) == Execute(old(Visible()), i)
    {
      var r;
      match i {
        case Two(ADD, w, a, b) => r := AddTo(w, a, b); result := [r];
        case Two(ADC, w, a, b) => r := AddWithCarry(w, a, b); result := [r];
        case Two(SUB, w, a, b) => r := SubFrom(w, a, b); result := [r];
        case Two(SBB, w, a, b) => r := SubWithBorrow(w, a, b); result := [r];
        case Two(op, w, a, b) => r := Logic(op, w, a, b); result := [r];
        case Inc(w, a) => r := Increment(w, a); result := [r];
        case Dec(w, a) => r := Decrement(w, a); result := [r];
        case Neg(w, a) => r := SubFrom(w, 0, a); result := [r];
        case CmpXchg(w, acc, a, b) =>
          r := SubFrom(w, acc, a);
          result := if r == 0 then [acc, b] else [a, a];
        case XAdd(w, a, b) => r := AddTo(w, a, b); result := [r, a];
        case Multiply(w, a, b, signed) => var low, high := MultiplyBy(w, a, b, signed); result := [low, high];
        case SetFlag(flag, v) => Set(flag, v); result := [];
        case Load(v) => Load(v); result := [];
        case Materialize => Materialize(); result := [];
      }
    }

    /** Any program: the lazy machine shows the flags, and writes the values, of the eager one. */
    method Run(program: seq<Insn>) returns (results: seq<seq<int>>)
      requires forall i | i in program :: WellFormed(i)
      modifies this
      ensures (Visible(), results) == ExecuteAll(old(Visible()), program)
    {
      results := [];
      for k := 0 to |program|
        invariant (Visible(), results) == ExecuteAll(old(Visible()), program[..k])
      {
        assert program[..k + 1][..k] == program[..k];
        var result := Step(program[k]);
        results := results + [result];
      }
      assert program[..|program|] == program;
    }
  }

  lemma NonNegative(x: int, y: int)
    requires x >= 0 && y >= 0
    ensures x * y >= 0
  {
  }

  lemma SquareBound(x: int, y: int, h: int)
    requires 0 <= h && -h <= x <= h && -h <= y <= h
    ensures -(h * h) <= x * y <= h * h
  {
    NonNegative(h - x, h + y);
    NonNegative(h + x, h - y);
    NonNegative(h - x, h - y);
    NonNegative(h + x, h + y);
    assert (h - x) * (h + y) + (h + x) * (h - y) == 2 * (h * h) - 2 * (x * y);
    assert (h - x) * (h - y) + (h + x) * (h + y) == 2 * (h * h) + 2 * (x * y);
  }

  lemma SignedQuotient(p: int, w: Width)
    requires match w case W8 => -0x4000 <= p <= 0x4000
                     case W16 => -0x4000_0000 <= p <= 0x4000_0000
                     case W32 => -0x4000_0000_0000_0000 <= p <= 0x4000_0000_0000_0000
    ensures -w.Half() <= p / w.Full() <= w.Half()
  {
  }

  lemma UnsignedQuotient(p: int, w: Width)
    requires 0 <= p
    requires match w case W8 => p < 0x1_0000 case W16 => p < 0x1_0000_0000 case W32 => p < 0x1_0000_0000_0000_0000
    ensures 0 <= p / w.Full() < w.Full()
  {
  }

  lemma ProductRange(a: int, b: int, signed: bool, w: Width)
    requires Fits(a, w) && Fits(b, w)
    ensures var q := Product(a, b, signed, w) / w.Full();
            if signed then -w.Half() <= q <= w.Half() else 0 <= q < w.Full()
  {
    if signed {
      SquareBound(Signed(a, w), Signed(b, w), w.Half());
      SignedQuotient(Product(a, b, true, w), w);
    } else {
      NonNegative(a, b);
      SquareBound(a, b, w.Full() - 1);
      UnsignedQuotient(Product(a, b, false, w), w);
    }
  }
}
