/**
 The real-mode interrupt and the 16-bit IRET of src/cpu/ctrlflow.cpp, on the machine with lazy flags. Words are bit
 strings, lowest bit first.
 */
module Iret {
  import opened Eflags
  import opened LazyFlags

  type Byte = s: seq<bool> | |s| == 8 witness [false, false, false, false, false, false, false, false]

  type Word = s: seq<bool> | |s| == 16
    witness [false, false, false, false, false, false, false, false, false, false, false, false, false, false, false,
             false]

  const WRAP := 0x1_0000_0000

  /** Memory by physical address; what was never written is zero. */
  type Memory = map<int, Byte>

  function ByteAt(m: Memory, a: int): Byte {
    if a in m then m[a] else [false, false, false, false, false, false, false, false]
  }

  /** The stack: SS base, the width of the stack pointer, and the state of the A20 gate. */
  datatype Stack = Stack(base: int, wide: bool, a20: bool)

  predicate ValidStack(s: Stack) {
    0 <= s.base < WRAP
  }

  /** m_esp_mask as a modulus. */
  function Modulus(s: Stack): int {
    if s.wide then WRAP else 0x1_0000
  }

  /** STACK_esp: the masked stack pointer. */
  function Masked(esp: int, s: Stack): (e: int)
    requires 0 <= esp < WRAP
    ensures 0 <= e < Modulus(s)
  {
    if s.wide then esp else esp % 0x1_0000
  }

  /** The stack pointer with its masked part replaced. */
  function Joined(esp: int, e: int, s: Stack): (r: int)
    requires 0 <= esp < WRAP && 0 <= e < Modulus(s)
    ensures 0 <= r < WRAP
  {
    if s.wide then e else esp / 0x1_0000 * 0x1_0000 + e
  }

  function Down(e: int, s: Stack): (r: int)
    requires 0 <= e < Modulus(s)
    ensures 0 <= r < Modulus(s)
  {
    if e < 2 then e - 2 + Modulus(s) else e - 2
  }

  function Up(e: int, s: Stack): (r: int)
    requires 0 <= e < Modulus(s)
    ensures 0 <= r < Modulus(s)
  {
    if e + 2 >= Modulus(s) then e + 2 - Modulus(s) else e + 2
  }

  /** The linear address of a stack offset, and the one after an address; both wrap at 4 GB, and neither at the end of
      the segment. */
  function Linear(e: int, s: Stack): int {
    if s.base + e >= WRAP then s.base + e - WRAP else s.base + e
  }

  function Next(lin: int): int {
    if lin + 1 == WRAP then 0 else lin + 1
  }

  /** Without paging a linear address is physical, less bit 20 while the gate is closed. */
  function Physical(lin: int, s: Stack): int {
    if !s.a20 && lin / 0x10_0000 % 2 == 1 then lin - 0x10_0000 else lin
  }

  function Low(w: Word): Byte {
    w[..8]
  }

  function High(w: Word): Byte {
    w[8..]
  }

  /** A word on the stack, at an even address or byte by byte. */
  function StoreWord(m: Memory, e: int, s: Stack, w: Word): Memory {
    var lin := Linear(e, s);
    m[Physical(lin, s) := Low(w)][Physical(Next(lin), s) := High(w)]
  }

  function LoadWord(m: Memory, e: int, s: Stack): Word {
    var lin := Linear(e, s);
    ByteAt(m, Physical(lin, s)) + ByteAt(m, Physical(Next(lin), s))
  }

  // ---------- Flags on the stack ----------

  /** Bit k of the bits that no instruction can change. */
  predicate FixedBit(fixed: int, k: int) {
    match k
    case 1 => fixed / 2 % 2 == 1
    case 3 => fixed / 8 % 2 == 1
    case 5 => fixed / 32 % 2 == 1
    case _ => fixed / 0x8000 % 2 == 1
  }

  /** The low half of EFLAGS. */
  function Image(r: Register): Word {
    var f, y := r.flags, r.system;
    [f.cf, FixedBit(y.fixed, 1), f.pf, FixedBit(y.fixed, 3), f.af, FixedBit(y.fixed, 5), f.zf, f.sf,
     y.tf, y.interrupts, y.df, f.of, y.iopl % 2 == 1, y.iopl / 2 % 2 == 1, y.nt, FixedBit(y.fixed, 15)]
  }

  /** The argument of cpu_set_eflags in a 16-bit IRET: the word from the stack under the high half of m_eflags. */
  function Merged(w: Word, before: System): Register {
    Register(Flags(w[0], w[2], w[4], w[6], w[7], w[11]),
             before.(tf := w[8], interrupts := w[9], df := w[10],
                     iopl := (if w[12] then 1 else 0) + (if w[13] then 2 else 0), nt := w[14]))
  }

  // ---------- The two transfers ----------

  datatype Cpu = Cpu(flags: Register, esp: int, cs: Word, ip: Word, stack: Stack, memory: Memory)

  predicate Valid(c: Cpu) {
    ValidStack(c.stack) && 0 <= c.esp < WRAP && 0 <= c.flags.system.iopl < 4
  }

  /** The real-mode branch of cpu_interrupt: flags, CS and the return address are pushed, and TF, IF and AC cleared. */
  function Interrupt(c: Cpu, vector: int, returnIp: Word): Cpu
    requires Valid(c) && 0 <= vector < 256
  {
    var s := c.stack;
    var e1 := Down(Masked(c.esp, s), s);
    var e2 := Down(e1, s);
    var e3 := Down(e2, s);
    var m := StoreWord(StoreWord(StoreWord(c.memory, e1, s, Image(c.flags)), e2, s, c.cs), e3, s, returnIp);
    Cpu(c.flags.(system := c.flags.system.(tf := false, interrupts := false, ac := false)), Joined(c.esp, e3, s),
        ByteAt(m, 4 * vector + 2) + ByteAt(m, 4 * vector + 3), ByteAt(m, 4 * vector) + ByteAt(m, 4 * vector + 1), s, m)
  }

  /** The real-mode branch of iret with 16-bit operands. */
  function Return(c: Cpu): Cpu
    requires Valid(c)
  {
    var s := c.stack;
    var e1 := Masked(c.esp, s);
    var e2 := Up(e1, s);
    var e3 := Up(e2, s);
    var r := Merged(LoadWord(c.memory, e3, s), c.flags.system);
    Cpu(r, Joined(c.esp, Up(e3, s), s), LoadWord(c.memory, e2, s), LoadWord(c.memory, e1, s), s, c.memory)
  }

  // ---------- Round trip ----------

  /** The arithmetic of the stack: offsets modulo the width of the stack pointer, whose upper part stays, linear
      addresses modulo 4 GB, and bit 20 taken out while the gate is closed. */
  lemma StackArithmetic(esp: int, e: int, lin: int, s: Stack)
    requires ValidStack(s) && 0 <= esp < WRAP && 0 <= e < Modulus(s) && 0 <= lin < WRAP
    ensures Masked(esp, s) == esp % Modulus(s) && Joined(esp, e, s) == esp - esp % Modulus(s) + e
    ensures Down(e, s) == (e - 2) % Modulus(s) && Up(e, s) == (e + 2) % Modulus(s)
    ensures Linear(e, s) == (s.base + e) % WRAP && Next(lin) == (lin + 1) % WRAP
    ensures Physical(lin, s) == if s.a20 then lin else lin - lin / 0x10_0000 % 2 * 0x10_0000
  {
  }

  lemma UpDown(e: int, s: Stack)
    requires 0 <= e < Modulus(s)
    ensures Up(Down(e, s), s) == e
  {
  }

  lemma MaskedJoined(esp: int, e: int, s: Stack)
    requires 0 <= esp < WRAP && 0 <= e < Modulus(s)
    ensures Masked(Joined(esp, e, s), s) == e
  {
  }

  lemma JoinedBack(esp: int, e: int, s: Stack)
    requires 0 <= esp < WRAP && 0 <= e < Modulus(s)
    ensures Joined(Joined(esp, e, s), Masked(esp, s), s) == esp
  {
  }

  /** Only addresses 1 MB apart can be the same byte. */
  lemma PhysicalDiffers(x: int, y: int, s: Stack)
    requires x != y && x - y != 0x10_0000 && y - x != 0x10_0000
    ensures Physical(x, s) != Physical(y, s)
  {
  }

  /** The bytes of two words at different offsets whose words do not overlap. */
  predicate Apart(d: int, e: int, s: Stack) {
    var a, b := Linear(d, s), Linear(e, s);
    Near(a, b) && Near(a, Next(b)) && Near(Next(a), b) && Near(Next(a), Next(b))
  }

  predicate Near(x: int, y: int) {
    x != y && x - y != 0x10_0000 && y - x != 0x10_0000
  }

  lemma PushedApart(e: int, s: Stack)
    requires ValidStack(s) && 0 <= e < Modulus(s)
    ensures Apart(e, Down(e, s), s) && Apart(e, Down(Down(e, s), s), s)
  {
  }

  lemma LoadStored(m: Memory, e: int, s: Stack, w: Word)
    requires ValidStack(s) && 0 <= e < Modulus(s)
    ensures LoadWord(StoreWord(m, e, s, w), e, s) == w
  {
    var lin := Linear(e, s);
    PhysicalDiffers(lin, Next(lin), s);
    assert Low(w) + High(w) == w;
  }

  lemma LoadOther(m: Memory, d: int, e: int, s: Stack, w: Word)
    requires Apart(d, e, s)
    ensures LoadWord(StoreWord(m, e, s, w), d, s) == LoadWord(m, d, s)
  {
    var a, b := Linear(d, s), Linear(e, s);
    PhysicalDiffers(a, b, s);
    PhysicalDiffers(a, Next(b), s);
    PhysicalDiffers(Next(a), b, s);
    PhysicalDiffers(Next(a), Next(b), s);
  }

  /** The frame can be read back, for every stack pointer. */
  lemma FrameReadsBack(c: Cpu, vector: int, returnIp: Word)
    requires Valid(c) && 0 <= vector < 256
    ensures var s, i := c.stack, Interrupt(c, vector, returnIp);
            var e := Masked(c.esp, s);
            && Masked(i.esp, s) == Down(Down(Down(e, s), s), s)
            && LoadWord(i.memory, Down(e, s), s) == Image(c.flags)
            && LoadWord(i.memory, Down(Down(e, s), s), s) == c.cs
            && LoadWord(i.memory, Down(Down(Down(e, s), s), s), s) == returnIp
  {
    var s := c.stack;
    var e := Masked(c.esp, s);
    var e1 := Down(e, s);
    var e2 := Down(e1, s);
    var e3 := Down(e2, s);
    MaskedJoined(c.esp, e3, s);
    var m1 := StoreWord(c.memory, e1, s, Image(c.flags));
    var m2 := StoreWord(m1, e2, s, c.cs);
    LoadStored(c.memory, e1, s, Image(c.flags));
    LoadStored(m1, e2, s, c.cs);
    LoadStored(m2, e3, s, returnIp);
    PushedApart(e1, s);
    PushedApart(e2, s);
    LoadOther(m1, e1, e2, s, c.cs);
    LoadOther(m2, e1, e3, s, returnIp);
    LoadOther(m2, e2, e3, s, returnIp);
  }

  /** The lower byte of a word is at the lower address. */
  lemma LittleEndian(m: Memory, e: int, s: Stack, w: Word)
    requires ValidStack(s) && 0 <= e < Modulus(s)
    ensures var lin, m' := Linear(e, s), StoreWord(m, e, s, w);
            ByteAt(m', Physical(lin, s)) == w[..8] && ByteAt(m', Physical(Next(lin), s)) == w[8..]
  {
    PhysicalDiffers(Linear(e, s), Next(Linear(e, s)), s);
  }

  /** Address a is none of the two bytes of the word at e. */
  predicate Beside(a: int, e: int, s: Stack) {
    a != Physical(Linear(e, s), s) && a != Physical(Next(Linear(e, s)), s)
  }

  /** The frame of an interrupt misses the four bytes of its vector. */
  predicate FrameBeside(c: Cpu, vector: int)
    requires Valid(c)
  {
    var s := c.stack;
    var e1 := Down(Masked(c.esp, s), s);
    var e2 := Down(e1, s);
    forall a | 4 * vector <= a < 4 * vector + 4 :: Beside(a, e1, s) && Beside(a, e2, s) && Beside(a, Down(e2, s), s)
  }

  lemma StoredBeside(m: Memory, e: int, s: Stack, w: Word, a: int)
    requires Beside(a, e, s)
    ensures ByteAt(StoreWord(m, e, s, w), a) == ByteAt(m, a)
  {
  }

  lemma PushesBeside(c: Cpu, vector: int, returnIp: Word, a: int)
    requires Valid(c) && 0 <= vector < 256 && FrameBeside(c, vector) && 4 * vector <= a < 4 * vector + 4
    ensures ByteAt(Interrupt(c, vector, returnIp).memory, a) == ByteAt(c.memory, a)
  {
    var s := c.stack;
    var e1 := Down(Masked(c.esp, s), s);
    var e2 := Down(e1, s);
    var m1 := StoreWord(c.memory, e1, s, Image(c.flags));
    var m2 := StoreWord(m1, e2, s, c.cs);
    StoredBeside(c.memory, e1, s, Image(c.flags), a);
    StoredBeside(m1, e2, s, c.cs, a);
    StoredBeside(m2, Down(e2, s), s, returnIp, a);
  }

  lemma TableWord(m: Memory, a: int, table: Stack)
    requires 0 <= a < 0x1000 && table == Stack(0, true, true)
    ensures LoadWord(m, a, table) == ByteAt(m, a) + ByteAt(m, a + 1)
  {
    assert Next(Linear(a, table)) == a + 1;
  }

  /** Where an interrupt goes, in the memory that it leaves, and the flags there. */
  lemma EntryOf(c: Cpu, vector: int, returnIp: Word, table: Stack)
    requires Valid(c) && 0 <= vector < 256 && table == Stack(0, true, true)
    ensures var i := Interrupt(c, vector, returnIp);
            && i.ip == LoadWord(i.memory, 4 * vector, table) && i.cs == LoadWord(i.memory, 4 * vector + 2, table)
            && i.flags == c.flags.(system := c.flags.system.(tf := false, interrupts := false, ac := false))
  {
    TableWord(Interrupt(c, vector, returnIp).memory, 4 * vector, table);
    TableWord(Interrupt(c, vector, returnIp).memory, 4 * vector + 2, table);
  }

  /** An interrupt whose frame misses the table enters the handler that the table names before it: IP is the word at
      four times the vector, CS the one after it. TF, IF and AC are clear then, and all other flags as they were. */
  lemma HandlerEntered(c: Cpu, vector: int, returnIp: Word, table: Stack)
    requires Valid(c) && 0 <= vector < 256 && FrameBeside(c, vector) && table == Stack(0, true, true)
    ensures var i := Interrupt(c, vector, returnIp);
            && i.ip == LoadWord(c.memory, 4 * vector, table) && i.cs == LoadWord(c.memory, 4 * vector + 2, table)
            && !i.flags.system.tf && !i.flags.system.interrupts && !i.flags.system.ac
            && i.flags.flags == c.flags.flags
            && var was := c.flags.system;
               i.flags.system.(tf := was.tf, interrupts := was.interrupts, ac := was.ac) == was
  {
    EntryOf(c, vector, returnIp, table);
    PushesBeside(c, vector, returnIp, 4 * vector);
    PushesBeside(c, vector, returnIp, 4 * vector + 1);
    PushesBeside(c, vector, returnIp, 4 * vector + 2);
    PushesBeside(c, vector, returnIp, 4 * vector + 3);
    TableWord(Interrupt(c, vector, returnIp).memory, 4 * vector, table);
    TableWord(Interrupt(c, vector, returnIp).memory, 4 * vector + 2, table);
    TableWord(c.memory, 4 * vector, table);
    TableWord(c.memory, 4 * vector + 2, table);
  }

  /** The number of four bits, the lowest first, and that of a word. */
  function Digit(b0: bool, b1: bool, b2: bool, b3: bool): int {
    Carry(b0) + 2 * Carry(b1) + 4 * Carry(b2) + 8 * Carry(b3)
  }

  function NumberOf(w: Word): int {
    Digit(w[0], w[1], w[2], w[3]) + 0x10 * Digit(w[4], w[5], w[6], w[7]) + 0x100 * Digit(w[8], w[9], w[10], w[11])
    + 0x1000 * Digit(w[12], w[13], w[14], w[15])
  }

  lemma LowDigits(r: Register, w: Word)
    requires w == Image(r)
    ensures var f, fixed := r.flags, r.system.fixed;
            && Digit(w[0], w[1], w[2], w[3]) == Digit(f.cf, FixedBit(fixed, 1), f.pf, FixedBit(fixed, 3))
            && Digit(w[4], w[5], w[6], w[7]) == Digit(f.af, FixedBit(fixed, 5), f.zf, f.sf)
  {
  }

  lemma HighDigits(r: Register, w: Word)
    requires w == Image(r) && 0 <= r.system.iopl < 4
    ensures var y := r.system;
            && Digit(w[8], w[9], w[10], w[11]) == Digit(y.tf, y.interrupts, y.df, r.flags.of)
            && Digit(w[12], w[13], w[14], w[15]) == y.iopl + 4 * Carry(y.nt) + 8 * Carry(FixedBit(y.fixed, 15))
  {
    TopDigit(r.system.iopl, r.system.nt, FixedBit(r.system.fixed, 15));
  }

  lemma TopDigit(iopl: int, nt: bool, fixed: bool)
    requires 0 <= iopl < 4
    ensures Digit(iopl % 2 == 1, iopl / 2 % 2 == 1, nt, fixed) == iopl + 4 * Carry(nt) + 8 * Carry(fixed)
  {
  }

  /** The pushed word, four bits at a time: CF, PF, AF, ZF, SF, TF, IF, DF, OF, IOPL and NT at bits 0, 2, 4, 6 to 14,
      and the bits that no instruction can change at 1, 3, 5 and 15. */
  lemma ImageNumber(r: Register)
    requires 0 <= r.system.iopl < 4
    ensures var f, y, fixed := r.flags, r.system, r.system.fixed;
            NumberOf(Image(r))
            == Digit(f.cf, FixedBit(fixed, 1), f.pf, FixedBit(fixed, 3))
               + 0x10 * Digit(f.af, FixedBit(fixed, 5), f.zf, f.sf)
               + 0x100 * Digit(y.tf, y.interrupts, y.df, f.of)
               + 0x1000 * (y.iopl + 4 * Carry(y.nt) + 8 * Carry(FixedBit(fixed, 15)))
  {
    LowDigits(r, Image(r));
    HighDigits(r, Image(r));
  }

  lemma MergedImage(r: Register, before: System)
    requires 0 <= r.system.iopl < 4
    ensures var q := Merged(Image(r), before);
            && q.flags == r.flags
            && q.system == before.(tf := r.system.tf, interrupts := r.system.interrupts, df := r.system.df,
                                   iopl := r.system.iopl, nt := r.system.nt)
  {
  }

  /** The handler has left the stack, ESP and the frame as they were when it was entered. */
  predicate Leaves(i: Cpu, d: Cpu)
    requires 0 <= i.esp < WRAP
  {
    var s := i.stack;
    var e := Masked(i.esp, s);
    && d.stack == s && d.esp == i.esp
    && LoadWord(d.memory, e, s) == LoadWord(i.memory, e, s)
    && LoadWord(d.memory, Up(e, s), s) == LoadWord(i.memory, Up(e, s), s)
    && LoadWord(d.memory, Up(Up(e, s), s), s) == LoadWord(i.memory, Up(Up(e, s), s), s)
  }

  /** An interrupt, any handler that leaves its frame alone, and a 16-bit IRET: ESP is what it was, upper bits included,
      and so are CS, the return address and the low half of EFLAGS; the high half is the handler's. */
  lemma HandlerReturns(c: Cpu, vector: int, returnIp: Word, d: Cpu)
    requires Valid(c) && 0 <= vector < 256 && Valid(d) && Leaves(Interrupt(c, vector, returnIp), d)
    ensures var r := Return(d);
            && r.esp == c.esp && r.cs == c.cs && r.ip == returnIp && r.flags.flags == c.flags.flags
            && r.flags.system == d.flags.system.(tf := c.flags.system.tf, interrupts := c.flags.system.interrupts,
                                                 df := c.flags.system.df,
                                                 iopl := c.flags.system.iopl, nt := c.flags.system.nt)
  {
    var s := c.stack;
    var e := Masked(c.esp, s);
    FrameReadsBack(c, vector, returnIp);
    UpDown(e, s);
    UpDown(Down(e, s), s);
    UpDown(Down(Down(e, s), s), s);
    JoinedBack(c.esp, Down(Down(Down(e, s), s), s), s);
    MergedImage(c.flags, d.flags.system);
  }

  /** An interrupt followed at once by a 16-bit IRET restores everything but AC, and leaves AC alone exactly if it was
      clear. */
  lemma InterruptThenReturn(c: Cpu, vector: int, returnIp: Word)
    requires Valid(c) && 0 <= vector < 256
    ensures Valid(Interrupt(c, vector, returnIp))
    ensures var r := Return(Interrupt(c, vector, returnIp));
            && r.esp == c.esp && r.cs == c.cs && r.ip == returnIp
            && r.flags == c.flags.(system := c.flags.system.(ac := false))
            && (r.flags == c.flags <==> !c.flags.system.ac)
  {
    HandlerReturns(c, vector, returnIp, Interrupt(c, vector, returnIp));
  }

  // ---------- On the machine with lazy flags ----------

  class Machine {
    const alu: Alu
    var esp: int
    var cs: Word
    var ip: Word
    var stack: Stack
    var memory: Memory

    function View(): Cpu
      reads this, alu
    {
      Cpu(alu.Visible(), esp, cs, ip, stack, memory)
    }

    constructor (alu: Alu, esp: int, cs: Word, ip: Word, stack: Stack, memory: Memory)
      ensures this.alu == alu && View() == Cpu(alu.Visible(), esp, cs, ip, stack, memory)
    {
      this.alu, this.esp, this.cs, this.ip, this.stack, this.memory := alu, esp, cs, ip, stack, memory;
    }

    /** The real-mode branch of cpu_interrupt. It clears bits of m_eflags without a flag update. */
    method RealInterrupt(vector: int, returnIp: Word)
      requires Valid(View()) && 0 <= vector < 256
      modifies this, alu
      ensures View() == Interrupt(old(View()), vector, returnIp)
    {
      var e := Masked(esp, stack);
      e := Down(e, stack);
      memory := StoreWord(memory, e, stack, Image(alu.Visible()));
      e := Down(e, stack);
      memory := StoreWord(memory, e, stack, cs);
      e := Down(e, stack);
      memory := StoreWord(memory, e, stack, returnIp);
      esp := Joined(esp, e, stack);
      cs := ByteAt(memory, 4 * vector + 2) + ByteAt(memory, 4 * vector + 3);
      ip := ByteAt(memory, 4 * vector) + ByteAt(memory, 4 * vector + 1);
      alu.ClearControl();
    }

    /** The real-mode branch of iret with 16-bit operands. */
    method Iret16()
      requires Valid(View())
      modifies this, alu
      ensures View() == Return(old(View()))
    {
      var e := Masked(esp, stack);
      ip := LoadWord(memory, e, stack);
      e := Up(e, stack);
      cs := LoadWord(memory, e, stack);
      e := Up(e, stack);
      var image := LoadWord(memory, e, stack);
      e := Up(e, stack);
      esp := Joined(esp, e, stack);
      alu.Load(Merged(image, alu.eflags.system));
    }
  }
}
