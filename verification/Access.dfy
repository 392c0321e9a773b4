/**
 The memory accesses of src/cpu/access.cpp over the paging machine: a fast path that a clear bit in the tag allows, a
 slow path that translates first, and unaligned accesses byte by byte. The reference is a machine without a TLB, which
 walks the tables for every access.
 */
module Access {
  import opened Words
  import opened Paging
  import opened TlbTables
  import opened Coherence

  /** Bytes read, lowest address first (none for a write); or a device has a part in the access; or it faulted. */
  datatype Answer = Data(bytes: seq<Byte>) | Mmio | Fault(why: Outcome)

  /** Frame f is RAM for reads, or for writes. Writes to the ROM area below 1 MB go to the device layer. */
  predicate Readable(ram: seq<Word>, f: int) {
    0 <= f < |ram| / 1024 && !(0xA0 <= f < 0xC0)
  }

  predicate Writable(ram: seq<Word>, f: int) {
    0 <= f < |ram| / 1024 && !(0xA0 <= f < 0x100)
  }

  function WithByte(w: Word, k: int, b: Byte): Word
    requires 0 <= k < 4
  {
    FromBytes(if k == 0 then b else ByteOf(w, 0), if k == 1 then b else ByteOf(w, 1),
              if k == 2 then b else ByteOf(w, 2), if k == 3 then b else ByteOf(w, 3))
  }

  /** Index of the word at an offset into frame f. */
  function WordAt(f: int, lin: Address): int {
    f * 1024 + lin / 4 % 1024
  }

  function LoadByte(ram: seq<Word>, f: int, lin: Address): Answer {
    if Readable(ram, f) then Data([ByteOf(ram[WordAt(f, lin)], lin % 4)]) else Mmio
  }

  function StoreByte(ram: seq<Word>, f: int, lin: Address, b: Byte): (r: seq<Word>)
    ensures |r| == |ram|
  {
    if Writable(ram, f) then
      var i := WordAt(f, lin);
      ram[i := WithByte(ram[i], lin % 4, b)]
    else
      ram
  }

  // ---------- Without a TLB ----------

  /** An access of class c that walks: the memory it marks, and the frame or the fault it finds. */
  function WalkFor(ram: seq<Word>, io: Device, ctl: Controls, lin: Address, c: Class): (seq<Word>, Outcome) {
    var walk := Walk(ram, io, ctl, lin / 4096, c, false);
    (if walk.Mapped? then Marked(ram, walk.trail, c.write) else ram, walk)
  }

  function PlainRead8(ram: seq<Word>, io: Device, ctl: Controls, lin: Address, user: bool): (seq<Word>, Answer) {
    var (ram', walk) := WalkFor(ram, io, ctl, lin, Class(user, false));
    (ram', if walk.Mapped? then LoadByte(ram', MapFrame(ctl.a20, walk.frame), lin) else Fault(walk))
  }

  function PlainWrite8(ram: seq<Word>, io: Device, ctl: Controls, lin: Address, user: bool, b: Byte)
      : (seq<Word>, Answer)
  {
    var (ram', walk) := WalkFor(ram, io, ctl, lin, Class(user, true));
    if !walk.Mapped? then (ram', Fault(walk))
    else
      var f := MapFrame(ctl.a20, walk.frame);
      (StoreByte(ram', f, lin, b), if Writable(ram', f) then Data([]) else Mmio)
  }

  /** The next linear address, after wrapping. */
  function Next(lin: Address): Address {
    if lin == 0xFFFF_FFFF then 0 else lin + 1
  }

  /** One byte and the rest of a longer read: its value is known if all of it is RAM. */
  function Joined(first: Answer, rest: Answer): Answer {
    if rest.Fault? then rest
    else if first.Data? && rest.Data? then Data(first.bytes + rest.bytes)
    else Mmio
  }

  /** n bytes, each translated on its own, up to the first that faults. */
  function PlainRead(ram: seq<Word>, io: Device, ctl: Controls, lin: Address, user: bool, n: nat): (seq<Word>, Answer)
    decreases n
  {
    if n == 0 then (ram, Data([]))
    else
      var (ram1, first) := PlainRead8(ram, io, ctl, lin, user);
      if first.Fault? then (ram1, first)
      else
        var (ram2, rest) := PlainRead(ram1, io, ctl, Next(lin), user, n - 1);
        (ram2, Joined(first, rest))
  }

  // ---------- Through the TLB ----------

  /** The frame that an entry leads to; -1 for none. */
  function HostFrame(m: Machine, p: Page): int
    requires Shaped(m.tlb)
  {
    match m.tlb.hosts[p]
    case Null => -1
    case Bias(pages) => p + pages
  }

  /** The start of every slow access: translate, unless the tag allows the access already. */
  function Resolved(m: Machine, io: Device, lin: Address, c: Class, hasCode: bool): (r: (Machine, Outcome))
    requires Shaped(m.tlb)
    ensures Shaped(r.0.tlb)
  {
    if m.tlb.tags[lin / 4096].Grants(c) then (m, Mapped(0, false, false, Direct))
    else Translated(m, io, lin, c, false, hasCode)
  }

  /** cpu_access_read8. */
  function Read8(m: Machine, io: Device, lin: Address, user: bool, hasCode: bool): (r: (Machine, Answer))
    requires Shaped(m.tlb)
    ensures Shaped(r.0.tlb)
  {
    var (m', o) := Resolved(m, io, lin, Class(user, false), hasCode);
    (m', if o.Mapped? then LoadByte(m'.ram, HostFrame(m', lin / 4096), lin) else Fault(o))
  }

  /** cpu_access_write8. A write into a page that has held code may drop the page's entry. */
  function Write8(m: Machine, io: Device, lin: Address, user: bool, b: Byte, hasCode: bool, drop: bool)
      : (r: (Machine, Answer))
    requires Shaped(m.tlb)
    ensures Shaped(r.0.tlb)
  {
    var (m', o) := Resolved(m, io, lin, Class(user, true), hasCode);
    if !o.Mapped? then (m', Fault(o))
    else
      var f := HostFrame(m', lin / 4096);
      if !Writable(m'.ram, f) then (m', Mmio)
      else
        var m'' := m'.(ram := StoreByte(m'.ram, f, lin, b));
        (if drop then m''.(tlb := Invalidated(m''.tlb, lin / 4096)) else m'', Data([]))
  }

  /** A read behind bytes that have been read before. */
  function Behind(done: Answer, r: (Machine, Answer)): (Machine, Answer) {
    (r.0, Joined(done, r.1))
  }

  /** The byte loop of the unaligned slow paths. */
  function ReadBytes(m: Machine, io: Device, lin: Address, user: bool, n: nat, code: set<Page>): (r: (Machine, Answer))
    requires Shaped(m.tlb)
    ensures Shaped(r.0.tlb)
    decreases n
  {
    if n == 0 then (m, Data([]))
    else
      var (m1, first) := Read8(m, io, lin, user, lin / 4096 in code);
      if first.Fault? then (m1, first) else Behind(first, ReadBytes(m1, io, Next(lin), user, n - 1, code))
  }

  lemma {:induction false} ReadBytesUnfolds(m: Machine, io: Device, lin: Address, user: bool, n: nat, left: nat,
                                            code: set<Page>, m1: Machine, first: Answer)
    requires Shaped(m.tlb) && Shaped(m1.tlb) && n == left + 1
        && (m1, first) == Read8(m, io, lin, user, lin / 4096 in code)
    ensures ReadBytes(m, io, lin, user, n, code)
      == if first.Fault? then (m1, first) else Behind(first, ReadBytes(m1, io, Next(lin), user, left, code))
  {
  }

  /** One turn of the loop. */
  lemma {:induction false} ReadBytesTurn(m: Machine, io: Device, lin: Address, user: bool, n: nat, left: nat,
                                         code: set<Page>, m1: Machine, first: Answer, done: Answer)
    requires Shaped(m.tlb) && Shaped(m1.tlb) && n == left + 1
        && (m1, first) == Read8(m, io, lin, user, lin / 4096 in code)
    requires !done.Fault?
    ensures Behind(done, ReadBytes(m, io, lin, user, n, code)) ==
      if first.Fault? then (m1, first) else Behind(Joined(done, first), ReadBytes(m1, io, Next(lin), user, left, code))
  {
    ReadBytesUnfolds(m, io, lin, user, n, left, code, m1, first);
    JoinedAssociates(done, first, ReadBytes(m1, io, Next(lin), user, left, code).1);
  }

  lemma JoinedAssociates(a: Answer, b: Answer, c: Answer)
    ensures Joined(a, Joined(b, c)) == Joined(Joined(a, b), c) || b.Fault?
  {
    if a.Data? && b.Data? && c.Data? { assert a.bytes + (b.bytes + c.bytes) == a.bytes + b.bytes + c.bytes; }
  }

  lemma JoinedNothing(a: Answer)
    ensures Joined(Data([]), a) == a && (!a.Fault? ==> Joined(a, Data([])) == a)
  {
    if a.Data? { assert [] + a.bytes == a.bytes && a.bytes + [] == a.bytes; }
  }

  /** A 16- or 32-bit access that its size divides never leaves a word. */
  predicate Aligned(lin: Address, n: int) {
    (n == 2 && lin % 2 == 0) || (n == 4 && lin % 4 == 0)
  }

  /** The n bytes at lin, all in one word. */
  function LoadWide(ram: seq<Word>, f: int, lin: Address, n: int): Answer
    requires Aligned(lin, n)
  {
    if Readable(ram, f) then
      var w := ram[WordAt(f, lin)];
      if n == 4 then Data([ByteOf(w, 0), ByteOf(w, 1), ByteOf(w, 2), ByteOf(w, 3)])
      else Data([ByteOf(w, lin % 4), ByteOf(w, lin % 4 + 1)])
    else Mmio
  }

  /** The word with its lower or upper half replaced. */
  function WithHalf(w: Word, half: int, low: Byte, high: Byte): Word
    requires 0 <= half < 2
  {
    WithByte(WithByte(w, 2 * half, low), 2 * half + 1, high)
  }

  function StoreWide(ram: seq<Word>, f: int, lin: Address, bytes: seq<Byte>): (r: seq<Word>)
    requires Aligned(lin, |bytes|)
    ensures |r| == |ram|
  {
    if Writable(ram, f) then
      var i := WordAt(f, lin);
      if |bytes| == 4 then ram[i := FromBytes(bytes[0], bytes[1], bytes[2], bytes[3])]
      else ram[i := WithHalf(ram[i], lin % 4 / 2, bytes[0], bytes[1])]
    else
      ram
  }

  /** cpu_access_read16 and cpu_access_read32. */
  function ReadWide(m: Machine, io: Device, lin: Address, user: bool, n: int, code: set<Page>): (r: (Machine, Answer))
    requires Shaped(m.tlb) && (n == 2 || n == 4)
    ensures Shaped(r.0.tlb)
  {
    if !Aligned(lin, n) then ReadBytes(m, io, lin, user, n, code)
    else
      var (m', o) := Resolved(m, io, lin, Class(user, false), lin / 4096 in code);
      (m', if o.Mapped? then LoadWide(m'.ram, HostFrame(m', lin / 4096), lin, n) else Fault(o))
  }

  /** The aligned branch of cpu_access_write16 and cpu_access_write32. */
  function WriteAligned(m: Machine, io: Device, lin: Address, user: bool, bytes: seq<Byte>, hasCode: bool, drop: bool)
      : (r: (Machine, Answer))
    requires Shaped(m.tlb) && Aligned(lin, |bytes|)
    ensures Shaped(r.0.tlb)
  {
    var (m', o) := Resolved(m, io, lin, Class(user, true), hasCode);
    if !o.Mapped? then (m', Fault(o))
    else
      var f := HostFrame(m', lin / 4096);
      if !Writable(m'.ram, f) then (m', Mmio)
      else
        var m'' := m'.(ram := StoreWide(m'.ram, f, lin, bytes));
        (if drop then m''.(tlb := Invalidated(m''.tlb, lin / 4096)) else m'', Data([]))
  }

  // ---------- The TLB is invisible ----------

  /** Nothing an entry of page p stands for has been changed behind its back. */
  predicate Current(t: Traced, io: Device, p: Page)
    requires Sound(t)
  {
    t.m.tlb.tags[p] != EMPTY_TAG ==>
      t.fills[p].ctl == ControlsOf(t.m) && Footprint(t.fills[p].ram, io, t.fills[p].ctl, p) !! t.fills[p].edited
  }

  lemma ResolvedAgrees(t: Traced, io: Device, lin: Address, c: Class, hasCode: bool)
    requires Coherent(t, io) && Current(t, io, lin / 4096)
    ensures var (m', o) := Resolved(t.m, io, lin, c, hasCode);
            var (ram', walk) := WalkFor(t.m.ram, io, ControlsOf(t.m), lin, c);
            && m'.ram == ram' && o.Mapped? == walk.Mapped?
            && (!o.Mapped? ==> o == walk)
            && (o.Mapped? ==> HostFrame(m', lin / 4096) == MapFrame(t.m.a20, walk.frame))
  {
    assert PageOk(t, io, lin / 4096);
    if t.m.tlb.tags[lin / 4096].Grants(c) {
      GrantStillWalks(t, io, lin / 4096, c);
    }
  }

  /** A byte read through the TLB, whatever the TLB holds, is a byte read by walking. */
  lemma ReadInvisible(t: Traced, io: Device, lin: Address, user: bool, hasCode: bool)
    requires Coherent(t, io) && Current(t, io, lin / 4096)
    ensures var (m', a) := Read8(t.m, io, lin, user, hasCode);
            PlainRead8(t.m.ram, io, ControlsOf(t.m), lin, user) == (m'.ram, a)
  {
    ResolvedAgrees(t, io, lin, Class(user, false), hasCode);
  }

  lemma WriteInvisible(t: Traced, io: Device, lin: Address, user: bool, b: Byte, hasCode: bool, drop: bool)
    requires Coherent(t, io) && Current(t, io, lin / 4096)
    ensures var (m', a) := Write8(t.m, io, lin, user, b, hasCode, drop);
            PlainWrite8(t.m.ram, io, ControlsOf(t.m), lin, user, b) == (m'.ram, a)
  {
    ResolvedAgrees(t, io, lin, Class(user, true), hasCode);
  }

  /** The pages of the n bytes from lin on are current. */
  predicate TouchedCurrent(t: Traced, io: Device, lin: Address, n: nat)
    requires Sound(t)
    decreases n
  {
    n > 0 ==> Current(t, io, lin / 4096) && TouchedCurrent(t, io, Next(lin), n - 1)
  }

  /** The history that the start of an access adds. */
  function TracedResolve(t: Traced, io: Device, lin: Address, c: Class, hasCode: bool): (r: Traced)
    requires Shaped(t.m.tlb) && |t.fills| == PAGES
    ensures Shaped(r.m.tlb) && |r.fills| == PAGES && r.m == Resolved(t.m, io, lin, c, hasCode).0
  {
    if t.m.tlb.tags[lin / 4096].Grants(c) then t else TracedStep(t, io, Translate(lin, c, false, hasCode))
  }

  /** The history that a byte read adds. */
  function TracedRead(t: Traced, io: Device, lin: Address, user: bool, hasCode: bool): (r: Traced)
    requires Shaped(t.m.tlb) && |t.fills| == PAGES
    ensures Shaped(r.m.tlb) && |r.fills| == PAGES && r.m == Read8(t.m, io, lin, user, hasCode).0
  {
    TracedResolve(t, io, lin, Class(user, false), hasCode)
  }

  lemma ResolveKeepsCoherence(t: Traced, io: Device, lin: Address, c: Class, hasCode: bool)
    requires Coherent(t, io)
    ensures var t' := TracedResolve(t, io, lin, c, hasCode); Coherent(t', io) && ControlsOf(t'.m) == ControlsOf(t.m)
  {
    StepCoherent(t, io, Translate(lin, c, false, hasCode));
  }

  /** A translation edits no table, so it leaves every entry as current as it was. */
  lemma ResolveStaysCurrent(t: Traced, io: Device, lin: Address, c: Class, hasCode: bool)
    requires Coherent(t, io)
    ensures var t' := TracedResolve(t, io, lin, c, hasCode);
            && Coherent(t', io) && ControlsOf(t'.m) == ControlsOf(t.m)
            && forall p: Page :: Current(t, io, p) ==> Current(t', io, p)
  {
    var t' := TracedResolve(t, io, lin, c, hasCode);
    if t' != t {
      ResolveKeepsCoherence(t, io, lin, c, hasCode);
      FlushEmpties(t.m.tlb);
      forall p: Page | Current(t, io, p)
        ensures Current(t', io, p)
      {
      }
    }
  }

  lemma {:induction false} TouchedStaysCurrent(t: Traced, t': Traced, io: Device, lin: Address, n: nat)
    requires Sound(t) && Sound(t') && TouchedCurrent(t, io, lin, n)
    requires forall p: Page :: Current(t, io, p) ==> Current(t', io, p)
    ensures TouchedCurrent(t', io, lin, n)
    decreases n
  {
    if n > 0 { TouchedStaysCurrent(t, t', io, Next(lin), n - 1); }
  }

  /** One byte and the rest. */
  lemma ReadBytesJoin(m: Machine, io: Device, ctl: Controls, lin: Address, user: bool, n: nat, code: set<Page>)
    requires Shaped(m.tlb) && n > 0
    requires var (m1, first) := Read8(m, io, lin, user, lin / 4096 in code);
             && PlainRead8(m.ram, io, ctl, lin, user) == (m1.ram, first)
             && var (m2, rest) := ReadBytes(m1, io, Next(lin), user, n - 1, code);
                PlainRead(m1.ram, io, ctl, Next(lin), user, n - 1) == (m2.ram, rest)
    ensures var (l, a) := ReadBytes(m, io, lin, user, n, code);
            PlainRead(m.ram, io, ctl, lin, user, n) == (l.ram, a)
  {
  }

  /** Reads of any size and alignment, across pages, with any TLB flushes that their own translations cause on the way,
      give the bytes that walking for each byte in turn would give, and mark the same memory. */
  lemma {:induction false} ReadBytesInvisible(t: Traced, io: Device, lin: Address, user: bool, n: nat, code: set<Page>)
    requires Coherent(t, io) && TouchedCurrent(t, io, lin, n)
    ensures var (m', a) := ReadBytes(t.m, io, lin, user, n, code);
            PlainRead(t.m.ram, io, ControlsOf(t.m), lin, user, n) == (m'.ram, a)
    decreases n
  {
    if n > 0 {
      ReadInvisible(t, io, lin, user, lin / 4096 in code);
      ResolveStaysCurrent(t, io, lin, Class(user, false), lin / 4096 in code);
      var t' := TracedRead(t, io, lin, user, lin / 4096 in code);
      TouchedStaysCurrent(t, t', io, Next(lin), n - 1);
      ReadBytesInvisible(t', io, Next(lin), user, n - 1, code);
      ReadBytesJoin(t.m, io, ControlsOf(t.m), lin, user, n, code);
    }
  }

  // ---------- One word is its bytes ----------

  /** n bytes of one page. */
  function LoadBytes(ram: seq<Word>, f: int, lin: Address, n: nat): seq<Byte>
    requires Readable(ram, f)
    decreases n
  {
    if n == 0 then [] else LoadByte(ram, f, lin).bytes + LoadBytes(ram, f, Next(lin), n - 1)
  }

  lemma NextInPage(lin: Address)
    requires lin % 4096 < 4095
    ensures Next(lin) / 4096 == lin / 4096 && Next(lin) % 4096 == lin % 4096 + 1
  {
  }

  /** A second walk finds the same and marks nothing. */
  lemma WalkSettles(ram: seq<Word>, io: Device, ctl: Controls, lin: Address, c: Class)
    ensures var (ram', walk) := WalkFor(ram, io, ctl, lin, c);
            walk.Mapped? ==> WalkFor(ram', io, ctl, lin, c) == (ram', walk)
  {
    var (ram', walk) := WalkFor(ram, io, ctl, lin, c);
    if walk.Mapped? {
      MarksChangeNoWalk(ram, io, ctl, lin / 4096, c, false, lin / 4096, c, false);
      MarkedTwice(ram, walk.trail, c.write);
    }
  }

  /** Within a page, walking again for each byte changes nothing after the first. */
  lemma {:induction false} PlainReadInPage(ram: seq<Word>, io: Device, ctl: Controls, lin: Address, user: bool, n: nat)
    requires n > 0 && lin % 4096 + n <= 4096
    ensures var (ram', walk) := WalkFor(ram, io, ctl, lin, Class(user, false));
            var f := if walk.Mapped? then MapFrame(ctl.a20, walk.frame) else 0;
            PlainRead(ram, io, ctl, lin, user, n) ==
              (ram', if !walk.Mapped? then Fault(walk)
                     else if !Readable(ram', f) then Mmio
                     else Data(LoadBytes(ram', f, lin, n)))
    decreases n
  {
    var c := Class(user, false);
    var (ram', walk) := WalkFor(ram, io, ctl, lin, c);
    if walk.Mapped? {
      var f := MapFrame(ctl.a20, walk.frame);
      if n == 1 {
        assert PlainRead(ram', io, ctl, Next(lin), user, 0) == (ram', Data([]));
        if Readable(ram', f) {
          var first := LoadByte(ram', f, lin).bytes;
          assert first + [] == first;
        }
      } else {
        NextInPage(lin);
        WalkSettles(ram, io, ctl, lin, c);
        PlainReadInPage(ram', io, ctl, Next(lin), user, n - 1);
      }
    }
  }

  lemma SameWord(f: int, lin: Address)
    requires lin % 4 != 3
    ensures WordAt(f, Next(lin)) == WordAt(f, lin) && Next(lin) % 4 == lin % 4 + 1
  {
    var q := lin / 4;
    assert Next(lin) == 4 * q + (lin % 4 + 1);
    assert Next(lin) / 4 == q;
  }

  /** An aligned wide load is its bytes. */
  lemma LoadWideIsBytes(ram: seq<Word>, f: int, lin: Address, n: int)
    requires Aligned(lin, n) && Readable(ram, f)
    ensures LoadWide(ram, f, lin, n) == Data(LoadBytes(ram, f, lin, n))
  {
    var w, l1 := ram[WordAt(f, lin)], Next(lin);
    SameWord(f, lin);
    if n == 4 {
      var l2 := Next(l1);
      SameWord(f, l1);
      SameWord(f, l2);
      assert LoadBytes(ram, f, Next(l2), 1) == [ByteOf(w, 3)];
      assert LoadBytes(ram, f, l2, 2) == [ByteOf(w, 2), ByteOf(w, 3)];
      assert LoadBytes(ram, f, l1, 3) == [ByteOf(w, 1), ByteOf(w, 2), ByteOf(w, 3)];
    } else {
      assert LoadBytes(ram, f, l1, 1) == [ByteOf(w, lin % 4 + 1)];
    }
  }

  lemma AlignedInPage(lin: Address, n: int)
    requires Aligned(lin, n)
    ensures lin % 4096 + n <= 4096
  {
    var q := lin / 4096;
    assert lin == 4096 * q + lin % 4096;
  }

  /** A walk for each byte of an aligned word is one walk for the word. */
  lemma PlainAlignedRead(ram: seq<Word>, io: Device, ctl: Controls, lin: Address, user: bool, n: int)
    requires (n == 2 || n == 4) && Aligned(lin, n)
    ensures var (ram', walk) := WalkFor(ram, io, ctl, lin, Class(user, false));
            PlainRead(ram, io, ctl, lin, user, n)
              == (ram', if walk.Mapped? then LoadWide(ram', MapFrame(ctl.a20, walk.frame), lin, n) else Fault(walk))
  {
    AlignedInPage(lin, n);
    PlainReadInPage(ram, io, ctl, lin, user, n);
    var (ram', walk) := WalkFor(ram, io, ctl, lin, Class(user, false));
    if walk.Mapped? && Readable(ram', MapFrame(ctl.a20, walk.frame)) {
      LoadWideIsBytes(ram', MapFrame(ctl.a20, walk.frame), lin, n);
    }
  }

  lemma AlignedReadInvisible(t: Traced, io: Device, lin: Address, user: bool, n: int, code: set<Page>)
    requires Coherent(t, io) && Current(t, io, lin / 4096) && (n == 2 || n == 4) && Aligned(lin, n)
    ensures var (m', a) := ReadWide(t.m, io, lin, user, n, code);
            PlainRead(t.m.ram, io, ControlsOf(t.m), lin, user, n) == (m'.ram, a)
  {
    ResolvedAgrees(t, io, lin, Class(user, false), lin / 4096 in code);
    PlainAlignedRead(t.m.ram, io, ControlsOf(t.m), lin, user, n);
  }

  /** 16- and 32-bit reads, aligned or not, are the composition of reads that walk for each byte. */
  lemma ReadWideInvisible(t: Traced, io: Device, lin: Address, user: bool, n: int, code: set<Page>)
    requires Coherent(t, io) && (n == 2 || n == 4) && TouchedCurrent(t, io, lin, n)
    ensures var (m', a) := ReadWide(t.m, io, lin, user, n, code);
            PlainRead(t.m.ram, io, ControlsOf(t.m), lin, user, n) == (m'.ram, a)
  {
    if !Aligned(lin, n) {
      ReadBytesInvisible(t, io, lin, user, n, code);
    } else {
      AlignedReadInvisible(t, io, lin, user, n, code);
    }
  }

  // ---------- The fast path ----------

  /** Where the slow bit is clear, the host pointer leads to RAM and the slow path would load from it, translating
      nothing: a byte at any address, and two or four aligned ones. */
  lemma FastReadIsSlowRead(t: Traced, io: Device, lin: Address, user: bool, code: set<Page>)
    requires Coherent(t, io) && !t.m.tlb.tags[lin / 4096].Of(Class(user, false)).slow
    ensures var f := HostFrame(t.m, lin / 4096);
            && Readable(t.m.ram, f)
            && Read8(t.m, io, lin, user, lin / 4096 in code) == (t.m, LoadByte(t.m.ram, f, lin))
            && forall n | (n == 2 || n == 4) && Aligned(lin, n) ::
                 ReadWide(t.m, io, lin, user, n, code) == (t.m, LoadWide(t.m.ram, f, lin, n))
  {
    assert PageOk(t, io, lin / 4096);
  }

  lemma FastWriteIsSlowWrite(t: Traced, io: Device, lin: Address, user: bool, b: Byte, bytes: seq<Byte>, hasCode: bool)
    requires Coherent(t, io) && !t.m.tlb.tags[lin / 4096].Of(Class(user, true)).slow
    ensures var f := HostFrame(t.m, lin / 4096);
            && Writable(t.m.ram, f)
            && Write8(t.m, io, lin, user, b, hasCode, false) == (t.m.(ram := StoreByte(t.m.ram, f, lin, b)), Data([]))
            && (Aligned(lin, |bytes|) ==>
                  WriteAligned(t.m, io, lin, user, bytes, hasCode, false)
                  == (t.m.(ram := StoreWide(t.m.ram, f, lin, bytes)), Data([])))
  {
    assert PageOk(t, io, lin / 4096);
  }

  /** Two bytes stored one after the other into one word. */
  lemma StoreTwoBytes(ram: seq<Word>, f: int, lin: Address, b0: Byte, b1: Byte)
    requires lin % 4 != 3 && Writable(ram, f)
    ensures var i := WordAt(f, lin);
            StoreByte(StoreByte(ram, f, lin, b0), f, Next(lin), b1)
              == ram[i := WithByte(WithByte(ram[i], lin % 4, b0), lin % 4 + 1, b1)]
  {
    SameWord(f, lin);
  }

  lemma HalfPlaces(lin: Address)
    requires lin % 2 == 0
    ensures lin % 4 == 2 * (lin % 4 / 2) && lin % 4 != 3
  {
  }

  lemma UpperHalf(f: int, lin: Address)
    requires lin % 4 == 0
    ensures WordAt(f, Next(Next(lin))) == WordAt(f, lin) && Next(Next(lin)) % 4 == 2
  {
    SameWord(f, lin);
    SameWord(f, Next(lin));
  }

  /** Bytes stored one after the other in one page, lowest first. */
  function StoreBytes(ram: seq<Word>, f: int, lin: Address, bytes: seq<Byte>): (r: seq<Word>)
    ensures |r| == |ram|
    decreases |bytes|
  {
    if bytes == [] then ram else StoreBytes(StoreByte(ram, f, lin, bytes[0]), f, Next(lin), bytes[1..])
  }

  lemma StoreBytesUnfold(ram: seq<Word>, f: int, lin: Address, bytes: seq<Byte>)
    requires |bytes| == 2 || |bytes| == 4
    ensures var two := StoreByte(StoreByte(ram, f, lin, bytes[0]), f, Next(lin), bytes[1]);
            StoreBytes(ram, f, lin, bytes) ==
              if |bytes| == 2 then two
              else StoreByte(StoreByte(two, f, Next(Next(lin)), bytes[2]), f, Next(Next(Next(lin))), bytes[3])
  {
    var one := StoreByte(ram, f, lin, bytes[0]);
    var two := StoreByte(one, f, Next(lin), bytes[1]);
    assert StoreBytes(ram, f, lin, bytes) == StoreBytes(one, f, Next(lin), bytes[1..]);
    assert bytes[1..][1..] == bytes[2..];
    assert StoreBytes(one, f, Next(lin), bytes[1..]) == StoreBytes(two, f, Next(Next(lin)), bytes[2..]);
    if |bytes| == 4 {
      var three := StoreByte(two, f, Next(Next(lin)), bytes[2]);
      assert bytes[2..][1..] == bytes[3..];
      assert StoreBytes(two, f, Next(Next(lin)), bytes[2..]) == StoreBytes(three, f, Next(Next(Next(lin))), bytes[3..]);
    }
  }

  /** Storing a word is storing its bytes. */
  lemma StoreWideIsBytes(ram: seq<Word>, f: int, lin: Address, bytes: seq<Byte>)
    requires Aligned(lin, |bytes|)
    ensures StoreWide(ram, f, lin, bytes) == StoreBytes(ram, f, lin, bytes)
  {
    StoreBytesUnfold(ram, f, lin, bytes);
    if Writable(ram, f) {
      var i := WordAt(f, lin);
      if |bytes| == 2 {
        HalfPlaces(lin);
        StoreTwoBytes(ram, f, lin, bytes[0], bytes[1]);
      } else {
        StoreTwoBytes(ram, f, lin, bytes[0], bytes[1]);
        UpperHalf(f, lin);
        var w := WithByte(WithByte(ram[i], 0, bytes[0]), 1, bytes[1]);
        StoreTwoBytes(ram[i := w], f, Next(Next(lin)), bytes[2], bytes[3]);
        FourBytes(ram[i], bytes[0], bytes[1], bytes[2], bytes[3]);
      }
    }
  }

  lemma FourBytes(w: Word, b0: Byte, b1: Byte, b2: Byte, b3: Byte)
    ensures WithByte(WithByte(WithByte(WithByte(w, 0, b0), 1, b1), 2, b2), 3, b3) == FromBytes(b0, b1, b2, b3)
  {
    BytesOfWord(b0, ByteOf(w, 1), ByteOf(w, 2), ByteOf(w, 3));
    BytesOfWord(b0, b1, ByteOf(w, 2), ByteOf(w, 3));
    BytesOfWord(b0, b1, b2, ByteOf(w, 3));
  }

  /** Aligned writes through the TLB are writes by walking. */
  lemma WriteAlignedInvisible(t: Traced, io: Device, lin: Address, user: bool, bytes: seq<Byte>, hasCode: bool,
                              drop: bool)
    requires Coherent(t, io) && Current(t, io, lin / 4096) && Aligned(lin, |bytes|)
    ensures var (m', a) := WriteAligned(t.m, io, lin, user, bytes, hasCode, drop);
            var (ram', walk) := WalkFor(t.m.ram, io, ControlsOf(t.m), lin, Class(user, true));
            if !walk.Mapped? then (m'.ram, a) == (ram', Fault(walk))
            else var f := MapFrame(t.m.a20, walk.frame);
                 (m'.ram, a) == (StoreWide(ram', f, lin, bytes), if Writable(ram', f) then Data([]) else Mmio)
  {
    ResolvedAgrees(t, io, lin, Class(user, true), hasCode);
  }

  // ---------- Unaligned writes ----------

  /** Bytes from lin on, each translated on its own, up to the first that faults. */
  function PlainWrite(ram: seq<Word>, io: Device, ctl: Controls, lin: Address, user: bool, bytes: seq<Byte>)
      : (seq<Word>, Answer)
    decreases |bytes|
  {
    if bytes == [] then (ram, Data([]))
    else
      var (ram1, a) := PlainWrite8(ram, io, ctl, lin, user, bytes[0]);
      if a.Fault? then (ram1, a) else PlainWrite(ram1, io, ctl, Next(lin), user, bytes[1..])
  }

  /** The byte loop of cpu_access_write16 and cpu_access_write32; drops says whether a byte drops its page's entry. */
  function WriteBytes(m: Machine, io: Device, lin: Address, user: bool, bytes: seq<Byte>, code: set<Page>,
                      drops: set<Address>)
      : (r: (Machine, Answer))
    requires Shaped(m.tlb)
    ensures Shaped(r.0.tlb)
    decreases |bytes|
  {
    if bytes == [] then (m, Data([]))
    else
      var (m1, a) := Write8(m, io, lin, user, bytes[0], lin / 4096 in code, lin in drops);
      if a.Fault? then (m1, a) else WriteBytes(m1, io, Next(lin), user, bytes[1..], code, drops)
  }

  function TracedStore(t: Traced, io: Device, f: int, lin: Address, b: Byte): (r: Traced)
    requires Shaped(t.m.tlb) && |t.fills| == PAGES && Writable(t.m.ram, f)
    ensures Shaped(r.m.tlb) && |r.fills| == PAGES && r.m == t.m.(ram := StoreByte(t.m.ram, f, lin, b))
  {
    TracedStep(t, io, Event.Store(WordAt(f, lin), WithByte(t.m.ram[WordAt(f, lin)], lin % 4, b)))
  }

  /** The steps that a byte write consists of, with their history. */
  function TracedWrite(t: Traced, io: Device, lin: Address, user: bool, b: Byte, hasCode: bool, drop: bool): (r: Traced)
    requires Shaped(t.m.tlb) && |t.fills| == PAGES
    ensures Shaped(r.m.tlb) && |r.fills| == PAGES && r.m == Write8(t.m, io, lin, user, b, hasCode, drop).0
  {
    var t1 := TracedResolve(t, io, lin, Class(user, true), hasCode);
    var f := HostFrame(t1.m, lin / 4096);
    if !Resolved(t.m, io, lin, Class(user, true), hasCode).1.Mapped? || !Writable(t1.m.ram, f) then t1
    else
      var t2 := TracedStore(t1, io, f, lin, b);
      if drop then TracedStep(t2, io, Invalidate(lin)) else t2
  }

  lemma StoreKeepsCoherence(t: Traced, io: Device, f: int, lin: Address, b: Byte)
    requires Coherent(t, io) && Writable(t.m.ram, f)
    ensures var t' := TracedStore(t, io, f, lin, b);
            && Coherent(t', io) && ControlsOf(t'.m) == ControlsOf(t.m)
            && Coherent(TracedStep(t', io, Invalidate(lin)), io)
            && ControlsOf(TracedStep(t', io, Invalidate(lin)).m) == ControlsOf(t.m)
  {
    StepCoherent(t, io, Event.Store(WordAt(f, lin), WithByte(t.m.ram[WordAt(f, lin)], lin % 4, b)));
    StepCoherent(TracedStore(t, io, f, lin, b), io, Invalidate(lin));
  }

  lemma WriteKeepsCoherence(t: Traced, io: Device, lin: Address, user: bool, b: Byte, hasCode: bool, drop: bool)
    requires Coherent(t, io)
    ensures Coherent(TracedWrite(t, io, lin, user, b, hasCode, drop), io)
    ensures ControlsOf(TracedWrite(t, io, lin, user, b, hasCode, drop).m) == ControlsOf(t.m)
  {
    var t1 := TracedResolve(t, io, lin, Class(user, true), hasCode);
    ResolveKeepsCoherence(t, io, lin, Class(user, true), hasCode);
    if Writable(t1.m.ram, HostFrame(t1.m, lin / 4096)) {
      StoreKeepsCoherence(t1, io, HostFrame(t1.m, lin / 4096), lin, b);
    }
  }

  /** When its turn comes, the page of each byte is still current: no earlier byte of the write has changed a table on
      which an entry of that page rests that the TLB still holds. */
  ghost predicate CurrentThroughout(t: Traced, io: Device, lin: Address, user: bool, bytes: seq<Byte>, code: set<Page>,
                                    drops: set<Address>)
    requires Sound(t)
    decreases |bytes|
  {
    bytes != [] ==>
      && Current(t, io, lin / 4096)
      && var t' := TracedWrite(t, io, lin, user, bytes[0], lin / 4096 in code, lin in drops);
         Sound(t') && CurrentThroughout(t', io, Next(lin), user, bytes[1..], code, drops)
  }

  /** Writes of any size and alignment, across pages, whatever TLB entries they fill and drop on the way, leave the
      memory that walking for each byte in turn would leave, and fault where it would. */
  lemma {:induction false} WriteBytesInvisible(t: Traced, io: Device, lin: Address, user: bool, bytes: seq<Byte>,
                                               code: set<Page>, drops: set<Address>)
    requires Coherent(t, io) && CurrentThroughout(t, io, lin, user, bytes, code, drops)
    ensures var (m', a) := WriteBytes(t.m, io, lin, user, bytes, code, drops);
            PlainWrite(t.m.ram, io, ControlsOf(t.m), lin, user, bytes) == (m'.ram, a)
    decreases |bytes|
  {
    if bytes != [] {
      WriteInvisible(t, io, lin, user, bytes[0], lin / 4096 in code, lin in drops);
      WriteKeepsCoherence(t, io, lin, user, bytes[0], lin / 4096 in code, lin in drops);
      var t' := TracedWrite(t, io, lin, user, bytes[0], lin / 4096 in code, lin in drops);
      WriteBytesInvisible(t', io, Next(lin), user, bytes[1..], code, drops);
    }
  }

  lemma StoreBesideTrail(ram: seq<Word>, trail: Trail, words: set<int>, write: bool, i: nat, w: Word)
    requires TrailWithin(trail, words) && i !in words && i < |ram| && Marked(ram, trail, write) == ram
    ensures Marked(ram[i := w], trail, write) == ram[i := w]
  {
    MarkedAllMarked(ram, trail, write);
    AllMarkedStays(ram[i := w], trail, write);
  }

  lemma StoreBesideFootprint(ram: seq<Word>, io: Device, ctl: Controls, page: Page, i: nat, w: Word)
    requires i < |ram| && i !in Footprint(ram, io, ctl, page)
    ensures Footprint(ram[i := w], io, ctl, page) == Footprint(ram, io, ctl, page)
  {
    FootprintDependsOnItself(ram, ram[i := w], io, ctl, page);
  }

  /** A store beside the tables of a page leaves its walk as it was, with nothing more to mark. */
  lemma StoreBesideTables(ram: seq<Word>, io: Device, ctl: Controls, lin: Address, c: Class, walk: Outcome, i: nat,
                          w: Word)
    requires WalkFor(ram, io, ctl, lin, c) == (ram, walk) && walk.Mapped? && i < |ram|
    requires i !in Footprint(ram, io, ctl, lin / 4096)
    ensures WalkFor(ram[i := w], io, ctl, lin, c) == (ram[i := w], walk)
    ensures Footprint(ram[i := w], io, ctl, lin / 4096) == Footprint(ram, io, ctl, lin / 4096)
  {
    StoreBesideFootprint(ram, io, ctl, lin / 4096, i, w);
    WalkDependsOnFootprint(ram, ram[i := w], io, ctl, lin / 4096, c, false);
    TrailInFootprint(ram, io, ctl, lin / 4096, c);
    StoreBesideTrail(ram, walk.trail, Footprint(ram, io, ctl, lin / 4096), c.write, i, w);
  }

  lemma NextInWord(f: int, lin: Address)
    requires lin % 4 != 3
    ensures Next(lin) / 4096 == lin / 4096 && Next(lin) % 4 == lin % 4 + 1 && WordAt(f, Next(lin)) == WordAt(f, lin)
  {
    SameWord(f, lin);
  }

  /** The word that a byte write would be stored into is one of the tables of a page. */
  predicate WritesTable(ram: seq<Word>, io: Device, ctl: Controls, lin: Address, user: bool, page: Page) {
    var walk := Walk(ram, io, ctl, lin / 4096, Class(user, true), false);
    && walk.Mapped? && Writable(ram, MapFrame(ctl.a20, walk.frame))
    && WordAt(MapFrame(ctl.a20, walk.frame), lin) in Footprint(ram, io, ctl, page)
  }

  /** Walking again for each byte of a word changes nothing, if the word is none of the tables. */
  lemma {:induction false} PlainWriteInWord(ram: seq<Word>, io: Device, ctl: Controls, lin: Address, user: bool,
                                            bytes: seq<Byte>, walk: Outcome)
    requires WalkFor(ram, io, ctl, lin, Class(user, true)) == (ram, walk) && walk.Mapped? && lin % 4 + |bytes| <= 4
    requires var f := MapFrame(ctl.a20, walk.frame);
             Writable(ram, f) ==> WordAt(f, lin) !in Footprint(ram, io, ctl, lin / 4096)
    ensures PlainWrite(ram, io, ctl, lin, user, bytes)
        == (StoreBytes(ram, MapFrame(ctl.a20, walk.frame), lin, bytes), Data([]))
    decreases |bytes|
  {
    var f := MapFrame(ctl.a20, walk.frame);
    if bytes != [] {
      var ram1 := StoreByte(ram, f, lin, bytes[0]);
      if Writable(ram, f) {
        StoreBesideTables(ram, io, ctl, lin, Class(user, true), walk, WordAt(f, lin), ram1[WordAt(f, lin)]);
      }
      if |bytes| > 1 {
        NextInWord(f, lin);
        PlainWriteInWord(ram1, io, ctl, Next(lin), user, bytes[1..], walk);
      }
    }
  }

  lemma PlainWriteSettles(ram: seq<Word>, io: Device, ctl: Controls, lin: Address, user: bool, bytes: seq<Byte>,
                          ram': seq<Word>, walk: Outcome)
    requires WalkFor(ram, io, ctl, lin, Class(user, true)) == WalkFor(ram', io, ctl, lin, Class(user, true))
        == (ram', walk)
    requires walk.Mapped? && bytes != []
    ensures PlainWrite(ram, io, ctl, lin, user, bytes) == PlainWrite(ram', io, ctl, lin, user, bytes)
  {
    assert PlainWrite8(ram, io, ctl, lin, user, bytes[0]) == PlainWrite8(ram', io, ctl, lin, user, bytes[0]);
  }

  lemma PlainWriteMapped(ram: seq<Word>, io: Device, ctl: Controls, lin: Address, user: bool, bytes: seq<Byte>,
                         ram': seq<Word>, walk: Outcome, f: int)
    requires Aligned(lin, |bytes|) && WalkFor(ram, io, ctl, lin, Class(user, true)) == (ram', walk) && walk.Mapped?
    requires f == MapFrame(ctl.a20, walk.frame)
    requires Writable(ram', f) ==> WordAt(f, lin) !in Footprint(ram', io, ctl, lin / 4096)
    ensures PlainWrite(ram, io, ctl, lin, user, bytes) == (StoreWide(ram', f, lin, bytes), Data([]))
  {
    AlignedInWord(lin, |bytes|);
    WalkSettles(ram, io, ctl, lin, Class(user, true));
    PlainWriteSettles(ram, io, ctl, lin, user, bytes, ram', walk);
    PlainWriteInWord(ram', io, ctl, lin, user, bytes, walk);
    StoreWideIsBytes(ram', f, lin, bytes);
  }

  lemma AlignedInWord(lin: Address, n: int)
    requires Aligned(lin, n)
    ensures lin % 4 + n <= 4
  {
    if n == 2 { HalfPlaces(lin); }
  }

  lemma PlainWriteFaults(ram: seq<Word>, io: Device, ctl: Controls, lin: Address, user: bool, bytes: seq<Byte>)
    requires bytes != []
    ensures var (ram', walk) := WalkFor(ram, io, ctl, lin, Class(user, true));
            !walk.Mapped? ==> PlainWrite(ram, io, ctl, lin, user, bytes) == (ram', Fault(walk))
  {
  }

  lemma MarkedFootprint(ram: seq<Word>, io: Device, ctl: Controls, lin: Address, c: Class, page: Page)
    ensures var (ram', walk) := WalkFor(ram, io, ctl, lin, c);
            Footprint(ram', io, ctl, page) == Footprint(ram, io, ctl, page)
  {
    var (ram', walk) := WalkFor(ram, io, ctl, lin, c);
    if walk.Mapped? {
      WalkTrailFits(ram, io, ctl, lin / 4096, c, false);
      MarkedOnlyMarks(ram, walk.trail, c.write, ctl.pae);
      FootprintDependsOnItself(ram, ram', io, ctl, page);
    }
  }

  lemma PlainWriteAligned(ram: seq<Word>, io: Device, ctl: Controls, lin: Address, user: bool, bytes: seq<Byte>)
    requires Aligned(lin, |bytes|) && !WritesTable(ram, io, ctl, lin, user, lin / 4096)
    ensures var (ram', walk) := WalkFor(ram, io, ctl, lin, Class(user, true));
            PlainWrite(ram, io, ctl, lin, user, bytes) ==
              if walk.Mapped? then (StoreWide(ram', MapFrame(ctl.a20, walk.frame), lin, bytes), Data([]))
              else (ram', Fault(walk))
  {
    var (ram', walk) := WalkFor(ram, io, ctl, lin, Class(user, true));
    if walk.Mapped? {
      MarkedFootprint(ram, io, ctl, lin, Class(user, true), lin / 4096);
      PlainWriteMapped(ram, io, ctl, lin, user, bytes, ram', walk, MapFrame(ctl.a20, walk.frame));
    } else {
      PlainWriteFaults(ram, io, ctl, lin, user, bytes);
    }
  }

  /** An aligned write, which walks once, leaves the memory that walking for each byte would leave, unless it writes
      into the tables that it walks. */
  lemma AlignedWriteInvisible(t: Traced, io: Device, lin: Address, user: bool, bytes: seq<Byte>, hasCode: bool,
                              drop: bool)
    requires Coherent(t, io) && Current(t, io, lin / 4096) && Aligned(lin, |bytes|)
    requires !WritesTable(t.m.ram, io, ControlsOf(t.m), lin, user, lin / 4096)
    ensures var (m', a) := WriteAligned(t.m, io, lin, user, bytes, hasCode, drop);
            PlainWrite(t.m.ram, io, ControlsOf(t.m), lin, user, bytes) == (m'.ram, if a.Fault? then a else Data([]))
  {
    WriteAlignedInvisible(t, io, lin, user, bytes, hasCode, drop);
    PlainWriteAligned(t.m.ram, io, ControlsOf(t.m), lin, user, bytes);
  }

  // ---------- Writes beside the tables ----------

  /** Two memories in which these pages have the same tables. */
  predicate SameTables(ram: seq<Word>, ram': seq<Word>, io: Device, ctl: Controls, user: bool, pages: set<Page>) {
    && |ram| == |ram'|
    && forall p | p in pages ::
         && Footprint(ram', io, ctl, p) == Footprint(ram, io, ctl, p)
         && Walk(ram', io, ctl, p, Class(user, true), false) == Walk(ram, io, ctl, p, Class(user, true), false)
  }

  /** The n bytes from lin on lie in these pages, and none of them would be written into their tables. */
  predicate BesideTables(ram: seq<Word>, io: Device, ctl: Controls, lin: Address, user: bool, n: nat, pages: set<Page>)
    decreases n
  {
    n > 0 ==>
      && lin / 4096 in pages && (forall p | p in pages :: !WritesTable(ram, io, ctl, lin, user, p))
      && BesideTables(ram, io, ctl, Next(lin), user, n - 1, pages)
  }

  lemma {:induction false} SameTablesBeside(ram: seq<Word>, ram': seq<Word>, io: Device, ctl: Controls, lin: Address,
                                            user: bool, n: nat, pages: set<Page>)
    requires SameTables(ram, ram', io, ctl, user, pages) && BesideTables(ram, io, ctl, lin, user, n, pages)
    ensures BesideTables(ram', io, ctl, lin, user, n, pages)
    decreases n
  {
    if n > 0 {
      forall p | p in pages ensures !WritesTable(ram', io, ctl, lin, user, p) {
        assert !WritesTable(ram, io, ctl, lin, user, p);
      }
      SameTablesBeside(ram, ram', io, ctl, Next(lin), user, n - 1, pages);
    }
  }

  lemma MarkedSameTables(ram: seq<Word>, io: Device, ctl: Controls, lin: Address, user: bool, pages: set<Page>)
    ensures SameTables(ram, WalkFor(ram, io, ctl, lin, Class(user, true)).0, io, ctl, user, pages)
  {
    var (ram', walk) := WalkFor(ram, io, ctl, lin, Class(user, true));
    forall p | p in pages
      ensures Footprint(ram', io, ctl, p) == Footprint(ram, io, ctl, p)
      ensures Walk(ram', io, ctl, p, Class(user, true), false) == Walk(ram, io, ctl, p, Class(user, true), false)
    {
      MarkedFootprint(ram, io, ctl, lin, Class(user, true), p);
      if walk.Mapped? {
        MarksChangeNoWalk(ram, io, ctl, lin / 4096, Class(user, true), false, p, Class(user, true), false);
      }
    }
  }

  lemma StoredSameTables(ram: seq<Word>, io: Device, ctl: Controls, user: bool, pages: set<Page>, i: nat, w: Word)
    requires i < |ram| && forall p | p in pages :: i !in Footprint(ram, io, ctl, p)
    ensures SameTables(ram, ram[i := w], io, ctl, user, pages)
  {
    forall p | p in pages
      ensures Footprint(ram[i := w], io, ctl, p) == Footprint(ram, io, ctl, p)
      ensures Walk(ram[i := w], io, ctl, p, Class(user, true), false) == Walk(ram, io, ctl, p, Class(user, true), false)
    {
      StoreBesideFootprint(ram, io, ctl, p, i, w);
      WalkDependsOnFootprint(ram, ram[i := w], io, ctl, p, Class(user, true), false);
    }
  }

  /** The tables that a current entry rests on are those of now. */
  lemma CurrentFootprint(t: Traced, io: Device, p: Page)
    requires Coherent(t, io) && Current(t, io, p) && t.m.tlb.tags[p] != EMPTY_TAG
    ensures Footprint(t.fills[p].ram, io, t.fills[p].ctl, p) == Footprint(t.m.ram, io, ControlsOf(t.m), p)
  {
    assert PageOk(t, io, p);
    FootprintDependsOnItself(t.fills[p].ram, t.m.ram, io, t.fills[p].ctl, p);
  }

  lemma StoreStaysCurrent(t: Traced, io: Device, f: int, lin: Address, b: Byte, p: Page)
    requires Coherent(t, io) && Current(t, io, p) && Writable(t.m.ram, f)
    requires WordAt(f, lin) !in Footprint(t.m.ram, io, ControlsOf(t.m), p)
    ensures var t' := TracedStore(t, io, f, lin, b);
            && Sound(t') && Current(t', io, p)
            && Sound(TracedStep(t', io, Invalidate(lin))) && Current(TracedStep(t', io, Invalidate(lin)), io, p)
  {
    StoreKeepsCoherence(t, io, f, lin, b);
    if t.m.tlb.tags[p] != EMPTY_TAG { CurrentFootprint(t, io, p); }
  }

  lemma SameTablesTransitive(a: seq<Word>, b: seq<Word>, c: seq<Word>, io: Device, ctl: Controls, user: bool,
                             pages: set<Page>)
    requires SameTables(a, b, io, ctl, user, pages) && SameTables(b, c, io, ctl, user, pages)
    ensures SameTables(a, c, io, ctl, user, pages)
  {
  }

  /** The store of a byte write, after its translation. */
  lemma StoreKeepsPages(t: Traced, io: Device, f: int, lin: Address, user: bool, b: Byte, drop: bool, pages: set<Page>)
    requires Coherent(t, io) && Writable(t.m.ram, f) && forall p | p in pages :: Current(t, io, p)
    requires forall p | p in pages :: WordAt(f, lin) !in Footprint(t.m.ram, io, ControlsOf(t.m), p)
    ensures var t2 := TracedStore(t, io, f, lin, b);
            var t' := if drop then TracedStep(t2, io, Invalidate(lin)) else t2;
            && Sound(t') && (forall p | p in pages :: Current(t', io, p))
            && SameTables(t.m.ram, t'.m.ram, io, ControlsOf(t.m), user, pages)
  {
    StoreKeepsCoherence(t, io, f, lin, b);
    StoredSameTables(t.m.ram, io, ControlsOf(t.m), user, pages, WordAt(f, lin),
                     WithByte(t.m.ram[WordAt(f, lin)], lin % 4, b));
    forall p | p in pages
      ensures Current(TracedStore(t, io, f, lin, b), io, p)
      ensures Current(TracedStep(TracedStore(t, io, f, lin, b), io, Invalidate(lin)), io, p)
    {
      StoreStaysCurrent(t, io, f, lin, b, p);
    }
  }

  /** The translation of a byte write, and where its store goes. */
  lemma ResolveKeepsPages(t: Traced, io: Device, lin: Address, user: bool, hasCode: bool, pages: set<Page>)
    requires Coherent(t, io) && lin / 4096 in pages && forall p | p in pages :: Current(t, io, p)
    requires forall p | p in pages :: !WritesTable(t.m.ram, io, ControlsOf(t.m), lin, user, p)
    ensures var t1 := TracedResolve(t, io, lin, Class(user, true), hasCode);
            var f := HostFrame(t1.m, lin / 4096);
            && Coherent(t1, io) && ControlsOf(t1.m) == ControlsOf(t.m) && (forall p | p in pages :: Current(t1, io, p))
            && SameTables(t.m.ram, t1.m.ram, io, ControlsOf(t.m), user, pages)
            && (Resolved(t.m, io, lin, Class(user, true), hasCode).1.Mapped? && Writable(t1.m.ram, f) ==>
                  forall p | p in pages :: WordAt(f, lin) !in Footprint(t1.m.ram, io, ControlsOf(t.m), p))
  {
    ResolveStaysCurrent(t, io, lin, Class(user, true), hasCode);
    ResolvedAgrees(t, io, lin, Class(user, true), hasCode);
    MarkedSameTables(t.m.ram, io, ControlsOf(t.m), lin, user, pages);
    var t1 := TracedResolve(t, io, lin, Class(user, true), hasCode);
    forall p | p in pages && Resolved(t.m, io, lin, Class(user, true), hasCode).1.Mapped?
        && Writable(t1.m.ram, HostFrame(t1.m, lin / 4096))
      ensures WordAt(HostFrame(t1.m, lin / 4096), lin) !in Footprint(t1.m.ram, io, ControlsOf(t.m), p)
    {
      assert !WritesTable(t.m.ram, io, ControlsOf(t.m), lin, user, p);
    }
  }

  lemma WriteKeepsPages(t: Traced, io: Device, lin: Address, user: bool, b: Byte, hasCode: bool, drop: bool,
                        pages: set<Page>)
    requires Coherent(t, io) && lin / 4096 in pages && forall p | p in pages :: Current(t, io, p)
    requires forall p | p in pages :: !WritesTable(t.m.ram, io, ControlsOf(t.m), lin, user, p)
    ensures var t' := TracedWrite(t, io, lin, user, b, hasCode, drop);
            && Coherent(t', io) && ControlsOf(t'.m) == ControlsOf(t.m) && (forall p | p in pages :: Current(t', io, p))
            && SameTables(t.m.ram, t'.m.ram, io, ControlsOf(t.m), user, pages)
  {
    WriteKeepsCoherence(t, io, lin, user, b, hasCode, drop);
    ResolveKeepsPages(t, io, lin, user, hasCode, pages);
    var t1 := TracedResolve(t, io, lin, Class(user, true), hasCode);
    var f := HostFrame(t1.m, lin / 4096);
    if Resolved(t.m, io, lin, Class(user, true), hasCode).1.Mapped? && Writable(t1.m.ram, f) {
      StoreKeepsPages(t1, io, f, lin, user, b, drop, pages);
      SameTablesTransitive(t.m.ram, t1.m.ram, TracedWrite(t, io, lin, user, b, hasCode, drop).m.ram, io,
                           ControlsOf(t.m), user, pages);
    }
  }

  lemma {:induction false} BesideTablesStaysCurrent(t: Traced, io: Device, lin: Address, user: bool, bytes: seq<Byte>,
                                                    code: set<Page>, drops: set<Address>, pages: set<Page>)
    requires Coherent(t, io) && forall p | p in pages :: Current(t, io, p)
    requires BesideTables(t.m.ram, io, ControlsOf(t.m), lin, user, |bytes|, pages)
    ensures CurrentThroughout(t, io, lin, user, bytes, code, drops)
    decreases |bytes|
  {
    if bytes != [] {
      var hasCode, drop := lin / 4096 in code, lin in drops;
      var t' := TracedWrite(t, io, lin, user, bytes[0], hasCode, drop);
      WriteKeepsPages(t, io, lin, user, bytes[0], hasCode, drop, pages);
      SameTablesBeside(t.m.ram, t'.m.ram, io, ControlsOf(t.m), Next(lin), user, |bytes| - 1, pages);
      BesideTablesStaysCurrent(t', io, Next(lin), user, bytes[1..], code, drops, pages);
    }
  }

  /** cpu_access_write16 and cpu_access_write32. */
  function WriteWide(m: Machine, io: Device, lin: Address, user: bool, bytes: seq<Byte>, code: set<Page>,
                     drops: set<Address>)
      : (r: (Machine, Answer))
    requires Shaped(m.tlb)
    ensures Shaped(r.0.tlb)
  {
    if Aligned(lin, |bytes|) then WriteAligned(m, io, lin, user, bytes, lin / 4096 in code, lin in drops)
    else WriteBytes(m, io, lin, user, bytes, code, drops)
  }

  /** 16- and 32-bit writes, aligned or not, leave the memory that walking for each byte in turn would leave, and fault
      where it would, if before the access the pages of its bytes are current and none of its words is one of their
      tables. */
  lemma WriteWideInvisible(t: Traced, io: Device, lin: Address, user: bool, bytes: seq<Byte>, code: set<Page>,
                           drops: set<Address>, pages: set<Page>)
    requires Coherent(t, io) && (|bytes| == 2 || |bytes| == 4) && forall p | p in pages :: Current(t, io, p)
    requires BesideTables(t.m.ram, io, ControlsOf(t.m), lin, user, |bytes|, pages)
    ensures var (m', a) := WriteWide(t.m, io, lin, user, bytes, code, drops);
            PlainWrite(t.m.ram, io, ControlsOf(t.m), lin, user, bytes) == (m'.ram, if a.Fault? then a else Data([]))
  {
    if Aligned(lin, |bytes|) {
      AlignedWriteInvisible(t, io, lin, user, bytes, lin / 4096 in code, lin in drops);
    } else {
      BesideTablesStaysCurrent(t, io, lin, user, bytes, code, drops, pages);
      WriteBytesInvisible(t, io, lin, user, bytes, code, drops);
      WriteBytesAnswer(t.m, io, lin, user, bytes, code, drops);
    }
  }

  lemma {:induction false} WriteBytesAnswer(m: Machine, io: Device, lin: Address, user: bool, bytes: seq<Byte>,
                                            code: set<Page>, drops: set<Address>)
    requires Shaped(m.tlb)
    ensures var a := WriteBytes(m, io, lin, user, bytes, code, drops).1; a.Fault? || a == Data([])
    decreases |bytes|
  {
    if bytes != [] {
      var (m1, a) := Write8(m, io, lin, user, bytes[0], lin / 4096 in code, lin in drops);
      if !a.Fault? { WriteBytesAnswer(m1, io, Next(lin), user, bytes[1..], code, drops); }
    }
  }

  // ---------- Which byte of memory ----------

  /** The byte at a physical address. */
  function ByteAtAddress(ram: seq<Word>, a: nat): Byte
    requires a < 4 * |ram|
  {
    ByteOf(ram[a / 4], a % 4)
  }

  /** The word and the byte in it at an offset into a frame. */
  lemma AddressOf(f: int, lin: Address)
    requires 0 <= f
    ensures var a := 0x1000 * f + lin % 0x1000; 0 <= a && a / 4 == WordAt(f, lin) && a % 4 == lin % 4
  {
  }

  lemma FrameInside(ram: seq<Word>, f: int, lin: Address)
    requires 0 <= f < |ram| / 1024
    ensures 0 <= WordAt(f, lin) < |ram| && 0x1000 * f + lin % 0x1000 < 4 * |ram|
  {
  }

  /** A load of a byte is that of the byte at its place in the frame. */
  lemma LoadsItsAddress(ram: seq<Word>, f: int, lin: Address)
    requires Readable(ram, f)
    ensures 0x1000 * f + lin % 0x1000 < 4 * |ram|
    ensures LoadByte(ram, f, lin) == Data([ByteAtAddress(ram, 0x1000 * f + lin % 0x1000)])
  {
    FrameInside(ram, f, lin);
    AddressOf(f, lin);
  }

  lemma OneByteReplaced(w: Word, k: int, b: Byte, j: int)
    requires 0 <= k < 4 && 0 <= j < 4
    ensures ByteOf(WithByte(w, k, b), j) == if j == k then b else ByteOf(w, j)
  {
    BytesOfWord(if k == 0 then b else ByteOf(w, 0), if k == 1 then b else ByteOf(w, 1),
                if k == 2 then b else ByteOf(w, 2), if k == 3 then b else ByteOf(w, 3));
  }

  /** A store of a byte changes the byte at its place in the frame, and no other byte of memory. */
  lemma StoresItsAddress(ram: seq<Word>, f: int, lin: Address, b: Byte, a: nat)
    requires Writable(ram, f) && a < 4 * |ram|
    ensures ByteAtAddress(StoreByte(ram, f, lin, b), a)
        == if a == 0x1000 * f + lin % 0x1000 then b else ByteAtAddress(ram, a)
  {
    FrameInside(ram, f, lin);
    AddressOf(f, lin);
    var i := WordAt(f, lin);
    if a / 4 == i { OneByteReplaced(ram[i], lin % 4, b, a % 4); }
    assert a == 4 * (a / 4) + a % 4;
  }

  /** Frames that a program reads directly are those whose words the walk reads directly. */
  lemma FrameIsRam(ram: seq<Word>, f: int, i: int)
    requires |ram| % 1024 == 0 && 0 <= i < 1024 && 0 <= f * 1024 && f * 1024 + i < WORDS
    ensures Readable(ram, f) <==> InRam(ram, f * 1024 + i)
  {
  }

  /** A byte access that faults leaves its address in CR2, if it is a page fault, and changes nothing else. */
  lemma FaultsReportAddress(m: Machine, io: Device, lin: Address, user: bool, b: Byte, hasCode: bool, drop: bool)
    requires Shaped(m.tlb)
    ensures forall r | r in [Read8(m, io, lin, user, hasCode), Write8(m, io, lin, user, b, hasCode, drop)] ::
              r.1.Fault? ==> r.0 == if r.1.why.PageFault? then m.(cr2 := lin) else m
  {
  }
}
