/**
 The page walk of src/cpu/mmu.cpp as a function of guest memory and of the paging controls,
 and the Accessed and Dirty marks that a successful walk leaves in the memory it has just walked.

 Guest memory is a sequence of 32-bit words. Addresses of table entries are word indices, since entries are
 always aligned, and linear addresses are page numbers, since a walk reads nothing below bit 12.
 */
module Paging {
  import opened Words

  const WORDS := 0x4000_0000

  /** What a register outside RAM answers when a walk reads it. */
  type Device = int -> Word

  /** The index of a 32-bit word in the physical address space. */
  type WordIndex = i: int | 0 <= i < WORDS

  /** CR3 in 32-byte units: every load of CR3 clears its low five bits. */
  type TableBase = t: int | 0 <= t < 0x800_0000

  /** The control bits a walk depends on. */
  datatype Controls = Controls(pg: bool, wp: bool, pse: bool, pae: bool, nxe: bool, a20: bool, cr3: TableBase)

  /** The purpose of an access: two of the four permission classes' bits, in (user, write) order. */
  datatype Class = Class(user: bool, write: bool) {
    predicate AtMost(that: Class) {
      (user ==> that.user) && (write ==> that.write)
    }
  }

  /** The entries a successful walk went through: the ones it will mark. */
  datatype Trail = Direct | LargePage(dir: WordIndex) | SmallPage(dir: WordIndex, leaf: WordIndex)

  datatype Outcome =
    | Mapped(frame: Page, global: bool, nx: bool, trail: Trail)
    | PageFault(code: FaultCode)
    | ProtectionFault

  /** What a walk reads of a table entry, or of the lower half of one. */
  datatype Entry = Entry(present: bool, writable: bool, user: bool, large: bool, global: bool, frame: Page)

  function Decode(w: Word): Entry {
    Entry(w.n0.b0, w.n0.b1, w.n0.b2, w.n1.b3, w.n2.b0, w.frame)
  }

  /** The word with its Accessed mark (bit 5), and its Dirty mark (bit 6) if asked, set. */
  function WithMarks(w: Word, dirty: bool): Word {
    w.(n1 := w.n1.(b1 := true, b2 := w.n1.b2 || dirty))
  }

  /** RAM, as opposed to the VGA window and everything above the end of memory. */
  predicate InRam(ram: seq<Word>, i: WordIndex) {
    i < |ram| && !(0xA0000 / 4 <= i < 0xC0000 / 4)
  }

  function ReadPhys(ram: seq<Word>, io: Device, i: WordIndex): Word {
    if InRam(ram, i) then ram[i] else io(4 * i)
  }

  function ReadEntry(ram: seq<Word>, io: Device, i: WordIndex): Entry {
    Decode(ReadPhys(ram, io, i))
  }

  /** The error code bits known before the walk: W/R, U/S and, with NX enabled, I/D. */
  datatype FaultCode = FaultCode(protection: bool, write: bool, user: bool, fetch: bool)

  /** Whether entries with these two permissions let an access of class c through. */
  predicate Permits(writable: bool, user: bool, ctl: Controls, c: Class) {
    && (c.write && !writable ==> !c.user && !ctl.wp)
    && (c.user ==> user)
  }

  /** The entry's index wraps with the address space, which only an unaligned directory near its end can reach. */
  function DirIndex(ctl: Controls, page: Page): WordIndex {
    (ctl.cr3 * 8 + page / 1024) % WORDS
  }

  function LeafIndex(pde: Entry, page: Page): WordIndex {
    pde.frame * 1024 + page % 1024
  }

  /** The first word of the n-th 64-bit entry. */
  function EntryWord(n: int): (i: int)
    ensures i == 2 * n && i % 2 == 0
  {
    2 * n
  }

  function PointerIndex(ctl: Controls, page: Page): (i: WordIndex)
    ensures i % 2 == 0 && i + 1 < WORDS
  {
    EntryWord(ctl.cr3 * 4 + page / 0x40000)
  }

  function PaeDirIndex(pdpte: Entry, page: Page): (i: WordIndex)
    ensures i % 2 == 0 && i + 1 < WORDS
  {
    EntryWord(pdpte.frame * 512 + page / 512 % 512)
  }

  function PaeLeafIndex(pde: Entry, page: Page): (i: WordIndex)
    ensures i % 2 == 0
  {
    EntryWord(pde.frame * 512 + page % 512)
  }

  /** The 4 KB frame that serves `page` within the large page of `span` frames named by `pde`. */
  function InLargePage(pde: Entry, page: Page, span: int): Page
    requires span == 512 || span == 1024
  {
    pde.frame / span * span + page % span
  }

  /** A reserved bit is set in the upper half of an entry; bit 31 is reserved unless it may mean no-execute. */
  predicate ReservedHigh(high: Word, nxe: bool) {
    || high.n1 != Nibble(false, false, false, false)
    || high.n2 != Nibble(false, false, false, false)
    || high.frame != (if nxe && NoExecute(high) then 0x80000 else 0)
  }

  predicate NoExecute(high: Word) {
    high.frame >= 0x80000
  }

  /** Two-level tables: what their two entries answer. */
  function Answer32(ctl: Controls, page: Page, c: Class, dir: WordIndex, pde: Entry, leaf: WordIndex,
                    pte: Entry): Outcome {
    if !pde.present then
      PageFault(FaultCode(false, c.write, c.user, false))
    else if pde.large && ctl.pse then
      // this path tests no permission bit
      Mapped(InLargePage(pde, page, 1024), pde.global, false, LargePage(dir))
    else if !pte.present then
      PageFault(FaultCode(false, c.write, c.user, false))
    else if !Permits(pde.writable && pte.writable, pde.user && pte.user, ctl, c) then
      PageFault(FaultCode(true, c.write, c.user, false))
    else
      Mapped(pte.frame, pte.global, false, SmallPage(dir, leaf))
  }

  function Walk32(ram: seq<Word>, io: Device, ctl: Controls, page: Page, c: Class): Outcome {
    var dir := DirIndex(ctl, page);
    var pde := ReadEntry(ram, io, dir);
    var leaf := LeafIndex(pde, page);
    Answer32(ctl, page, c, dir, pde, leaf, ReadEntry(ram, io, leaf))
  }

  /** Three-level tables of 64-bit entries, of which only the lower word holds permissions and marks. */
  function AnswerPae(ctl: Controls, page: Page, c: Class, fetch: bool, pdpte: Entry, pdpteHigh: Word,
                     dir: WordIndex, pde: Entry, pdeHigh: Word, leaf: WordIndex, pte: Entry): Outcome
  {
    if !pdpte.present then
      PageFault(FaultCode(false, c.write, c.user, false))
    else if ReservedHigh(pdpteHigh, false) then
      ProtectionFault
    else
      AnswerLowerPae(ctl, page, c, fetch && ctl.nxe, dir, pde, pdeHigh, leaf, pte)
  }

  function AnswerLowerPae(ctl: Controls, page: Page, c: Class, fetch: bool,
                          dir: WordIndex, pde: Entry, pdeHigh: Word, leaf: WordIndex, pte: Entry): Outcome
  {
    var nx := ctl.nxe && NoExecute(pdeHigh);
    if ReservedHigh(pdeHigh, ctl.nxe) then
      ProtectionFault
    else if !pde.present then
      PageFault(FaultCode(false, c.write, c.user, fetch))
    else if !Permits(pde.writable, pde.user, ctl, c) then
      PageFault(FaultCode(true, c.write, c.user, fetch))
    else if pde.large then
      Mapped(InLargePage(pde, page, 512), pde.global, nx, LargePage(dir))
    else if !pte.present then
      PageFault(FaultCode(false, c.write, c.user, fetch))
    else if !Permits(pte.writable, pte.user, ctl, c) then
      PageFault(FaultCode(true, c.write, c.user, fetch))
    else
      Mapped(pte.frame, pte.global, nx, SmallPage(dir, leaf))
  }

  function WalkPae(ram: seq<Word>, io: Device, ctl: Controls, page: Page, c: Class, fetch: bool): Outcome {
    var pointer := PointerIndex(ctl, page);
    var pdpte := ReadEntry(ram, io, pointer);
    var dir := PaeDirIndex(pdpte, page);
    var pde := ReadEntry(ram, io, dir);
    var leaf := PaeLeafIndex(pde, page);
    AnswerPae(ctl, page, c, fetch, pdpte, ReadPhys(ram, io, pointer + 1),
              dir, pde, ReadPhys(ram, io, dir + 1), leaf, ReadEntry(ram, io, leaf))
  }

  /** What a fresh walk of the tables in `ram` answers. */
  function Walk(ram: seq<Word>, io: Device, ctl: Controls, page: Page, c: Class, fetch: bool): Outcome {
    if !ctl.pg then Mapped(page, false, false, Direct)
    else if !ctl.pae then Walk32(ram, io, ctl, page, c)
    else WalkPae(ram, io, ctl, page, c, fetch)
  }

  /** A write of marks to a device register changes no RAM. */
  function Mark(ram: seq<Word>, i: WordIndex, dirty: bool): (r: seq<Word>)
    ensures |r| == |ram|
  {
    if InRam(ram, i) then ram[i := WithMarks(ram[i], dirty)] else ram
  }

  /** The memory a successful walk leaves behind. */
  function Marked(ram: seq<Word>, trail: Trail, write: bool): (r: seq<Word>)
    ensures |r| == |ram|
  {
    match trail
    case Direct => ram
    case LargePage(dir) => Mark(ram, dir, write)
    case SmallPage(dir, leaf) => Mark(Mark(ram, dir, false), leaf, write)
  }

  // ---------- What a walk depends on ----------

  /** Word i tells a walk the same in both memories. With PAE the odd words are upper halves, and must be equal. */
  predicate WordAgrees(ram: seq<Word>, ram': seq<Word>, pae: bool, i: nat)
    requires |ram| == |ram'|
  {
    i < |ram| ==>
      && Decode(ram[i]) == Decode(ram'[i])
      && (pae && i % 2 == 1 ==> ram[i] == ram'[i])
  }

  predicate MarksKept(v: Word, w: Word) {
    (v.n1.b1 ==> w.n1.b1) && (v.n1.b2 ==> w.n1.b2)
  }

  /** The second memory is the first with more marks in its entries. */
  predicate OnlyMarked(ram: seq<Word>, ram': seq<Word>, pae: bool) {
    && |ram| == |ram'|
    && forall i: nat | i < |ram| :: WordAgrees(ram, ram', pae, i) && MarksKept(ram[i], ram'[i])
  }

  /** The words that a walk for `page` reads unless it lacks a permission: none behind an entry that is not present or
      that maps a large page. */
  function Footprint(ram: seq<Word>, io: Device, ctl: Controls, page: Page): set<int> {
    if !ctl.pg then {} else if !ctl.pae then Footprint32(ram, io, ctl, page) else FootprintPae(ram, io, ctl, page)
  }

  function Footprint32(ram: seq<Word>, io: Device, ctl: Controls, page: Page): set<int> {
    var dir := DirIndex(ctl, page);
    var pde := ReadEntry(ram, io, dir);
    if !pde.present || (pde.large && ctl.pse) then {dir} else {dir, LeafIndex(pde, page)}
  }

  function FootprintPae(ram: seq<Word>, io: Device, ctl: Controls, page: Page): set<int> {
    var pointer := PointerIndex(ctl, page);
    var pdpte := ReadEntry(ram, io, pointer);
    if !pdpte.present then {pointer}
    else {pointer, pointer + 1} + LowerFootprint(ram, io, page, PaeDirIndex(pdpte, page))
  }

  /** What is read of a page directory, and behind it. */
  function LowerFootprint(ram: seq<Word>, io: Device, page: Page, dir: WordIndex): set<int> {
    var pde := ReadEntry(ram, io, dir);
    if !pde.present || pde.large then {dir, dir + 1} else {dir, dir + 1, PaeLeafIndex(pde, page)}
  }

  lemma ReadAgrees(ram: seq<Word>, ram': seq<Word>, io: Device, pae: bool, i: WordIndex)
    requires |ram| == |ram'| && WordAgrees(ram, ram', pae, i)
    ensures ReadEntry(ram', io, i) == ReadEntry(ram, io, i)
    ensures pae && i % 2 == 1 ==> ReadPhys(ram', io, i) == ReadPhys(ram, io, i)
  {
  }

  /** A walk answers the same in two memories that agree on the words it reads. */
  lemma WalkDependsOnFootprint(ram: seq<Word>, ram': seq<Word>, io: Device, ctl: Controls, page: Page, c: Class,
                               fetch: bool)
    requires |ram| == |ram'|
    requires forall i: nat | i in Footprint(ram, io, ctl, page) :: WordAgrees(ram, ram', ctl.pae, i)
    ensures Walk(ram', io, ctl, page, c, fetch) == Walk(ram, io, ctl, page, c, fetch)
  {
    if ctl.pg && !ctl.pae {
      Walk32DependsOnFootprint(ram, ram', io, ctl, page, c);
    } else if ctl.pg {
      WalkPaeDependsOnFootprint(ram, ram', io, ctl, page, c, fetch);
    }
  }

  lemma Walk32DependsOnFootprint(ram: seq<Word>, ram': seq<Word>, io: Device, ctl: Controls, page: Page, c: Class)
    requires |ram| == |ram'| && ctl.pg && !ctl.pae
    requires forall i: nat | i in Footprint32(ram, io, ctl, page) :: WordAgrees(ram, ram', false, i)
    ensures Walk32(ram', io, ctl, page, c) == Walk32(ram, io, ctl, page, c)
  {
    var dir := DirIndex(ctl, page);
    var pde := ReadEntry(ram, io, dir);
    ReadAgrees(ram, ram', io, false, dir);
    if pde.present && !(pde.large && ctl.pse) { ReadAgrees(ram, ram', io, false, LeafIndex(pde, page)); }
  }

  /** What a walk makes of a page directory. */
  function LowerWalk(ram: seq<Word>, io: Device, ctl: Controls, page: Page, c: Class, fetch: bool,
                     dir: WordIndex): Outcome
    requires dir + 1 < WORDS
  {
    var pde := ReadEntry(ram, io, dir);
    var leaf := PaeLeafIndex(pde, page);
    AnswerLowerPae(ctl, page, c, fetch, dir, pde, ReadPhys(ram, io, dir + 1), leaf, ReadEntry(ram, io, leaf))
  }

  lemma LowerWalkDependsOnFootprint(ram: seq<Word>, ram': seq<Word>, io: Device, ctl: Controls, page: Page, c: Class,
                                    fetch: bool, dir: WordIndex)
    requires |ram| == |ram'| && dir % 2 == 0 && dir + 1 < WORDS
    requires forall i: nat | i in LowerFootprint(ram, io, page, dir) :: WordAgrees(ram, ram', true, i)
    ensures LowerWalk(ram', io, ctl, page, c, fetch, dir) == LowerWalk(ram, io, ctl, page, c, fetch, dir)
  {
    var pde := ReadEntry(ram, io, dir);
    EntryAgrees(ram, ram', io, dir);
    if pde.present && !pde.large { ReadAgrees(ram, ram', io, true, PaeLeafIndex(pde, page)); }
  }

  lemma WalkPaeInSteps(ram: seq<Word>, io: Device, ctl: Controls, page: Page, c: Class, fetch: bool)
    ensures var pointer := PointerIndex(ctl, page);
            var pdpte := ReadEntry(ram, io, pointer);
            WalkPae(ram, io, ctl, page, c, fetch) ==
              if !pdpte.present then PageFault(FaultCode(false, c.write, c.user, false))
              else if ReservedHigh(ReadPhys(ram, io, pointer + 1), false) then ProtectionFault
              else LowerWalk(ram, io, ctl, page, c, fetch && ctl.nxe, PaeDirIndex(pdpte, page))
  {
  }

  lemma WalkPaeDependsOnFootprint(ram: seq<Word>, ram': seq<Word>, io: Device, ctl: Controls, page: Page, c: Class,
                                  fetch: bool)
    requires |ram| == |ram'| && ctl.pg && ctl.pae
    requires forall i: nat | i in FootprintPae(ram, io, ctl, page) :: WordAgrees(ram, ram', true, i)
    ensures WalkPae(ram', io, ctl, page, c, fetch) == WalkPae(ram, io, ctl, page, c, fetch)
  {
    var pointer := PointerIndex(ctl, page);
    var pdpte := ReadEntry(ram, io, pointer);
    WalkPaeInSteps(ram, io, ctl, page, c, fetch);
    WalkPaeInSteps(ram', io, ctl, page, c, fetch);
    assert pointer in FootprintPae(ram, io, ctl, page);
    ReadAgrees(ram, ram', io, true, pointer);
    if pdpte.present {
      assert pointer + 1 in FootprintPae(ram, io, ctl, page);
      EntryAgrees(ram, ram', io, pointer);
      LowerWalkDependsOnFootprint(ram, ram', io, ctl, page, c, fetch && ctl.nxe, PaeDirIndex(pdpte, page));
    }
  }

  /** Memories that agree on the words of a footprint have the same one. */
  lemma FootprintDependsOnItself(ram: seq<Word>, ram': seq<Word>, io: Device, ctl: Controls, page: Page)
    requires |ram| == |ram'|
    requires forall i: nat | i in Footprint(ram, io, ctl, page) :: WordAgrees(ram, ram', ctl.pae, i)
    ensures Footprint(ram', io, ctl, page) == Footprint(ram, io, ctl, page)
  {
    if ctl.pg && !ctl.pae {
      ReadAgrees(ram, ram', io, false, DirIndex(ctl, page));
    } else if ctl.pg {
      var pointer := PointerIndex(ctl, page);
      assert pointer in FootprintPae(ram, io, ctl, page);
      ReadAgrees(ram, ram', io, true, pointer);
      var pdpte := ReadEntry(ram, io, pointer);
      if pdpte.present {
        assert PaeDirIndex(pdpte, page) in FootprintPae(ram, io, ctl, page);
        ReadAgrees(ram, ram', io, true, PaeDirIndex(pdpte, page));
      }
    }
  }

  /** Both halves of an 8-byte entry. */
  lemma EntryAgrees(ram: seq<Word>, ram': seq<Word>, io: Device, i: WordIndex)
    requires |ram| == |ram'| && i % 2 == 0 && i + 1 < WORDS
    requires WordAgrees(ram, ram', true, i) && WordAgrees(ram, ram', true, i + 1)
    ensures ReadEntry(ram', io, i) == ReadEntry(ram, io, i)
    ensures ReadPhys(ram', io, i + 1) == ReadPhys(ram, io, i + 1)
  {
    ReadAgrees(ram, ram', io, true, i);
    ReadAgrees(ram, ram', io, true, i + 1);
  }

  // ---------- What marking changes ----------

  /** Under PAE a walk only marks even words: the low halves of entries. */
  predicate TrailFits(trail: Trail, pae: bool) {
    match trail
    case Direct => true
    case LargePage(dir) => pae ==> dir % 2 == 0
    case SmallPage(dir, leaf) => pae ==> dir % 2 == 0 && leaf % 2 == 0
  }

  lemma WalkTrailFits(ram: seq<Word>, io: Device, ctl: Controls, page: Page, c: Class, fetch: bool)
    requires Walk(ram, io, ctl, page, c, fetch).Mapped?
    ensures TrailFits(Walk(ram, io, ctl, page, c, fetch).trail, ctl.pae)
  {
    if ctl.pg && ctl.pae {
      var pdpte := ReadEntry(ram, io, PointerIndex(ctl, page));
      var dir := PaeDirIndex(pdpte, page);
      var leaf := PaeLeafIndex(ReadEntry(ram, io, dir), page);
      assert Walk(ram, io, ctl, page, c, fetch).trail in {LargePage(dir), SmallPage(dir, leaf)};
    }
  }

  lemma MarkOnlyMarks(ram: seq<Word>, i: WordIndex, dirty: bool, pae: bool)
    requires pae ==> i % 2 == 0
    ensures OnlyMarked(ram, Mark(ram, i, dirty), pae)
  {
  }

  lemma OnlyMarkedTransitive(a: seq<Word>, b: seq<Word>, c: seq<Word>, pae: bool)
    requires OnlyMarked(a, b, pae) && OnlyMarked(b, c, pae)
    ensures OnlyMarked(a, c, pae)
  {
    forall i: nat | i < |a|
      ensures WordAgrees(a, c, pae, i) && MarksKept(a[i], c[i])
    {
      assert WordAgrees(a, b, pae, i) && WordAgrees(b, c, pae, i);
    }
  }

  lemma MarkedOnlyMarks(ram: seq<Word>, trail: Trail, write: bool, pae: bool)
    requires TrailFits(trail, pae)
    ensures OnlyMarked(ram, Marked(ram, trail, write), pae)
  {
    match trail
    case Direct =>
    case LargePage(dir) => MarkOnlyMarks(ram, dir, write, pae);
    case SmallPage(dir, leaf) =>
      var mid := Mark(ram, dir, false);
      MarkOnlyMarks(ram, dir, false, pae);
      MarkOnlyMarks(mid, leaf, write, pae);
      OnlyMarkedTransitive(ram, mid, Mark(mid, leaf, write), pae);
  }

  /** The marks of one translation change no walk: not of its own page, nor of any other, for any class of access,
      even when the tables map themselves. */
  lemma MarksChangeNoWalk(ram: seq<Word>, io: Device, ctl: Controls, page: Page, c: Class, fetch: bool,
                          page2: Page, c2: Class, fetch2: bool)
    requires Walk(ram, io, ctl, page, c, fetch).Mapped?
    ensures var marked := Marked(ram, Walk(ram, io, ctl, page, c, fetch).trail, c.write);
            Walk(marked, io, ctl, page2, c2, fetch2) == Walk(ram, io, ctl, page2, c2, fetch2)
  {
    var trail := Walk(ram, io, ctl, page, c, fetch).trail;
    WalkTrailFits(ram, io, ctl, page, c, fetch);
    MarkedOnlyMarks(ram, trail, c.write, ctl.pae);
    WalkDependsOnFootprint(ram, Marked(ram, trail, c.write), io, ctl, page2, c2, fetch2);
  }

  /** Both of a word's marks, or only its Accessed mark, are set. */
  predicate HasMarks(w: Word, dirty: bool) {
    w.n1.b1 && (dirty ==> w.n1.b2)
  }

  lemma MarkNothing(ram: seq<Word>, i: WordIndex, dirty: bool)
    ensures Mark(ram, i, dirty) == ram <==> (InRam(ram, i) ==> HasMarks(ram[i], dirty))
  {
    if InRam(ram, i) {
      assert HasMarks(ram[i], dirty) ==> WithMarks(ram[i], dirty) == ram[i];
      assert Mark(ram, i, dirty)[i] == WithMarks(ram[i], dirty);
    }
  }

  /** The marks of a trail are all there: walking it again would write nothing. */
  predicate AllMarked(ram: seq<Word>, trail: Trail, write: bool) {
    match trail
    case Direct => true
    case LargePage(dir) => InRam(ram, dir) ==> HasMarks(ram[dir], write)
    case SmallPage(dir, leaf) =>
      (InRam(ram, dir) ==> HasMarks(ram[dir], false)) && (InRam(ram, leaf) ==> HasMarks(ram[leaf], write))
  }

  lemma AllMarkedStays(ram: seq<Word>, trail: Trail, write: bool)
    requires AllMarked(ram, trail, write)
    ensures Marked(ram, trail, write) == ram
  {
    match trail
    case Direct =>
    case LargePage(dir) => MarkNothing(ram, dir, write);
    case SmallPage(dir, leaf) => MarkNothing(ram, dir, false); MarkNothing(ram, leaf, write);
  }

  lemma MarkedAllMarked(ram: seq<Word>, trail: Trail, write: bool)
    ensures AllMarked(Marked(ram, trail, write), trail, write)
  {
  }

  /** Marking twice is marking once. */
  lemma MarkedTwice(ram: seq<Word>, trail: Trail, write: bool)
    ensures Marked(Marked(ram, trail, write), trail, write) == Marked(ram, trail, write)
  {
    MarkedAllMarked(ram, trail, write);
    AllMarkedStays(Marked(ram, trail, write), trail, write);
  }

  /** A walk that succeeds for one class succeeds, with the same answer, for every smaller class and for data and code
      alike. */
  lemma WalkMonotone(ram: seq<Word>, io: Device, ctl: Controls, page: Page, c: Class, fetch: bool, c2: Class,
                     fetch2: bool)
    requires Walk(ram, io, ctl, page, c, fetch).Mapped? && c2.AtMost(c)
    ensures Walk(ram, io, ctl, page, c2, fetch2) == Walk(ram, io, ctl, page, c, fetch)
  {
  }

  // ---------- What a walk answers ----------

  /** The word at a byte address; addresses wrap at 4 GB. */
  function WordOf(ram: seq<Word>, io: Device, a: int): Word {
    ReadPhys(ram, io, a / 4 % WORDS)
  }

  /** Two-level tables. The directory is at CR3; an access succeeds exactly if both entries are present, both are user
      entries for a user access, and both are writable for a write, which a supervisor may make to any page while CR0.WP
      is clear. A 4 MB page only has to be present. */
  lemma TwoLevelWalk(ram: seq<Word>, io: Device, ctl: Controls, page: Page, c: Class, fetch: bool)
    requires ctl.pg && !ctl.pae
    ensures var dir := 0x20 * ctl.cr3 + 4 * (page / 0x400);
            var pde := WordOf(ram, io, dir);
            var leaf := 0x1000 * pde.frame + 4 * (page % 0x400);
            var pte := WordOf(ram, io, leaf);
            var large := pde.n1.b3 && ctl.pse;
            var o := Walk(ram, io, ctl, page, c, fetch);
            && !o.ProtectionFault?
            && (o.Mapped? <==>
                  pde.n0.b0 && (large ||
                    (&& pte.n0.b0
                     && (c.user ==> pde.n0.b2 && pte.n0.b2)
                     && (c.write ==> (pde.n0.b1 && pte.n0.b1) || (!c.user && !ctl.wp)))))
            && (o.Mapped? && large ==>
                  && o.frame / 0x400 == pde.frame / 0x400 && o.frame % 0x400 == page % 0x400
                  && o.global == pde.n2.b0 && o.trail == LargePage(dir / 4 % WORDS))
            && (o.Mapped? && !large ==>
                  && o.frame == pte.frame && o.global == pte.n2.b0
                  && o.trail == SmallPage(dir / 4 % WORDS, leaf / 4 % WORDS))
            && (o.Mapped? ==> !o.nx)
            && (o.PageFault? ==> o.code == FaultCode(pde.n0.b0 && pte.n0.b0, c.write, c.user, false))
  {
    var dir := 0x20 * ctl.cr3 + 4 * (page / 0x400);
    assert dir / 4 % WORDS == DirIndex(ctl, page);
    var pde := WordOf(ram, io, dir);
    assert (0x1000 * pde.frame + 4 * (page % 0x400)) / 4 % WORDS == LeafIndex(Decode(pde), page);
  }

  lemma UpperHalf(n: int, low: int, frame: int)
    requires n == low + 0x1000 * frame && 0 <= low < 0x1000 && 0 <= frame < 0x100000
    ensures n >= 0x8000_0000 <==> frame >= 0x80000
    ensures n % 0x8000_0000 == low + 0x1000 * (if frame >= 0x80000 then frame - 0x80000 else frame)
  {
  }

  /** The bits that must be clear in the upper half of an entry: 4 to 30, and 31 unless NX is enabled. */
  lemma ReservedBits(high: Word, nxe: bool)
    ensures var n := Number(high);
            && (ReservedHigh(high, nxe) <==> n % 0x8000_0000 >= 0x10 || (n >= 0x8000_0000 && !nxe))
            && (NoExecute(high) <==> n >= 0x8000_0000)
  {
    var low := Value(high.n0) + 0x10 * Value(high.n1) + 0x100 * Value(high.n2);
    UpperHalf(Number(high), low, high.frame);
    var zero := Nibble(false, false, false, false);
    assert low >= 0x10 <==> high.n1 != zero || high.n2 != zero;
  }

  /** What a walk has to answer, under PAE, behind a pointer entry, from the directory entry pde, the upper half `high`
      of it, and the table entry pte. It faults on a reserved bit; it succeeds exactly if the directory entry and,
      unless that maps a 2 MB page, the table entry are present and let the access through, each on its own. Only the
      directory entry's no-execute bit counts. */
  ghost predicate Answers(o: Outcome, ctl: Controls, page: Page, c: Class, fetch: bool, pde: Word, high: int, pte: Word,
                          dir: int, leaf: int) {
    var lets := (c.user ==> pde.n0.b2) && (c.write ==> pde.n0.b1 || (!c.user && !ctl.wp));
    var leafLets := (c.user ==> pte.n0.b2) && (c.write ==> pte.n0.b1 || (!c.user && !ctl.wp));
    && (o.ProtectionFault? <==> high % 0x8000_0000 >= 0x10 || (high >= 0x8000_0000 && !ctl.nxe))
    && (o.Mapped? <==> !o.ProtectionFault? && pde.n0.b0 && lets && (pde.n1.b3 || (pte.n0.b0 && leafLets)))
    && (o.Mapped? ==> o.nx == (high >= 0x8000_0000))
    && (o.Mapped? && pde.n1.b3 ==>
          && o.frame / 0x200 == pde.frame / 0x200 && o.frame % 0x200 == page % 0x200
          && o.global == pde.n2.b0 && o.trail == LargePage(dir / 4 % WORDS))
    && (o.Mapped? && !pde.n1.b3 ==>
          && o.frame == pte.frame && o.global == pte.n2.b0
          && o.trail == SmallPage(dir / 4 % WORDS, leaf / 4 % WORDS))
    && (o.PageFault? ==> o.code == FaultCode(pde.n0.b0 && (!lets || pte.n0.b0), c.write, c.user, fetch))
  }

  lemma LargeFrame(pde: Entry, page: Page, span: int)
    requires span == 0x200 || span == 0x400
    ensures var f := InLargePage(pde, page, span); f / span == pde.frame / span && f % span == page % span
  {
  }

  lemma AnswerLowerAnswers(ctl: Controls, page: Page, c: Class, fetch: bool, pde: Word, high: Word, pte: Word,
                           dir: int, leaf: int)
    ensures var o := AnswerLowerPae(ctl, page, c, fetch, dir / 4 % WORDS, Decode(pde), high, leaf / 4 % WORDS,
                                    Decode(pte));
            Answers(o, ctl, page, c, fetch, pde, Number(high), pte, dir, leaf)
  {
    ReservedBits(high, ctl.nxe);
    LargeFrame(Decode(pde), page, 0x200);
  }

  /** The words behind a pointer entry: a directory of 8-byte entries, and the table that the entry at dir names. */
  ghost predicate DirectoryAnswers(o: Outcome, ram: seq<Word>, io: Device, ctl: Controls, page: Page, c: Class,
                                   fetch: bool, dir: int) {
    var pde := WordOf(ram, io, dir);
    var leaf := 0x1000 * pde.frame + 8 * (page % 0x200);
    Answers(o, ctl, page, c, fetch, pde, Number(WordOf(ram, io, dir + 4)), WordOf(ram, io, leaf), dir, leaf)
  }

  lemma DirectoryPlaces(pdpte: Entry, pde: Entry, page: Page)
    ensures var dir := 0x1000 * pdpte.frame + 8 * (page / 0x200 % 0x200);
            dir / 4 % WORDS == PaeDirIndex(pdpte, page) && (dir + 4) / 4 % WORDS == PaeDirIndex(pdpte, page) + 1
    ensures (0x1000 * pde.frame + 8 * (page % 0x200)) / 4 % WORDS == PaeLeafIndex(pde, page)
  {
  }

  lemma LowerLevels(ram: seq<Word>, io: Device, ctl: Controls, page: Page, c: Class, fetch: bool, pdpte: Entry)
    ensures DirectoryAnswers(LowerWalk(ram, io, ctl, page, c, fetch, PaeDirIndex(pdpte, page)), ram, io, ctl, page, c,
                             fetch, 0x1000 * pdpte.frame + 8 * (page / 0x200 % 0x200))
  {
    var dir := 0x1000 * pdpte.frame + 8 * (page / 0x200 % 0x200);
    var pde := WordOf(ram, io, dir);
    var leaf := 0x1000 * pde.frame + 8 * (page % 0x200);
    DirectoryPlaces(pdpte, Decode(pde), page);
    AnswerLowerAnswers(ctl, page, c, fetch, pde, WordOf(ram, io, dir + 4), WordOf(ram, io, leaf), dir, leaf);
  }

  lemma PointerPlaces(ctl: Controls, page: Page)
    ensures var pointer := 0x20 * ctl.cr3 + 8 * (page / 0x4_0000);
            pointer / 4 % WORDS == PointerIndex(ctl, page) && (pointer + 4) / 4 % WORDS == PointerIndex(ctl, page) + 1
  {
  }

  /** Three-level tables of 64-bit entries. The pointer entry has no permissions, and no bit above bit 35. */
  lemma ThreeLevelWalk(ram: seq<Word>, io: Device, ctl: Controls, page: Page, c: Class, fetch: bool)
    requires ctl.pg && ctl.pae
    ensures var pointer := 0x20 * ctl.cr3 + 8 * (page / 0x4_0000);
            var pdpte := WordOf(ram, io, pointer);
            var o := Walk(ram, io, ctl, page, c, fetch);
            if !pdpte.n0.b0 then o == PageFault(FaultCode(false, c.write, c.user, false))
            else if Number(WordOf(ram, io, pointer + 4)) >= 0x10 then o == ProtectionFault
            else DirectoryAnswers(o, ram, io, ctl, page, c, fetch && ctl.nxe,
                                  0x1000 * pdpte.frame + 8 * (page / 0x200 % 0x200))
  {
    PointerPlaces(ctl, page);
    PointerReserved(ReadPhys(ram, io, PointerIndex(ctl, page) + 1));
    WalkPaeInSteps(ram, io, ctl, page, c, fetch);
    LowerLevels(ram, io, ctl, page, c, fetch && ctl.nxe, ReadEntry(ram, io, PointerIndex(ctl, page)));
  }

  lemma PointerReserved(high: Word)
    ensures ReservedHigh(high, false) <==> Number(high) >= 0x10
  {
    ReservedBits(high, false);
  }

  /** Without paging every page is itself. */
  lemma NoPaging(ram: seq<Word>, io: Device, ctl: Controls, page: Page, c: Class, fetch: bool)
    requires !ctl.pg
    ensures Walk(ram, io, ctl, page, c, fetch) == Mapped(page, false, false, Direct)
  {
  }

  /** The entries of a trail, and the last of them. */
  function Entries(trail: Trail): set<int> {
    match trail
    case Direct => {}
    case LargePage(dir) => {dir}
    case SmallPage(dir, leaf) => {dir, leaf}
  }

  function Last(trail: Trail): int {
    match trail
    case Direct => -1
    case LargePage(dir) => dir
    case SmallPage(_, leaf) => leaf
  }

  /** A successful walk sets the Accessed bit of the entries that it went through, if they are in RAM, the Dirty bit of
      the last of them if it is one for a write, and nothing else. */
  lemma MarksExactly(ram: seq<Word>, trail: Trail, write: bool, i: WordIndex)
    requires i < |ram|
    ensures var was, now := ram[i], Marked(ram, trail, write)[i];
            && now == was.(n1 := now.n1) && now.n1.b0 == was.n1.b0 && now.n1.b3 == was.n1.b3
            && (now.n1.b1 <==> was.n1.b1 || (InRam(ram, i) && i in Entries(trail)))
            && (now.n1.b2 <==> was.n1.b2 || (InRam(ram, i) && i == Last(trail) && write))
  {
    var w := ram[i];
    assert w == Word(w.n0, w.n1, w.n2, w.frame) && w.n1 == Nibble(w.n1.b0, w.n1.b1, w.n1.b2, w.n1.b3);
  }
}
