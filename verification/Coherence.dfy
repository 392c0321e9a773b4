/**
 The paging machine as a value, the events that reach it, and what holds after every run of them: each class of
 access that a TLB entry grants is one that a walk granted, with the same frame, when the entry was filled, and
 still would unless software has since edited a word of the tables which that walk read.
 */
module Coherence {
  import opened Words
  import opened Paging
  import opened TlbTables

  type Address = a: int | 0 <= a < 0x1_0000_0000

  datatype Machine = Machine(ram: seq<Word>, cr0: Word, cr2: Address, cr3: TableBase, cr4: Word, nxe: bool, a20: bool,
                             tlb: Tlb)

  /** Bits 0 (PE), 16 (WP) and 31 (PG). */
  function Cr0Bits(v: Word): (bool, bool, bool) {
    (v.n0.b0, v.frame / 16 % 2 == 1, v.frame >= 0x80000)
  }

  /** Bits 4 (PSE), 5 (PAE), 7 (PGE), 17 (PCIDE) and 20 (SMEP). */
  function Cr4Bits(v: Word): (bool, bool, bool, bool, bool) {
    (v.n1.b0, v.n1.b1, v.n1.b3, v.frame / 32 % 2 == 1, v.frame / 256 % 2 == 1)
  }

  function RegisterControls(cr0: Word, cr3: TableBase, cr4: Word, nxe: bool, a20: bool): Controls {
    Controls(Cr0Bits(cr0).2, Cr0Bits(cr0).1, Cr4Bits(cr4).0, Cr4Bits(cr4).1, nxe, a20, cr3)
  }

  function ControlsOf(m: Machine): Controls {
    RegisterControls(m.cr0, m.cr3, m.cr4, m.nxe, m.a20)
  }

  datatype Event =
    | Translate(lin: Address, cls: Class, fetch: bool, hasCode: bool)
    | Invalidate(lin: Address)
    | SetCr0(v: Word)
    | SetCr3(base: TableBase)
    | SetCr4(v: Word)
    | SetEfer(nxe: bool)
    | SetA20(enabled: bool)
    | SetCode(lin: Address)
    | Store(i: nat, w: Word)

  /** The class a fill grants: without paging, everything. */
  function FillClass(ctl: Controls, c: Class): Class {
    if ctl.pg then c else Class(true, true)
  }

  /** What a walk for class c that answers `walk` leaves behind. */
  function Concluded(m: Machine, lin: Address, c: Class, hasCode: bool, walk: Outcome): (r: Machine)
    requires Shaped(m.tlb)
    ensures Shaped(r.tlb) && |r.ram| == |m.ram|
  {
    match walk
    case Mapped(frame, global, nx, trail) =>
      m.(ram := Marked(m.ram, trail, c.write),
         tlb := Filled(m.tlb, lin / 4096, |m.ram| / 1024, MapFrame(m.a20, frame), c, global, nx, hasCode))
    case PageFault(_) => m.(cr2 := lin)
    case ProtectionFault => m
  }

  /** cpu_mmu_translate. */
  function Translated(m: Machine, io: Device, lin: Address, c: Class, fetch: bool, hasCode: bool)
      : (r: (Machine, Outcome))
    requires Shaped(m.tlb)
    ensures Shaped(r.0.tlb) && |r.0.ram| == |m.ram|
  {
    var ctl := ControlsOf(m);
    var walk := Walk(m.ram, io, ctl, lin / 4096, c, fetch);
    (Concluded(m, lin, FillClass(ctl, c), hasCode, walk), walk)
  }

  function Step(m: Machine, io: Device, e: Event): (r: Machine)
    requires Shaped(m.tlb)
    ensures Shaped(r.tlb) && |r.ram| == |m.ram|
  {
    match e
    case Translate(lin, c, fetch, hasCode) => Translated(m, io, lin, c, fetch, hasCode).0
    case Invalidate(lin) => m.(tlb := Invalidated(m.tlb, lin / 4096))
    case SetCr0(v) =>
      m.(cr0 := v, tlb := if Cr0Bits(v) != Cr0Bits(m.cr0) then Flushed(m.tlb) else m.tlb)
    case SetCr3(base) =>
      m.(cr3 := base, tlb := if Cr4Bits(m.cr4).2 then FlushedNonglobal(m.tlb) else Flushed(m.tlb))
    case SetCr4(v) =>
      m.(cr4 := v, tlb := if Cr4Bits(v) != Cr4Bits(m.cr4) then Flushed(m.tlb) else m.tlb)
    case SetEfer(nxe) => m.(nxe := nxe)
    case SetA20(enabled) =>
      m.(a20 := enabled, tlb := if enabled != m.a20 then Flushed(m.tlb) else m.tlb)
    case SetCode(lin) => m.(tlb := Slowed(m.tlb, lin / 4096))
    case Store(i, w) => if i < |m.ram| then m.(ram := m.ram[i := w]) else m
  }

  /** How an entry came to be: the memory and controls of its fill, the class asked for, and the words stored since. */
  datatype Fill = Fill(ram: seq<Word>, ctl: Controls, cls: Class, edited: set<int>)

  /** The machine with a history of its entries. The history is never consulted by a step. */
  datatype Traced = Traced(m: Machine, fills: seq<Fill>)

  predicate Sound(t: Traced) {
    Valid(t.m.tlb) && |t.fills| == PAGES
  }

  function TracedStep(t: Traced, io: Device, e: Event): (r: Traced)
    requires Shaped(t.m.tlb) && |t.fills| == PAGES
    ensures Shaped(r.m.tlb) && |r.fills| == PAGES && r.m == Step(t.m, io, e)
  {
    var m' := Step(t.m, io, e);
    match e
    case Translate(lin, c, fetch, _) =>
      if Walk(t.m.ram, io, ControlsOf(t.m), lin / 4096, c, fetch).Mapped? then
        Traced(m', t.fills[lin / 4096 := Fill(m'.ram, ControlsOf(t.m), FillClass(ControlsOf(t.m), c), {})])
      else
        Traced(m', t.fills)
    case Store(i, _) =>
      Traced(m', seq(PAGES, p requires 0 <= p < PAGES => t.fills[p].(edited := t.fills[p].edited + {i})))
    case _ => Traced(m', t.fills)
  }

  function Run(t: Traced, io: Device, es: seq<Event>): (r: Traced)
    requires Shaped(t.m.tlb) && |t.fills| == PAGES
    ensures Shaped(r.m.tlb) && |r.fills| == PAGES
    decreases |es|
  {
    if es == [] then t else Run(TracedStep(t, io, es[0]), io, es[1..])
  }

  // ---------- The invariant ----------

  /** Nothing an entry depends on has changed since its fill, except CR3 under a global entry, and EFER. */
  predicate SameControls(now: Controls, atFill: Controls, global: bool) {
    && now.(cr3 := atFill.cr3, nxe := atFill.nxe) == atFill
    && (!global ==> now.cr3 == atFill.cr3)
  }

  /** The tag grants exactly the classes at or below c. */
  predicate GrantsUpTo(tag: Tag, c: Class) {
    && !tag.sysRead.deny
    && tag.sysWrite.deny == !c.write
    && tag.userRead.deny == !c.user
    && tag.userWrite.deny == !(c.user && c.write)
  }

  /** A field without its slow bit lets accesses go straight to RAM, and may do so. */
  predicate FastFieldsReachRam(tag: Tag, frames: int, f: Page) {
    && (!tag.sysRead.slow || !tag.userRead.slow ==> !SlowRead(frames, f))
    && (!tag.sysWrite.slow || !tag.userWrite.slow ==> !SlowWrite(frames, f))
    && (tag.sysWrite.deny ==> tag.sysWrite.slow)
    && (tag.userRead.deny ==> tag.userRead.slow)
    && (tag.userWrite.deny ==> tag.userWrite.slow)
  }

  predicate WordsKept(f: Fill, ram: seq<Word>) {
    && |f.ram| == |ram|
    && forall i: nat | i < |ram| && i !in f.edited ::
         WordAgrees(f.ram, ram, f.ctl.pae, i) && MarksKept(f.ram[i], ram[i])
  }

  predicate EntryOk(ctl: Controls, frames: int, io: Device, p: Page, host: Host, tag: Tag, attr: Attr, f: Fill) {
    var walk := Walk(f.ram, io, f.ctl, p, f.cls, false);
    && walk.Mapped?
    && AllMarked(f.ram, walk.trail, f.cls.write)
    && SameControls(ctl, f.ctl, walk.global)
    && host == Bias(MapFrame(f.ctl.a20, walk.frame) - p)
    && attr == Attr(walk.nx, !walk.global)
    && GrantsUpTo(tag, f.cls)
    && FastFieldsReachRam(tag, frames, MapFrame(f.ctl.a20, walk.frame))
  }

  predicate PageOk(t: Traced, io: Device, p: Page)
    requires Shaped(t.m.tlb) && |t.fills| == PAGES
  {
    t.m.tlb.tags[p] == EMPTY_TAG ||
    (&& EntryOk(ControlsOf(t.m), |t.m.ram| / 1024, io, p, t.m.tlb.hosts[p], t.m.tlb.tags[p], t.m.tlb.attrs[p],
                t.fills[p])
     && WordsKept(t.fills[p], t.m.ram))
  }

  predicate Coherent(t: Traced, io: Device) {
    && Sound(t)
    && forall p: Page :: PageOk(t, io, p)
  }

  /** A page that a step leaves alone stays as good as it was. */
  lemma PageKept(t: Traced, t': Traced, io: Device, p: Page)
    requires Sound(t) && Shaped(t'.m.tlb) && |t'.fills| == PAGES && |t'.m.ram| == |t.m.ram|
    requires PageOk(t, io, p) && t'.fills[p] == t.fills[p]
    requires t'.m.tlb.tags[p] == EMPTY_TAG ||
             (&& t'.m.tlb.tags[p] == t.m.tlb.tags[p] && t'.m.tlb.hosts[p] == t.m.tlb.hosts[p]
              && t'.m.tlb.attrs[p] == t.m.tlb.attrs[p]
              && ControlsOf(t'.m) == ControlsOf(t.m) && OnlyMarked(t.m.ram, t'.m.ram, ControlsOf(t.m).pae))
    ensures PageOk(t', io, p)
  {
    if t'.m.tlb.tags[p] != EMPTY_TAG {
      var f := t.fills[p];
      forall i: nat | i < |t.m.ram| && i !in f.edited
        ensures WordAgrees(f.ram, t'.m.ram, f.ctl.pae, i) && MarksKept(f.ram[i], t'.m.ram[i])
      {
        assert WordAgrees(f.ram, t.m.ram, f.ctl.pae, i) && WordAgrees(t.m.ram, t'.m.ram, f.ctl.pae, i);
      }
    }
  }

  // ---------- Each step keeps it ----------

  lemma FlushCoherent(t: Traced, t': Traced, io: Device)
    requires Coherent(t, io) && |t'.fills| == PAGES
    requires t'.m.tlb == Flushed(t.m.tlb)
    ensures Coherent(t', io)
  {
    FlushedValid(t.m.tlb);
    FlushEmpties(t.m.tlb);
  }

  lemma NonglobalFlushCoherent(t: Traced, io: Device, base: TableBase)
    requires Coherent(t, io) && Cr4Bits(t.m.cr4).2
    ensures Coherent(TracedStep(t, io, SetCr3(base)), io)
  {
    var t' := TracedStep(t, io, SetCr3(base));
    ClearedValid(t.m.tlb, LocalPages(t.m.tlb));
    forall p: Page
      ensures PageOk(t', io, p)
    {
      NonglobalFlushKeepsGlobals(t.m.tlb, p);
      assert PageOk(t, io, p);
    }
  }

  lemma FillGrants(frames: int, f: Page, c: Class, hasCode: bool)
    ensures GrantsUpTo(FillTag(frames, f, c, hasCode), c)
    ensures FastFieldsReachRam(FillTag(frames, f, c, hasCode), frames, f)
    ensures FillTag(frames, f, c, hasCode) != EMPTY_TAG
  {
  }

  /** A walk for the class that a fill grants is the walk that led to the fill, in the memory it left behind. */
  lemma FillWalk(m: Machine, io: Device, p: Page, c: Class, fetch: bool)
    requires Walk(m.ram, io, ControlsOf(m), p, c, fetch).Mapped?
    ensures var ctl := ControlsOf(m);
            var walk := Walk(m.ram, io, ctl, p, c, fetch);
            Walk(Marked(m.ram, walk.trail, c.write), io, ctl, p, FillClass(ctl, c), false) == walk
  {
    var ctl := ControlsOf(m);
    MarksChangeNoWalk(m.ram, io, ctl, p, c, fetch, p, c, fetch);
    var walk := Walk(m.ram, io, ctl, p, c, fetch);
    if ctl.pg {
      WalkMonotone(Marked(m.ram, walk.trail, c.write), io, ctl, p, c, fetch, c, false);
    }
  }

  /** The entry of a fill. */
  lemma FilledEntryOk(io: Device, f: Fill, frames: int, p: Page, walk: Outcome, hasCode: bool)
    requires walk.Mapped? && walk == Walk(f.ram, io, f.ctl, p, f.cls, false)
    requires AllMarked(f.ram, walk.trail, f.cls.write)
    ensures var frame := MapFrame(f.ctl.a20, walk.frame);
            EntryOk(f.ctl, frames, io, p, Bias(frame - p), FillTag(frames, frame, f.cls, hasCode),
                    Attr(walk.nx, !walk.global), f)
  {
    FillGrants(frames, MapFrame(f.ctl.a20, walk.frame), f.cls, hasCode);
  }

  lemma FreshFillKept(f: Fill)
    ensures WordsKept(f, f.ram)
  {
  }

  lemma FillAllMarked(ram: seq<Word>, io: Device, ctl: Controls, p: Page, c: Class, fetch: bool)
    requires Walk(ram, io, ctl, p, c, fetch).Mapped?
    ensures var trail := Walk(ram, io, ctl, p, c, fetch).trail;
            AllMarked(Marked(ram, trail, c.write), trail, FillClass(ctl, c).write)
  {
    MarkedAllMarked(ram, Walk(ram, io, ctl, p, c, fetch).trail, c.write);
  }

  /** What a fill leaves behind, besides the slots of the TLB. */
  lemma FillResult(t: Traced, io: Device, lin: Address, c: Class, fetch: bool, hasCode: bool)
    requires Sound(t)
    requires Walk(t.m.ram, io, ControlsOf(t.m), lin / 4096, c, fetch).Mapped?
    ensures var ctl, p := ControlsOf(t.m), lin / 4096;
            var walk := Walk(t.m.ram, io, ctl, p, c, fetch);
            var t' := TracedStep(t, io, Translate(lin, c, fetch, hasCode));
            && ControlsOf(t'.m) == ctl && |t'.m.ram| == |t.m.ram|
            && t'.fills[p] == Fill(Marked(t.m.ram, walk.trail, c.write), ctl, FillClass(ctl, c), {})
            && t'.m.ram == t'.fills[p].ram
            && t'.m.tlb
               == Filled(t.m.tlb, p, |t.m.ram| / 1024, MapFrame(ctl.a20, walk.frame), FillClass(ctl, c), walk.global,
                                  walk.nx, hasCode)
  {
  }

  lemma FilledPageOk(t: Traced, io: Device, lin: Address, c: Class, fetch: bool, hasCode: bool)
    requires Sound(t)
    requires Walk(t.m.ram, io, ControlsOf(t.m), lin / 4096, c, fetch).Mapped?
    ensures PageOk(TracedStep(t, io, Translate(lin, c, fetch, hasCode)), io, lin / 4096)
  {
    var ctl, p := ControlsOf(t.m), lin / 4096;
    var walk := Walk(t.m.ram, io, ctl, p, c, fetch);
    var t' := TracedStep(t, io, Translate(lin, c, fetch, hasCode));
    FillResult(t, io, lin, c, fetch, hasCode);
    FreshFillKept(t'.fills[p]);
    FillWalk(t.m, io, p, c, fetch);
    FillAllMarked(t.m.ram, io, ctl, p, c, fetch);
    FilledEntryOk(io, t'.fills[p], |t.m.ram| / 1024, p, walk, hasCode);
    FilledSlots(t.m.tlb, p, |t.m.ram| / 1024, MapFrame(ctl.a20, walk.frame), FillClass(ctl, c), walk.global, walk.nx,
                hasCode);
  }

  lemma TranslatedOnlyMarks(m: Machine, io: Device, lin: Address, c: Class, fetch: bool, hasCode: bool)
    requires Shaped(m.tlb) && Walk(m.ram, io, ControlsOf(m), lin / 4096, c, fetch).Mapped?
    ensures var m' := Translated(m, io, lin, c, fetch, hasCode).0;
            ControlsOf(m') == ControlsOf(m) && OnlyMarked(m.ram, m'.ram, ControlsOf(m).pae)
  {
    var walk := Walk(m.ram, io, ControlsOf(m), lin / 4096, c, fetch);
    WalkTrailFits(m.ram, io, ControlsOf(m), lin / 4096, c, fetch);
    MarkedOnlyMarks(m.ram, walk.trail, c.write, ControlsOf(m).pae);
  }

  /** Every other page: marks spoil no walk, and a fill of the 8193rd entry empties the rest. */
  lemma OtherPageOk(t: Traced, io: Device, lin: Address, c: Class, fetch: bool, hasCode: bool, q: Page)
    requires Sound(t) && PageOk(t, io, q) && q != lin / 4096
    requires Walk(t.m.ram, io, ControlsOf(t.m), lin / 4096, c, fetch).Mapped?
    ensures PageOk(TracedStep(t, io, Translate(lin, c, fetch, hasCode)), io, q)
  {
    var ctl, p := ControlsOf(t.m), lin / 4096;
    var walk := Walk(t.m.ram, io, ctl, p, c, fetch);
    TranslatedOnlyMarks(t.m, io, lin, c, fetch, hasCode);
    FilledOther(t.m.tlb, p, |t.m.ram| / 1024, MapFrame(t.m.a20, walk.frame), FillClass(ctl, c), walk.global, walk.nx,
                hasCode, q);
    PageKept(t, TracedStep(t, io, Translate(lin, c, fetch, hasCode)), io, q);
  }

  lemma TranslateCoherent(t: Traced, io: Device, lin: Address, c: Class, fetch: bool, hasCode: bool)
    requires Coherent(t, io)
    requires Walk(t.m.ram, io, ControlsOf(t.m), lin / 4096, c, fetch).Mapped?
    ensures Coherent(TracedStep(t, io, Translate(lin, c, fetch, hasCode)), io)
  {
    var ctl, p := ControlsOf(t.m), lin / 4096;
    var walk := Walk(t.m.ram, io, ctl, p, c, fetch);
    FilledValid(t.m.tlb, p, |t.m.ram| / 1024, MapFrame(t.m.a20, walk.frame), FillClass(ctl, c), walk.global, walk.nx,
                hasCode);
    forall q: Page
      ensures PageOk(TracedStep(t, io, Translate(lin, c, fetch, hasCode)), io, q)
    {
      if q == p {
        FilledPageOk(t, io, lin, c, fetch, hasCode);
      } else {
        assert PageOk(t, io, q);
        OtherPageOk(t, io, lin, c, fetch, hasCode, q);
      }
    }
  }

  /** Steps that change no controls and at most one entry, in place. */
  lemma InPlaceCoherent(t: Traced, io: Device, e: Event)
    requires Coherent(t, io) && (e.Invalidate? || e.SetCode?)
    ensures Coherent(TracedStep(t, io, e), io)
  {
    var t' := TracedStep(t, io, e);
    var p := e.lin / 4096;
    if e.Invalidate? {
      InvalidatedValid(t.m.tlb, p);
    } else {
      SlowedValid(t.m.tlb, p);
    }
    forall q: Page
      ensures PageOk(t', io, q)
    {
      assert PageOk(t, io, q);
    }
  }

  lemma StoreCoherent(t: Traced, io: Device, i: nat, w: Word)
    requires Coherent(t, io)
    ensures Coherent(TracedStep(t, io, Store(i, w)), io)
  {
    var t' := TracedStep(t, io, Store(i, w));
    forall q: Page
      ensures PageOk(t', io, q)
    {
      assert PageOk(t, io, q);
    }
  }

  /** Register writes that flush nothing change nothing a walk depends on, or only EFER. */
  lemma RegisterCoherent(t: Traced, io: Device, e: Event)
    requires Coherent(t, io)
    requires || e.SetEfer?
             || (e.SetCr0? && Cr0Bits(e.v) == Cr0Bits(t.m.cr0))
             || (e.SetCr4? && Cr4Bits(e.v) == Cr4Bits(t.m.cr4))
             || (e.SetA20? && e.enabled == t.m.a20)
             || (e.Translate? && !Walk(t.m.ram, io, ControlsOf(t.m), e.lin / 4096, e.cls, e.fetch).Mapped?)
    ensures Coherent(TracedStep(t, io, e), io)
  {
    var t' := TracedStep(t, io, e);
    forall q: Page
      ensures PageOk(t', io, q)
    {
      assert PageOk(t, io, q);
    }
  }

  lemma StepCoherent(t: Traced, io: Device, e: Event)
    requires Coherent(t, io)
    ensures Coherent(TracedStep(t, io, e), io)
  {
    match e
    case Translate(lin, c, fetch, hasCode) =>
      if Walk(t.m.ram, io, ControlsOf(t.m), lin / 4096, c, fetch).Mapped? {
        TranslateCoherent(t, io, lin, c, fetch, hasCode);
      } else {
        RegisterCoherent(t, io, e);
      }
    case Invalidate(_) => InPlaceCoherent(t, io, e);
    case SetCode(_) => InPlaceCoherent(t, io, e);
    case SetCr0(v) =>
      if Cr0Bits(v) != Cr0Bits(t.m.cr0) {
        FlushCoherent(t, TracedStep(t, io, e), io);
      } else {
        RegisterCoherent(t, io, e);
      }
    case SetCr3(base) =>
      if Cr4Bits(t.m.cr4).2 {
        NonglobalFlushCoherent(t, io, base);
      } else {
        FlushCoherent(t, TracedStep(t, io, e), io);
      }
    case SetCr4(v) =>
      if Cr4Bits(v) != Cr4Bits(t.m.cr4) {
        FlushCoherent(t, TracedStep(t, io, e), io);
      } else {
        RegisterCoherent(t, io, e);
      }
    case SetEfer(_) => RegisterCoherent(t, io, e);
    case SetA20(enabled) =>
      if enabled != t.m.a20 { FlushCoherent(t, TracedStep(t, io, e), io); } else { RegisterCoherent(t, io, e); }
    case Store(i, w) => StoreCoherent(t, io, i, w);
  }

  /** cpu_reset, of any memory: an empty TLB, and no history. */
  predicate IsReset(t: Traced) {
    && |t.m.tlb.list| == MAX_ENTRIES && t.m.tlb == Empty(t.m.tlb.list)
    && |t.fills| == PAGES && (forall p: Page :: t.fills[p].edited == {})
  }

  lemma ResetCoherent(t: Traced, io: Device)
    requires IsReset(t)
    ensures Coherent(t, io)
  {
    assert forall p: Page :: Untouched(t.m.tlb, p);
  }

  lemma {:induction false} RunKeepsCoherence(t: Traced, io: Device, es: seq<Event>)
    requires Coherent(t, io)
    ensures Coherent(Run(t, io, es), io)
    decreases |es|
  {
    if es != [] {
      StepCoherent(t, io, es[0]);
      RunKeepsCoherence(TracedStep(t, io, es[0]), io, es[1..]);
    }
  }

  // ---------- What a reachable TLB promises ----------

  /** A walk for class c succeeds now, says what the TLB entry of page p says, and would mark nothing. */
  predicate Fresh(m: Machine, io: Device, p: Page, c: Class)
    requires Shaped(m.tlb)
  {
    var walk := Walk(m.ram, io, ControlsOf(m), p, c, false);
    && walk.Mapped?
    && m.tlb.hosts[p] == Bias(MapFrame(m.a20, walk.frame) - p)
    && m.tlb.attrs[p] == Attr(walk.nx, !walk.global)
    && Marked(m.ram, walk.trail, c.write) == m.ram
  }

  predicate TrailWithin(trail: Trail, words: set<int>) {
    match trail
    case Direct => true
    case LargePage(dir) => dir in words
    case SmallPage(dir, leaf) => dir in words && leaf in words
  }

  lemma TrailInFootprint(ram: seq<Word>, io: Device, ctl: Controls, p: Page, c: Class)
    requires Walk(ram, io, ctl, p, c, false).Mapped?
    ensures TrailWithin(Walk(ram, io, ctl, p, c, false).trail, Footprint(ram, io, ctl, p))
  {
  }

  /** Nothing but a store takes a mark away. */
  lemma MarksSurvive(f: Fill, ram: seq<Word>, trail: Trail, words: set<int>, write: bool)
    requires WordsKept(f, ram) && TrailWithin(trail, words) && words !! f.edited
    requires AllMarked(f.ram, trail, f.cls.write) && (write ==> f.cls.write)
    ensures Marked(ram, trail, write) == ram
  {
    AllMarkedStays(ram, trail, write);
  }

  lemma GrantStillWalks(r: Traced, io: Device, p: Page, c: Class)
    requires Sound(r) && PageOk(r, io, p) && r.m.tlb.tags[p].Grants(c)
    requires r.fills[p].ctl == ControlsOf(r.m)
    requires Footprint(r.fills[p].ram, io, r.fills[p].ctl, p) !! r.fills[p].edited
    ensures Fresh(r.m, io, p, c)
  {
    var f := r.fills[p];
    var walk := Walk(f.ram, io, f.ctl, p, f.cls, false);
    WalkMonotone(f.ram, io, f.ctl, p, f.cls, false, c, false);
    WalkDependsOnFootprint(f.ram, r.m.ram, io, f.ctl, p, c, false);
    TrailInFootprint(f.ram, io, f.ctl, p, f.cls);
    MarksSurvive(f, r.m.ram, walk.trail, Footprint(f.ram, io, f.ctl, p), c.write);
  }

  /** What a grant means. An entry that grants anything grants exactly the classes at or below that of its fill, under
      the controls of its fill, but for EFER and, if it is global, CR3. Unless one of those has changed, or a table word
      that the walk read has been stored since, a fresh walk for a granted class succeeds now, with the same frame. */
  ghost predicate GrantMeans(r: Traced, io: Device, p: Page, c: Class)
    requires Shaped(r.m.tlb) && |r.fills| == PAGES
  {
    var f, ctl, tlb := r.fills[p], ControlsOf(r.m), r.m.tlb;
    && (forall c2: Class :: tlb.tags[p].Grants(c2) <==> c2.AtMost(f.cls))
    && ctl == f.ctl.(cr3 := ctl.cr3, nxe := ctl.nxe)
    && (tlb.attrs[p].local ==> ctl.cr3 == f.ctl.cr3)
    && (ctl == f.ctl && Footprint(f.ram, io, ctl, p) !! f.edited ==> Fresh(r.m, io, p, c))
  }

  lemma GrantsExactly(tag: Tag, c: Class, c2: Class)
    requires GrantsUpTo(tag, c)
    ensures tag.Grants(c2) <==> c2.AtMost(c)
  {
  }

  lemma GrantedPage(r: Traced, io: Device, p: Page, c: Class)
    requires Sound(r) && PageOk(r, io, p) && r.m.tlb.tags[p].Grants(c)
    ensures GrantMeans(r, io, p, c)
  {
    var f := r.fills[p];
    forall c2: Class ensures r.m.tlb.tags[p].Grants(c2) <==> c2.AtMost(f.cls) {
      GrantsExactly(r.m.tlb.tags[p], f.cls, c2);
    }
    if ControlsOf(r.m) == f.ctl && Footprint(f.ram, io, f.ctl, p) !! f.edited {
      GrantStillWalks(r, io, p, c);
    }
  }

  /** After every run of events from reset, stores and register writes included, every grant means what it should. */
  lemma EveryGrantIsAWalk(t: Traced, io: Device, es: seq<Event>, p: Page, c: Class)
    requires IsReset(t) && Run(t, io, es).m.tlb.tags[p].Grants(c)
    ensures GrantMeans(Run(t, io, es), io, p, c)
  {
    ResetCoherent(t, io);
    RunKeepsCoherence(t, io, es);
    GrantedPage(Run(t, io, es), io, p, c);
  }

  predicate Quiet(es: seq<Event>) {
    forall e | e in es :: !e.Store? && !e.SetEfer?
  }

  /** No history of stores, and none of EFER. */
  predicate QuietSoFar(t: Traced)
    requires Shaped(t.m.tlb) && |t.fills| == PAGES
  {
    forall p: Page :: t.fills[p].edited == {} && (t.m.tlb.tags[p] == EMPTY_TAG || t.fills[p].ctl.nxe == t.m.nxe)
  }

  lemma QuietStep(t: Traced, io: Device, e: Event)
    requires Coherent(t, io) && QuietSoFar(t) && !e.Store? && !e.SetEfer?
    ensures QuietSoFar(TracedStep(t, io, e))
  {
    var t' := TracedStep(t, io, e);
    FlushEmpties(t.m.tlb);
    forall p: Page
      ensures t'.fills[p].edited == {} && (t'.m.tlb.tags[p] == EMPTY_TAG || t'.fills[p].ctl.nxe == t'.m.nxe)
    {
      assert t.fills[p].edited == {} && (t.m.tlb.tags[p] == EMPTY_TAG || t.fills[p].ctl.nxe == t.m.nxe);
      NonglobalFlushKeepsGlobals(t.m.tlb, p);
    }
  }

  lemma {:induction false} QuietRun(t: Traced, io: Device, es: seq<Event>)
    requires Coherent(t, io) && QuietSoFar(t) && Quiet(es)
    ensures QuietSoFar(Run(t, io, es))
    decreases |es|
  {
    if es != [] {
      assert es[0] in es;
      QuietStep(t, io, es[0]);
      StepCoherent(t, io, es[0]);
      QuietRun(TracedStep(t, io, es[0]), io, es[1..]);
    }
  }

  /** After every run of translations, invalidations, flushes, CR0, CR3, CR4 and A20 changes from reset, every class
      that an entry of the current address space grants is one for which a fresh walk succeeds, with the entry's
      frame. */
  lemma GrantsAreFresh(t: Traced, io: Device, es: seq<Event>, p: Page, c: Class)
    requires IsReset(t) && Quiet(es)
    requires var r := Run(t, io, es);
             r.m.tlb.tags[p].Grants(c) && (r.m.tlb.attrs[p].local || r.fills[p].ctl.cr3 == r.m.cr3)
    ensures Fresh(Run(t, io, es).m, io, p, c)
  {
    ResetCoherent(t, io);
    RunKeepsCoherence(t, io, es);
    QuietRun(t, io, es);
    EveryGrantIsAWalk(t, io, es, p, c);
  }

  /** After every run from reset: the list never overflows, a full flush leaves nothing, and a non-global flush leaves
      the global entries and nothing else. */
  lemma FlushesAreComplete(t: Traced, io: Device, es: seq<Event>, p: Page)
    requires IsReset(t)
    ensures var tlb := Run(t, io, es).m.tlb;
            && tlb.count <= MAX_ENTRIES
            && Untouched(Flushed(tlb), p)
            && (tlb.attrs[p].local ==> Untouched(FlushedNonglobal(tlb), p))
            && (!tlb.attrs[p].local ==>
                 FlushedNonglobal(tlb).hosts[p] == tlb.hosts[p] && FlushedNonglobal(tlb).tags[p] == tlb.tags[p])
  {
    ResetCoherent(t, io);
    RunKeepsCoherence(t, io, es);
    var tlb := Run(t, io, es).m.tlb;
    FlushEmpties(tlb);
    NonglobalFlushKeepsGlobals(tlb, p);
  }

  /** Repeating a translation writes no memory and makes the same entry. */
  lemma TranslateTwice(m: Machine, io: Device, lin: Address, c: Class, fetch: bool, hasCode: bool)
    requires Shaped(m.tlb)
    requires Translated(m, io, lin, c, fetch, hasCode).1.Mapped?
    ensures var once := Translated(m, io, lin, c, fetch, hasCode);
            var twice := Translated(once.0, io, lin, c, fetch, hasCode);
            && twice.1 == once.1
            && twice.0.ram == once.0.ram
            && twice.0.tlb.hosts[lin / 4096] == once.0.tlb.hosts[lin / 4096]
            && twice.0.tlb.tags[lin / 4096] == once.0.tlb.tags[lin / 4096]
            && twice.0.tlb.attrs[lin / 4096] == once.0.tlb.attrs[lin / 4096]
  {
    var p := lin / 4096;
    MarksChangeNoWalk(m.ram, io, ControlsOf(m), p, c, fetch, p, c, fetch);
    MarkedTwice(m.ram, Walk(m.ram, io, ControlsOf(m), p, c, fetch).trail, c.write);
  }

  // ---------- What an event does ----------

  /** PE, WP and PG are bits 0, 16 and 31. */
  lemma Cr0Numbers(cr0: Word)
    ensures var n := Number(cr0);
            Cr0Bits(cr0) == (n % 2 == 1, n / 0x1_0000 % 2 == 1, n >= 0x8000_0000)
  {
    EntryBits(cr0);
    UpperBits(Number(cr0));
  }

  /** PSE, PAE, PGE, PCIDE and SMEP are bits 4, 5, 7, 17 and 20. */
  lemma Cr4Numbers(cr4: Word)
    ensures var n := Number(cr4);
            Cr4Bits(cr4) == (n / 0x10 % 2 == 1, n / 0x20 % 2 == 1, n / 0x80 % 2 == 1, n / 0x2_0000 % 2 == 1,
                             n / 0x10_0000 % 2 == 1)
  {
    MiddleBits(cr4);
    EntryBits(cr4);
    UpperBits(Number(cr4));
  }

  lemma UpperBits(n: int)
    ensures n / 0x1000 / 16 == n / 0x1_0000 && (n / 0x1000 >= 0x80000 <==> n >= 0x8000_0000)
    ensures n / 0x1000 / 32 == n / 0x2_0000 && n / 0x1000 / 256 == n / 0x10_0000
  {
  }

  lemma MiddleBits(w: Word)
    ensures Bit(w.n1.b0) == Number(w) / 0x10 % 2
  {
    var rest := Value(w.n2) + 16 * w.frame;
    BitsOfNibble(w.n0, Value(w.n1) + 16 * rest);
    BitsOfNibble(w.n1, rest);
    assert Number(w) == Value(w.n0) + 16 * (Value(w.n1) + 16 * rest);
  }

  /** Whether a write of this class to page p may bypass the slow path. */
  predicate Fast(m: Machine, p: Page, c: Class)
    requires Shaped(m.tlb)
  {
    !m.tlb.tags[p].Of(c).slow
  }

  /** A translation that succeeds leaves an entry that grants the classes at or below its own, or all of them without
      paging, leads to the walked frame, and keeps its writes slow if the page has code. A page fault leaves the address
      in CR2 and all else alone; a protection fault leaves everything alone. */
  lemma TranslationDelivers(m: Machine, io: Device, lin: Address, c: Class, fetch: bool, hasCode: bool)
    requires Shaped(m.tlb)
    ensures var (m', o) := Translated(m, io, lin, c, fetch, hasCode);
            var p := lin / 4096;
            && o == Walk(m.ram, io, ControlsOf(m), p, c, fetch)
            && (o.Mapped? ==>
                  && m'.tlb.hosts[p] == Bias(MapFrame(m.a20, o.frame) - p)
                  && m'.tlb.attrs[p] == Attr(o.nx, !o.global)
                  && (forall c2: Class :: m'.tlb.tags[p].Grants(c2) <==> !ControlsOf(m).pg || c2.AtMost(c))
                  && (hasCode ==> forall user :: !Fast(m', p, Class(user, true)))
                  && m'.(ram := m.ram, tlb := m.tlb) == m)
            && (o.PageFault? ==> m' == m.(cr2 := lin))
            && (o.ProtectionFault? ==> m' == m)
  {
    var ctl, p := ControlsOf(m), lin / 4096;
    var o := Walk(m.ram, io, ctl, p, c, fetch);
    if o.Mapped? {
      var fill := FillClass(ctl, c);
      FilledSlots(m.tlb, p, |m.ram| / 1024, MapFrame(m.a20, o.frame), fill, o.global, o.nx, hasCode);
      FillGrants(|m.ram| / 1024, MapFrame(m.a20, o.frame), fill, hasCode);
      forall c2: Class
        ensures FillTag(|m.ram| / 1024, MapFrame(m.a20, o.frame), fill, hasCode).Grants(c2) <==> c2.AtMost(fill)
      {
        GrantsExactly(FillTag(|m.ram| / 1024, MapFrame(m.a20, o.frame), fill, hasCode), fill, c2);
      }
    }
  }

  /** INVLPG leaves no class granted on its page, and a page that gets code has no fast writes; neither touches any
      other page, memory or a register. */
  lemma PageEvents(m: Machine, io: Device, lin: Address, q: Page, c: Class)
    requires Shaped(m.tlb)
    ensures !Step(m, io, Invalidate(lin)).tlb.tags[lin / 4096].Grants(c)
    ensures c.write ==> !Fast(Step(m, io, SetCode(lin)), lin / 4096, c)
    ensures Step(m, io, SetCode(lin)).tlb.tags[lin / 4096].Grants(c) == m.tlb.tags[lin / 4096].Grants(c)
    ensures forall e | e in [Invalidate(lin), SetCode(lin)] ::
              var m' := Step(m, io, e);
              && m'.(tlb := m.tlb) == m
              && (q != lin / 4096 ==>
                    && m'.tlb.tags[q] == m.tlb.tags[q] && m'.tlb.hosts[q] == m.tlb.hosts[q]
                    && m'.tlb.attrs[q] == m.tlb.attrs[q])
  {
  }

  // ---------- EFER ----------

  /** The answers agree on the frame where both succeed, and the second one succeeds if NXE stays on or nothing was
      marked. */
  predicate NxeSurvives(before: Outcome, after: Outcome, nxe: bool) {
    before.Mapped? ==>
      && (after.Mapped? <==> nxe || !before.nx)
      && (after.Mapped? ==> after.frame == before.frame && after.trail == before.trail)
  }

  lemma LowerAnswerUnderNxe(ctl: Controls, page: Page, c: Class, dir: WordIndex, pde: Entry, high: Word,
                            leaf: WordIndex, pte: Entry, nxe: bool)
    ensures NxeSurvives(AnswerLowerPae(ctl, page, c, false, dir, pde, high, leaf, pte),
                        AnswerLowerPae(ctl.(nxe := nxe), page, c, false, dir, pde, high, leaf, pte), nxe)
  {
  }

  lemma WalkPaeUnderNxe(ram: seq<Word>, io: Device, ctl: Controls, p: Page, c: Class, nxe: bool)
    requires ctl.pg && ctl.pae
    ensures NxeSurvives(WalkPae(ram, io, ctl, p, c, false), WalkPae(ram, io, ctl.(nxe := nxe), p, c, false), nxe)
  {
    var dir := PaeDirIndex(ReadEntry(ram, io, PointerIndex(ctl, p)), p);
    var pde := ReadEntry(ram, io, dir);
    var leaf := PaeLeafIndex(pde, p);
    LowerAnswerUnderNxe(ctl, p, c, dir, pde, ReadPhys(ram, io, dir + 1), leaf, ReadEntry(ram, io, leaf), nxe);
  }

  /** A walk survives a change of EFER.NXE exactly if it does not turn off the no-execute bit of a page that has it. */
  lemma WalkUnderNxe(ram: seq<Word>, io: Device, ctl: Controls, p: Page, c: Class, nxe: bool)
    requires Walk(ram, io, ctl, p, c, false).Mapped?
    ensures var before := Walk(ram, io, ctl, p, c, false);
            var after := Walk(ram, io, ctl.(nxe := nxe), p, c, false);
            && (after.Mapped? <==> nxe || !before.nx)
            && (after.Mapped? ==> after.frame == before.frame && after.trail == before.trail)
  {
    if ctl.pg && ctl.pae { WalkPaeUnderNxe(ram, io, ctl, p, c, nxe); }
  }

  /** A fresh entry is that of the walk for each class it grants. */
  lemma EntryOfWalk(t: Traced, io: Device, p: Page, c: Class)
    requires Coherent(t, io) && t.m.tlb.tags[p].Grants(c)
    requires t.fills[p].ctl == ControlsOf(t.m) && Footprint(t.fills[p].ram, io, t.fills[p].ctl, p) !! t.fills[p].edited
    ensures var walk := Walk(t.m.ram, io, ControlsOf(t.m), p, c, false);
            && walk.Mapped? && t.m.tlb.attrs[p].nx == walk.nx
            && t.m.tlb.hosts[p] == Bias(MapFrame(t.m.a20, walk.frame) - p)
  {
    assert PageOk(t, io, p);
    GrantStillWalks(t, io, p, c);
  }

  /** Writing EFER flushes nothing, so an entry that was fresh stays granted, and keeps leading where a walk leads
      exactly if the write does not turn NXE off under a no-execute page. */
  lemma EferWriteFreshness(t: Traced, io: Device, p: Page, c: Class, nxe: bool)
    requires Coherent(t, io) && t.m.tlb.tags[p].Grants(c)
    requires t.fills[p].ctl == ControlsOf(t.m) && Footprint(t.fills[p].ram, io, t.fills[p].ctl, p) !! t.fills[p].edited
    ensures var m' := TracedStep(t, io, SetEfer(nxe)).m;
            var walk := Walk(m'.ram, io, ControlsOf(m'), p, c, false);
            && m'.tlb.tags[p].Grants(c)
            && (walk.Mapped? <==> nxe || !t.m.tlb.attrs[p].nx)
            && (walk.Mapped? ==> m'.tlb.hosts[p] == Bias(MapFrame(m'.a20, walk.frame) - p))
  {
    EntryOfWalk(t, io, p, c);
    WalkUnderNxe(t.m.ram, io, ControlsOf(t.m), p, c, nxe);
  }

  /** Three-level tables in the first four words: the page at 2 MB is a large one that must not be executed. */
  predicate HasNoExecutePage(ram: seq<Word>) {
    && |ram| >= 1024
    && Decode(ram[0]).present && ram[0].frame == 0 && !ReservedHigh(ram[1], false)
    && Decode(ram[2]).present && Decode(ram[2]).large && !ReservedHigh(ram[3], true) && NoExecute(ram[3])
  }

  lemma NoExecuteWalk(ram: seq<Word>, io: Device, ctl: Controls, c: Class)
    requires HasNoExecutePage(ram) && c == Class(false, false) && ctl.pg && ctl.pae && ctl.nxe && ctl.cr3 == 0
    ensures var walk := Walk(ram, io, ctl, 512, c, false); walk.Mapped? && walk.nx
  {
  }

  /** The entry that a fill leaves. */
  lemma FilledNow(t: Traced, io: Device, lin: Address, c: Class)
    requires Coherent(t, io) && ControlsOf(t.m).pg && Walk(t.m.ram, io, ControlsOf(t.m), lin / 4096, c, false).Mapped?
    ensures var t', p := TracedStep(t, io, Translate(lin, c, false, false)), lin / 4096;
            && Coherent(t', io) && t'.m.tlb.tags[p].Grants(c)
            && t'.m.tlb.attrs[p].nx == Walk(t.m.ram, io, ControlsOf(t.m), p, c, false).nx
            && t'.fills[p].edited == {} && t'.fills[p].ctl == ControlsOf(t'.m)
  {
    var t' := TracedStep(t, io, Translate(lin, c, false, false));
    StepCoherent(t, io, Translate(lin, c, false, false));
    assert PageOk(t', io, lin / 4096);
  }

  /** A read of that page, and EFER.NXE turned off: the entry is still granted, and a walk faults on the reserved
      bit. */
  lemma StaleNoExecute(t: Traced, io: Device, c: Class, lin: Address, es: seq<Event>)
    requires IsReset(t) && HasNoExecutePage(t.m.ram) && c == Class(false, false) && lin / 4096 == 512
    requires var ctl := ControlsOf(t.m); ctl.pg && ctl.pae && ctl.nxe && ctl.cr3 == 0
    requires es == [Translate(lin, c, false, false), SetEfer(false)]
    ensures var r := Run(t, io, es);
            && r.m.tlb.tags[512].Grants(c) && r.fills[512].edited == {}
            && !Walk(r.m.ram, io, ControlsOf(r.m), 512, c, false).Mapped?
  {
    var t1 := TracedStep(t, io, es[0]);
    ResetCoherent(t, io);
    NoExecuteWalk(t.m.ram, io, ControlsOf(t.m), c);
    FilledNow(t, io, lin, c);
    EferWriteFreshness(t1, io, 512, c, false);
    assert Run(t, io, es) == Run(t1, io, es[1..]) == TracedStep(t1, io, es[1]);
  }
}
