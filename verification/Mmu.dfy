/**
 The memory management unit of src/cpu/mmu.cpp, with the register writes of prot.cpp and cpu.cpp that drop
 translations: tables updated in place, proved to do what the functions of TlbTables and Coherence say.
 */
module Mmu {
  import opened Words
  import opened Paging
  import opened TlbTables
  import opened Coherence
  import opened Access

  class Mmu {
    const io: Device
    const ram: array<Word>
    const hosts: array<Host>
    const tags: array<Tag>
    const attrs: array<Attr>
    const list: array<int>
    var count: nat
    var cr0: Word
    var cr2: Address
    var cr3: TableBase
    var cr4: Word
    var nxe: bool
    var a20: bool

    ghost predicate Valid()
      reads this, ram, hosts, tags, attrs, list
    {
      && hosts.Length == tags.Length == attrs.Length == PAGES
      && list.Length == MAX_ENTRIES
      && Shaped(Tables())
    }

    ghost function Tables(): Tlb
      reads this, hosts, tags, attrs, list
    {
      Tlb(hosts[..], tags[..], attrs[..], list[..], count)
    }

    ghost function View(): Machine
      reads this, ram, hosts, tags, attrs, list
    {
      Machine(ram[..], cr0, cr2, cr3, cr4, nxe, a20, Tables())
    }

    /** The control bits in the registers. */
    function Registers(): Controls
      reads this
    {
      RegisterControls(cr0, cr3, cr4, nxe, a20)
    }

    /** Memory of `words` words and, since every slot starts empty, nothing to flush. */
    constructor (words: nat, io: Device, zero: Word)
      ensures Valid() && fresh(ram) && fresh(hosts) && fresh(tags) && fresh(attrs) && fresh(list)
      ensures |View().ram| == words && View().tlb == Empty(View().tlb.list)
    {
      this.io := io;
      ram := new Word[words](_ => zero);
      hosts := new Host[PAGES](_ => Null);
      tags := new Tag[PAGES](_ => EMPTY_TAG);
      attrs := new Attr[PAGES](_ => EMPTY_ATTR);
      list := new int[MAX_ENTRIES](_ => TOMBSTONE);
      count := 0;
      cr0, cr2, cr3, cr4, nxe, a20 := zero, 0, 0, zero, false, true;
      new;
      assert hosts[..] == seq(PAGES, _ => Null);
      assert tags[..] == seq(PAGES, _ => EMPTY_TAG);
      assert attrs[..] == seq(PAGES, _ => EMPTY_ATTR);
    }

    /** What both flushes do to an entry and its slot. */
    method ClearSlot(i: nat, entry: Page)
      requires Valid() && i < MAX_ENTRIES
      modifies hosts, tags, attrs, list
      ensures hosts[..] == old(hosts[..])[entry := Null] && tags[..] == old(tags[..])[entry := EMPTY_TAG]
      ensures attrs[..] == old(attrs[..])[entry := EMPTY_ATTR] && list[..] == old(list[..])[i := TOMBSTONE]
    {
      hosts[entry] := Null;
      tags[entry] := EMPTY_TAG;
      list[i] := TOMBSTONE;
      attrs[entry] := EMPTY_ATTR;
    }

    /** cpu_mmu_tlb_flush. */
    method Flush()
      requires Valid()
      modifies hosts, tags, attrs, list, `count
      ensures Valid()
      ensures View() == old(View()).(tlb := Flushed(old(Tables())))
    {
      ghost var t := Tables();
      var i := 0;
      while i < count
        invariant 0 <= i <= count == t.count
        invariant forall p | 0 <= p < PAGES :: hosts[..][p] == if p in t.list[..i] then Null else t.hosts[p]
        invariant forall p | 0 <= p < PAGES :: tags[..][p] == if p in t.list[..i] then EMPTY_TAG else t.tags[p]
        invariant forall p | 0 <= p < PAGES :: attrs[..][p] == if p in t.list[..i] then EMPTY_ATTR else t.attrs[p]
        invariant forall j | 0 <= j < MAX_ENTRIES :: list[..][j] == if j < i then TOMBSTONE else t.list[j]
      {
        var entry := list[i];
        assert list[..][i] == t.list[i] && t.list[..i + 1] == t.list[..i] + [entry];
        if entry != TOMBSTONE {
          ClearSlot(i, entry);
        }
        i := i + 1;
      }
      count := 0;
      assert forall p | 0 <= p < PAGES :: p in t.list[..t.count] <==> p in Listed(t);
      assert Tables() == Flushed(t);
    }

    /** The local entries in the first i slots of the list, the pages `done`, are cleared. */
    ghost predicate LocalCleared(t: Tlb, done: set<Page>, i: nat)
      requires Valid() && Shaped(t)
      reads this, ram, hosts, tags, attrs, list
    {
      && i <= count == t.count
      && (forall p: Page :: p in done <==> t.attrs[p].local && p in t.list[..i])
      && (forall p: Page :: hosts[p] == if p in done then Null else t.hosts[p])
      && (forall p: Page :: tags[p] == if p in done then EMPTY_TAG else t.tags[p])
      && (forall p: Page :: attrs[p] == if p in done then EMPTY_ATTR else t.attrs[p])
      && (forall j | 0 <= j < MAX_ENTRIES :: list[j] == if j < i && t.list[j] in done then TOMBSTONE else t.list[j])
    }

    /** One slot of the list. */
    method ClearLocal(i: nat, ghost t: Tlb, ghost done: set<Page>) returns (ghost more: set<Page>)
      requires Valid() && Shaped(t) && i < count && LocalCleared(t, done, i)
      modifies hosts, tags, attrs, list
      ensures Valid() && LocalCleared(t, more, i + 1)
    {
      var entry := list[i];
      assert t.list[..i + 1] == t.list[..i] + [t.list[i]];
      more := done;
      if entry != TOMBSTONE && attrs[entry].local {
        hosts[entry] := Null;
        tags[entry] := EMPTY_TAG;
        list[i] := TOMBSTONE;
        attrs[entry] := EMPTY_ATTR;
        more := done + {entry};
      }
    }

    /** cpu_mmu_tlb_flush_nonglobal. */
    method FlushNonglobal()
      requires Valid()
      modifies hosts, tags, attrs, list
      ensures Valid()
      ensures View() == old(View()).(tlb := FlushedNonglobal(old(Tables())))
    {
      ghost var t := Tables();
      ghost var done: set<Page> := {};
      var i := 0;
      while i < count
        invariant 0 <= i <= count && Valid() && LocalCleared(t, done, i)
      {
        done := ClearLocal(i, t, done);
        i := i + 1;
      }
      assert forall p: Page :: p in done <==> p in LocalPages(t);
      assert Tables() == FlushedNonglobal(t);
    }

    /** The tag that cpu_set_tlb_entry computes. */
    method NewTag(f: Page, user: bool, write: bool, hasCode: bool) returns (tag: Tag)
      ensures tag == FillTag(ram.Length / 1024, f, Class(user, write), hasCode)
    {
      var slow, slowWrite := false, false;
      if 0xA0 <= f < 0x100 {
        slow := f / 64 % 2 == 0;
        slowWrite := true;
      }
      if f >= ram.Length / 1024 {
        slow := true;
        slowWrite := true;
      }
      if hasCode {
        slowWrite := true;
      }
      tag := Tag(Field(slow, false),
                 Field(slowWrite || !write, !write),
                 Field(slow || !user, !user),
                 Field(slowWrite || !user || !write, !user || !write));
    }

    /** The stores of cpu_set_tlb_entry. */
    method PutEntry(page: Page, host: Host, tag: Tag, attr: Attr)
      requires Valid() && count < MAX_ENTRIES
      modifies hosts, tags, attrs, list, `count
      ensures count == old(count) + 1
      ensures hosts[..] == old(hosts[..])[page := host] && tags[..] == old(tags[..])[page := tag]
      ensures attrs[..] == old(attrs[..])[page := attr] && list[..] == old(list[..])[old(count) := page]
    {
      list[count] := page;
      count := count + 1;
      attrs[page] := attr;
      hosts[page] := host;
      tags[page] := tag;
    }

    /** cpu_set_tlb_entry. */
    method SetEntry(page: Page, frame: Page, c: Class, global: bool, nx: bool, hasCode: bool)
      requires Valid()
      modifies hosts, tags, attrs, list, `count
      ensures Valid()
      ensures View() == old(View()).(tlb :=
        Filled(old(Tables()), page, ram.Length / 1024, MapFrame(a20, frame), c, global, nx, hasCode))
    {
      var f := MapFrame(a20, frame);
      var tag := NewTag(f, c.user, c.write, hasCode);
      if count >= MAX_ENTRIES {
        Flush();
      }
      assert Tables() == if old(count) >= MAX_ENTRIES then Flushed(old(Tables())) else old(Tables());
      PutEntry(page, Bias(f - page), tag, Attr(nx, !global));
      assert Tables() == Filled(old(Tables()), page, ram.Length / 1024, f, c, global, nx, hasCode);
    }

    /** cpu_read_phys of a word. */
    method ReadWord(i: WordIndex) returns (w: Word)
      ensures w == Paging.ReadPhys(ram[..], io, i)
    {
      if i >= ram.Length || 0xA0000 / 4 <= i < 0xC0000 / 4 {
        w := io(4 * i);
      } else {
        w := ram[i];
      }
    }

    /** cpu_write_phys of a word. What a device does with it is not this class's business. */
    method WriteWord(i: WordIndex, w: Word)
      modifies ram
      ensures ram[..] == if InRam(old(ram[..]), i) then old(ram[..])[i := w] else old(ram[..])
    {
      if !(i >= ram.Length || 0xA0000 / 4 <= i < 0xC0000 / 4) {
        ram[i] := w;
      }
    }

    /** Writes an entry back with its marks, if it lacks one of them. */
    method MarkEntry(i: WordIndex, w: Word, dirty: bool)
      requires InRam(ram[..], i) ==> WithMarks(ram[i], dirty) == WithMarks(w, dirty)
      requires InRam(ram[..], i) && WithMarks(w, dirty) == w ==> ram[i] == w
      modifies ram
      ensures ram[..] == Mark(old(ram[..]), i, dirty)
    {
      if WithMarks(w, dirty) != w {
        WriteWord(i, WithMarks(w, dirty));
      }
      assert InRam(old(ram[..]), i) ==> old(ram[..])[i := old(ram[i])] == old(ram[..]);
    }

    /** The two permission tests that the code makes on each PAE entry in turn. */
    predicate Allowed(w: Word, c: Class)
      reads this
    {
      && !(c.write && !w.n0.b1 && (c.user || Cr0Bits(cr0).1))
      && !(c.user && !w.n0.b2)
    }

    /** The reads and tests of the two-level branch of cpu_mmu_translate, with the entries it read. */
    method Tables32(page: Page, c: Class) returns (o: Outcome, pde: Word, pte: Word)
      requires Valid() && Cr0Bits(cr0).2 && !Cr4Bits(cr4).1
      ensures o == Walk32(ram[..], io, Registers(), page, c)
      ensures o.Mapped? ==> EntriesRead(o.trail, pde, pte)
    {
      var dir := DirIndex(Registers(), page);
      pde := ReadWord(dir);
      pte := pde;
      if !pde.n0.b0 {
        o := PageFault(FaultCode(false, c.write, c.user, false));
      } else if pde.n1.b3 && Cr4Bits(cr4).0 {
        o := Mapped(InLargePage(Decode(pde), page, 1024), pde.n2.b0, false, LargePage(dir));
      } else {
        o, pte := Leaf32(page, c, dir, pde);
      }
    }

    /** The second entry, and the permission tests on both. */
    method Leaf32(page: Page, c: Class, dir: WordIndex, pde: Word) returns (o: Outcome, pte: Word)
      requires pde.n0.b0 && !(pde.n1.b3 && Cr4Bits(cr4).0)
      ensures var leaf := LeafIndex(Decode(pde), page);
              && pte == Paging.ReadPhys(ram[..], io, leaf)
              && o == Answer32(Registers(), page, c, dir, Decode(pde), leaf, Decode(pte))
    {
      var leaf := LeafIndex(Decode(pde), page);
      pte := ReadWord(leaf);
      if !pte.n0.b0 {
        o := PageFault(FaultCode(false, c.write, c.user, false));
      } else if c.write && (!pte.n0.b1 || !pde.n0.b1) && (c.user || Cr0Bits(cr0).1) {
        o := PageFault(FaultCode(true, c.write, c.user, false));
      } else if c.user && (!pte.n0.b2 || !pde.n0.b2) {
        o := PageFault(FaultCode(true, c.write, c.user, false));
      } else {
        o := Mapped(pte.frame, pte.n2.b0, false, SmallPage(dir, leaf));
      }
    }

    /** The reads and tests of the three-level branch. */
    method TablesPae(page: Page, c: Class, fetch: bool) returns (o: Outcome, pde: Word, pte: Word)
      requires Valid() && Cr0Bits(cr0).2 && Cr4Bits(cr4).1
      ensures o == WalkPae(ram[..], io, Registers(), page, c, fetch)
      ensures o.Mapped? ==> EntriesRead(o.trail, pde, pte)
    {
      var pointer := PointerIndex(Registers(), page);
      var pdpte := ReadWord(pointer);
      pde, pte := pdpte, pdpte;
      if !pdpte.n0.b0 {
        o := PageFault(FaultCode(false, c.write, c.user, false));
      } else {
        o, pde, pte := BehindPointer(page, c, fetch, pointer, pdpte);
      }
    }

    /** What follows a present entry of the pointer table. */
    method BehindPointer(page: Page, c: Class, fetch: bool, pointer: WordIndex, pdpte: Word)
        returns (o: Outcome, pde: Word, pte: Word)
      requires pdpte.n0.b0 && pointer + 1 < 0x4000_0000
      ensures var dir := PaeDirIndex(Decode(pdpte), page);
              var e := ReadEntry(ram[..], io, dir);
              var leaf := PaeLeafIndex(e, page);
              o == AnswerPae(Registers(), page, c, fetch, Decode(pdpte), Paging.ReadPhys(ram[..], io, pointer + 1), dir,
                             e, Paging.ReadPhys(ram[..], io, dir + 1), leaf, ReadEntry(ram[..], io, leaf))
      ensures o.Mapped? ==> EntriesRead(o.trail, pde, pte)
    {
      var pdpteHigh := ReadWord(pointer + 1);
      if ReservedHigh(pdpteHigh, false) {
        o, pde, pte := ProtectionFault, pdpte, pdpte;
      } else {
        o, pde, pte := LowerTablesPae(page, c, fetch && nxe, PaeDirIndex(Decode(pdpte), page));
      }
    }

    method LowerTablesPae(page: Page, c: Class, fetch: bool, dir: WordIndex) returns (o: Outcome, pde: Word, pte: Word)
      requires dir + 1 < 0x4000_0000
      ensures var e := ReadEntry(ram[..], io, dir);
              var leaf := PaeLeafIndex(e, page);
              o == AnswerLowerPae(Registers(), page, c, fetch, dir, e, Paging.ReadPhys(ram[..], io, dir + 1),
                                  leaf, ReadEntry(ram[..], io, leaf))
      ensures o.Mapped? ==> EntriesRead(o.trail, pde, pte)
    {
      pde := ReadWord(dir);
      pte := pde;
      var pdeHigh := ReadWord(dir + 1);
      var nx := nxe && NoExecute(pdeHigh);
      if ReservedHigh(pdeHigh, nxe) {
        o := ProtectionFault;
      } else if !pde.n0.b0 {
        o := PageFault(FaultCode(false, c.write, c.user, fetch));
      } else if !Allowed(pde, c) {
        o := PageFault(FaultCode(true, c.write, c.user, fetch));
      } else if pde.n1.b3 {
        o := Mapped(InLargePage(Decode(pde), page, 512), pde.n2.b0, nx, LargePage(dir));
      } else {
        var leaf := PaeLeafIndex(Decode(pde), page);
        pte := ReadWord(leaf);
        if !pte.n0.b0 {
          o := PageFault(FaultCode(false, c.write, c.user, fetch));
        } else if !Allowed(pte, c) {
          o := PageFault(FaultCode(true, c.write, c.user, fetch));
        } else {
          o := Mapped(pte.frame, pte.n2.b0, nx, SmallPage(dir, leaf));
        }
      }
    }

    ghost predicate EntriesRead(trail: Trail, pde: Word, pte: Word)
      reads this, ram
    {
      match trail
      case Direct => true
      case LargePage(dir) => pde == Paging.ReadPhys(ram[..], io, dir)
      case SmallPage(dir, leaf) => pde == Paging.ReadPhys(ram[..], io, dir) && pte == Paging.ReadPhys(ram[..], io, leaf)
    }

    /** Writes back the marks of a successful walk. The leaf was read before the directory entry is written, which
        matters only where they are one word. */
    method WriteMarks(trail: Trail, pde: Word, pte: Word, write: bool)
      requires EntriesRead(trail, pde, pte)
      modifies ram
      ensures ram[..] == Marked(old(ram[..]), trail, write)
    {
      match trail
      case Direct =>
      case LargePage(dir) =>
        MarkEntry(dir, pde, write);
      case SmallPage(dir, leaf) =>
        MarkEntry(dir, pde, false);
        MarkEntry(leaf, pte, write);
    }

    /** The end of cpu_mmu_translate: a fault leaves its address in CR2, a success its marks and an entry. */
    method Conclude(lin: Address, c: Class, hasCode: bool, o: Outcome, pde: Word, pte: Word)
      requires Valid() && (o.Mapped? ==> EntriesRead(o.trail, pde, pte))
      modifies `cr2, `count, ram, hosts, tags, attrs, list
      ensures Valid()
      ensures View() == Concluded(old(View()), lin, c, hasCode, o)
    {
      if o.PageFault? {
        cr2 := lin;
      }
      if o.Mapped? {
        WriteMarks(o.trail, pde, pte, c.write);
        SetEntry(lin / 4096, o.frame, c, o.global, o.nx, hasCode);
      }
    }

    /** cpu_mmu_translate. */
    method Translate(lin: Address, c: Class, fetch: bool, hasCode: bool) returns (o: Outcome)
      requires Valid()
      modifies `cr2, `count, ram, hosts, tags, attrs, list
      ensures Valid()
      ensures (View(), o) == Translated(old(View()), io, lin, c, fetch, hasCode)
    {
      var page := lin / 4096;
      if !Cr0Bits(cr0).2 {
        SetEntry(page, page, Class(true, true), false, false, hasCode);
        return Mapped(page, false, false, Direct);
      }
      var pde, pte;
      if !Cr4Bits(cr4).1 {
        o, pde, pte := Tables32(page, c);
      } else {
        o, pde, pte := TablesPae(page, c, fetch);
      }
      Conclude(lin, c, hasCode, o, pde, pte);
    }

    /** cpu_mmu_tlb_invalidate. */
    method Invalidate(lin: Address)
      requires Valid()
      modifies hosts, tags
      ensures Valid()
      ensures View() == old(View()).(tlb := Invalidated(old(Tables()), lin / 4096))
    {
      hosts[lin / 4096] := Null;
      tags[lin / 4096] := EMPTY_TAG;
    }

    /** The part of set_smc that concerns the TLB. */
    method SetSlow(lin: Address)
      requires Valid()
      modifies tags
      ensures Valid()
      ensures View() == Step(old(View()), io, SetCode(lin))
    {
      var tag := tags[lin / 4096];
      tags[lin / 4096] := tag.(sysWrite := tag.sysWrite.(slow := true), userWrite := tag.userWrite.(slow := true));
    }

    /** cpu_prot_set_cr for CR0. */
    method WriteCr0(v: Word)
      requires Valid()
      modifies `cr0, hosts, tags, attrs, list, `count
      ensures Valid()
      ensures View() == Step(old(View()), io, SetCr0(v))
    {
      var differs := Cr0Bits(v) != Cr0Bits(cr0);
      cr0 := v;
      if differs {
        Flush();
      }
    }

    /** cpu_prot_set_cr for CR3. */
    method WriteCr3(base: TableBase)
      requires Valid()
      modifies `cr3, hosts, tags, attrs, list, `count
      ensures Valid()
      ensures View() == Step(old(View()), io, SetCr3(base))
    {
      cr3 := base;
      if Cr4Bits(cr4).2 {
        FlushNonglobal();
      } else {
        Flush();
      }
    }

    /** cpu_prot_set_cr for CR4. */
    method WriteCr4(v: Word)
      requires Valid()
      modifies `cr4, hosts, tags, attrs, list, `count
      ensures Valid()
      ensures View() == Step(old(View()), io, SetCr4(v))
    {
      var differs := Cr4Bits(v) != Cr4Bits(cr4);
      cr4 := v;
      if differs {
        Flush();
      }
    }

    /** cpu_set_a20. */
    method WriteA20(enabled: bool)
      requires Valid()
      modifies `a20, hosts, tags, attrs, list, `count
      ensures Valid()
      ensures View() == Step(old(View()), io, SetA20(enabled))
    {
      var before := a20;
      a20 := enabled;
      if before != a20 {
        Flush();
      }
    }

    // ---------- Accesses ----------

    /** The translation that a slow access starts with, if the tag does not allow the access. */
    method Resolve(lin: Address, c: Class, hasCode: bool) returns (o: Outcome)
      requires Valid()
      modifies `cr2, `count, ram, hosts, tags, attrs, list
      ensures Valid()
      ensures (View(), o) == Resolved(old(View()), io, lin, c, hasCode)
    {
      o := Mapped(0, false, false, Direct);
      if tags[lin / 4096].Of(c).deny {
        o := Translate(lin, c, false, hasCode);
      }
    }

    /** The host page behind a linear one. */
    method HostPage(p: Page) returns (f: int)
      requires Valid()
      ensures f == HostFrame(View(), p)
    {
      f := -1;
      if hosts[p].Bias? {
        f := p + hosts[p].pages;
      }
    }

    /** cpu_access_read8. */
    method AccessRead8(lin: Address, user: bool, hasCode: bool) returns (a: Answer)
      requires Valid()
      modifies `cr2, `count, ram, hosts, tags, attrs, list
      ensures Valid()
      ensures (View(), a) == Read8(old(View()), io, lin, user, hasCode)
    {
      var o := Resolve(lin, Class(user, false), hasCode);
      if !o.Mapped? {
        return Fault(o);
      }
      var f := HostPage(lin / 4096);
      if 0xA0 <= f < 0xC0 || f < 0 || f >= ram.Length / 1024 {
        return Mmio;
      }
      a := Data([ByteOf(ram[f * 1024 + lin / 4 % 1024], lin % 4)]);
    }

    /** The byte loop of cpu_access_read16 and cpu_access_read32. */
    method AccessReadBytes(lin: Address, user: bool, n: nat, code: set<Page>) returns (a: Answer)
      requires Valid()
      modifies `cr2, `count, ram, hosts, tags, attrs, list
      ensures Valid()
      ensures (View(), a) == ReadBytes(old(View()), io, lin, user, n, code)
    {
      ghost var whole, left := ReadBytes(View(), io, lin, user, n, code), n;
      JoinedNothing(whole.1);
      a := Data([]);
      var i, at := 0, lin;
      while i < n
        invariant 0 <= i <= n && left == n - i && Valid() && !a.Fault?
        invariant whole == Behind(a, ReadBytes(View(), io, at, user, left, code))
      {
        ghost var before, rest: nat := View(), left - 1;
        var first := AccessRead8(at, user, at / 4096 in code);
        ReadBytesTurn(before, io, at, user, left, rest, code, View(), first, a);
        if first.Fault? {
          return first;
        }
        a := Joined(a, first);
        at := Next(at);
        i, left := i + 1, rest;
      }
      JoinedNothing(a);
    }

    method StoreAt(f: int, lin: Address, b: Byte)
      requires Writable(ram[..], f)
      modifies ram
      ensures ram[..] == StoreByte(old(ram[..]), f, lin, b)
    {
      var i := f * 1024 + lin / 4 % 1024;
      ram[i] := WithByte(ram[i], lin % 4, b);
    }

    /** cpu_access_write8. */
    method AccessWrite8(lin: Address, user: bool, b: Byte, hasCode: bool, drop: bool) returns (a: Answer)
      requires Valid()
      modifies `cr2, `count, ram, hosts, tags, attrs, list
      ensures Valid()
      ensures (View(), a) == Write8(old(View()), io, lin, user, b, hasCode, drop)
    {
      var o := Resolve(lin, Class(user, true), hasCode);
      if !o.Mapped? {
        return Fault(o);
      }
      var f := HostPage(lin / 4096);
      if 0xA0 <= f < 0x100 || f < 0 || f >= ram.Length / 1024 {
        return Mmio;
      }
      StoreAt(f, lin, b);
      if drop {
        Invalidate(lin);
      }
      a := Data([]);
    }

    /** The byte loop of cpu_access_write16 and cpu_access_write32. */
    method AccessWriteBytes(lin: Address, user: bool, bytes: seq<Byte>, code: set<Page>, drops: set<Address>)
        returns (a: Answer)
      requires Valid()
      modifies `cr2, `count, ram, hosts, tags, attrs, list
      ensures Valid()
      ensures (View(), a) == WriteBytes(old(View()), io, lin, user, bytes, code, drops)
    {
      ghost var whole, rest := WriteBytes(View(), io, lin, user, bytes, code, drops), bytes;
      var i, at := 0, lin;
      while i < |bytes|
        invariant 0 <= i <= |bytes| && rest == bytes[i..] && Valid()
        invariant whole == WriteBytes(View(), io, at, user, rest, code, drops)
      {
        a := AccessWrite8(at, user, bytes[i], at / 4096 in code, at in drops);
        if a.Fault? {
          return;
        }
        at := Next(at);
        i, rest := i + 1, rest[1..];
      }
      a := Data([]);
    }

    /** The stores of an aligned write of two or four bytes. */
    method Put(f: int, lin: Address, bytes: seq<Byte>)
      requires Aligned(lin, |bytes|) && Writable(ram[..], f)
      modifies ram
      ensures ram[..] == StoreWide(old(ram[..]), f, lin, bytes)
    {
      var i := f * 1024 + lin / 4 % 1024;
      if |bytes| == 4 {
        ram[i] := FromBytes(bytes[0], bytes[1], bytes[2], bytes[3]);
      } else {
        ram[i] := WithHalf(ram[i], lin % 4 / 2, bytes[0], bytes[1]);
      }
    }

    /** The aligned branch of cpu_access_write16 and cpu_access_write32. */
    method AccessWriteAligned(lin: Address, user: bool, bytes: seq<Byte>, hasCode: bool, drop: bool) returns (a: Answer)
      requires Valid() && Aligned(lin, |bytes|)
      modifies `cr2, `count, ram, hosts, tags, attrs, list
      ensures Valid()
      ensures (View(), a) == WriteAligned(old(View()), io, lin, user, bytes, hasCode, drop)
    {
      var o := Resolve(lin, Class(user, true), hasCode);
      if !o.Mapped? {
        return Fault(o);
      }
      var f := HostPage(lin / 4096);
      if 0xA0 <= f < 0x100 || f < 0 || f >= ram.Length / 1024 {
        return Mmio;
      }
      Put(f, lin, bytes);
      if drop {
        Invalidate(lin);
      }
      a := Data([]);
    }

    /** The bytes that a load takes from the word at a RAM address. */
    method Load(f: int, lin: Address, n: int) returns (a: Answer)
      requires Aligned(lin, n) && Readable(ram[..], f)
      ensures a == LoadWide(ram[..], f, lin, n)
    {
      var w := ram[f * 1024 + lin / 4 % 1024];
      if n == 4 {
        a := Data([ByteOf(w, 0), ByteOf(w, 1), ByteOf(w, 2), ByteOf(w, 3)]);
      } else {
        a := Data([ByteOf(w, lin % 4), ByteOf(w, lin % 4 + 1)]);
      }
    }

    /** cpu_access_read16 and cpu_access_read32, n being 2 or 4. */
    method AccessRead(lin: Address, user: bool, n: int, code: set<Page>) returns (a: Answer)
      requires Valid() && (n == 2 || n == 4)
      modifies `cr2, `count, ram, hosts, tags, attrs, list
      ensures Valid()
      ensures (View(), a) == ReadWide(old(View()), io, lin, user, n, code)
    {
      if lin % n != 0 {
        a := AccessReadBytes(lin, user, n, code);
        return;
      }
      var o := Resolve(lin, Class(user, false), lin / 4096 in code);
      if !o.Mapped? {
        return Fault(o);
      }
      var f := HostPage(lin / 4096);
      if 0xA0 <= f < 0xC0 || f < 0 || f >= ram.Length / 1024 {
        return Mmio;
      }
      a := Load(f, lin, n);
    }

    /** read8: straight to RAM where the tag's slow bit is clear, else the slow path. Either way it is what the slow
        path would have done, and, if the page is current, what walking would have read and marked. */
    method ReadByte(lin: Address, user: bool, code: set<Page>, ghost t: Traced) returns (a: Answer)
      requires Valid() && t.m == View() && Coherent(t, io)
      modifies `cr2, `count, ram, hosts, tags, attrs, list
      ensures Valid()
      ensures (View(), a) == Read8(old(View()), io, lin, user, lin / 4096 in code)
      ensures Current(t, io, lin / 4096) ==> (ram[..], a) == PlainRead8(t.m.ram, io, ControlsOf(t.m), lin, user)
    {
      if Current(t, io, lin / 4096) { ReadInvisible(t, io, lin, user, lin / 4096 in code); }
      if tags[lin / 4096].Of(Class(user, false)).slow {
        a := AccessRead8(lin, user, lin / 4096 in code);
      } else {
        FastReadIsSlowRead(t, io, lin, user, code);
        var f := HostPage(lin / 4096);
        a := Data([ByteOf(ram[f * 1024 + lin / 4 % 1024], lin % 4)]);
      }
    }

    /** read16 and read32: straight to RAM where the tag's slow bit is clear and the address is aligned, else the slow
        path. Either way it is what the slow path would have done, and, if the pages of its bytes are current, what
        walking for each of them would have read and marked. */
    method Read(lin: Address, user: bool, n: int, code: set<Page>, ghost t: Traced) returns (a: Answer)
      requires Valid() && t.m == View() && Coherent(t, io) && (n == 2 || n == 4)
      modifies `cr2, `count, ram, hosts, tags, attrs, list
      ensures Valid()
      ensures (View(), a) == ReadWide(old(View()), io, lin, user, n, code)
      ensures TouchedCurrent(t, io, lin, n) ==> (ram[..], a) == PlainRead(t.m.ram, io, ControlsOf(t.m), lin, user, n)
    {
      if TouchedCurrent(t, io, lin, n) { ReadWideInvisible(t, io, lin, user, n, code); }
      var field := tags[lin / 4096].Of(Class(user, false));
      if lin % n != 0 || field.slow || (n == 4 && field.deny) {
        a := AccessRead(lin, user, n, code);
      } else {
        FastReadIsSlowRead(t, io, lin, user, code);
        var f := HostPage(lin / 4096);
        a := Load(f, lin, n);
      }
    }

    /** cpu_access_write16 and cpu_access_write32. */
    method AccessWrite(lin: Address, user: bool, bytes: seq<Byte>, code: set<Page>, drops: set<Address>)
        returns (a: Answer)
      requires Valid() && (|bytes| == 2 || |bytes| == 4)
      modifies `cr2, `count, ram, hosts, tags, attrs, list
      ensures Valid()
      ensures (View(), a) == WriteWide(old(View()), io, lin, user, bytes, code, drops)
    {
      if lin % |bytes| != 0 {
        a := AccessWriteBytes(lin, user, bytes, code, drops);
      } else {
        a := AccessWriteAligned(lin, user, bytes, lin / 4096 in code, lin in drops);
      }
    }

    /** A byte write as the instructions make it: straight to RAM where the slow bit is clear, which drops no entry. */
    method WriteByte(lin: Address, user: bool, b: Byte, hasCode: bool, drop: bool, ghost t: Traced) returns (a: Answer)
      requires Valid() && t.m == View() && Coherent(t, io)
      modifies `cr2, `count, ram, hosts, tags, attrs, list
      ensures Valid()
      ensures var slow := t.m.tlb.tags[lin / 4096].Of(Class(user, true)).slow;
              (View(), a) == Write8(old(View()), io, lin, user, b, hasCode, drop && slow)
      ensures Current(t, io, lin / 4096) ==> (ram[..], a) == PlainWrite8(t.m.ram, io, ControlsOf(t.m), lin, user, b)
    {
      var slow := tags[lin / 4096].Of(Class(user, true)).slow;
      if Current(t, io, lin / 4096) { WriteInvisible(t, io, lin, user, b, hasCode, drop && slow); }
      if slow {
        a := AccessWrite8(lin, user, b, hasCode, drop);
      } else {
        FastWriteIsSlowWrite(t, io, lin, user, b, [b], hasCode);
        var f := HostPage(lin / 4096);
        StoreAt(f, lin, b);
        a := Data([]);
      }
    }

    /** The direct store. */
    method StoreDirectly(lin: Address, user: bool, bytes: seq<Byte>, hasCode: bool, ghost t: Traced) returns (a: Answer)
      requires Valid() && t.m == View() && Coherent(t, io) && Aligned(lin, |bytes|)
      requires !tags[lin / 4096].Of(Class(user, true)).slow
      modifies ram
      ensures Valid()
      ensures (View(), a) == WriteAligned(old(View()), io, lin, user, bytes, hasCode, false)
    {
      FastWriteIsSlowWrite(t, io, lin, user, bytes[0], bytes, hasCode);
      var f := HostPage(lin / 4096);
      Put(f, lin, bytes);
      a := Data([]);
    }

    /** The tests that the instructions make before a direct store of two or four bytes. */
    static predicate StoresDirectly(lin: Address, n: nat, field: Field) {
      Aligned(lin, n) && !field.slow && !(n == 4 && field.deny)
    }

    /** 16- and 32-bit writes as the instructions make them. */
    method StoreOrAccess(lin: Address, user: bool, bytes: seq<Byte>, code: set<Page>, drops: set<Address>,
                         ghost t: Traced)
        returns (a: Answer)
      requires Valid() && t.m == View() && Coherent(t, io) && (|bytes| == 2 || |bytes| == 4)
      modifies `cr2, `count, ram, hosts, tags, attrs, list
      ensures Valid()
      ensures var direct := StoresDirectly(lin, |bytes|, t.m.tlb.tags[lin / 4096].Of(Class(user, true)));
              (View(), a) == WriteWide(old(View()), io, lin, user, bytes, code, if direct then {} else drops)
    {
      var field := tags[lin / 4096].Of(Class(user, true));
      if lin % |bytes| != 0 || field.slow || (|bytes| == 4 && field.deny) {
        a := AccessWrite(lin, user, bytes, code, drops);
      } else {
        a := StoreDirectly(lin, user, bytes, lin / 4096 in code, t);
      }
    }

    /** If before the write its pages are current and none of its words is one of their tables, it leaves what walking
        for each byte would have left. */
    method Write(lin: Address, user: bool, bytes: seq<Byte>, code: set<Page>, drops: set<Address>, ghost t: Traced,
                 ghost pages: set<Page>) returns (a: Answer)
      requires Valid() && t.m == View() && Coherent(t, io) && (|bytes| == 2 || |bytes| == 4)
      modifies `cr2, `count, ram, hosts, tags, attrs, list
      ensures Valid()
      ensures var direct := StoresDirectly(lin, |bytes|, t.m.tlb.tags[lin / 4096].Of(Class(user, true)));
              (View(), a) == WriteWide(old(View()), io, lin, user, bytes, code, if direct then {} else drops)
      ensures (forall p | p in pages :: Current(t, io, p))
          && BesideTables(t.m.ram, io, ControlsOf(t.m), lin, user, |bytes|, pages)
        ==> PlainWrite(t.m.ram, io, ControlsOf(t.m), lin, user, bytes) == (ram[..], if a.Fault? then a else Data([]))
    {
      ghost var direct := StoresDirectly(lin, |bytes|, tags[lin / 4096].Of(Class(user, true)));
      a := StoreOrAccess(lin, user, bytes, code, drops, t);
      if (forall p | p in pages :: Current(t, io, p))
          && BesideTables(t.m.ram, io, ControlsOf(t.m), lin, user, |bytes|, pages) {
        WriteWideInvisible(t, io, lin, user, bytes, code, if direct then {} else drops, pages);
      }
    }
  }
}
