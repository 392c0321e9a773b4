/**
 The software TLB of src/cpu/mmu.cpp as a value: three tables indexed by linear page, and the list of the
 pages that may be filled, with its duplicates and tombstones.
 */
module TlbTables {
  import opened Words
  import opened Paging

  const PAGES := 0x100000
  const MAX_ENTRIES := 8192
  const TOMBSTONE := -1

  /** An entry of m_tlb: null, or how many pages the host copy of a page lies above the page's own number. */
  datatype Host = Null | Bias(pages: int)

  /** Two bits of a tag: the access needs the slow path; the access is not allowed. */
  datatype Field = Field(slow: bool, deny: bool)

  /** A tag: system read, system write, user read, user write. */
  datatype Tag = Tag(sysRead: Field, sysWrite: Field, userRead: Field, userWrite: Field) {
    function Of(c: Class): Field {
      if c.user then (if c.write then userWrite else userRead) else (if c.write then sysWrite else sysRead)
    }

    predicate Grants(c: Class) {
      !Of(c).deny
    }
  }

  /** The two bits of an attribute byte that are ever read. */
  datatype Attr = Attr(nx: bool, local: bool)

  const CLOSED := Field(true, true)
  const EMPTY_TAG := Tag(CLOSED, CLOSED, CLOSED, CLOSED)
  const EMPTY_ATTR := Attr(true, true)

  datatype Tlb = Tlb(hosts: seq<Host>, tags: seq<Tag>, attrs: seq<Attr>, list: seq<int>, count: nat)

  predicate Shaped(t: Tlb) {
    && |t.hosts| == |t.tags| == |t.attrs| == PAGES
    && |t.list| == MAX_ENTRIES
    && t.count <= MAX_ENTRIES
    && forall i | 0 <= i < t.count :: t.list[i] == TOMBSTONE || 0 <= t.list[i] < PAGES
  }

  /** The pages on the live part of the list. */
  function Listed(t: Tlb): set<int>
    requires Shaped(t)
  {
    set i | 0 <= i < t.count :: t.list[i]
  }

  predicate Untouched(t: Tlb, p: Page)
    requires Shaped(t)
  {
    t.hosts[p] == Null && t.tags[p] == EMPTY_TAG && t.attrs[p] == EMPTY_ATTR
  }

  /** Every page with anything in its entry is on the list. */
  predicate Valid(t: Tlb) {
    && Shaped(t)
    && forall p: Page :: Untouched(t, p) || p in Listed(t)
  }

  /** The entries of the pages in `ps` emptied, and those pages struck from the live part of the list. */
  function Cleared(t: Tlb, ps: set<int>): (r: Tlb)
    requires Shaped(t)
    ensures Shaped(r) && r.count == t.count
  {
    Tlb(seq(PAGES, p requires 0 <= p < PAGES => if p in ps then Null else t.hosts[p]),
        seq(PAGES, p requires 0 <= p < PAGES => if p in ps then EMPTY_TAG else t.tags[p]),
        seq(PAGES, p requires 0 <= p < PAGES => if p in ps then EMPTY_ATTR else t.attrs[p]),
        seq(MAX_ENTRIES, i requires 0 <= i < MAX_ENTRIES =>
          if i < t.count && t.list[i] in ps then TOMBSTONE else t.list[i]),
        t.count)
  }

  function Flushed(t: Tlb): (r: Tlb)
    requires Shaped(t)
    ensures Shaped(r)
  {
    Cleared(t, Listed(t)).(count := 0)
  }

  /** The listed pages whose entries are not global. */
  function LocalPages(t: Tlb): set<int>
    requires Shaped(t)
  {
    set p | p in Listed(t) && 0 <= p < PAGES && t.attrs[p].local
  }

  function FlushedNonglobal(t: Tlb): (r: Tlb)
    requires Shaped(t)
    ensures Shaped(r)
  {
    Cleared(t, LocalPages(t))
  }

  function Invalidated(t: Tlb, p: Page): (r: Tlb)
    requires Shaped(t)
    ensures Shaped(r)
  {
    t.(hosts := t.hosts[p := Null], tags := t.tags[p := EMPTY_TAG])
  }

  /** The frame that an access reaches: bit 20 of its address follows the A20 gate, and the top megabyte is the
      first. */
  function MapFrame(a20: bool, f: Page): Page {
    var masked := if a20 then f else f / 512 * 512 + f % 256;
    if masked >= 0xFFF00 then masked % 256 else masked
  }

  /** With the gate open an address is itself, with the gate closed its bit 20 is clear; then the megabyte below 4 GB,
      where the BIOS is, is the first one. */
  lemma GateBits(a20: bool, f: Page)
    ensures var g, bit20 := MapFrame(a20, f), f / 0x100 % 2;
            var masked := if a20 then f else f - 0x100 * bit20;
            if masked < 0xFFF00 then g == masked else 0 <= g < 0x100 && g % 0x100 == masked % 0x100
  {
    assert f == f / 0x200 * 0x200 + f / 0x100 % 2 * 0x100 + f % 0x100;
  }

  /** Reads of this frame must not bypass the device layer. */
  predicate SlowRead(frames: int, f: Page) {
    0xA0 <= f < 0xC0 || f >= frames
  }

  predicate SlowWrite(frames: int, f: Page) {
    0xA0 <= f < 0x100 || f >= frames
  }

  function FillTag(frames: int, f: Page, c: Class, hasCode: bool): Tag {
    var r := SlowRead(frames, f);
    var w := SlowWrite(frames, f) || hasCode;
    Tag(Field(r, false),
        Field(w || !c.write, !c.write),
        Field(r || !c.user, !c.user),
        Field(w || !c.user || !c.write, !c.user || !c.write))
  }

  /** cpu_set_tlb_entry for a translated frame f, after the A20 gate. */
  function Filled(t: Tlb, p: Page, frames: int, f: Page, c: Class, global: bool, nx: bool, hasCode: bool): (r: Tlb)
    requires Shaped(t)
    ensures Shaped(r)
  {
    var t' := if t.count >= MAX_ENTRIES then Flushed(t) else t;
    Tlb(t'.hosts[p := Bias(f - p)],
        t'.tags[p := FillTag(frames, f, c, hasCode)],
        t'.attrs[p := Attr(nx, !global)],
        t'.list[t'.count := p],
        t'.count + 1)
  }

  lemma FilledSlots(t: Tlb, p: Page, frames: int, f: Page, c: Class, global: bool, nx: bool, hasCode: bool)
    requires Shaped(t)
    ensures var r := Filled(t, p, frames, f, c, global, nx, hasCode);
            r.hosts[p] == Bias(f - p) && r.tags[p] == FillTag(frames, f, c, hasCode) && r.attrs[p] == Attr(nx, !global)
  {
  }

  /** set_smc: both write fields of a page go slow. */
  function Slowed(t: Tlb, p: Page): (r: Tlb)
    requires Shaped(t)
    ensures Shaped(r)
  {
    var tag := t.tags[p];
    t.(tags := t.tags[p := tag.(sysWrite := tag.sysWrite.(slow := true), userWrite := tag.userWrite.(slow := true))])
  }

  function Empty(list: seq<int>): Tlb {
    Tlb(seq(PAGES, _ => Null), seq(PAGES, _ => EMPTY_TAG), seq(PAGES, _ => EMPTY_ATTR), list, 0)
  }

  // ---------- Flushing ----------

  /** A full flush empties all 2^20 entries, although it only visits the list. */
  lemma FlushEmpties(t: Tlb)
    requires Valid(t)
    ensures Flushed(t) == Empty(Flushed(t).list)
  {
    forall p | 0 <= p < PAGES
      ensures Untouched(Flushed(t), p)
    {
      assert Untouched(t, p) || p in Listed(t);
    }
  }

  /** A non-global flush empties exactly the entries that are not global, and leaves the others as they were. */
  lemma NonglobalFlushKeepsGlobals(t: Tlb, p: Page)
    requires Valid(t)
    ensures var r := FlushedNonglobal(t);
            if t.attrs[p].local then Untouched(r, p)
            else r.hosts[p] == t.hosts[p] && r.tags[p] == t.tags[p] && r.attrs[p] == t.attrs[p]
  {
    assert Untouched(t, p) || p in Listed(t);
  }

  /** A fill leaves every other entry as it was, or empties it. */
  lemma FilledOther(t: Tlb, p: Page, frames: int, f: Page, c: Class, global: bool, nx: bool, hasCode: bool, q: Page)
    requires Valid(t) && q != p
    ensures var r := Filled(t, p, frames, f, c, global, nx, hasCode);
            r.tags[q] == EMPTY_TAG || (r.tags[q] == t.tags[q] && r.hosts[q] == t.hosts[q] && r.attrs[q] == t.attrs[q])
  {
    FlushEmpties(t);
  }

  // ---------- The list keeps up ----------

  lemma ClearedValid(t: Tlb, ps: set<int>)
    requires Valid(t)
    ensures Valid(Cleared(t, ps))
  {
    var r := Cleared(t, ps);
    forall p: Page
      ensures Untouched(r, p) || p in Listed(r)
    {
      if p !in ps && !Untouched(t, p) {
        var i :| 0 <= i < t.count && t.list[i] == p;
        assert r.list[i] == p;
      }
    }
  }

  lemma FlushedValid(t: Tlb)
    requires Valid(t)
    ensures Valid(Flushed(t))
  {
    forall p: Page
      ensures Untouched(Flushed(t), p)
    {
      assert Untouched(t, p) || p in Listed(t);
    }
  }

  lemma FilledValid(t: Tlb, p: Page, frames: int, f: Page, c: Class, global: bool, nx: bool, hasCode: bool)
    requires Valid(t)
    ensures Valid(Filled(t, p, frames, f, c, global, nx, hasCode))
  {
    FlushedValid(t);
    var t' := if t.count >= MAX_ENTRIES then Flushed(t) else t;
    var r := Filled(t, p, frames, f, c, global, nx, hasCode);
    forall q: Page
      ensures Untouched(r, q) || q in Listed(r)
    {
      if q == p {
        assert r.list[t'.count] == p;
      } else if !Untouched(t', q) {
        var i :| 0 <= i < t'.count && t'.list[i] == q;
        assert r.list[i] == q;
      }
    }
  }

  lemma InvalidatedValid(t: Tlb, p: Page)
    requires Valid(t)
    ensures Valid(Invalidated(t, p))
  {
    var r := Invalidated(t, p);
    assert Listed(r) == Listed(t);
    forall q: Page
      ensures Untouched(r, q) || q in Listed(r)
    {
      assert Untouched(t, q) || q in Listed(t);
    }
  }

  lemma SlowedValid(t: Tlb, p: Page)
    requires Valid(t)
    ensures Valid(Slowed(t, p))
  {
    var r := Slowed(t, p);
    assert Listed(r) == Listed(t);
    forall q: Page
      ensures Untouched(r, q) || q in Listed(r)
    {
      assert Untouched(t, q) || q in Listed(t);
    }
  }
}
