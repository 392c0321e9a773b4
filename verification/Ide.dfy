/**
 PIO transfers of src/ide.cpp: the address registers, and the sector-by-sector protocol of READ SECTORS and WRITE
 SECTORS over a disk that may answer at once or later.
 */
module Ide {
  import opened Drives

  // ---------- Address registers ----------

  datatype Geometry = Geometry(heads: int, sectors: int)

  /** The address registers of the task file. They are 16 bits wide, the low byte being the one written last. */
  datatype Regs = Regs(lba: bool, driveAndHead: int, sectorNumber: int, cylinderLow: int, cylinderHigh: int)

  ghost predicate ValidGeometry(g: Geometry) {
    0 < g.heads <= 16 && 0 < g.sectors <= 255
  }

  /** ide_get_sector_offset without LBA48. */
  function Get(r: Regs, g: Geometry): int {
    if r.lba then
      r.sectorNumber % 256 + 0x100 * (r.cylinderLow % 256) + 0x1_0000 * (r.cylinderHigh % 256)
      + 0x100_0000 * (r.driveAndHead % 16)
    else
      var cylinder := r.cylinderLow % 256 + 0x100 * (r.cylinderHigh % 256);
      cylinder * (g.heads * g.sectors) + (r.driveAndHead % 16) * g.sectors + (r.sectorNumber % 256 - 1)
  }

  /** ide_set_sector_offset without LBA48. */
  function Set(r: Regs, g: Geometry, p: int): Regs
    requires 0 <= p && ValidGeometry(g)
  {
    var drive := r.driveAndHead / 16 * 16;
    if r.lba then
      r.(driveAndHead := drive + p / 0x100_0000 % 16, cylinderHigh := p / 0x1_0000 % 256,
         cylinderLow := p / 0x100 % 256,
         sectorNumber := p % 256)
    else
      var perCylinder := g.heads * g.sectors;
      Positive(g.heads, g.sectors);
      var c, t := p / perCylinder, p % perCylinder;
      r.(cylinderLow := c % 256, cylinderHigh := c / 256 % 256, driveAndHead := drive + t / g.sectors % 16,
         sectorNumber := t % g.sectors + 1)
  }

  lemma Positive(x: int, y: int)
    requires 0 < x && 0 < y
    ensures 0 < x * y
  {
  }

  /** Sectors that the registers can address. */
  function Limit(r: Regs, g: Geometry): int {
    if r.lba then 0x1000_0000 else 0x1_0000 * (g.heads * g.sectors)
  }

  lemma ByteIs(x: int)
    requires 0 <= x < 256
    ensures x % 256 == x
  {
  }

  /** Bytes c of a cylinder, in its two registers. */
  lemma CylinderBytes(c: int)
    requires 0 <= c
    ensures c % 256 + 0x100 * (c / 256 % 256) == c % 0x1_0000
  {
    var a := c / 256;
    assert c == 0x1_0000 * (a / 256) + 0x100 * (a % 256) + c % 256;
  }

  lemma NibbleIs(drive: int, h: int)
    requires 0 <= h < 16
    ensures (drive * 16 + h) % 16 == h
  {
  }

  lemma HeadFits(t: int, heads: int, sectors: int)
    requires 0 <= t < heads * sectors && 0 < sectors
    ensures 0 <= t / sectors < heads
    ensures t == t / sectors * sectors + t % sectors
  {
  }

  lemma Split(p: int, m: int)
    requires 0 <= p && 0 < m
    ensures p == p / m * m + p % m && 0 <= p % m < m && 0 <= p / m
  {
  }

  lemma Monotone(x: int, y: int, m: int)
    requires x <= y && 0 < m
    ensures x * m <= y * m
  {
  }

  /** A remainder is known by its quotient. */
  lemma RemainderIs(x: int, quotient: int, m: int, rest: int)
    requires 0 < m && x == quotient * m + rest && 0 <= rest < m
    ensures x % m == rest
  {
    var q := x / m;
    assert x == q * m + x % m;
    if q < quotient {
      Monotone(1, quotient - q, m);
    } else if q > quotient {
      Monotone(1, q - quotient, m);
    }
  }

  /** Cylinder c and sector t of it, if the cylinder is kept in 16 bits. */
  lemma CylinderWraps(c: int, m: int, t: int)
    requires 0 <= c && 0 <= t < m
    ensures (c * m + t) % (0x1_0000 * m) == (c % 0x1_0000) * m + t
  {
    var h, low := c / 0x1_0000, c % 0x1_0000;
    Monotone(low + 1, 0x1_0000, m);
    Monotone(0, low, m);
    assert c * m == h * (0x1_0000 * m) + low * m by { Distributes(h, low, m); }
    RemainderIs(c * m + t, h, 0x1_0000 * m, low * m + t);
  }

  lemma Distributes(h: int, low: int, m: int)
    ensures (0x1_0000 * h + low) * m == h * (0x1_0000 * m) + low * m
  {
  }

  lemma ChsDigits(r: Regs, g: Geometry, p: int)
    requires 0 <= p && ValidGeometry(g) && !r.lba
    ensures var m := g.heads * g.sectors; 0 < m && Get(Set(r, g, p), g) == (p / m % 0x1_0000) * m + p % m
  {
    var m := g.heads * g.sectors;
    Positive(g.heads, g.sectors);
    var c, t := p / m, p % m;
    Split(p, m);
    HeadFits(t, g.heads, g.sectors);
    CylinderBytes(c);
    NibbleIs(r.driveAndHead / 16, t / g.sectors);
    ByteIs(t % g.sectors + 1);
    ByteIs(c % 256);
    ByteIs(c / 256 % 256);
  }

  lemma ChsRoundTrip(r: Regs, g: Geometry, p: int)
    requires 0 <= p && ValidGeometry(g) && !r.lba
    ensures 0 < Limit(r, g) && Get(Set(r, g, p), g) == p % Limit(r, g)
  {
    ChsDigits(r, g, p);
    Split(p, g.heads * g.sectors);
    CylinderWraps(p / (g.heads * g.sectors), g.heads * g.sectors, p % (g.heads * g.sectors));
  }

  lemma LbaDigits(p: int)
    requires 0 <= p
    ensures p % 256 + 0x100 * (p / 0x100 % 256) + 0x1_0000 * (p / 0x1_0000 % 256) + 0x100_0000 * (p / 0x100_0000 % 16)
      == p % 0x1000_0000
  {
    var a := p / 0x100;
    var b := a / 0x100;
    assert b == p / 0x1_0000;
    var c := b / 0x100;
    assert c == p / 0x100_0000;
    var d := c / 16;
    assert p == p % 256 + 0x100 * (a % 256) + 0x1_0000 * (b % 256) + 0x100_0000 * (c % 16) + 0x1000_0000 * d;
  }

  lemma LbaRoundTrip(r: Regs, g: Geometry, p: int)
    requires 0 <= p && ValidGeometry(g) && r.lba
    ensures Get(Set(r, g, p), g) == p % 0x1000_0000
  {
    LbaDigits(p);
    NibbleIs(r.driveAndHead / 16, p / 0x100_0000 % 16);
    ByteIs(p % 256);
    ByteIs(p / 0x100 % 256);
    ByteIs(p / 0x1_0000 % 256);
  }

  lemma SetKeeps(r: Regs, g: Geometry, p: int)
    requires 0 <= p && ValidGeometry(g)
    ensures Set(r, g, p).lba == r.lba
    ensures Set(r, g, p).driveAndHead / 16 == r.driveAndHead / 16
  {
  }

  /** The registers keep a sector modulo the limit of their addressing mode: they give it back exactly if it is
      below. */
  lemma RoundTrip(r: Regs, g: Geometry, p: int)
    requires 0 <= p && ValidGeometry(g)
    ensures 0 < Limit(r, g) && Get(Set(r, g, p), g) == p % Limit(r, g)
    ensures Get(Set(r, g, p), g) == p <==> p < Limit(r, g)
  {
    if r.lba { LbaRoundTrip(r, g, p); } else { ChsRoundTrip(r, g, p); }
    BelowIs(p, Limit(r, g));
  }

  lemma BelowIs(x: int, m: int)
    requires 0 <= x && 0 < m
    ensures x % m == x <==> x < m
  {
  }

  /** A transfer that ends at the limit leaves the registers at sector 0. */
  lemma LimitWraps(r: Regs, g: Geometry)
    requires ValidGeometry(g)
    ensures 0 <= Limit(r, g) && Get(Set(r, g, Limit(r, g)), g) == 0 < Limit(r, g)
  {
    Positive(g.heads, g.sectors);
    RoundTrip(r, g, Limit(r, g));
    RemainderIs(Limit(r, g), 1, Limit(r, g), 0);
  }

  /** The registers of sector s of head h of cylinder c. */
  function Chs(r: Regs, c: int, h: int, s: int): Regs {
    r.(cylinderLow := c % 256, cylinderHigh := c / 256, driveAndHead := r.driveAndHead / 16 * 16 + h, sectorNumber := s)
  }

  predicate IsPlace(g: Geometry, c: int, h: int, s: int) {
    0 <= c < 0x1_0000 && 0 <= h < g.heads && 1 <= s <= g.sectors
  }

  /** The place after a place: along the track, then to the next head, then to the next cylinder. */
  function NextPlace(g: Geometry, c: int, h: int, s: int): (int, int, int) {
    if s < g.sectors then (c, h, s + 1) else if h + 1 < g.heads then (c, h + 1, 1) else (c + 1, 0, 1)
  }

  lemma ChsGet(r: Regs, g: Geometry, c: int, h: int, s: int)
    requires ValidGeometry(g) && !r.lba && IsPlace(g, c, h, s)
    ensures Get(Chs(r, c, h, s), g) == c * (g.heads * g.sectors) + h * g.sectors + (s - 1)
  {
    NibbleIs(r.driveAndHead / 16, h);
    ByteIs(s);
    ByteIs(c % 256);
    ByteIs(c / 256);
  }

  /** CHS numbers the sectors in order: sector 1 of head 0 of cylinder 0 is sector 0 of the disk, and each place is one
      after the place before it. */
  lemma ChsNumbersInOrder(r: Regs, g: Geometry, c: int, h: int, s: int)
    requires ValidGeometry(g) && !r.lba && IsPlace(g, c, h, s)
    ensures Get(Chs(r, 0, 0, 1), g) == 0
    ensures var (c', h', s') := NextPlace(g, c, h, s);
            c' < 0x1_0000 ==> Get(Chs(r, c', h', s'), g) == Get(Chs(r, c, h, s), g) + 1
  {
    ChsGet(r, g, 0, 0, 1);
    ChsGet(r, g, c, h, s);
    var (c', h', s') := NextPlace(g, c, h, s);
    if c' < 0x1_0000 {
      ChsGet(r, g, c', h', s');
      OneMore(c, g.heads * g.sectors);
      OneMore(h, g.sectors);
    }
  }

  lemma OneMore(x: int, m: int)
    ensures (x + 1) * m == x * m + m
  {
  }

  /** What the registers are set to is a place of the disk: sector numbers start at 1, and the drive bits stay. */
  lemma SetIsPlace(r: Regs, g: Geometry, p: int)
    requires 0 <= p && ValidGeometry(g) && !r.lba
    ensures var q := Set(r, g, p);
            && 1 <= q.sectorNumber <= g.sectors && q.driveAndHead % 16 < g.heads
            && 0 <= q.cylinderLow < 256 && 0 <= q.cylinderHigh < 256
            && q.driveAndHead / 16 == r.driveAndHead / 16
  {
    Positive(g.heads, g.sectors);
    Split(p, g.heads * g.sectors);
    HeadFits(p % (g.heads * g.sectors), g.heads, g.sectors);
    NibbleIs(r.driveAndHead / 16, p % (g.heads * g.sectors) / g.sectors);
  }

  /** The registers of an LBA28 address by its digits, the lowest first. */
  function Lba(r: Regs, d0: int, d1: int, d2: int, d3: int): Regs {
    r.(sectorNumber := d0, cylinderLow := d1, cylinderHigh := d2, driveAndHead := r.driveAndHead / 16 * 16 + d3)
  }

  predicate AreDigits(d0: int, d1: int, d2: int, d3: int) {
    0 <= d0 < 256 && 0 <= d1 < 256 && 0 <= d2 < 256 && 0 <= d3 < 16
  }

  /** One more: the sector number carries into the low cylinder byte, that into the high one, and that into the head. */
  function Carried(d0: int, d1: int, d2: int, d3: int): (int, int, int, int) {
    if d0 < 255 then (d0 + 1, d1, d2, d3)
    else if d1 < 255 then (0, d1 + 1, d2, d3)
    else if d2 < 255 then (0, 0, d2 + 1, d3)
    else (0, 0, 0, d3 + 1)
  }

  lemma LbaGet(r: Regs, g: Geometry, d0: int, d1: int, d2: int, d3: int)
    requires r.lba && AreDigits(d0, d1, d2, d3)
    ensures Get(Lba(r, d0, d1, d2, d3), g) == d0 + 0x100 * d1 + 0x1_0000 * d2 + 0x100_0000 * d3
  {
    NibbleIs(r.driveAndHead / 16, d3);
    ByteIs(d0);
    ByteIs(d1);
    ByteIs(d2);
  }

  /** LBA28 numbers the sectors in order, from 0 on. */
  lemma LbaNumbersInOrder(r: Regs, g: Geometry, d0: int, d1: int, d2: int, d3: int)
    requires r.lba && AreDigits(d0, d1, d2, d3)
    ensures Get(Lba(r, 0, 0, 0, 0), g) == 0
    ensures var (e0, e1, e2, e3) := Carried(d0, d1, d2, d3);
            e3 < 16 ==> Get(Lba(r, e0, e1, e2, e3), g) == Get(Lba(r, d0, d1, d2, d3), g) + 1
  {
    LbaGet(r, g, 0, 0, 0, 0);
    LbaGet(r, g, d0, d1, d2, d3);
    var (e0, e1, e2, e3) := Carried(d0, d1, d2, d3);
    if e3 < 16 { LbaGet(r, g, e0, e1, e2, e3); }
  }

  // ---------- The protocol ----------

  /** DRQ set, BSY set, or neither. */
  datatype Phase = Idle | Ready | Busy

  /** A transfer: the sector that the address registers stand for and the limit of their mode, the sector count
      register, and the disk. */
  datatype Pio = Pio(cur: int, limit: int, count: int, phase: Phase, position: int, buffer: Bytes, disk: Bytes) {
    /** ide_get_sector_count without LBA48: 0 stands for 256. */
    function Sectors(): int {
      if count % 256 == 0 then 256 else count % 256
    }

    /** What is left after the callback of a sector: nothing if the low byte is 0. */
    function Left(): int {
      count % 256
    }

    /** The sector n after the current one, as the registers hold it. */
    function Ahead(n: int): int
      requires 0 < limit
    {
      if n == 0 || cur + n < limit then cur + n else (cur + n) % limit
    }

    /** The callbacks take one sector off the count and move the address on. */
    function Advanced(): Pio
      requires 0 < limit
    {
      this.(cur := Ahead(1), count := if count == 0 then 0xFFFF else count - 1)
    }
  }

  const SIZE := 8192

  /** How the drive answers a request: at once, or later, the buffer or the disk being in between as given. */
  datatype Answer = Now | Later(meanwhile: Bytes)

  predicate Sound(m: Pio) {
    && |m.buffer| == SIZE && 0 <= m.position < SECTOR
    && 0 <= m.cur && 0 < m.limit && 0 <= m.count < 0x1_0000
  }

  /** The current sector is on the disk. */
  predicate OnDisk(m: Pio) {
    SECTOR * (m.cur + 1) <= |m.disk|
  }

  /** The n sectors from the current one on exist, and the registers reach them. */
  predicate Reaches(m: Pio, n: int) {
    m.cur + n <= m.limit && SECTOR * (m.cur + n) <= |m.disk|
  }

  /** Under LBA28, and under CHS with at least 128 sectors a cylinder, the registers reach every sector of a disk of up
      to 4 GB: a transfer that stays on the disk stays below the limit. */
  lemma DiskWithinLimit(m: Pio, r: Regs, g: Geometry, n: int)
    requires m.limit == Limit(r, g) && |m.disk| <= 0x1_0000_0000 && (r.lba || g.heads * g.sectors >= 128)
    ensures Reaches(m, n) <==> SECTOR * (m.cur + n) <= |m.disk|
  {
  }

  lemma AdvancedLeft(m: Pio)
    requires Sound(m)
    ensures m.Advanced().Left() == m.Sectors() - 1 && 0 <= m.Advanced().count < 0x1_0000
  {
  }

  /** Moving on by one sector leaves the end of the transfer where it is. */
  lemma AdvancedAhead(m: Pio, n: int)
    requires Sound(m) && 0 < n && m.cur + n <= m.limit
    ensures 0 <= m.Advanced().cur && m.Advanced().Ahead(n - 1) == m.Ahead(n)
    ensures n > 1 ==> m.Advanced().cur == m.cur + 1
    ensures m.Advanced().cur + (n - 1) <= m.cur + n
  {
    if m.cur + 1 >= m.limit { RemainderIs(m.cur + 1, 1, m.limit, 0); }
  }

  // ---------- Reading ----------

  /** ide_read_sectors_callback, the sector being in the buffer. */
  function Fetched(m: Pio): Pio
    requires Sound(m) && OnDisk(m)
  {
    var sector := m.disk[SECTOR * m.cur..SECTOR * (m.cur + 1)];
    m.Advanced().(buffer := Overlay(m.buffer, 0, sector), phase := Ready, position := 0)
  }

  /** ide_read_sectors for one sector at a time, MAX_MULTIPLE_SECTORS being 1. */
  function Fetch(m: Pio, a: Answer): Pio
    requires Sound(m) && OnDisk(m)
  {
    match a
    case Now => Fetched(m)
    case Later(buffer) => m.(phase := Busy, buffer := buffer)
  }

  /** ide_pio_read_callback for READ SECTORS. */
  function AfterSector(m: Pio, a: Answer): Pio
    requires Sound(m) && (m.Left() > 0 ==> OnDisk(m))
  {
    if m.Left() > 0 then Fetch(m.(position := 0), a) else m.(position := 0, phase := Idle)
  }

  /** ide_pio_readb. */
  function ReadByte(m: Pio, a: Answer): (Byte, Pio)
    requires Sound(m) && (m.position + 1 == SECTOR && m.Left() > 0 ==> OnDisk(m))
  {
    (m.buffer[m.position], if m.position + 1 < SECTOR then m.(position := m.position + 1) else AfterSector(m, a))
  }

  predicate Answers(a: Answer) {
    a.Later? ==> |a.meanwhile| == SIZE
  }

  lemma OneByteMore(b: Bytes, c: Bytes, p: int, q: int)
    requires |b| == |c| == SIZE && 0 <= p < SECTOR && p < q <= p + 4
    ensures q <= SECTOR ==> b[p..q - 1] + [b[q - 1]] == b[p..q]
    ensures q == SECTOR ==> b[p..SECTOR] + c[..0] == b[p..SECTOR]
    ensures q > SECTOR ==> b[p..SECTOR] + c[..q - 1 - SECTOR] + [c[q - 1 - SECTOR]] == b[p..SECTOR] + c[..q - SECTOR]
  {
  }

  /** The callback of a sector may run before the nth byte from here is read. */
  predicate MayReadOn(m: Pio, n: nat) {
    m.position + n >= SECTOR && m.Left() > 0 ==> OnDisk(m)
  }

  /** n byte reads: the bytes of the sector and, past its end, those that the callback has left in the buffer. */
  function ReadBytes(m: Pio, n: nat, a: Answer): (r: (Bytes, Pio))
    requires Sound(m) && MayReadOn(m, n) && Answers(a) && n <= 4
    ensures var q := m.position + n;
            if q < SECTOR then r == (m.buffer[m.position..q], m.(position := q))
            else
              var c := AfterSector(m, a);
              r == (m.buffer[m.position..SECTOR] + c.buffer[..q - SECTOR], c.(position := q - SECTOR))
  {
    if n == 0 then assert m.buffer[m.position..m.position] == []; ([], m)
    else
      var (front, f) := ReadBytes(m, n - 1, a);
      var (b, l) := ReadByte(f, a);
      var next := if m.position + n < SECTOR then m.buffer else AfterSector(m, a).buffer;
      OneByteMore(m.buffer, next, m.position, m.position + n);
      (front + [b], l)
  }

  /** One byte more: only the answer at the end of the sector matters. */
  lemma ReadOneMore(m: Pio, n: nat, a: Answer, last: Answer)
    requires Sound(m) && MayReadOn(m, n + 1) && Answers(a) && Answers(last) && n < 4
    ensures var (front, f) := ReadBytes(m, n, a);
            && MayReadOn(f, 1)
            && var (b, l) := ReadByte(f, last);
               ReadBytes(m, n + 1, if m.position + n + 1 == SECTOR then last else a) == (front + [b], l)
  {
    if m.position + n < SECTOR { assert ReadBytes(m, n, a) == ReadBytes(m, n, last); }
  }

  /** Sectors that a read still has to fetch. */
  function ToFetch(m: Pio): int {
    match m.phase case Idle => 0 case Ready => m.Left() case Busy => m.Sectors()
  }

  ghost predicate Reading(m: Pio) {
    Sound(m) && (m.phase == Idle || Reaches(m, ToFetch(m)))
  }

  /** The bytes of n sectors. */
  ghost function SectorsFrom(disk: Bytes, p: int, n: int): (r: Bytes)
    requires 0 <= p && 0 <= n && SECTOR * (p + n) <= |disk|
    ensures |r| == SECTOR * n
  {
    disk[SECTOR * p..SECTOR * (p + n)]
  }

  /** The bytes of the sectors that a read still has to fetch. */
  ghost function Rest(m: Pio): Bytes
    requires Reading(m) && m.phase != Idle
  {
    SectorsFrom(m.disk, m.cur, ToFetch(m))
  }

  /** The bytes that the program has still to read. */
  ghost function Stream(m: Pio): Bytes
    requires Reading(m)
  {
    match m.phase
    case Idle => []
    case Ready => m.buffer[m.position..SECTOR] + Rest(m)
    case Busy => Rest(m)
  }

  /** Where the registers will end. */
  function End(m: Pio): int
    requires 0 < m.limit
  {
    m.Ahead(ToFetch(m))
  }

  /** What no event of a read changes. */
  ghost predicate SameRead(m: Pio, f: Pio) {
    Reading(m) && Reading(f) && f.disk == m.disk && f.limit == m.limit && End(f) == End(m)
  }

  lemma FirstSector(disk: Bytes, p: int, n: int)
    requires 0 <= p && 0 < n && SECTOR * (p + n) <= |disk|
    ensures SectorsFrom(disk, p, 1) + SectorsFrom(disk, p + 1, n - 1) == SectorsFrom(disk, p, n)
  {
  }

  lemma FetchedStream(m: Pio)
    requires Reading(m) && m.phase == Busy
    ensures var f := Fetched(m);
            SameRead(m, f) && f.phase == Ready && f.position == 0 && Stream(f) == Stream(m)
  {
    AdvancedLeft(m);
    AdvancedAhead(m, m.Sectors());
    var f, n := Fetched(m), m.Sectors();
    FirstSector(m.disk, m.cur, n);
    assert f.buffer[0..SECTOR] == SectorsFrom(m.disk, m.cur, 1);
    if n == 1 { assert SectorsFrom(m.disk, f.cur, 0) == SectorsFrom(m.disk, m.cur + 1, 0); }
  }

  /** The callback at the end of a sector. */
  lemma AfterSectorStream(m: Pio, a: Answer)
    requires Reading(m) && m.phase == Ready && Answers(a)
    ensures var c := AfterSector(m, a);
            && SameRead(m, c) && |c.buffer| == SIZE && c.position == 0 && Stream(c) == Rest(m)
            && c.phase == (if m.Left() == 0 then Idle else if a.Now? then Ready else Busy)
  {
    if m.Left() > 0 && a.Now? { FetchedStream(m.(position := 0, phase := Busy)); }
  }

  /** An access of n bytes runs past its sector only into one that is there at once. */
  predicate InOrder(m: Pio, n: nat, a: Answer) {
    m.position + n > SECTOR ==> a.Now? && m.Left() > 0
  }

  lemma Associates(a: Bytes, b: Bytes, c: Bytes)
    ensures a + (b + c) == a + b + c
  {
  }

  /** An access that ends before its sector does. */
  lemma ReadInSector(m: Pio, n: nat)
    requires Reading(m) && m.phase == Ready && m.position + n < SECTOR
    ensures var f := m.(position := m.position + n);
            SameRead(m, f) && m.buffer[m.position..m.position + n] + Stream(f) == Stream(m)
  {
    var f := m.(position := m.position + n);
    SplitAt(m.buffer, m.position, f.position, SECTOR, Rest(m));
  }

  lemma SplitAt(b: Bytes, i: int, j: int, k: int, rest: Bytes)
    requires 0 <= i <= j <= k <= |b|
    ensures b[i..k] + rest == b[i..j] + (b[j..k] + rest)
  {
  }

  /** k bytes of the sector that the callback has left, if there is one. */
  lemma ReadOfNext(m: Pio, a: Answer, k: nat)
    requires Reading(m) && m.phase == Ready && Answers(a) && k < 4
    ensures var c := AfterSector(m, a);
            var l := c.(position := k);
            && |c.buffer| == SIZE && SameRead(m, l)
            && (if k == 0 || (a.Now? && m.Left() > 0) then c.buffer[..k] + Stream(l) == Rest(m)
                else k + |Stream(l)| > |Rest(m)|)
  {
    AfterSectorStream(m, a);
    var c := AfterSector(m, a);
    if c.phase == Ready {
      ReadInSector(c, k);
    } else {
      assert Stream(c.(position := k)) == Stream(c);
      if k == 0 { assert [] + Stream(c) == Stream(c); }
    }
  }

  /** What a step or a run of a read gives: the next bytes of the stream, or bytes beside it. */
  ghost predicate ReadsOn(m: Pio, bytes: Bytes, f: Pio, inOrder: bool) {
    && SameRead(m, f)
    && (if inOrder then bytes + Stream(f) == Stream(m) else |bytes| + |Stream(f)| > |Stream(m)|)
  }

  lemma ReadPastEnd(m: Pio, n: nat, a: Answer)
    requires Reading(m) && m.phase == Ready && Answers(a) && n <= 4 && m.position + n >= SECTOR
    ensures var (bytes, f) := ReadBytes(m, n, a); |bytes| == n && ReadsOn(m, bytes, f, InOrder(m, n, a))
  {
    var k, c := m.position + n - SECTOR, AfterSector(m, a);
    ReadOfNext(m, a, k);
    Associates(m.buffer[m.position..SECTOR], c.buffer[..k], Stream(c.(position := k)));
  }

  lemma ReadBeforeEnd(m: Pio, n: nat, a: Answer)
    requires Reading(m) && m.phase == Ready && Answers(a) && n <= 4 && m.position + n < SECTOR
    ensures var (bytes, f) := ReadBytes(m, n, a); |bytes| == n && ReadsOn(m, bytes, f, true)
  {
    ReadInSector(m, n);
  }

  /** An access reads the next bytes of the stream exactly if it is in order; if not, it reads bytes beside the
      stream. */
  lemma ReadBytesStream(m: Pio, n: nat, a: Answer)
    requires Reading(m) && m.phase == Ready && Answers(a) && n <= 4
    ensures var (bytes, f) := ReadBytes(m, n, a); |bytes| == n && ReadsOn(m, bytes, f, InOrder(m, n, a))
  {
    if m.position + n < SECTOR { ReadBeforeEnd(m, n, a); } else { ReadPastEnd(m, n, a); }
  }

  lemma CommonStart(a: Bytes, b: Bytes, c: Bytes)
    ensures a + b <= a + c <==> b <= c
  {
    assert (a + b)[|a|..] == b && (a + c)[|a|..] == c;
  }

  /** An access that runs past its sector reads the next bytes of the stream exactly if the drive answers at once, or
      the buffer happens to hold them already; in the second case they are handed out once more. */
  lemma StraddlingRead(m: Pio, n: nat, a: Answer)
    requires Reading(m) && m.phase == Ready && Answers(a) && n <= 4 && m.position + n > SECTOR && m.Left() > 0
    ensures var (bytes, f) := ReadBytes(m, n, a);
            && (bytes <= Stream(m) <==> a.Now? || a.meanwhile[..m.position + n - SECTOR] <= Rest(m))
            && Reading(f) && (bytes + Stream(f) == Stream(m) <==> a.Now?)
  {
    ReadBytesStream(m, n, a);
    var (bytes, f) := ReadBytes(m, n, a);
    if a.Now? {
      assert bytes <= bytes + Stream(f);
    } else {
      CommonStart(m.buffer[m.position..SECTOR], a.meanwhile[..m.position + n - SECTOR], Rest(m));
      assert |bytes + Stream(f)| == |bytes| + |Stream(f)|;
    }
  }

  /** A word read at the last byte of the first of two sectors: its high byte is the stale first byte of the buffer. */
  lemma StaleRead()
    ensures var buffer, disk := seq(SIZE, _ => 1), seq(2 * SECTOR, k => if k < SECTOR then 1 else 2);
            var m := Pio(1, 0x1000_0000, 1, Ready, SECTOR - 1, buffer, disk);
            Reading(m) && ReadBytes(m, 2, Later(buffer)).0 == [1, 1] && Stream(m)[..2] == [1, 2]
  {
  }

  /** What the program and the drive do to a read: the program takes one, two or four bytes if DRQ is set; a drive that
      is busy completes. */
  datatype ReadEvent = Take(width: nat, answer: Answer) | Complete

  predicate Width(n: int) {
    n == 1 || n == 2 || n == 4
  }

  ghost predicate AllAnswer(events: seq<ReadEvent>) {
    forall e | e in events :: e.Take? ==> Width(e.width) && Answers(e.answer)
  }

  function ReadStep(m: Pio, e: ReadEvent): (Bytes, Pio)
    requires Sound(m) && (m.phase != Idle && ToFetch(m) > 0 ==> OnDisk(m))
    requires e.Take? ==> Width(e.width) && Answers(e.answer)
  {
    match e
    case Take(n, a) => if m.phase == Ready then ReadBytes(m, n, a) else ([], m)
    case Complete => if m.phase == Busy then ([], Fetched(m)) else ([], m)
  }

  predicate StepInOrder(m: Pio, e: ReadEvent) {
    e.Take? && m.phase == Ready ==> InOrder(m, e.width, e.answer)
  }

  lemma ReadStepStream(m: Pio, e: ReadEvent)
    requires Reading(m) && (e.Take? ==> Width(e.width) && Answers(e.answer))
    ensures var (bytes, f) := ReadStep(m, e);
            ReadsOn(m, bytes, f, StepInOrder(m, e))
  {
    if e.Take? && m.phase == Ready { ReadBytesStream(m, e.width, e.answer); }
    if e.Complete? && m.phase == Busy { FetchedStream(m); }
  }

  /** The bytes that the program gets, and the controller after the events. */
  ghost function ReadRun(m: Pio, events: seq<ReadEvent>): (r: (Bytes, Pio))
    requires Reading(m) && AllAnswer(events)
    ensures Reading(r.1)
    decreases |events|
  {
    if events == [] then ([], m)
    else
      ReadStepStream(m, events[0]);
      var (bytes, f) := ReadStep(m, events[0]);
      var (more, l) := ReadRun(f, events[1..]);
      (bytes + more, l)
  }

  /** No access of the run goes past its sector, unless another one follows and the drive has it at once. */
  ghost predicate ReadsInOrder(m: Pio, events: seq<ReadEvent>)
    requires Reading(m) && AllAnswer(events)
    decreases |events|
  {
    events != [] ==>
      StepInOrder(m, events[0]) && (ReadStepStream(m, events[0]); ReadsInOrder(ReadStep(m, events[0]).1, events[1..]))
  }

  lemma {:induction false} ReadRunStream(m: Pio, events: seq<ReadEvent>)
    requires Reading(m) && AllAnswer(events)
    ensures var (bytes, l) := ReadRun(m, events);
            ReadsOn(m, bytes, l, ReadsInOrder(m, events))
    decreases |events|
  {
    if events != [] {
      ReadStepStream(m, events[0]);
      var (bytes, f) := ReadStep(m, events[0]);
      ReadRunStream(f, events[1..]);
      var (more, l) := ReadRun(f, events[1..]);
      Associates(bytes, more, Stream(l));
    }
  }

  /** The n sectors that a READ SECTORS command asks for. */
  ghost function Wanted(m: Pio): Bytes
    requires Sound(m) && Reaches(m, m.Sectors())
  {
    SectorsFrom(m.disk, m.cur, m.Sectors())
  }

  lemma FirstFetch(m: Pio, a: Answer)
    requires Sound(m) && Reaches(m, m.Sectors()) && Answers(a)
    ensures var f := Fetch(m, a);
            && Reading(f) && f.phase != Idle && Stream(f) == Wanted(m) && f.disk == m.disk && f.limit == m.limit
            && End(f) == m.Ahead(m.Sectors())
  {
    var b := m.(phase := Busy);
    if a.Now? {
      FetchedStream(b);
      assert Fetch(m, a) == Fetched(b);
    }
  }

  /** READ SECTORS of n sectors from p, by any mix of 8-, 16- and 32-bit accesses and whatever the drive's answers:
      nothing of the bytes p * 512 to (p + n) * 512 is lost, repeated or reordered exactly if the accesses are in order.
      Then what the program has read is the start of them, DRQ and BSY are clear exactly when it has read them all, and
      the current sector is p + n. */
  lemma ReadSectors(m: Pio, a: Answer, events: seq<ReadEvent>)
    requires Sound(m) && Reaches(m, m.Sectors()) && Answers(a) && AllAnswer(events)
    ensures Reading(Fetch(m, a))
    ensures var (bytes, l) := ReadRun(Fetch(m, a), events);
            && (bytes + Stream(l) == Wanted(m) <==> ReadsInOrder(Fetch(m, a), events))
            && (ReadsInOrder(Fetch(m, a), events) ==> bytes <= Wanted(m) && (l.phase == Idle <==> bytes == Wanted(m)))
            && l.disk == m.disk && (l.phase == Idle ==> l.cur == m.Ahead(m.Sectors()))
  {
    FirstFetch(m, a);
    ReadRunStream(Fetch(m, a), events);
    var (bytes, l) := ReadRun(Fetch(m, a), events);
    WholeRead(bytes, Stream(l), Wanted(m));
    if l.phase == Ready { assert |Stream(l)| > 0; }
  }

  lemma WholeRead(bytes: Bytes, left: Bytes, wanted: Bytes)
    requires bytes + left == wanted || |bytes| + |left| > |wanted|
    ensures bytes + left == wanted <==> |bytes| + |left| <= |wanted|
    ensures bytes + left == wanted ==> bytes <= wanted && (left == [] <==> bytes == wanted)
  {
    assert |bytes + left| == |bytes| + |left|;
  }

  // ---------- Writing ----------

  /** ide_write_sectors for one sector at a time. */
  function Expect(m: Pio): Pio {
    m.(phase := Ready, position := 0)
  }

  /** drive_write_callback, the sector being on the disk. */
  function Stored(m: Pio): Pio
    requires 0 < m.limit
  {
    var next := m.Advanced();
    if next.Left() > 0 then Expect(next) else next.(phase := Idle)
  }

  /** The sector in the buffer, written at the current place. */
  function SectorStored(m: Pio): (r: Bytes)
    requires Sound(m) && OnDisk(m)
    ensures |r| == |m.disk|
  {
    Overlay(m.disk, SECTOR * m.cur, m.buffer[..SECTOR])
  }

  /** ide_pio_write_callback. The drive keeps the buffer itself as the argument of a write that it finishes later. */
  function SectorFull(m: Pio, a: Answer): Pio
    requires Sound(m) && OnDisk(m)
  {
    match a
    case Now => Stored(m.(position := 0, disk := SectorStored(m)))
    case Later(disk) => m.(position := 0, phase := Busy, disk := disk)
  }

  /** ide_pio_writeb. */
  function WriteByte(m: Pio, b: Byte, a: Answer): Pio
    requires Sound(m) && (m.position + 1 == SECTOR ==> OnDisk(m))
  {
    var f := m.(buffer := m.buffer[m.position := b]);
    if m.position + 1 < SECTOR then f.(position := m.position + 1) else SectorFull(f, a)
  }

  lemma OverlayOneMore(d: Bytes, p: int, bytes: Bytes)
    requires bytes != [] && 0 <= p && p + |bytes| <= |d|
    ensures var k := |bytes| - 1; Overlay(d, p, bytes[..k])[p + k := bytes[k]] == Overlay(d, p, bytes)
  {
  }

  lemma OverlayNothing(d: Bytes, p: int)
    requires 0 <= p <= |d|
    ensures Overlay(d, p, []) == d
  {
  }

  /** The bytes of an access that still belong to the current sector. */
  function Own(m: Pio, bytes: Bytes): Bytes
    requires Sound(m) && m.position + |bytes| >= SECTOR
  {
    bytes[..SECTOR - m.position]
  }

  /** Those past its end. */
  function Extra(m: Pio, bytes: Bytes): Bytes
    requires Sound(m) && m.position + |bytes| >= SECTOR
  {
    bytes[SECTOR - m.position..]
  }

  /** The controller with its buffer filled to the end of the sector. */
  function Filled(m: Pio, bytes: Bytes): Pio
    requires Sound(m) && m.position + |bytes| >= SECTOR
  {
    m.(buffer := Overlay(m.buffer, m.position, Own(m, bytes)))
  }

  predicate MayWriteOn(m: Pio, n: nat) {
    m.position + n >= SECTOR ==> OnDisk(m)
  }

  /** An access that stores its bytes at once: those past the end of the sector go to the start of the buffer, after the
      callback has run. */
  function Written(m: Pio, bytes: Bytes, a: Answer): Pio
    requires Sound(m) && |bytes| <= 4 && MayWriteOn(m, |bytes|)
  {
    var q := m.position + |bytes|;
    if q < SECTOR then m.(buffer := Overlay(m.buffer, m.position, bytes), position := q)
    else
      var f := SectorFull(Filled(m, bytes), a);
      f.(buffer := Overlay(f.buffer, 0, Extra(m, bytes)), position := q - SECTOR)
  }

  lemma OwnOneMore(m: Pio, bytes: Bytes, a: Answer)
    requires Sound(m) && 0 < |bytes| <= 4 && MayWriteOn(m, |bytes|) && m.position + |bytes| <= SECTOR
    ensures var k := |bytes| - 1;
            WriteByte(Written(m, bytes[..k], a), bytes[k], a) == Written(m, bytes, a)
  {
    OverlayOneMore(m.buffer, m.position, bytes);
    if m.position + |bytes| == SECTOR {
      assert Own(m, bytes) == bytes;
      OverlayNothing(Filled(m, bytes).buffer, 0);
    }
  }

  lemma ExtraOneMore(m: Pio, bytes: Bytes, a: Answer)
    requires Sound(m) && 0 < |bytes| <= 4 && OnDisk(m) && m.position + |bytes| > SECTOR
    ensures var k := |bytes| - 1;
            var f := Written(m, bytes[..k], a);
            Sound(f) && f.position < 4 && WriteByte(f, bytes[k], a) == Written(m, bytes, a)
  {
    var front, extra := bytes[..|bytes| - 1], Extra(m, bytes);
    assert Own(m, front) == Own(m, bytes) && Extra(m, front) == extra[..|extra| - 1];
    OverlayOneMore(Filled(m, bytes).buffer, 0, extra);
  }

  lemma WrittenOneMore(m: Pio, bytes: Bytes, a: Answer)
    requires Sound(m) && 0 < |bytes| <= 4 && MayWriteOn(m, |bytes|)
    ensures var k := |bytes| - 1;
            var f := Written(m, bytes[..k], a);
            Sound(f) && MayWriteOn(f, 1) && WriteByte(f, bytes[k], a) == Written(m, bytes, a)
  {
    if m.position + |bytes| <= SECTOR { OwnOneMore(m, bytes, a); } else { ExtraOneMore(m, bytes, a); }
  }

  /** Byte writes have the effect of one access that stores them at once. */
  function WriteBytes(m: Pio, bytes: Bytes, a: Answer): (r: Pio)
    requires Sound(m) && |bytes| <= 4 && MayWriteOn(m, |bytes|)
    ensures r == Written(m, bytes, a)
  {
    if bytes == [] then
      OverlayNothing(m.buffer, m.position);
      m
    else
      var k := |bytes| - 1;
      WrittenOneMore(m, bytes, a);
      WriteByte(WriteBytes(m, bytes[..k], a), bytes[k], a)
  }

  /** Sectors that a write still has to store. */
  function ToStore(m: Pio): int {
    if m.phase == Idle then 0 else m.Sectors()
  }

  ghost predicate Writing(m: Pio) {
    Sound(m) && (m.phase != Idle ==> Reaches(m, m.Sectors()))
  }

  /** Bytes that the program has still to hand over. */
  function Room(m: Pio): (n: int)
    requires Sound(m)
    ensures n >= 0
  {
    match m.phase
    case Idle => 0
    case Ready => SECTOR * m.Sectors() - m.position
    case Busy => SECTOR * (m.Sectors() - 1)
  }

  /** The disk with all that the program has handed over. */
  ghost function Target(m: Pio): (r: Bytes)
    requires Writing(m)
    ensures |r| == |m.disk|
  {
    match m.phase
    case Idle => m.disk
    case Ready => Overlay(m.disk, SECTOR * m.cur, m.buffer[..m.position])
    case Busy => SectorStored(m)
  }

  /** A write up to sector `end`, at which the registers stand for sector `last`. */
  ghost predicate WritingTo(m: Pio, end: int, last: int) {
    && Writing(m) && 0 <= SECTOR * end - Room(m) <= SECTOR * end <= |m.disk|
    && (m.phase != Idle ==> m.cur + m.Sectors() == end)
    && m.Ahead(ToStore(m)) == last
  }

  /** The place on the disk of the byte that the program hands over next. */
  function Place(m: Pio, end: int): int
    requires Sound(m)
  {
    SECTOR * end - Room(m)
  }

  /** A disk that answers later may have taken any part of the sector. */
  ghost predicate MayLeave(m: Pio, bytes: Bytes, a: Answer)
    requires Sound(m) && MayWriteOn(m, |bytes|)
  {
    a.Later? && m.position + |bytes| >= SECTOR ==>
      && |a.meanwhile| == |m.disk|
      && SectorStored(Filled(m, bytes).(disk := a.meanwhile)) == SectorStored(Filled(m, bytes))
  }

  /** What a step or a run amounts to: a flat write of the bytes handed over, or lost bytes. */
  ghost predicate Flat(m: Pio, given: Bytes, l: Pio, end: int, inOrder: bool)
    requires Writing(m) && Writing(l)
  {
    && |l.disk| == |m.disk|
    && (if inOrder
        then Room(l) == Room(m) - |given| && 0 <= Place(m, end) && Place(m, end) + |given| <= |m.disk|
             && Target(l) == Overlay(Target(m), Place(m, end), given)
        else Room(l) > Room(m) - |given|)
  }

  lemma OverlayNext(d: Bytes, p: int, buffer: Bytes, n: int, bytes: Bytes)
    requires 0 <= p && 0 <= n && n + |bytes| <= |buffer| && p + n + |bytes| <= |d|
    ensures Overlay(d, p, Overlay(buffer, n, bytes)[..n + |bytes|]) == Overlay(Overlay(d, p, buffer[..n]), p + n, bytes)
  {
    assert Overlay(buffer, n, bytes)[..n + |bytes|] == buffer[..n] + bytes;
    OverlayConcat(d, p, buffer[..n], bytes);
  }

  /** The sector on the disk: what follows starts with the next one. */
  lemma StoredTarget(m: Pio, end: int, last: int)
    requires WritingTo(m, end, last) && m.phase == Busy
    ensures var f := Stored(m.(disk := SectorStored(m)));
            && WritingTo(f, end, last) && f.phase != Busy && (f.phase == Ready <==> m.Sectors() > 1)
               && f.position <= m.position
            && f.buffer == m.buffer && Target(f) == Target(m) && Room(f) == Room(m)
            && f.disk == Target(m) && |f.disk| == |m.disk|
  {
    AdvancedLeft(m);
    AdvancedAhead(m, m.Sectors());
    var f := Stored(m.(disk := SectorStored(m)));
    assert f.buffer[..0] == [];
    if f.phase == Ready { OverlayNothing(f.disk, SECTOR * f.cur); }
  }

  /** An access of these bytes runs past its sector only into one that the drive is ready for. */
  predicate WriteInOrder(m: Pio, n: nat, a: Answer) {
    m.position + n > SECTOR ==> a.Now? && m.Sectors() > 1
  }

  /** The full sector, before it is stored. */
  lemma FilledTarget(m: Pio, bytes: Bytes, end: int, last: int)
    requires WritingTo(m, end, last) && m.phase == Ready && |bytes| <= 4 && m.position + |bytes| >= SECTOR
    ensures var f := Filled(m, bytes).(position := 0, phase := Busy);
            && WritingTo(f, end, last) && Room(f) == Room(m) - |Own(m, bytes)|
            && Target(f) == Overlay(Target(m), Place(m, end), Own(m, bytes))
  {
    OverlayNext(m.disk, SECTOR * m.cur, m.buffer, m.position, Own(m, bytes));
  }

  lemma TakenLater(m: Pio, disk: Bytes, end: int, last: int)
    requires WritingTo(m, end, last) && m.phase == Busy && |disk| == |m.disk|
    requires SectorStored(m.(disk := disk)) == SectorStored(m)
    ensures var f := m.(disk := disk); WritingTo(f, end, last) && Room(f) == Room(m) && Target(f) == Target(m)
  {
  }

  /** The bytes of an access up to the end of the sector. */
  lemma OwnTarget(m: Pio, bytes: Bytes, a: Answer, end: int, last: int)
    requires WritingTo(m, end, last) && m.phase == Ready && |bytes| <= 4 && m.position + |bytes| >= SECTOR
    requires MayLeave(m, bytes, a)
    ensures var f := SectorFull(Filled(m, bytes), a);
            && WritingTo(f, end, last) && f.position == 0 && |f.disk| == |m.disk| && f.buffer == Filled(m, bytes).buffer
            && Room(f) == Room(m) - |Own(m, bytes)| && Target(f) == Overlay(Target(m), Place(m, end), Own(m, bytes))
            && f.phase == (if a.Later? then Busy else if m.Sectors() > 1 then Ready else Idle)
            && (a.Now? ==> f.disk == Target(f))
  {
    FilledTarget(m, bytes, end, last);
    if a.Now? {
      StoredTarget(Filled(m, bytes).(position := 0, phase := Busy), end, last);
    } else {
      TakenLater(Filled(m, bytes).(position := 0, phase := Busy), a.meanwhile, end, last);
    }
  }

  /** Bytes at the start of a sector. */
  lemma ExtraTarget(m: Pio, extra: Bytes, end: int, last: int)
    requires WritingTo(m, end, last) && m.position == 0 && |extra| < 4
    ensures var f := m.(buffer := Overlay(m.buffer, 0, extra), position := |extra|);
            && WritingTo(f, end, last)
            && (m.phase == Ready ==>
                  Room(f) == Room(m) - |extra| && Target(f) == Overlay(Target(m), Place(m, end), extra))
            && (m.phase != Ready ==> Room(f) == Room(m))
  {
    if m.phase == Ready { OverlayNext(m.disk, SECTOR * m.cur, m.buffer, 0, extra); }
  }

  /** The bytes of an access on both sides of the end of the sector. */
  lemma JoinsExtra(m: Pio, own: Bytes, extra: Bytes, f: Pio, end: int, last: int)
    requires WritingTo(m, end, last) && WritingTo(f, end, last) && |f.disk| == |m.disk| && f.position == 0
        && |extra| < 4
    requires Room(f) == Room(m) - |own| && Place(m, end) + |own| <= |m.disk|
    requires Target(f) == Overlay(Target(m), Place(m, end), own)
    ensures var l := f.(buffer := Overlay(f.buffer, 0, extra), position := |extra|);
            && WritingTo(l, end, last)
            && (if f.phase == Ready
                then Room(l) == Room(m) - |own + extra| && Target(l) == Overlay(Target(m), Place(m, end), own + extra)
                else Room(l) == Room(m) - |own| && (extra == [] ==> Target(l) == Target(f)))
  {
    ExtraTarget(f, extra, end, last);
    if f.phase == Ready {
      OverlayConcat(Target(m), Place(m, end), own, extra);
    } else if extra == [] {
      OverlayNothing(f.buffer, 0);
    }
  }

  lemma OwnAndExtra(m: Pio, bytes: Bytes)
    requires Sound(m) && m.position + |bytes| >= SECTOR
    ensures Own(m, bytes) + Extra(m, bytes) == bytes
    ensures |Own(m, bytes)| == SECTOR - m.position && |Extra(m, bytes)| == m.position + |bytes| - SECTOR
    ensures m.position + |bytes| == SECTOR ==> Own(m, bytes) == bytes
  {
  }

  lemma InSectorTarget(m: Pio, bytes: Bytes, a: Answer, end: int, last: int)
    requires WritingTo(m, end, last) && m.phase == Ready && |bytes| <= 4 && m.position + |bytes| < SECTOR
    ensures var f := Written(m, bytes, a);
            WritingTo(f, end, last) && Flat(m, bytes, f, end, WriteInOrder(m, |bytes|, a))
  {
    OverlayNext(m.disk, SECTOR * m.cur, m.buffer, m.position, bytes);
  }

  lemma PastEndTarget(m: Pio, bytes: Bytes, a: Answer, end: int, last: int)
    requires WritingTo(m, end, last) && m.phase == Ready && |bytes| <= 4 && m.position + |bytes| >= SECTOR
    requires MayLeave(m, bytes, a)
    ensures var f := Written(m, bytes, a);
            WritingTo(f, end, last) && Flat(m, bytes, f, end, WriteInOrder(m, |bytes|, a))
  {
    OwnTarget(m, bytes, a, end, last);
    OwnAndExtra(m, bytes);
    JoinsExtra(m, Own(m, bytes), Extra(m, bytes), SectorFull(Filled(m, bytes), a), end, last);
  }

  /** An access puts its bytes at their place exactly if it is in order; if not, the controller loses some of them. */
  lemma WriteBytesTarget(m: Pio, bytes: Bytes, a: Answer, end: int, last: int)
    requires WritingTo(m, end, last) && m.phase == Ready && |bytes| <= 4 && MayLeave(m, bytes, a)
    ensures var f := WriteBytes(m, bytes, a);
            WritingTo(f, end, last) && Flat(m, bytes, f, end, WriteInOrder(m, |bytes|, a))
  {
    if m.position + |bytes| < SECTOR {
      InSectorTarget(m, bytes, a, end, last);
    } else {
      PastEndTarget(m, bytes, a, end, last);
    }
  }

  /** The program hands over one, two or four bytes if DRQ is set; a drive that is busy completes. */
  datatype WriteEvent = Give(bytes: Bytes, answer: Answer) | Finish

  function WriteStep(m: Pio, e: WriteEvent): Pio
    requires Sound(m) && (m.phase != Idle ==> OnDisk(m)) && (e.Give? ==> Width(|e.bytes|))
  {
    match e
    case Give(bytes, a) => if m.phase == Ready then WriteBytes(m, bytes, a) else m
    case Finish => if m.phase == Busy then Stored(m.(disk := SectorStored(m))) else m
  }

  /** The drive keeps the buffer while it is busy, so that the bytes past the end of the sector go into the sector
      itself: it ends on the disk as handed over exactly if the drive answers at once, or those bytes are already there.
      If the drive answers later they are also missing from the next sector. */
  lemma StraddlingWrite(m: Pio, bytes: Bytes, a: Answer, end: int, last: int)
    requires WritingTo(m, end, last) && m.phase == Ready && Width(|bytes|) && m.position + |bytes| > SECTOR
    requires MayLeave(m, bytes, a)
    ensures var f := WriteBytes(m, bytes, a);
            && WritingTo(f, end, last)
            && var g := WriteStep(f, Finish);
               && (g.disk == Overlay(Target(m), Place(m, end), Own(m, bytes))
                   <==> a.Now? || Extra(m, bytes) <= Filled(m, bytes).buffer)
               && (a.Later? ==> Sound(g) && Room(g) == Room(m) - |Own(m, bytes)|)
  {
    WriteBytesTarget(m, bytes, a, end, last);
    OwnTarget(m, bytes, a, end, last);
    if a.Later? {
      var f := WriteBytes(m, bytes, a);
      StoredTarget(f, end, last);
      OtherSector(a.meanwhile, m.disk, SECTOR * m.cur, f.buffer[..SECTOR], Filled(m, bytes).buffer[..SECTOR]);
      OverlaySame(Filled(m, bytes).buffer, Extra(m, bytes));
    }
  }

  /** Two disks that agree beside a place agree if the same bytes are written there. */
  lemma OtherSector(d: Bytes, e: Bytes, p: int, a: Bytes, b: Bytes)
    requires |d| == |e| && |a| == |b| && 0 <= p && p + |a| <= |d| && Overlay(d, p, b) == Overlay(e, p, b)
    ensures Overlay(d, p, a) == Overlay(e, p, b) <==> a == b
  {
    assert Overlay(d, p, a)[p..p + |a|] == a && Overlay(d, p, b)[p..p + |a|] == b;
  }

  lemma OverlaySame(buffer: Bytes, bytes: Bytes)
    requires |bytes| < SECTOR <= |buffer|
    ensures Overlay(buffer, 0, bytes)[..SECTOR] == buffer[..SECTOR] <==> bytes <= buffer
  {
    var r := Overlay(buffer, 0, bytes);
    assert r[..SECTOR][..|bytes|] == bytes && buffer[..SECTOR][..|bytes|] == buffer[..|bytes|];
    if bytes <= buffer { assert r == buffer; }
  }

  ghost predicate MayHappen(m: Pio, e: WriteEvent)
    requires Writing(m)
  {
    e.Give? ==> Width(|e.bytes|) && (m.phase == Ready ==> MayLeave(m, e.bytes, e.answer))
  }

  /** The bytes of an event that the program hands over. */
  function Given(m: Pio, e: WriteEvent): Bytes {
    if e.Give? && m.phase == Ready then e.bytes else []
  }

  predicate GivenInOrder(m: Pio, e: WriteEvent) {
    e.Give? && m.phase == Ready ==> WriteInOrder(m, |e.bytes|, e.answer)
  }

  lemma WriteStepTarget(m: Pio, e: WriteEvent, end: int, last: int)
    requires WritingTo(m, end, last) && MayHappen(m, e)
    ensures var f := WriteStep(m, e);
            WritingTo(f, end, last) && Flat(m, Given(m, e), f, end, GivenInOrder(m, e))
  {
    if e.Give? && m.phase == Ready {
      WriteBytesTarget(m, e.bytes, e.answer, end, last);
    } else {
      OverlayNothing(Target(m), Place(m, end));
      if e.Finish? && m.phase == Busy { StoredTarget(m, end, last); }
    }
  }

  /** A run in which each answer of the drive is a possible one. */
  ghost predicate WriteRunPossible(m: Pio, events: seq<WriteEvent>, end: int, last: int)
    requires WritingTo(m, end, last)
    decreases |events|
  {
    events != [] ==>
      && MayHappen(m, events[0])
      && (WriteStepTarget(m, events[0], end, last); WriteRunPossible(WriteStep(m, events[0]), events[1..], end, last))
  }

  /** The bytes that the program hands over, and the controller after the events. */
  ghost function WriteRun(m: Pio, events: seq<WriteEvent>, end: int, last: int): (r: (Bytes, Pio))
    requires WritingTo(m, end, last) && WriteRunPossible(m, events, end, last)
    ensures WritingTo(r.1, end, last)
    decreases |events|
  {
    if events == [] then ([], m)
    else
      WriteStepTarget(m, events[0], end, last);
      var (bytes, l) := WriteRun(WriteStep(m, events[0]), events[1..], end, last);
      (Given(m, events[0]) + bytes, l)
  }

  /** No access of the run goes past its sector, unless the drive is ready for the next one at once. */
  ghost predicate WritesInOrder(m: Pio, events: seq<WriteEvent>, end: int, last: int)
    requires WritingTo(m, end, last) && WriteRunPossible(m, events, end, last)
    decreases |events|
  {
    events != [] ==>
      && GivenInOrder(m, events[0])
      && (WriteStepTarget(m, events[0], end, last); WritesInOrder(WriteStep(m, events[0]), events[1..], end, last))
  }

  lemma WriteRunUnfolds(m: Pio, events: seq<WriteEvent>, end: int, last: int)
    requires WritingTo(m, end, last) && WriteRunPossible(m, events, end, last) && events != []
    ensures MayHappen(m, events[0])
    ensures var f := WriteStep(m, events[0]);
            && WritingTo(f, end, last) && WriteRunPossible(f, events[1..], end, last)
            && WriteRun(m, events, end, last)
               == (Given(m, events[0]) + WriteRun(f, events[1..], end, last).0, WriteRun(f, events[1..], end, last).1)
            && WritesInOrder(m, events, end, last)
               == (GivenInOrder(m, events[0]) && WritesInOrder(f, events[1..], end, last))
  {
    WriteStepTarget(m, events[0], end, last);
  }

  lemma FlatJoins(m: Pio, given: Bytes, f: Pio, more: Bytes, l: Pio, end: int, first: bool, rest: bool)
    requires Writing(m) && Writing(f) && Writing(l) && Flat(m, given, f, end, first) && Flat(f, more, l, end, rest)
    ensures Flat(m, given + more, l, end, first && rest)
  {
    if first && rest { OverlayConcat(Target(m), Place(m, end), given, more); }
  }

  lemma {:induction false} WriteRunTarget(m: Pio, events: seq<WriteEvent>, end: int, last: int)
    requires WritingTo(m, end, last) && WriteRunPossible(m, events, end, last)
    ensures var (given, l) := WriteRun(m, events, end, last);
            Flat(m, given, l, end, WritesInOrder(m, events, end, last))
    decreases |events|
  {
    if events == [] {
      OverlayNothing(Target(m), Place(m, end));
    } else {
      WriteRunUnfolds(m, events, end, last);
      WriteStepTarget(m, events[0], end, last);
      var f := WriteStep(m, events[0]);
      WriteRunTarget(f, events[1..], end, last);
      FlatJoins(m, Given(m, events[0]), f, WriteRun(f, events[1..], end, last).0, WriteRun(f, events[1..], end, last).1,
                end, GivenInOrder(m, events[0]), WritesInOrder(f, events[1..], end, last));
    }
  }

  lemma FirstExpect(m: Pio)
    requires Sound(m) && Reaches(m, m.Sectors())
    ensures var n := m.Sectors();
            && WritingTo(Expect(m), m.cur + n, m.Ahead(n)) && Room(Expect(m)) == SECTOR * n
            && Target(Expect(m)) == m.disk && Place(Expect(m), m.cur + n) == SECTOR * m.cur
  {
    assert m.buffer[..0] == [];
    OverlayNothing(m.disk, SECTOR * m.cur);
  }

  /** A WRITE SECTORS command and what follows it. */
  ghost predicate CommandPossible(m: Pio, events: seq<WriteEvent>)
    requires Sound(m) && Reaches(m, m.Sectors())
  {
    FirstExpect(m);
    WriteRunPossible(Expect(m), events, m.cur + m.Sectors(), m.Ahead(m.Sectors()))
  }

  ghost function CommandRun(m: Pio, events: seq<WriteEvent>): (r: (Bytes, Pio))
    requires Sound(m) && Reaches(m, m.Sectors()) && CommandPossible(m, events)
    ensures Sound(r.1)
  {
    FirstExpect(m);
    WriteRun(Expect(m), events, m.cur + m.Sectors(), m.Ahead(m.Sectors()))
  }

  ghost predicate CommandInOrder(m: Pio, events: seq<WriteEvent>)
    requires Sound(m) && Reaches(m, m.Sectors()) && CommandPossible(m, events)
  {
    FirstExpect(m);
    WritesInOrder(Expect(m), events, m.cur + m.Sectors(), m.Ahead(m.Sectors()))
  }

  lemma FlatCommand(m: Pio, bytes: Bytes, l: Pio, inOrder: bool)
    requires Sound(m) && Reaches(m, m.Sectors()) && WritingTo(l, m.cur + m.Sectors(), m.Ahead(m.Sectors()))
    requires Writing(Expect(m)) && Flat(Expect(m), bytes, l, m.cur + m.Sectors(), inOrder)
    ensures |bytes| + Room(l) == SECTOR * m.Sectors() <==> inOrder
    ensures l.phase == Idle ==> l.cur == m.Ahead(m.Sectors())
    ensures inOrder ==> |bytes| <= SECTOR * m.Sectors()
    ensures inOrder && l.phase == Idle
        ==> |bytes| == SECTOR * m.Sectors() && l.disk == Overlay(m.disk, SECTOR * m.cur, bytes)
    ensures inOrder && |bytes| == SECTOR * m.Sectors() ==> l.phase == Idle || (l.phase == Busy && l.Sectors() == 1)
  {
    FirstExpect(m);
  }

  /** WRITE SECTORS of n sectors from p, by any mix of 8-, 16- and 32-bit accesses and whatever the drive's answers:
      the controller takes all that the program hands over exactly if the accesses are in order. Then it is n * 512
      bytes and no more; once DRQ and BSY are clear the disk is that of one flat write of these bytes at p * 512;
      and they are clear as soon as all bytes are taken and the drive has finished the last sector. The current
      sector is then p + n. */
  lemma WriteSectors(m: Pio, events: seq<WriteEvent>)
    requires Sound(m) && Reaches(m, m.Sectors()) && CommandPossible(m, events)
    ensures var n := m.Sectors();
            var (bytes, l) := CommandRun(m, events);
            && (|bytes| + Room(l) == SECTOR * n <==> CommandInOrder(m, events))
            && (l.phase == Idle ==> l.cur == m.Ahead(n))
            && (CommandInOrder(m, events) ==>
                  && |bytes| <= SECTOR * n
                  && (l.phase == Idle ==> |bytes| == SECTOR * n && l.disk == Overlay(m.disk, SECTOR * m.cur, bytes))
                  && (|bytes| == SECTOR * n ==> l.phase == Idle || (l.phase == Busy && l.Sectors() == 1)))
  {
    var end, last := m.cur + m.Sectors(), m.Ahead(m.Sectors());
    FirstExpect(m);
    WriteRunTarget(Expect(m), events, end, last);
    var (bytes, l) := WriteRun(Expect(m), events, end, last);
    FlatCommand(m, bytes, l, WritesInOrder(Expect(m), events, end, last));
  }

  /** n zero bytes, four more at once that the drive takes later, and its completion. */
  function Spoiling(n: nat, disk: Bytes): (r: seq<WriteEvent>)
    decreases n
  {
    if n == 0 then [Give([1, 2, 3, 4], Later(disk)), Finish] else [Give([0], Now)] + Spoiling(n - 1, disk)
  }

  function Blank(n: nat): (r: Bytes)
    ensures |r| == n && forall k | 0 <= k < n :: r[k] == 0
  {
    seq(n, _ => 0)
  }

  /** Two blank sectors, the first of which is filled up to the last three bytes but n. */
  function AlmostFull(n: nat): Pio {
    Pio(0, 0x1000_0000, 2, Ready, SECTOR - 3 - n, Blank(SIZE), Blank(2 * SECTOR))
  }

  /** The run hands over k bytes, spoils the first of the disk, and goes on with the second sector from its start. */
  ghost predicate Spoils(m: Pio, events: seq<WriteEvent>, k: nat) {
    && WritingTo(m, 2, 2) && WriteRunPossible(m, events, 2, 2)
    && var (bytes, l) := WriteRun(m, events, 2, 2);
       |bytes| == k && l.disk[..1] == [4] && l.phase == Ready && l.position == 0
  }

  lemma ZeroWritten(n: nat, disk: Bytes)
    requires 0 < n <= SECTOR - 3
    ensures var m, e := AlmostFull(n), Spoiling(n, disk)[0];
            WritingTo(m, 2, 2) && MayHappen(m, e) && Given(m, e) == [0] && WriteStep(m, e) == AlmostFull(n - 1)
  {
    var m := AlmostFull(n);
    assert Overlay(m.buffer, m.position, [0]) == m.buffer;
    assert WritingTo(m, 2, 2);
  }

  /** The access past the end of the sector, and the completion. */
  lemma SpoiledSector(m: Pio, e: WriteEvent, disk: Bytes)
    requires disk == Blank(2 * SECTOR) && m == AlmostFull(0) && e == Give([1, 2, 3, 4], Later(disk))
    ensures WritingTo(m, 2, 2) && MayHappen(m, e) && Given(m, e) == e.bytes
    ensures var f := WriteStep(m, e);
            && WritingTo(f, 2, 2) && f.phase == Busy && |f.buffer| == SIZE && f.buffer[..1] == [4] && f.cur == 0
               && f.count == 2
  {
    assert Filled(m, e.bytes).(disk := disk) == Filled(m, e.bytes);
    WriteStepTarget(m, e, 2, 2);
  }

  lemma SpoiledStored(f: Pio, e: WriteEvent, none: seq<WriteEvent>)
    requires WritingTo(f, 2, 2) && f.phase == Busy && f.buffer[..1] == [4] && f.cur == 0 && f.count == 2
    requires e == Finish && none == []
    ensures MayHappen(f, e) && Spoils(WriteStep(f, e), none, 0)
  {
    WriteStepTarget(f, e, 2, 2);
    StoredTarget(f, 2, 2);
    assert WriteStep(f, e).disk[..1] == f.buffer[..1];
  }

  lemma SpoilsLater(m: Pio, events: seq<WriteEvent>, k: nat)
    requires events != [] && WritingTo(m, 2, 2) && MayHappen(m, events[0])
        && Spoils(WriteStep(m, events[0]), events[1..], k)
    ensures Spoils(m, events, |Given(m, events[0])| + k)
  {
    WriteStepTarget(m, events[0], 2, 2);
    WriteRunUnfolds(m, events, 2, 2);
  }

  lemma StraddleSpoils(m: Pio, events: seq<WriteEvent>, disk: Bytes)
    requires disk == Blank(2 * SECTOR) && m == AlmostFull(0) && |events| == 2
    requires events[0] == Give([1, 2, 3, 4], Later(disk)) && events[1] == Finish
    ensures Spoils(m, events, 4)
  {
    SpoiledSector(m, events[0], disk);
    GiveSpoils(m, events);
  }

  lemma GiveSpoils(m: Pio, events: seq<WriteEvent>)
    requires |events| == 2 && events[1] == Finish && WritingTo(m, 2, 2) && MayHappen(m, events[0])
    requires |Given(m, events[0])| == 4
    requires var f := WriteStep(m, events[0]);
             WritingTo(f, 2, 2) && f.phase == Busy && f.buffer[..1] == [4] && f.cur == 0 && f.count == 2
    ensures Spoils(m, events, 4)
  {
    FinishSpoils(WriteStep(m, events[0]), events[1..]);
    SpoilsLater(m, events, 0);
  }

  lemma FinishSpoils(f: Pio, events: seq<WriteEvent>)
    requires WritingTo(f, 2, 2) && f.phase == Busy && f.buffer[..1] == [4] && f.cur == 0 && f.count == 2
    requires |events| == 1 && events[0] == Finish
    ensures Spoils(f, events, 0)
  {
    SpoiledStored(f, events[0], events[1..]);
    SpoilsLater(f, events, 0);
  }

  /** n zero bytes up to the last three of the sector and then the bytes 1 to 4 at once, which the drive takes later:
      the byte 4 becomes the first byte of the first sector, and the second sector starts without it. With n = 509 the
      sector was empty before, and a zero was handed over for that place. */
  lemma {:induction false} LateStraddle(n: nat, disk: Bytes)
    requires n <= SECTOR - 3 && disk == Blank(2 * SECTOR)
    ensures Spoils(AlmostFull(n), Spoiling(n, disk), n + 4)
  {
    if n == 0 {
      StraddleSpoils(AlmostFull(n), Spoiling(n, disk), disk);
    } else {
      ZeroWritten(n, disk);
      assert Spoiling(n, disk)[1..] == Spoiling(n - 1, disk);
      LateStraddle(n - 1, disk);
      SpoilsLater(AlmostFull(n), Spoiling(n, disk), n + 3);
    }
  }

  /** One byte more: only the answer at the end of the sector matters. */
  lemma WriteOneMore(m: Pio, bytes: Bytes, a: Answer, last: Answer)
    requires Sound(m) && 0 < |bytes| <= 4 && MayWriteOn(m, |bytes|)
    ensures var k := |bytes| - 1;
            var f := WriteBytes(m, bytes[..k], a);
            && Sound(f) && MayWriteOn(f, 1)
            && WriteBytes(m, bytes, if m.position + k + 1 == SECTOR then last else a) == WriteByte(f, bytes[k], last)
  {
    var k := |bytes| - 1;
    if m.position + k < SECTOR { assert WriteBytes(m, bytes[..k], a) == WriteBytes(m, bytes[..k], last); }
  }

  lemma AnswerStays(m: Pio, bytes: Bytes, a: Answer)
    requires Sound(m) && 0 < |bytes| <= 4 && m.position + |bytes| > SECTOR && OnDisk(m)
    ensures MayLeave(m, bytes[..|bytes| - 1], a) == MayLeave(m, bytes, a)
  {
    assert Own(m, bytes[..|bytes| - 1]) == Own(m, bytes);
  }

  lemma LastAnswer(m: Pio, bytes: Bytes, a: Answer, last: Answer)
    requires Sound(m) && 0 < |bytes| <= 4 && m.position + |bytes| == SECTOR && OnDisk(m)
    ensures var k := |bytes| - 1;
            MayLeave(WriteBytes(m, bytes[..k], a), [bytes[k]], last) == MayLeave(m, bytes, last)
  {
    var k := |bytes| - 1;
    var f := WriteBytes(m, bytes[..k], a);
    assert Own(m, bytes) == bytes && Own(f, [bytes[k]]) == [bytes[k]];
    OverlayOneMore(m.buffer, m.position, bytes);
    assert Overlay(f.buffer, f.position, [bytes[k]]) == f.buffer[f.position := bytes[k]];
    assert Filled(f, [bytes[k]]).buffer == Filled(m, bytes).buffer;
  }

  // ---------- The controller ----------

  /** One channel with its selected drive. */
  class Controller {
    const drive: Drive
    const pioBuffer: array<Byte>
    const geometry: Geometry
    var regs: Regs
    var count: int
    var phase: Phase
    var pioPosition: int

    ghost function View(): Pio
      reads this, pioBuffer, drive, drive.blocks
      requires drive.Valid()
    {
      Pio(Get(regs, geometry), Limit(regs, geometry), count, phase, pioPosition, pioBuffer[..], drive.Now().Disk())
    }

    ghost predicate Valid()
      reads this, pioBuffer, drive, drive.blocks
    {
      && drive.Valid() && pioBuffer.Length == SIZE && ValidGeometry(geometry) && Sound(View())
      && drive.Now().Size() == |drive.files| * B
      && (phase != Busy ==> drive.transfer == None)
    }

    /** The transfer of the current sector is in progress. */
    ghost predicate Pending(t: Transfer)
      reads this, drive, drive.blocks
      requires drive.Valid()
    {
      && 0 <= Get(regs, geometry) && drive.transfer == t && drive.argument == pioBuffer
      && SECTOR * (Get(regs, geometry) + 1) <= drive.Now().Size()
      && AllLoaded(drive.Now(), SECTOR * Get(regs, geometry), SECTOR)
    }

    constructor (drive: Drive, geometry: Geometry)
      requires drive.Valid() && drive.transfer == None && ValidGeometry(geometry)
      ensures Valid() && fresh(pioBuffer) && phase == Idle && this.drive == drive && this.geometry == geometry
    {
      this.drive, this.geometry := drive, geometry;
      pioBuffer := new Byte[SIZE](_ => 0);
      regs, count, phase, pioPosition := Regs(true, 0, 0, 0, 0), 0, Idle, 0;
    }

    /** The common part of the callbacks: the count and the address move on, and the registers hold the new address. */
    method Advance()
      requires Valid()
      modifies `regs, `count
      ensures Valid() && View() == old(View()).Advanced()
    {
      var p := Get(regs, geometry);
      RoundTrip(regs, geometry, p + 1);
      SetKeeps(regs, geometry, p + 1);
      count := if count == 0 then 0xFFFF else count - 1;
      regs := Set(regs, geometry, p + 1);
    }

    /** The current sector is on the disk. */
    ghost predicate Within()
      reads this, drive.blocks, drive
      requires drive.Valid()
    {
      SECTOR * (Get(regs, geometry) + 1) <= drive.Now().Size()
    }

    /** ide_read_sectors_callback. */
    method ReadSectorsCallback()
      requires Valid() && Within() && drive.transfer == None
      modifies this
      ensures Valid() && View() == old(View()).Advanced().(phase := Ready, position := 0)
    {
      Advance();
      phase, pioPosition := Ready, 0;
    }

    /** ide_read_sectors, chunk_count being 1. */
    method ReadSectors() returns (ghost a: Answer)
      requires Valid() && Within() && drive.transfer == None
      modifies this, pioBuffer, drive, drive.blocks
      ensures Valid() && Answers(a) && View() == Fetch(old(View()), a)
      ensures a.Later? ==> Pending(Transfer.Reading(SECTOR * Get(regs, geometry), SECTOR))
    {
      var sync := drive.Read(pioBuffer, SECTOR, SECTOR * Get(regs, geometry));
      if sync {
        a := Now;
        assert pioBuffer[..] == pioBuffer[..SECTOR] + pioBuffer[SECTOR..];
        ReadSectorsCallback();
      } else {
        a := Later(pioBuffer[..]);
        phase := Busy;
      }
    }

    /** ide_pio_read_callback for READ SECTORS. */
    method PioReadCallback() returns (ghost a: Answer)
      requires Valid() && drive.transfer == None && (View().Left() > 0 ==> Within())
      modifies this, pioBuffer, drive, drive.blocks
      ensures Valid() && Answers(a) && View() == AfterSector(old(View()), a)
      ensures phase == Busy ==> Pending(Transfer.Reading(SECTOR * Get(regs, geometry), SECTOR))
    {
      pioPosition := 0;
      if count % 256 != 0 {
        a := ReadSectors();
      } else {
        a := Now;
        phase := Idle;
      }
    }

    /** The callback of the last byte of a sector may run: the drive is free, and the next sector exists. */
    ghost predicate MayEnd()
      reads this, drive, drive.blocks
      requires drive.Valid()
    {
      drive.transfer == None && (count % 256 > 0 ==> Within())
    }

    /** ide_pio_readb. */
    method PioReadB() returns (b: Byte, ghost a: Answer)
      requires Valid() && (pioPosition + 1 == SECTOR ==> MayEnd())
      modifies this, pioBuffer, drive, drive.blocks
      ensures Valid() && Answers(a) && (b, View()) == ReadByte(old(View()), a)
      ensures old(pioPosition) + 1 < SECTOR ==> unchanged(`regs, `count, drive, drive.blocks)
      ensures old(pioPosition) + 1 == SECTOR && phase == Busy
              ==> Pending(Transfer.Reading(SECTOR * Get(regs, geometry), SECTOR))
    {
      b := pioBuffer[pioPosition];
      if pioPosition + 1 >= SECTOR {
        a := PioReadCallback();
      } else {
        a := Now;
        pioPosition := pioPosition + 1;
      }
    }

    /** The byte reads that an unaligned access consists of. */
    method PioReadSeveral(n: nat) returns (bytes: Bytes, ghost a: Answer)
      requires Valid() && n <= 4 && (pioPosition + n >= SECTOR ==> MayEnd())
      modifies this, pioBuffer, drive, drive.blocks
      ensures Valid() && Answers(a) && (bytes, View()) == ReadBytes(old(View()), n, a)
      ensures old(pioPosition) + n < SECTOR ==> unchanged(`regs, `count, drive, drive.blocks)
      ensures phase == Busy && old(pioPosition) + n >= SECTOR
              ==> Pending(Transfer.Reading(SECTOR * Get(regs, geometry), SECTOR))
    {
      ghost var m := View();
      if n == 0 {
        bytes, a := [], Now;
      } else {
        bytes, a := PioReadSeveral(n - 1);
        var b, last := PioReadB();
        ReadOneMore(m, n - 1, a, last);
        bytes := bytes + [b];
        if m.position + n == SECTOR { a := last; }
      }
    }

    /** ide_pio_readw and ide_pio_readd, n being 2 or 4: an aligned access takes its bytes at once. */
    method PioReadWide(n: nat) returns (bytes: Bytes, ghost a: Answer)
      requires Valid() && (n == 2 || n == 4) && (pioPosition + n >= SECTOR ==> MayEnd())
      modifies this, pioBuffer, drive, drive.blocks
      ensures Valid() && Answers(a) && (bytes, View()) == ReadBytes(old(View()), n, a)
      ensures phase == Busy && old(pioPosition) + n >= SECTOR
              ==> Pending(Transfer.Reading(SECTOR * Get(regs, geometry), SECTOR))
    {
      if pioPosition % n != 0 {
        bytes, a := PioReadSeveral(n);
      } else {
        bytes, a := PioReadAligned(n);
      }
    }

    method PioReadAligned(n: nat) returns (bytes: Bytes, ghost a: Answer)
      requires Valid() && 0 < n <= 4 && pioPosition + n <= SECTOR && (pioPosition + n == SECTOR ==> MayEnd())
      modifies this, pioBuffer, drive, drive.blocks
      ensures Valid() && Answers(a) && (bytes, View()) == ReadBytes(old(View()), n, a)
      ensures phase == Busy && old(pioPosition) + n >= SECTOR
              ==> Pending(Transfer.Reading(SECTOR * Get(regs, geometry), SECTOR))
    {
      bytes := pioBuffer[pioPosition..pioPosition + n];
      if pioPosition + n >= SECTOR {
        a := PioReadCallback();
        assert bytes + pioBuffer[..0] == bytes;
      } else {
        a := Now;
        pioPosition := pioPosition + n;
      }
    }

    /** The second pass of the pending read. */
    method FetchCompletes()
      requires Valid() && Within() && Pending(Transfer.Reading(SECTOR * Get(regs, geometry), SECTOR))
      modifies drive, drive.blocks, pioBuffer
      ensures Valid() && drive.transfer == None
      ensures var m := old(View());
              View() == m.(buffer := Overlay(m.buffer, 0, m.disk[SECTOR * m.cur..SECTOR * (m.cur + 1)]))
    {
      var aborted := drive.CheckComplete();
      assert pioBuffer[..] == pioBuffer[..SECTOR] + pioBuffer[SECTOR..];
    }

    /** drive_check_complete during a read. */
    method CompleteRead()
      requires Valid() && phase == Busy && Within() && Pending(Transfer.Reading(SECTOR * Get(regs, geometry), SECTOR))
      modifies this, pioBuffer, drive, drive.blocks
      ensures Valid() && View() == Fetched(old(View()))
    {
      FetchCompletes();
      phase := Idle;
      ReadSectorsCallback();
    }

    /** ide_write_sectors. */
    method WriteSectors()
      requires Valid() && drive.transfer == None
      modifies this
      ensures Valid() && View() == Expect(old(View()))
    {
      phase, pioPosition := Ready, 0;
    }

    /** drive_write_callback. */
    method DriveWriteCallback()
      requires Valid() && Within() && drive.transfer == None
      modifies this
      ensures Valid() && View() == Stored(old(View()))
    {
      Advance();
      if count % 256 != 0 { WriteSectors(); } else { phase := Idle; }
    }

    /** ide_pio_write_callback. A drive that answers later may have taken any part of the sector. */
    method PioWriteCallback() returns (ghost a: Answer)
      requires Valid() && Within() && drive.transfer == None
      modifies this, drive, drive.blocks
      ensures Valid() && View() == SectorFull(old(View()), a)
      ensures a.Later? ==> |a.meanwhile| == |old(View()).disk|
      ensures a.Later? ==> SectorStored(old(View()).(disk := a.meanwhile)) == SectorStored(old(View()))
      ensures phase == Busy ==> Pending(Transfer.Writing(SECTOR * Get(regs, geometry), SECTOR))
    {
      pioPosition := 0;
      a := Now;
      var sync := drive.Write(pioBuffer, SECTOR, SECTOR * Get(regs, geometry));
      if sync {
        DriveWriteCallback();
      } else {
        a := Later(drive.Now().Disk());
        phase := Busy;
      }
    }

    /** A write that completes the sector finds the drive free and the sector on the disk. */
    ghost predicate MayStore()
      reads this, drive.blocks, drive
      requires drive.Valid()
    {
      drive.transfer == None && Within()
    }

    /** ide_pio_writeb, whatever the phase. */
    method PioWriteB(data: Byte) returns (ghost a: Answer)
      requires Valid() && (pioPosition + 1 == SECTOR ==> MayStore())
      modifies this, pioBuffer, drive, drive.blocks
      ensures Valid() && View() == WriteByte(old(View()), data, a)
      ensures MayLeave(old(View()), [data], a)
      ensures old(pioPosition) + 1 < SECTOR ==> unchanged(`regs, `count, `phase, drive, drive.blocks)
      ensures phase == Busy && old(pioPosition) + 1 == SECTOR
              ==> Pending(Transfer.Writing(SECTOR * Get(regs, geometry), SECTOR))
    {
      ghost var m := View();
      pioBuffer[pioPosition] := data;
      assert pioBuffer[..] == m.buffer[m.position := data];
      if pioPosition + 1 >= SECTOR {
        assert pioBuffer[..] == Filled(m, [data]).buffer;
        a := PioWriteCallback();
      } else {
        a := Now;
        pioPosition := pioPosition + 1;
      }
    }

    /** ide_pio_writew and ide_pio_writed, for two or four bytes: an aligned access stores its bytes at once. */
    method PioWriteWide(data: Bytes) returns (ghost a: Answer)
      requires Valid() && (|data| == 2 || |data| == 4) && (pioPosition + |data| >= SECTOR ==> MayStore())
      modifies this, pioBuffer, drive, drive.blocks
      ensures Valid() && View() == WriteBytes(old(View()), data, a)
      ensures MayLeave(old(View()), data, a)
      ensures phase == Busy && old(pioPosition) + |data| >= SECTOR
              ==> Pending(Transfer.Writing(SECTOR * Get(regs, geometry), SECTOR))
    {
      if pioPosition % |data| != 0 {
        a := PioWriteSeveral(data);
      } else {
        a := PioWriteAligned(data);
      }
    }

    method PioWriteAligned(data: Bytes) returns (ghost a: Answer)
      requires Valid() && 0 < |data| <= 4 && pioPosition + |data| <= SECTOR
      requires pioPosition + |data| == SECTOR ==> MayStore()
      modifies this, pioBuffer, drive, drive.blocks
      ensures Valid() && View() == WriteBytes(old(View()), data, a)
      ensures MayLeave(old(View()), data, a)
      ensures phase == Busy && old(pioPosition) + |data| >= SECTOR
              ==> Pending(Transfer.Writing(SECTOR * Get(regs, geometry), SECTOR))
    {
      ghost var m := View();
      var at := pioPosition;
      forall j | 0 <= j < |data| { pioBuffer[at + j] := data[j]; }
      assert pioBuffer[..] == Overlay(m.buffer, m.position, data);
      if pioPosition + |data| >= SECTOR {
        assert Own(m, data) == data && Extra(m, data) == [];
        a := PioWriteCallback();
        OverlayNothing(pioBuffer[..], 0);
      } else {
        a := Now;
        pioPosition := pioPosition + |data|;
      }
    }

    /** The byte writes that an unaligned access consists of. */
    method PioWriteSeveral(data: Bytes) returns (ghost a: Answer)
      requires Valid() && |data| <= 4 && (pioPosition + |data| >= SECTOR ==> MayStore())
      modifies this, pioBuffer, drive, drive.blocks
      ensures Valid() && View() == WriteBytes(old(View()), data, a)
      ensures MayLeave(old(View()), data, a)
      ensures old(pioPosition) + |data| < SECTOR ==> unchanged(`regs, `count, `phase, drive, drive.blocks)
      ensures phase == Busy && old(pioPosition) + |data| >= SECTOR
              ==> Pending(Transfer.Writing(SECTOR * Get(regs, geometry), SECTOR))
      decreases |data|
    {
      ghost var m := View();
      a := Now;
      if data != [] {
        ghost var first := PioWriteSeveral(data[..|data| - 1]);
        ghost var last := PioWriteB(data[|data| - 1]);
        WriteOneMore(m, data, first, last);
        if m.position + |data| == SECTOR {
          LastAnswer(m, data, first, last);
          a := last;
        } else {
          if m.position + |data| > SECTOR { AnswerStays(m, data, first); }
          a := first;
        }
      }
    }

    /** The second pass of the pending write. */
    method StoreCompletes()
      requires Valid() && Within() && Pending(Transfer.Writing(SECTOR * Get(regs, geometry), SECTOR))
      modifies drive, drive.blocks, pioBuffer
      ensures Valid() && drive.transfer == None && View() == old(View()).(disk := SectorStored(old(View())))
    {
      var aborted := drive.CheckComplete();
    }

    /** drive_check_complete during a write. */
    method CompleteWrite()
      requires Valid() && phase == Busy && Within() && Pending(Transfer.Writing(SECTOR * Get(regs, geometry), SECTOR))
      modifies this, pioBuffer, drive, drive.blocks
      ensures Valid() && View() == WriteStep(old(View()), Finish)
    {
      StoreCompletes();
      phase := Idle;
      DriveWriteCallback();
    }
  }
}
