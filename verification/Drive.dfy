/**
 The disk drivers of src/drive.cpp: 256 KB blocks, loaded from files when they are first touched. Both drivers refine a
 flat sequence of bytes.
 */
module Drives {

  /** BLOCK_SIZE, a power of two: masks with BLOCK_MASK are remainders, and two positions whose exclusive or is below it
      are in the same block. */
  const B := 0x4_0000

  const WRAP := 0x1_0000_0000

  /** Bytes are only moved here, so that nothing depends on their range. */
  type Byte = int

  type Bytes = seq<Byte>

  datatype Block = Absent(modified: bool) | Loaded(modified: bool, data: Bytes)

  type File = f: Bytes | |f| == B witness seq(B, _ => 0)

  /** The blocks with the files behind them. */
  datatype Store = Store(blocks: seq<Block>, files: seq<File>) {
    ghost predicate Valid() {
      |blocks| == |files| && forall k | 0 <= k < |blocks| :: blocks[k].Loaded? ==> |blocks[k].data| == B
    }

    function Size(): int {
      |blocks| * B
    }

    function Content(k: int): (r: Bytes)
      requires Valid() && 0 <= k < |blocks|
      ensures |r| == B
    {
      if blocks[k].Loaded? then blocks[k].data else files[k]
    }

    /** The byte at p. */
    function At(p: int): Byte
      requires Valid() && 0 <= p < Size()
    {
      Content(p / B)[p % B]
    }

    /** The disk as one sequence. */
    ghost function Disk(): (d: Bytes)
      requires Valid()
      ensures |d| == Size()
    {
      seq(Size(), p requires 0 <= p < Size() => At(p))
    }
  }

  function Overlay(d: Bytes, p: int, bytes: Bytes): (r: Bytes)
    requires 0 <= p && p + |bytes| <= |d|
    ensures |r| == |d|
  {
    d[..p] + bytes + d[p + |bytes|..]
  }

  lemma OverlayAt(d: Bytes, p: int, bytes: Bytes, k: int)
    requires 0 <= p && p + |bytes| <= |d| && 0 <= k < |d|
    ensures Overlay(d, p, bytes)[k] == if p <= k < p + |bytes| then bytes[k - p] else d[k]
  {
  }

  lemma OverlaySplit(d: Bytes, p: int, bytes: Bytes, n: int)
    requires 0 <= p && p + |bytes| <= |d| && 0 <= n <= |bytes|
    ensures Overlay(Overlay(d, p, bytes[..n]), p + n, bytes[n..]) == Overlay(d, p, bytes)
  {
  }

  // ---------- Pieces ----------

  /** The bytes from p on that one turn handles: up to the end of the block or of the request. */
  function Piece(p: int, length: int): (n: int)
    requires 0 <= p && length > 0
  {
    var room := B - p % B;
    if length < room then length else room
  }

  /** A piece lies in one block, and ends with the block or with the request. */
  lemma PieceFits(p: int, length: int)
    requires 0 <= p && length > 0
    ensures var n := Piece(p, length);
            0 < n <= length && p % B + n <= B && (n < length ==> p % B + n == B)
  {
  }

  /** Blocks in a request. */
  function Count(p: int, length: int): int
    requires 0 <= p
  {
    if length == 0 then 0 else (p + length - 1) / B - p / B + 1
  }

  lemma CountDown(p: int, length: int)
    requires 0 <= p && length > 0
    ensures var n := Piece(p, length); n <= length && Count(p + n, length - n) == Count(p, length) - 1
    ensures Count(p, length) > 0
  {
    PieceFits(p, length);
    var n := Piece(p, length);
    if n < length { assert p + n == (p / B + 1) * B; }
  }

  /** The pieces of a request, as starts and lengths. */
  function Pieces(p: int, length: int): seq<(int, int)>
    requires 0 <= p && length >= 0
    decreases length
  {
    if length == 0 then []
    else
      PieceFits(p, length);
      [(p, Piece(p, length))] + Pieces(p + Piece(p, length), length - Piece(p, length))
  }

  /** The pieces tile the request: they follow one another from its start to its end, each is inside one block, and
      there are as many as the source counts. */
  lemma {:induction false} PiecesTile(p: int, length: int)
    requires 0 <= p && length >= 0
    ensures var s := Pieces(p, length);
            && |s| == Count(p, length)
            && (length > 0 ==> |s| > 0 && s[0].0 == p && s[|s| - 1].0 + s[|s| - 1].1 == p + length)
            && (forall i | 0 <= i < |s| :: 0 <= s[i].0 && 0 < s[i].1 && s[i].0 / B == (s[i].0 + s[i].1 - 1) / B)
            && (forall i | 0 <= i < |s| - 1 :: s[i].0 + s[i].1 == s[i + 1].0)
    decreases length
  {
    if length > 0 {
      PieceFits(p, length);
      CountDown(p, length);
      var n := Piece(p, length);
      PiecesTile(p + n, length - n);
      SameBlock(p, n);
    }
  }

  lemma SameBlock(p: int, n: int)
    requires 0 <= p && 0 < n && p % B + n <= B
    ensures p / B == (p + n - 1) / B
  {
  }

  // ---------- One pass over a request ----------

  /** A piece of a write: into a loaded block; an absent one is loaded instead, unless it may not be. */
  function WritePiece(s: Store, p: int, bytes: Bytes, load: bool): (t: Store)
    requires s.Valid() && 0 <= p && p + |bytes| <= s.Size() && 0 < |bytes| && p % B + |bytes| <= B
    ensures t.Valid() && t.files == s.files
  {
    var k := p / B;
    var block := match s.blocks[k]
      case Loaded(_, data) => Loaded(true, Overlay(data, p % B, bytes))
      case Absent(_) => if load then Loaded(true, s.files[k]) else Absent(true);
    s.(blocks := s.blocks[k := block])
  }

  lemma SamePlace(p: int, q: int, n: int)
    requires 0 <= p && 0 <= q && 0 < n && p % B + n <= B
    ensures p <= q < p + n <==> q / B == p / B && p % B <= q % B < p % B + n
    ensures q / B == p / B ==> q % B - p % B == q - p
  {
  }

  /** drive_internal_write_check: the store after the pass, and whether a block was absent. */
  function WritePass(s: Store, p: int, bytes: Bytes, load: bool): (r: (Store, bool))
    requires s.Valid() && 0 <= p && p + |bytes| <= s.Size()
    ensures r.0.Valid() && r.0.files == s.files && |r.0.blocks| == |s.blocks|
    decreases |bytes|
  {
    if bytes == [] then (s, false)
    else
      PieceFits(p, |bytes|);
      var n := Piece(p, |bytes|);
      var (t, missing) := WritePass(WritePiece(s, p, bytes[..n], load), p + n, bytes[n..], load);
      (t, missing || s.blocks[p / B].Absent?)
  }

  /** A read loads an absent block, if it may. */
  function LoadPiece(s: Store, p: int, load: bool): (t: Store)
    requires s.Valid() && 0 <= p < s.Size()
    ensures t.Valid() && t.files == s.files
  {
    var k := p / B;
    if s.blocks[k].Absent? && load then s.(blocks := s.blocks[k := Loaded(s.blocks[k].modified, s.files[k])]) else s
  }

  /** drive_internal_read_check: the store after the pass. */
  function LoadPass(s: Store, p: int, length: int, load: bool): (t: Store)
    requires s.Valid() && 0 <= p && 0 <= length && p + length <= s.Size()
    ensures t.Valid() && t.files == s.files && |t.blocks| == |s.blocks|
    decreases length
  {
    if length == 0 then s
    else
      PieceFits(p, length);
      LoadPass(LoadPiece(s, p, load), p + Piece(p, length), length - Piece(p, length), load)
  }

  /** A piece of a read: from a loaded block into its place in the buffer; for an absent block the buffer stays. */
  function PieceInto(s: Store, p: int, b: Bytes, done: int, n: int): (r: Bytes)
    requires s.Valid() && 0 <= p && 0 < n && p % B + n <= B && p + n <= s.Size() && 0 <= done && done + n <= |b|
    ensures |r| == |b| && r[done + n..] == b[done + n..]
  {
    if s.blocks[p / B].Loaded? then Overlay(b, done, s.blocks[p / B].data[p % B..p % B + n]) else b
  }

  /** drive_internal_read_check: what the pass makes of its buffer from p on, the first done bytes being read. */
  function ReadInto(s: Store, p: int, b: Bytes, done: int, length: int, load: bool): (r: Bytes)
    requires s.Valid() && 0 <= p && 0 <= done <= length <= |b| && p + length - done <= s.Size()
    ensures |r| == |b| && r[length..] == b[length..]
    decreases length - done
  {
    if done == length then b
    else
      PieceFits(p, length - done);
      var n := Piece(p, length - done);
      ReadInto(LoadPiece(s, p, load), p + n, PieceInto(s, p, b, done, n), done + n, length, load)
  }

  /** Whether the pass comes upon an absent block. */
  predicate Misses(s: Store, p: int, length: int, load: bool)
    requires s.Valid() && 0 <= p && 0 <= length && p + length <= s.Size()
    decreases length
  {
    length > 0 &&
    (PieceFits(p, length);
     s.blocks[p / B].Absent? || Misses(LoadPiece(s, p, load), p + Piece(p, length), length - Piece(p, length), load))
  }

  // ---------- What a pass does ----------

  ghost predicate AllLoaded(s: Store, p: int, length: int)
    requires s.Valid() && 0 <= p && 0 <= length && p + length <= s.Size()
  {
    forall q | p <= q < p + length :: s.blocks[q / B].Loaded?
  }

  ghost predicate AllModified(s: Store, p: int, length: int)
    requires s.Valid() && 0 <= p && 0 <= length && p + length <= s.Size()
  {
    forall q | p <= q < p + length :: s.blocks[q / B].modified
  }

  /** Where a write of the bytes at p to the loaded blocks of s takes effect. */
  ghost predicate WritesLoaded(s: Store, t: Store, p: int, bytes: Bytes)
    requires s.Valid() && t.Valid() && |t.blocks| == |s.blocks| && 0 <= p && p + |bytes| <= s.Size()
  {
    forall q | 0 <= q < s.Size() ::
      t.At(q) == if p <= q < p + |bytes| && s.blocks[q / B].Loaded? then bytes[q - p] else s.At(q)
  }

  lemma WritePieceAt(s: Store, p: int, bytes: Bytes, load: bool, q: int)
    requires s.Valid() && 0 <= p && p + |bytes| <= s.Size() && 0 < |bytes| && p % B + |bytes| <= B && 0 <= q < s.Size()
    ensures WritePiece(s, p, bytes, load).At(q) ==
      if p <= q < p + |bytes| && s.blocks[q / B].Loaded? then bytes[q - p] else s.At(q)
  {
    SamePlace(p, q, |bytes|);
    if s.blocks[p / B].Loaded? && q / B == p / B { OverlayAt(s.blocks[p / B].data, p % B, bytes, q % B); }
  }

  lemma WritePieceWrites(s: Store, p: int, bytes: Bytes, load: bool)
    requires s.Valid() && 0 <= p && p + |bytes| <= s.Size() && 0 < |bytes| && p % B + |bytes| <= B
    ensures WritesLoaded(s, WritePiece(s, p, bytes, load), p, bytes)
  {
    forall q | 0 <= q < s.Size()
      ensures WritePiece(s, p, bytes, load).At(q) ==
        if p <= q < p + |bytes| && s.blocks[q / B].Loaded? then bytes[q - p] else s.At(q)
    {
      WritePieceAt(s, p, bytes, load, q);
    }
  }

  lemma NextBlock(p: int, n: int, q: int)
    requires 0 <= p && 0 < n && p % B + n == B && p + n <= q
    ensures q / B != p / B
  {
  }

  lemma WritesCompose(s: Store, u: Store, t: Store, p: int, bytes: Bytes, n: int)
    requires s.Valid() && u.Valid() && t.Valid() && |s.blocks| == |u.blocks| == |t.blocks|
    requires 0 <= p && p + |bytes| <= s.Size() && 0 <= n <= |bytes|
    requires forall q | p + n <= q < p + |bytes| :: u.blocks[q / B].Loaded? == s.blocks[q / B].Loaded?
    requires WritesLoaded(s, u, p, bytes[..n]) && WritesLoaded(u, t, p + n, bytes[n..])
    ensures WritesLoaded(s, t, p, bytes)
  {
  }

  /** A pass changes the disk where blocks are loaded, and nowhere else. */
  lemma {:induction false} WritePassDisk(s: Store, p: int, bytes: Bytes, load: bool)
    requires s.Valid() && 0 <= p && p + |bytes| <= s.Size()
    ensures WritesLoaded(s, WritePass(s, p, bytes, load).0, p, bytes)
    decreases |bytes|
  {
    if bytes != [] {
      PieceFits(p, |bytes|);
      var n := Piece(p, |bytes|);
      var u := WritePiece(s, p, bytes[..n], load);
      WritePieceWrites(s, p, bytes[..n], load);
      WritePassDisk(u, p + n, bytes[n..], load);
      forall q | p + n <= q < p + |bytes| ensures u.blocks[q / B].Loaded? == s.blocks[q / B].Loaded? {
        NextBlock(p, n, q);
      }
      WritesCompose(s, u, WritePass(s, p, bytes, load).0, p, bytes, n);
    }
  }

  /** A piece leaves the blocks of the rest of its request alone. */
  lemma RestUntouched(p: int, length: int, q: int)
    requires 0 <= p && length > 0 && p <= q < p + length
    ensures q < p + Piece(p, length) <==> q / B == p / B
  {
    PieceFits(p, length);
    SamePlace(p, q, Piece(p, length));
    if q >= p + Piece(p, length) { NextBlock(p, Piece(p, length), q); }
  }

  /** A range is loaded if its first block is, and the rest. */
  lemma AllLoadedSplit(s: Store, u: Store, p: int, length: int)
    requires s.Valid() && u.Valid() && |u.blocks| == |s.blocks| && 0 <= p && 0 < length && p + length <= s.Size()
    requires forall k | 0 <= k < |s.blocks| && k != p / B :: u.blocks[k] == s.blocks[k]
    ensures Piece(p, length) <= length
    ensures AllLoaded(s, p, length)
      <==> s.blocks[p / B].Loaded? && AllLoaded(u, p + Piece(p, length), length - Piece(p, length))
  {
    PieceFits(p, length);
    forall q | p <= q < p + length ensures q < p + Piece(p, length) <==> q / B == p / B { RestUntouched(p, length, q); }
  }

  /** A pass reports a block missing exactly if one is absent in its range. */
  lemma {:induction false} WritePassMisses(s: Store, p: int, bytes: Bytes, load: bool)
    requires s.Valid() && 0 <= p && p + |bytes| <= s.Size()
    ensures WritePass(s, p, bytes, load).1 <==> !AllLoaded(s, p, |bytes|)
    decreases |bytes|
  {
    if bytes != [] {
      PieceFits(p, |bytes|);
      var n := Piece(p, |bytes|);
      WritePassMisses(WritePiece(s, p, bytes[..n], load), p + n, bytes[n..], load);
      AllLoadedSplit(s, WritePiece(s, p, bytes[..n], load), p, |bytes|);
    }
  }

  /** Blocks once loaded stay loaded, and once modified stay modified. */
  ghost predicate Grows(s: Store, t: Store) {
    && |t.blocks| == |s.blocks|
    && forall k | 0 <= k < |s.blocks| :: (s.blocks[k].modified ==> t.blocks[k].modified)
                                       && (s.blocks[k].Loaded? ==> t.blocks[k].Loaded?)
  }

  lemma {:induction false} WritePassGrows(s: Store, p: int, bytes: Bytes, load: bool)
    requires s.Valid() && 0 <= p && p + |bytes| <= s.Size()
    ensures Grows(s, WritePass(s, p, bytes, load).0)
    decreases |bytes|
  {
    if bytes != [] {
      PieceFits(p, |bytes|);
      var n := Piece(p, |bytes|);
      WritePassGrows(WritePiece(s, p, bytes[..n], load), p + n, bytes[n..], load);
    }
  }

  /** After a pass every touched block is modified, and loaded if it may be. */
  lemma {:induction false} WritePassTouches(s: Store, p: int, bytes: Bytes, load: bool)
    requires s.Valid() && 0 <= p && p + |bytes| <= s.Size()
    ensures var t := WritePass(s, p, bytes, load).0; AllModified(t, p, |bytes|) && (load ==> AllLoaded(t, p, |bytes|))
    decreases |bytes|
  {
    if bytes != [] {
      PieceFits(p, |bytes|);
      var n := Piece(p, |bytes|);
      var u := WritePiece(s, p, bytes[..n], load);
      WritePassTouches(u, p + n, bytes[n..], load);
      WritePassGrows(u, p + n, bytes[n..], load);
      forall q | p <= q < p + |bytes| ensures q < p + n <==> q / B == p / B { RestUntouched(p, |bytes|, q); }
      assert u.blocks[p / B].modified && (load ==> u.blocks[p / B].Loaded?);
    }
  }

  /** A pass of a write leaves every block alone that holds none of its bytes, and its mark with it. */
  lemma {:induction false} WritePassElsewhere(s: Store, p: int, bytes: Bytes, load: bool, k: int)
    requires s.Valid() && 0 <= p && p + |bytes| <= s.Size() && 0 <= k < |s.blocks|
    requires forall q | p <= q < p + |bytes| :: q / B != k
    ensures WritePass(s, p, bytes, load).0.blocks[k] == s.blocks[k]
    decreases |bytes|
  {
    if bytes != [] {
      PieceFits(p, |bytes|);
      var n := Piece(p, |bytes|);
      assert p / B != k;
      WritePassElsewhere(WritePiece(s, p, bytes[..n], load), p + n, bytes[n..], load, k);
    }
  }

  /** The same disk, and no block lost. */
  ghost predicate SameDisk(s: Store, t: Store)
    requires s.Valid() && t.Valid()
  {
    && |t.blocks| == |s.blocks|
    && (forall k | 0 <= k < |s.blocks| :: t.Content(k) == s.Content(k) && t.blocks[k].modified == s.blocks[k].modified
                                        && (s.blocks[k].Loaded? ==> t.blocks[k].Loaded?))
  }

  lemma SameDiskIsSame(s: Store, t: Store)
    requires s.Valid() && t.Valid() && SameDisk(s, t)
    ensures t.Disk() == s.Disk()
  {
  }

  lemma LoadPieceKeepsDisk(s: Store, p: int, load: bool)
    requires s.Valid() && 0 <= p < s.Size()
    ensures SameDisk(s, LoadPiece(s, p, load))
  {
  }

  lemma SameDiskTransitive(s: Store, u: Store, t: Store)
    requires s.Valid() && u.Valid() && t.Valid() && SameDisk(s, u) && SameDisk(u, t)
    ensures SameDisk(s, t)
  {
  }

  lemma {:induction false} LoadPassKeepsDisk(s: Store, p: int, length: int, load: bool)
    requires s.Valid() && 0 <= p && 0 <= length && p + length <= s.Size()
    ensures SameDisk(s, LoadPass(s, p, length, load))
    decreases length
  {
    if length > 0 {
      PieceFits(p, length);
      var n, u := Piece(p, length), LoadPiece(s, p, load);
      LoadPieceKeepsDisk(s, p, load);
      LoadPassKeepsDisk(u, p + n, length - n, load);
      SameDiskTransitive(s, u, LoadPass(u, p + n, length - n, load));
    }
  }

  lemma {:induction false} MissesAbsent(s: Store, p: int, length: int, load: bool)
    requires s.Valid() && 0 <= p && 0 <= length && p + length <= s.Size()
    ensures Misses(s, p, length, load) <==> !AllLoaded(s, p, length)
    decreases length
  {
    if length > 0 {
      PieceFits(p, length);
      MissesAbsent(LoadPiece(s, p, load), p + Piece(p, length), length - Piece(p, length), load);
      AllLoadedSplit(s, LoadPiece(s, p, load), p, length);
    }
  }

  lemma {:induction false} LoadPassLoads(s: Store, p: int, length: int)
    requires s.Valid() && 0 <= p && 0 <= length && p + length <= s.Size()
    ensures AllLoaded(LoadPass(s, p, length, true), p, length)
    decreases length
  {
    if length > 0 {
      PieceFits(p, length);
      var n, u := Piece(p, length), LoadPiece(s, p, true);
      var t := LoadPass(u, p + n, length - n, true);
      LoadPassLoads(u, p + n, length - n);
      LoadPassKeepsDisk(u, p + n, length - n, true);
      AllLoadedSplit(t, t, p, length);
    }
  }

  /** The n bytes of the disk from p on. */
  ghost function Slice(s: Store, p: int, n: int): (r: Bytes)
    requires s.Valid() && 0 <= p && 0 <= n && p + n <= s.Size()
    ensures |r| == n
  {
    seq(n, i requires 0 <= i < n => s.At(p + i))
  }

  lemma SliceSplit(s: Store, p: int, m: int, n: int)
    requires s.Valid() && 0 <= p && 0 <= m <= n && p + n <= s.Size()
    ensures Slice(s, p, m) + Slice(s, p + m, n - m) == Slice(s, p, n)
  {
    var second := Slice(s, p + m, n - m);
    assert forall j | 0 <= j < n - m :: second[j] == s.At(p + m + j);
  }

  lemma SliceOfDisk(s: Store, p: int, n: int)
    requires s.Valid() && 0 <= p && 0 <= n && p + n <= s.Size()
    ensures Slice(s, p, n) == s.Disk()[p..p + n]
  {
  }

  lemma PieceIntoReads(s: Store, p: int, b: Bytes, done: int, n: int)
    requires s.Valid() && 0 <= p && 0 < n && p % B + n <= B && p + n <= s.Size() && 0 <= done && done + n <= |b|
    requires s.blocks[p / B].Loaded?
    ensures PieceInto(s, p, b, done, n) == Overlay(b, done, Slice(s, p, n))
  {
    var piece := s.blocks[p / B].data[p % B..p % B + n];
    forall i | 0 <= i < n ensures piece[i] == Slice(s, p, n)[i] {
      SamePlace(p, p + i, n);
      assert piece[i] == s.At(p + i);
    }
    assert piece == Slice(s, p, n);
  }

  lemma OverlayConcat(d: Bytes, p: int, a: Bytes, c: Bytes)
    requires 0 <= p && p + |a| + |c| <= |d|
    ensures Overlay(Overlay(d, p, a), p + |a|, c) == Overlay(d, p, a + c)
  {
    assert (a + c)[..|a|] == a && (a + c)[|a|..] == c;
    OverlaySplit(d, p, a + c, |a|);
  }

  lemma ReadIntoStep(s: Store, p: int, b: Bytes, done: int, length: int, load: bool, n: int, q: int, next: int)
    requires s.Valid() && 0 <= p && 0 <= done < length <= |b| && p + length - done <= s.Size()
    requires n == Piece(p, length - done) && q == p + n && next == done + n
    ensures 0 < n <= length - done && p % B + n <= B
    ensures ReadInto(s, p, b, done, length, load)
      == ReadInto(LoadPiece(s, p, load), q, PieceInto(s, p, b, done, n), next, length, load)
  {
    PieceFits(p, length - done);
  }

  /** A pass over loaded blocks reads the disk. */
  lemma {:induction false} ReadIntoReads(s: Store, p: int, b: Bytes, done: int, length: int, load: bool)
    requires s.Valid() && 0 <= p && 0 <= done <= length <= |b| && p + length - done <= s.Size()
    requires AllLoaded(s, p, length - done)
    ensures ReadInto(s, p, b, done, length, load) == Overlay(b, done, Slice(s, p, length - done))
    decreases length - done
  {
    var left := length - done;
    if left > 0 {
      PieceFits(p, left);
      AllLoadedSplit(s, s, p, left);
      var n := Piece(p, left);
      var q, next := p + n, done + n;
      var filled := PieceInto(s, p, b, done, n);
      LoadedAlready(s, p, load);
      ReadIntoStep(s, p, b, done, length, load, n, q, next);
      ReadIntoReads(s, q, filled, next, length, load);
      PieceIntoReads(s, p, b, done, n);
      SlicesJoin(s, p, b, done, n, left, filled, q, next, length - next);
    }
  }

  lemma LoadedAlready(s: Store, p: int, load: bool)
    requires s.Valid() && 0 <= p < s.Size() && s.blocks[p / B].Loaded?
    ensures LoadPiece(s, p, load) == s
  {
  }

  lemma SlicesJoin(s: Store, p: int, b: Bytes, done: int, n: int, left: int, filled: Bytes, q: int, next: int,
                   rest: int)
    requires s.Valid() && 0 <= p && 0 < n <= left && p + left <= s.Size() && 0 <= done && done + left <= |b|
    requires q == p + n && next == done + n && rest == left - n && filled == Overlay(b, done, Slice(s, p, n))
    ensures Overlay(filled, next, Slice(s, q, rest)) == Overlay(b, done, Slice(s, p, left))
  {
    OverlayConcat(b, done, Slice(s, p, n), Slice(s, q, rest));
    SliceSplit(s, p, n, left);
  }

  lemma WholeWrite(s: Store, t: Store, p: int, bytes: Bytes)
    requires s.Valid() && t.Valid() && |t.blocks| == |s.blocks| && 0 <= p && p + |bytes| <= s.Size()
    requires WritesLoaded(s, t, p, bytes) && AllLoaded(s, p, |bytes|)
    ensures t.Disk() == Overlay(s.Disk(), p, bytes)
  {
    forall q | 0 <= q < s.Size() ensures t.At(q) == Overlay(s.Disk(), p, bytes)[q] { OverlayAt(s.Disk(), p, bytes, q); }
  }

  lemma RewriteSame(s: Store, u: Store, p: int, bytes: Bytes)
    requires s.Valid() && u.Valid() && |u.blocks| == |s.blocks| && 0 <= p && p + |bytes| <= s.Size()
    requires WritesLoaded(s, u, p, bytes)
    ensures Overlay(u.Disk(), p, bytes) == Overlay(s.Disk(), p, bytes)
  {
    forall q | 0 <= q < s.Size() ensures Overlay(u.Disk(), p, bytes)[q] == Overlay(s.Disk(), p, bytes)[q] {
      OverlayAt(u.Disk(), p, bytes, q);
      OverlayAt(s.Disk(), p, bytes, q);
      assert u.At(q) == s.At(q) || p <= q < p + |bytes|;
    }
  }

  /** A write in two passes, whatever part of it the first pass applied: the second finds every block, and the disk is
      that of one flat write, with every touched block marked. If the first pass finds every block it is that write. */
  lemma TwoPassWrite(s: Store, p: int, bytes: Bytes)
    requires s.Valid() && 0 <= p && p + |bytes| <= s.Size()
    ensures var (u, early) := WritePass(s, p, bytes, true);
            var (t, missing) := WritePass(u, p, bytes, false);
            && !missing && t.Disk() == Overlay(s.Disk(), p, bytes) && AllModified(t, p, |bytes|)
            && (!early ==> u.Disk() == Overlay(s.Disk(), p, bytes) && AllModified(u, p, |bytes|))
  {
    var u := WritePass(s, p, bytes, true).0;
    WritePassDisk(s, p, bytes, true);
    WritePassMisses(s, p, bytes, true);
    WritePassTouches(s, p, bytes, true);
    if !WritePass(s, p, bytes, true).1 { WholeWrite(s, u, p, bytes); }
    RewriteSame(s, u, p, bytes);
    SecondWrite(u, p, bytes);
  }

  /** A pass over loaded blocks is one flat write. */
  lemma SecondWrite(u: Store, p: int, bytes: Bytes)
    requires u.Valid() && 0 <= p && p + |bytes| <= u.Size() && AllLoaded(u, p, |bytes|)
    ensures var (t, missing) := WritePass(u, p, bytes, false);
            !missing && t.Disk() == Overlay(u.Disk(), p, bytes) && AllModified(t, p, |bytes|)
  {
    WritePassDisk(u, p, bytes, false);
    WritePassMisses(u, p, bytes, false);
    WritePassTouches(u, p, bytes, false);
    WholeWrite(u, WritePass(u, p, bytes, false).0, p, bytes);
  }

  /** A read in two passes: the second finds every block and the bytes of the disk as it was; no pass changes the disk;
      if the first finds every block its bytes are those of the disk already. */
  lemma TwoPassRead(s: Store, p: int, b: Bytes, length: int)
    requires s.Valid() && 0 <= p && 0 <= length <= |b| && p + length <= s.Size()
    ensures var u, first := LoadPass(s, p, length, true), ReadInto(s, p, b, 0, length, true);
            && !Misses(u, p, length, false)
            && ReadInto(u, p, first, 0, length, false)[..length] == s.Disk()[p..p + length]
            && LoadPass(u, p, length, false).Disk() == u.Disk() == s.Disk()
            && (!Misses(s, p, length, true) ==> first[..length] == s.Disk()[p..p + length])
  {
    FirstRead(s, p, b, length);
    SecondRead(LoadPass(s, p, length, true), p, ReadInto(s, p, b, 0, length, true), length, false);
  }

  lemma FirstRead(s: Store, p: int, b: Bytes, length: int)
    requires s.Valid() && 0 <= p && 0 <= length <= |b| && p + length <= s.Size()
    ensures FirstPass(s, LoadPass(s, p, length, true), p, length)
    ensures LoadPass(s, p, length, true).Disk() == s.Disk()
    ensures Misses(s, p, length, true) <==> !AllLoaded(s, p, length)
    ensures AllLoaded(s, p, length) ==> ReadInto(s, p, b, 0, length, true)[..length] == s.Disk()[p..p + length]
  {
    LoadPassKeepsDisk(s, p, length, true);
    SameDiskIsSame(s, LoadPass(s, p, length, true));
    LoadPassLoads(s, p, length);
    MissesAbsent(s, p, length, true);
    if AllLoaded(s, p, length) { SecondRead(s, p, b, length, true); }
  }

  /** A pass over loaded blocks. */
  lemma SecondRead(u: Store, p: int, b: Bytes, length: int, load: bool)
    requires u.Valid() && 0 <= p && 0 <= length <= |b| && p + length <= u.Size() && AllLoaded(u, p, length)
    ensures !Misses(u, p, length, load)
    ensures ReadInto(u, p, b, 0, length, load)[..length] == u.Disk()[p..p + length]
    ensures LoadPass(u, p, length, load).Disk() == u.Disk()
  {
    LoadPassKeepsDisk(u, p, length, load);
    SameDiskIsSame(u, LoadPass(u, p, length, load));
    MissesAbsent(u, p, length, load);
    ReadIntoReads(u, p, b, 0, length, load);
    SliceOfDisk(u, p, length);
    assert Overlay(b, 0, Slice(u, p, length))[..length] == Slice(u, p, length);
  }

  /** The disk lists the blocks in order, those not loaded yet as their files have them. */
  lemma BlocksInOrder(s: Store, k: int, i: int)
    requires s.Valid() && 0 <= k < |s.blocks| && 0 <= i < B
    ensures 0 <= k * B + i < s.Size()
    ensures s.Disk()[k * B + i] == if s.blocks[k].Loaded? then s.blocks[k].data[i] else s.files[k][i]
  {
    assert (k * B + i) / B == k && (k * B + i) % B == i;
  }

  /** What was written in two passes is read back in two, and nothing else has changed. */
  lemma ReadsBack(s: Store, p: int, bytes: Bytes, b: Bytes)
    requires s.Valid() && 0 <= p && p + |bytes| <= s.Size() && |bytes| <= |b|
    ensures var n, t := |bytes|, WritePass(WritePass(s, p, bytes, true).0, p, bytes, false).0;
            var u, first := LoadPass(t, p, n, true), ReadInto(t, p, b, 0, n, true);
            && ReadInto(u, p, first, 0, n, false)[..n] == bytes
            && forall q | 0 <= q < s.Size() && !(p <= q < p + n) :: u.Disk()[q] == s.Disk()[q]
  {
    var n, t := |bytes|, WritePass(WritePass(s, p, bytes, true).0, p, bytes, false).0;
    TwoPassWrite(s, p, bytes);
    TwoPassRead(t, p, b, n);
    assert Overlay(s.Disk(), p, bytes)[p..p + n] == bytes;
    forall q | 0 <= q < s.Size() && !(p <= q < p + n) ensures t.Disk()[q] == s.Disk()[q] {
      OverlayAt(s.Disk(), p, bytes, q);
    }
  }

  /** A write cancelled between its passes has taken effect exactly where blocks were loaded before. */
  lemma CancelledWrite(s: Store, p: int, bytes: Bytes, q: int)
    requires s.Valid() && 0 <= p && p + |bytes| <= s.Size() && p <= q < p + |bytes|
    requires bytes[q - p] != s.Disk()[q]
    ensures WritePass(s, p, bytes, true).0.Disk()[q] == bytes[q - p] <==> s.blocks[q / B].Loaded?
  {
    WritePassDisk(s, p, bytes, true);
    assert WritePass(s, p, bytes, true).0.At(q) == if s.blocks[q / B].Loaded? then bytes[q - p] else s.At(q);
  }

  /** The first of two blocks having been read from, a write across their border that is cancelled between its passes is
      torn. */
  lemma TornWrite(files: seq<File>)
    requires |files| == 2 && files[0][B - 1] == files[1][0] == 0
    ensures var s := Store([Absent(false), Absent(false)], files);
            var d := WritePass(LoadPass(s, 0, 1, true), B - 1, [1, 1], true).0.Disk();
            d[B - 1] == 1 && d[B] == 0
  {
    var s := LoadPass(Store([Absent(false), Absent(false)], files), 0, 1, true);
    assert s.blocks == [Loaded(false, files[0]), Absent(false)];
    WritePassDisk(s, B - 1, [1, 1], true);
    CancelledWrite(s, B - 1, [1, 1], B - 1);
    CancelledWrite(s, B - 1, [1, 1], B);
  }

  /** What a first pass leaves for the second: the blocks of its range loaded, and none lost. */
  ghost predicate FirstPass(s: Store, t: Store, p: int, length: int)
    requires s.Valid() && t.Valid()
  {
    Grows(s, t) && 0 <= p && 0 <= length && p + length <= s.Size() && AllLoaded(t, p, length)
  }

  lemma FirstWrite(s: Store, p: int, bytes: Bytes)
    requires s.Valid() && 0 <= p && p + |bytes| <= s.Size()
    ensures var (t, missing) := WritePass(s, p, bytes, true);
            && FirstPass(s, t, p, |bytes|) && (missing <==> !AllLoaded(s, p, |bytes|))
            && Overlay(t.Disk(), p, bytes) == Overlay(s.Disk(), p, bytes)
            && (!missing ==> t.Disk() == Overlay(s.Disk(), p, bytes))
  {
    WritePassDisk(s, p, bytes, true);
    WritePassMisses(s, p, bytes, true);
    WritePassTouches(s, p, bytes, true);
    WritePassGrows(s, p, bytes, true);
    RewriteSame(s, WritePass(s, p, bytes, true).0, p, bytes);
    if !WritePass(s, p, bytes, true).1 { WholeWrite(s, WritePass(s, p, bytes, true).0, p, bytes); }
  }

  // ---------- The driver ----------

  /** The outcome of a read of which `left` bytes are left, from p on: the blocks, whether one was missing, and the
      buffer. */
  ghost function ReadOutcome(s: Store, p: int, b: Bytes, done: int, length: int, left: int, missing: bool, load: bool)
      : (Store, bool, Bytes)
    requires s.Valid() && 0 <= p && 0 <= done <= length <= |b| && left == length - done && p + left <= s.Size()
  {
    (LoadPass(s, p, left, load), missing || Misses(s, p, left, load), ReadInto(s, p, b, done, length, load))
  }

  lemma LoadProgress(s: Store, p: int, length: int, load: bool, n: int, q: int, left: int)
    requires s.Valid() && 0 <= p && p + length <= s.Size() && length > 0
    requires n == Piece(p, length) && q == p + n && left == length - n
    ensures 0 < n <= length && p % B + n <= B
    ensures LoadPass(s, p, length, load) == LoadPass(LoadPiece(s, p, load), q, left, load)
    ensures Misses(s, p, length, load) == (s.blocks[p / B].Absent? || Misses(LoadPiece(s, p, load), q, left, load))
  {
    PieceFits(p, length);
  }

  /** What a turn does to a read. */
  lemma ReadProgress(s: Store, p: int, b: Bytes, done: int, length: int, left: int, missing: bool, load: bool, n: int,
                     q: int, next: int, rest: int)
    requires s.Valid() && 0 <= p && 0 <= done < length <= |b| && left == length - done && p + left <= s.Size()
    requires n == Piece(p, left) && q == p + n && next == done + n && rest == left - n
    ensures 0 < n <= left && p % B + n <= B
    ensures var t, c, m := LoadPiece(s, p, load), PieceInto(s, p, b, done, n), missing || s.blocks[p / B].Absent?;
            ReadOutcome(t, q, c, next, length, rest, m, load) == ReadOutcome(s, p, b, done, length, left, missing, load)
  {
    LoadProgress(s, p, left, load, n, q, rest);
    ReadIntoStep(s, p, b, done, length, load, n, q, next);
  }

  lemma WriteProgress(s: Store, p: int, b: Bytes, done: int, length: int, missing: bool, load: bool, n: int, q: int,
                      next: int)
    requires s.Valid() && 0 <= p && 0 <= done < length <= |b| && p + (length - done) <= s.Size()
    requires n == Piece(p, length - done) && q == p + n && next == done + n
    ensures 0 < n <= length - done && p % B + n <= B
    ensures WriteOutcome(WritePiece(s, p, b[done..next], load), q, b[next..length],
                         missing || s.blocks[p / B].Absent?, load)
      == WriteOutcome(s, p, b[done..length], missing, load)
  {
    var rest := b[done..length];
    PieceFits(p, |rest|);
    assert rest[..n] == b[done..next] && rest[n..] == b[next..length];
  }

  /** The outcome of a pass that goes on at p. */
  ghost function WriteOutcome(s: Store, p: int, rest: Bytes, missing: bool, load: bool): (Store, bool)
    requires s.Valid() && 0 <= p && p + |rest| <= s.Size()
  {
    var (t, m) := WritePass(s, p, rest, load);
    (t, missing || m)
  }

  datatype Transfer = None | Reading(position: int, length: int) | Writing(position: int, length: int)

  /** struct drive_internal_info with the transfer in progress. */
  class Drive {
    const blocks: array<Block>
    const files: seq<File>
    var transfer: Transfer
    var argument: array<Byte>

    ghost predicate Valid()
      reads this, blocks
    {
      Now().Valid() && Now().Size() <= WRAP
    }

    ghost function Now(): Store
      reads blocks
    {
      Store(blocks[..], files)
    }

    constructor (files: seq<File>, buffer: array<Byte>)
      requires |files| * B <= WRAP
      ensures Valid() && fresh(blocks) && transfer == None && this.files == files
      ensures forall k | 0 <= k < |files| :: blocks[k] == Absent(false)
    {
      blocks := new Block[|files|](_ => Absent(false));
      this.files := files;
      transfer := None;
      argument := buffer;
    }

    /** The end of a request as the read path keeps it, in 32 bits, and the number of blocks it computes from it. */
    static function BlocksFrom(position: int, end: int): int {
      var last := if end == 0 then WRAP - 1 else end - 1;
      last / B - position / B + 1
    }

    /** The end of a piece as the loops compute it. */
    static function PieceEnd(position: int, end: int): int {
      var e := if position / B == end / B then end % B else B;
      if e == 0 then B else e
    }

    static lemma WrappedEnd(position: int, length: int, end: int)
      requires 0 <= position && 0 < length && position + length <= WRAP
      requires end == position + length || (end == 0 && position + length == WRAP)
      ensures BlocksFrom(position, end) == Count(position, length)
      ensures PieceEnd(position, end) - position % B == Piece(position, length)
    {
    }

    /** Before a turn of the loops. */
    static ghost predicate AtTurn(position: int, length: int, current: int, done: int, turns: int) {
      0 <= position && 0 <= done <= length && current == position + done && turns == Count(current, length - done)
    }

    /** What a turn of the loops works out. */
    static lemma Turn(position: int, length: int, current: int, done: int, end: int, turns: int)
      requires AtTurn(position, length, current, done, turns) && 0 < length && position + length <= WRAP
      requires end == position + length || (end == 0 && position + length == WRAP)
      ensures turns <= 0 <==> done == length
      ensures turns > 0 ==> var n := Piece(current, length - done);
        && PieceEnd(current, end) - current % B == n && 0 < n <= length - done
        && AtTurn(position, length, current + n, done + n, turns - 1)
    {
      if done < length {
        WrappedEnd(current, length - done, end);
        CountDown(current, length - done);
        PieceFits(current, length - done);
      }
    }

    /** drive_internal_read_check. */
    method ReadCheck(buffer: array<Byte>, length: int, position: int, noXhr: bool) returns (missing: bool)
      requires Valid() && 0 <= position && 0 < length <= buffer.Length && position + length <= Now().Size()
      modifies blocks, buffer
      ensures Valid() && Now() == LoadPass(old(Now()), position, length, !noXhr)
      ensures missing == Misses(old(Now()), position, length, !noXhr)
      ensures buffer[..] == ReadInto(old(Now()), position, old(buffer[..]), 0, length, !noXhr)
    {
      var end := if position + length == WRAP then 0 else position + length;
      var blocksToRead := BlocksFrom(position, end);
      WrappedEnd(position, length, end);
      var current, done, i := position, 0, 0;
      missing := false;
      ghost var whole := ReadOutcome(Now(), position, buffer[..], 0, length, length, false, !noXhr);
      while i < blocksToRead
        invariant AtTurn(position, length, current, done, blocksToRead - i)
        invariant Valid()
            && ReadOutcome(Now(), current, buffer[..], done, length, length - done, missing, !noXhr) == whole
        decreases blocksToRead - i
      {
        missing, current, done :=
          ReadTurn(buffer, length, position, done, current, end, noXhr, missing, blocksToRead - i, whole);
        i := i + 1;
      }
      Turn(position, length, current, done, end, blocksToRead - i);
    }

    /** One turn of the loop. */
    method ReadTurn(buffer: array<Byte>, length: int, position: int, done: int, current: int, end: int, noXhr: bool,
                    missing: bool, ghost turns: int, ghost whole: (Store, bool, Bytes))
        returns (nowMissing: bool, next: int, nextDone: int)
      requires Valid() && 0 < length <= buffer.Length && position + length <= Now().Size() && turns > 0
      requires AtTurn(position, length, current, done, turns)
      requires end == position + length || (end == 0 && position + length == WRAP)
      requires ReadOutcome(Now(), current, buffer[..], done, length, length - done, missing, !noXhr) == whole
      modifies blocks, buffer
      ensures Valid() && AtTurn(position, length, next, nextDone, turns - 1)
      ensures ReadOutcome(Now(), next, buffer[..], nextDone, length, length - nextDone, nowMissing, !noXhr) == whole
    {
      Turn(position, length, current, done, end, turns);
      var len := PieceEnd(current, end) - current % B;
      next, nextDone := current + len, done + len;
      ReadProgress(Now(), current, buffer[..], done, length, length - done, missing, !noXhr, len, next, nextDone,
                   length - nextDone);
      var absent := ReadOne(buffer, done, len, current, noXhr);
      nowMissing := missing || absent;
    }

    /** One piece of a read. */
    method ReadOne(buffer: array<Byte>, done: int, len: int, current: int, noXhr: bool) returns (absent: bool)
      requires Valid() && 0 <= current && 0 < len && current + len <= Now().Size() && current % B + len <= B
      requires 0 <= done && done + len <= buffer.Length
      modifies blocks, buffer
      ensures Valid() && Now() == LoadPiece(old(Now()), current, !noXhr)
      ensures absent == old(Now()).blocks[current / B].Absent?
      ensures buffer[..] == PieceInto(old(Now()), current, old(buffer[..]), done, len)
    {
      var k := current / B;
      absent := blocks[k].Absent?;
      if !absent {
        var data, offset := blocks[k].data, current % B;
        forall j | 0 <= j < len { buffer[done + j] := data[offset + j]; }
      } else if !noXhr {
        blocks[k] := Loaded(blocks[k].modified, files[k]);
      }
    }

    /** drive_internal_write_check. Its end is kept in 64 bits. */
    method WriteCheck(buffer: array<Byte>, length: int, position: int, noXhr: bool) returns (missing: bool)
      requires Valid() && 0 <= position && 0 < length <= buffer.Length && position + length <= Now().Size()
      modifies blocks
      ensures Valid() && (Now(), missing) == WritePass(old(Now()), position, buffer[..length], !noXhr)
    {
      var end := position + length;
      var blocksToWrite := BlocksFrom(position, end);
      WrappedEnd(position, length, end);
      var current, done, i := position, 0, 0;
      missing := false;
      ghost var whole := WritePass(Now(), position, buffer[..length], !noXhr);
      assert buffer[0..length] == buffer[..length];
      while i < blocksToWrite
        invariant AtTurn(position, length, current, done, blocksToWrite - i)
        invariant Valid() && WriteOutcome(Now(), current, buffer[done..length], missing, !noXhr) == whole
        decreases blocksToWrite - i
      {
        missing, current, done :=
          WriteTurn(buffer, length, position, done, current, end, noXhr, missing, blocksToWrite - i, whole);
        i := i + 1;
      }
      Turn(position, length, current, done, end, blocksToWrite - i);
      assert buffer[done..length] == [];
    }

    method WriteTurn(buffer: array<Byte>, length: int, position: int, done: int, current: int, end: int, noXhr: bool,
                     missing: bool, ghost turns: int, ghost whole: (Store, bool))
        returns (nowMissing: bool, next: int, nextDone: int)
      requires Valid() && 0 < length <= buffer.Length && position + length <= Now().Size() && turns > 0
      requires AtTurn(position, length, current, done, turns)
      requires end == position + length || (end == 0 && position + length == WRAP)
      requires WriteOutcome(Now(), current, buffer[done..length], missing, !noXhr) == whole
      modifies blocks
      ensures Valid() && AtTurn(position, length, next, nextDone, turns - 1)
      ensures WriteOutcome(Now(), next, buffer[nextDone..length], nowMissing, !noXhr) == whole
    {
      Turn(position, length, current, done, end, turns);
      var len := PieceEnd(current, end) - current % B;
      next, nextDone := current + len, done + len;
      WriteProgress(Now(), current, buffer[..], done, length, missing, !noXhr, len, next, nextDone);
      assert buffer[..][done..length] == buffer[done..length] && buffer[..][done..nextDone] == buffer[done..done + len];
      assert buffer[..][nextDone..length] == buffer[nextDone..length];
      var absent := WriteOne(buffer, done, len, current, noXhr);
      nowMissing := missing || absent;
    }

    /** One piece of a write. */
    method WriteOne(buffer: array<Byte>, done: int, len: int, current: int, noXhr: bool) returns (absent: bool)
      requires Valid() && 0 <= current && 0 < len && current + len <= Now().Size() && current % B + len <= B
      requires 0 <= done && done + len <= buffer.Length
      modifies blocks
      ensures Valid() && Now() == WritePiece(old(Now()), current, buffer[done..done + len], !noXhr)
      ensures absent == old(Now()).blocks[current / B].Absent?
    {
      var k := current / B;
      absent := blocks[k].Absent?;
      if !absent {
        var data, offset := blocks[k].data, current % B;
        blocks[k] := Loaded(true, data[..offset] + buffer[done..done + len] + data[offset + len..]);
      } else if !noXhr {
        blocks[k] := Loaded(true, files[k]);
      } else {
        blocks[k] := Absent(true);
      }
    }

    /** drive_internal_read: true if the read is complete, false if its completion is pending, with its arguments kept
        and all its blocks loaded. */
    method Read(buffer: array<Byte>, length: int, position: int) returns (sync: bool)
      requires Valid() && 0 <= position && 0 < length <= buffer.Length && position + length <= Now().Size()
      modifies this, blocks, buffer
      ensures Valid() && FirstPass(old(Now()), Now(), position, length)
      ensures Now().Disk() == old(Now()).Disk() && buffer[length..] == old(buffer[length..])
      ensures sync <==> AllLoaded(old(Now()), position, length)
      ensures sync ==> buffer[..length] == Now().Disk()[position..position + length] && transfer == old(transfer)
      ensures !sync ==> transfer == Reading(position, length) && argument == buffer
    {
      ghost var s := Now();
      FirstRead(s, position, buffer[..], length);
      var missing := ReadCheck(buffer, length, position, false);
      sync := !missing;
      if missing {
        argument := buffer;
        transfer := Reading(position, length);
      }
    }

    /** drive_internal_write. */
    method Write(buffer: array<Byte>, length: int, position: int) returns (sync: bool)
      requires Valid() && 0 <= position && 0 < length <= buffer.Length && position + length <= Now().Size()
      modifies this, blocks
      ensures Valid() && FirstPass(old(Now()), Now(), position, length)
      ensures sync <==> AllLoaded(old(Now()), position, length)
      ensures Overlay(Now().Disk(), position, buffer[..length])
          == Overlay(old(Now()).Disk(), position, buffer[..length])
      ensures sync
          ==> Now().Disk() == Overlay(old(Now()).Disk(), position, buffer[..length]) && transfer == old(transfer)
      ensures !sync ==> transfer == Writing(position, length) && argument == buffer
    {
      ghost var s := Now();
      FirstWrite(s, position, buffer[..length]);
      var missing := WriteCheck(buffer, length, position, false);
      sync := !missing;
      if missing {
        argument := buffer;
        transfer := Writing(position, length);
      }
    }

    /** The pending transfer can end: its bytes exist and all its blocks are loaded. */
    ghost predicate MayComplete()
      reads this, blocks, argument
      requires Valid()
    {
      transfer != None ==>
        && 0 <= transfer.position && 0 < transfer.length <= argument.Length
           && transfer.position + transfer.length <= Now().Size()
        && AllLoaded(Now(), transfer.position, transfer.length)
    }

    /** drive_internal_read_cb. */
    method ReadCompletes(p: int, n: int) returns (aborted: bool)
      requires Valid() && MayComplete() && transfer == Reading(p, n)
      modifies blocks, argument
      ensures Valid() && !aborted && Now().Disk() == old(Now()).Disk()
      ensures argument[..n] == Now().Disk()[p..p + n] && argument[n..] == old(argument[n..])
    {
      SecondRead(Now(), p, argument[..], n, false);
      aborted := ReadCheck(argument, n, p, true);
    }

    /** drive_internal_write_cb. */
    method WriteCompletes(p: int, n: int) returns (aborted: bool)
      requires Valid() && MayComplete() && transfer == Writing(p, n)
      modifies blocks
      ensures Valid() && !aborted
      ensures Now().Disk() == Overlay(old(Now()).Disk(), p, argument[..n]) && AllModified(Now(), p, n)
    {
      SecondWrite(Now(), p, argument[..n]);
      aborted := WriteCheck(argument, n, p, true);
    }

    /** drive_check_complete: the abort of the callbacks is not reached, and the transfer ends as a flat one. */
    method CheckComplete() returns (aborted: bool)
      requires Valid() && MayComplete()
      modifies this, blocks, argument
      ensures Valid() && transfer == None && argument == old(argument) && !aborted
      ensures old(transfer).None? ==> Now() == old(Now()) && argument[..] == old(argument[..])
      ensures old(transfer).Reading? ==> var p, n := old(transfer).position, old(transfer).length;
        Now().Disk() == old(Now()).Disk() && argument[..n] == Now().Disk()[p..p + n]
            && argument[n..] == old(argument[n..])
      ensures old(transfer).Writing? ==> var p, n := old(transfer).position, old(transfer).length;
        && Now().Disk() == Overlay(old(Now()).Disk(), p, argument[..n]) && AllModified(Now(), p, n)
        && argument[..] == old(argument[..])
    {
      aborted := false;
      match transfer {
        case None =>
        case Reading(position, length) => aborted := ReadCompletes(position, length);
        case Writing(position, length) => aborted := WriteCompletes(position, length);
      }
      transfer := None;
    }
  }

  // ---------- The driver of plain image files ----------

  const SECTOR := 512

  lemma SectorInBlock(p: int)
    requires 0 <= p && p % SECTOR == 0
    ensures p % B + SECTOR <= B
  {
  }

  /** drive_simple_write on one sector: through the cache, or to the file if it may be modified. */
  function WriteSector(s: Store, p: int, bytes: Bytes, raw: bool): (t: Store)
    requires s.Valid() && 0 <= p && p + |bytes| <= s.Size() && 0 < |bytes| && p % B + |bytes| <= B
    ensures t.Valid() && |t.blocks| == |s.blocks|
  {
    if raw then s.(files := s.files[p / B := Overlay(s.files[p / B], p % B, bytes)])
    else WritePiece(LoadPiece(s, p, true), p, bytes, true)
  }

  lemma WriteSectorAt(s: Store, p: int, bytes: Bytes, raw: bool, q: int)
    requires s.Valid() && 0 <= p && p + |bytes| <= s.Size() && 0 < |bytes| && p % B + |bytes| <= B && 0 <= q < s.Size()
    requires raw ==> s.blocks[p / B].Absent?
    ensures WriteSector(s, p, bytes, raw).At(q) == if p <= q < p + |bytes| then bytes[q - p] else s.At(q)
  {
    SamePlace(p, q, |bytes|);
    if raw {
      if q / B == p / B { OverlayAt(s.files[p / B], p % B, bytes, q % B); }
    } else {
      WritePieceAt(LoadPiece(s, p, true), p, bytes, true, q);
      LoadPieceKeepsDisk(s, p, true);
    }
  }

  lemma WriteSectorDisk(s: Store, p: int, bytes: Bytes, raw: bool)
    requires s.Valid() && 0 <= p && p + |bytes| <= s.Size() && 0 < |bytes| && p % B + |bytes| <= B
    requires raw ==> s.blocks[p / B].Absent?
    ensures WriteSector(s, p, bytes, raw).Disk() == Overlay(s.Disk(), p, bytes)
  {
    forall q | 0 <= q < s.Size() ensures WriteSector(s, p, bytes, raw).Disk()[q] == Overlay(s.Disk(), p, bytes)[q] {
      WriteSectorAt(s, p, bytes, raw, q);
      OverlayAt(s.Disk(), p, bytes, q);
    }
  }

  lemma OverlayMore(d: Bytes, p: int, bytes: Bytes, m: int, n: int)
    requires 0 <= p && 0 <= m <= n <= |bytes| && p + |bytes| <= |d|
    ensures Overlay(Overlay(d, p, bytes[..m]), p + m, bytes[m..n]) == Overlay(d, p, bytes[..n])
  {
    assert bytes[..n][..m] == bytes[..m] && bytes[..n][m..] == bytes[m..n];
    OverlaySplit(d, p, bytes[..n], m);
  }

  lemma SectorLeft(offset: int, done: int, size: int)
    requires 0 <= offset && 0 <= done < size && offset % SECTOR == 0 && done % SECTOR == 0 && size % SECTOR == 0
    ensures done + SECTOR <= size && (done + SECTOR) % SECTOR == 0 && (offset + done) % SECTOR == 0
  {
  }

  /** struct simple_driver. */
  class Image {
    const blocks: array<Block>
    var files: seq<File>
    const raw: bool

    ghost function Now(): Store
      reads this, blocks
    {
      Store(blocks[..], files)
    }

    ghost predicate Valid()
      reads this, blocks
    {
      Now().Valid() && (raw ==> forall k | 0 <= k < blocks.Length :: blocks[k].Absent?)
    }

    /** drive_simple_init on an image of whole blocks. */
    constructor (files: seq<File>, modifyBackingFile: bool)
      ensures Valid() && fresh(blocks) && this.files == files && raw == modifyBackingFile
    {
      blocks := new Block[|files|](_ => Absent(false));
      this.files := files;
      raw := modifyBackingFile;
    }

    method WriteOneSector(buffer: array<Byte>, done: int, offset: int)
      requires Valid() && 0 <= offset && offset % SECTOR == 0 && offset + SECTOR <= Now().Size()
      requires 0 <= done && done + SECTOR <= buffer.Length
      modifies this, blocks
      ensures Valid() && |Now().blocks| == |old(Now()).blocks|
      ensures Now().Disk() == Overlay(old(Now()).Disk(), offset, buffer[done..done + SECTOR])
    {
      SectorInBlock(offset);
      WriteSectorDisk(Now(), offset, buffer[done..done + SECTOR], raw);
      ghost var after := WriteSector(Now(), offset, buffer[done..done + SECTOR], raw);
      var k, at := offset / B, offset % B;
      if raw {
        files := files[k := Overlay(files[k], at, buffer[done..done + SECTOR])];
      } else {
        if blocks[k].Absent? { blocks[k] := Loaded(blocks[k].modified, files[k]); }
        blocks[k] := Loaded(true, Overlay(blocks[k].data, at, buffer[done..done + SECTOR]));
      }
      assert Now() == after;
    }

    /** drive_simple_write: one flat write. */
    method Write(buffer: array<Byte>, size: int, offset: int)
      requires Valid() && 0 <= offset && 0 <= size <= buffer.Length && offset + size <= Now().Size()
      requires size % SECTOR == 0 && offset % SECTOR == 0
      modifies this, blocks
      ensures Valid() && |Now().blocks| == |old(Now()).blocks|
      ensures Now().Disk() == Overlay(old(Now()).Disk(), offset, buffer[..size])
    {
      var done := 0;
      ghost var d, bytes := Now().Disk(), buffer[..size];
      while done != size
        invariant 0 <= done <= size && done % SECTOR == 0 && Valid() && |Now().blocks| == |old(Now()).blocks|
        invariant Now().Disk() == Overlay(d, offset, bytes[..done])
        decreases size - done
      {
        SectorLeft(offset, done, size);
        OverlayMore(d, offset, bytes, done, done + SECTOR);
        assert bytes[done..done + SECTOR] == buffer[done..done + SECTOR];
        WriteOneSector(buffer, done, offset + done);
        done := done + SECTOR;
      }
      assert bytes[..size] == buffer[..size];
    }

    /** One sector of a read. */
    method ReadOneSector(buffer: array<Byte>, done: int, offset: int)
      requires Valid() && 0 <= offset && offset % SECTOR == 0 && offset + SECTOR <= Now().Size()
      requires 0 <= done && done + SECTOR <= buffer.Length
      modifies buffer
      ensures buffer[done..done + SECTOR] == Now().Disk()[offset..offset + SECTOR]
      ensures buffer[..done] == old(buffer[..done]) && buffer[done + SECTOR..] == old(buffer[done + SECTOR..])
    {
      SectorInBlock(offset);
      var k, at := offset / B, offset % B;
      var data := if blocks[k].Loaded? then blocks[k].data else files[k];
      forall j | 0 <= j < SECTOR { buffer[done + j] := data[at + j]; }
      ghost var d := Now().Disk()[offset..offset + SECTOR];
      forall j | 0 <= j < SECTOR ensures buffer[done..done + SECTOR][j] == d[j] {
        SamePlace(offset, offset + j, SECTOR);
      }
    }

    /** drive_simple_read: from the cache, or the file where nothing is cached. */
    method Read(buffer: array<Byte>, size: int, offset: int)
      requires Valid() && 0 <= offset && 0 <= size <= buffer.Length && offset + size <= Now().Size()
      requires size % SECTOR == 0 && offset % SECTOR == 0
      modifies buffer
      ensures buffer[..size] == Now().Disk()[offset..offset + size] && buffer[size..] == old(buffer[size..])
    {
      var done := 0;
      ghost var d := Now().Disk();
      while done != size
        invariant 0 <= done <= size && done % SECTOR == 0
        invariant buffer[..done] == d[offset..offset + done]
        invariant buffer[size..] == old(buffer[size..])
        decreases size - done
      {
        SectorLeft(offset, done, size);
        ReadOneSector(buffer, done, offset + done);
        assert buffer[..done + SECTOR] == buffer[..done] + buffer[done..done + SECTOR];
        assert buffer[size..] == buffer[done + SECTOR..][size - done - SECTOR..];
        done := done + SECTOR;
      }
    }
  }
}
