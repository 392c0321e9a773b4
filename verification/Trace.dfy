/**
 The trace cache of src/cpu/trace.cpp and cpu_decode of src/cpu/decoder.cpp: runs of decoded instructions in a bump-
 allocated array, behind a table indexed by a hash of the physical address. What the decoder finds is a parameter.
 */
module Trace {

  const ENTRIES := 0x1_0000
  const SIZE := 0x8_0000
  const MAX_RUN := 32

  /** A decoded slot; ends tells that the instruction ends its trace. */
  datatype Insn = Decoded(token: int, ends: bool) | TraceEnd

  /** What cpu_decode meets at its n-th instruction: whether it reaches past the page or may do so, whether fetching the
      next page then faults, and the instruction. */
  datatype Choice = Choice(crosses: bool, faults: bool, insn: Insn)

  type Code = int -> Choice

  /** struct trace_info; ptr is an index into the cache, or -1. */
  datatype Info = Info(phys: int, hash: int, ptr: int)

  const BLANK := Info(0, 0, -1)

  /** hash_eip. */
  function Hash(phys: int): (h: int)
    ensures 0 <= h < ENTRIES
  {
    phys % ENTRIES
  }

  predicate Ends(i: Insn) {
    i.TraceEnd? || i.ends
  }

  /** cpu_decode into the slots from at on, n instructions being done: the cache, the slots used, and whether the run
      enters the table. A first instruction that crosses its page is decoded alone and does not. */
  function DecodeInto(cache: seq<Insn>, at: int, code: Code, n: int): (r: (seq<Insn>, int, bool))
    requires 0 <= at && at + MAX_RUN <= |cache| && 0 <= n < MAX_RUN - 1
    ensures |r.0| == |cache| && n < r.1 <= MAX_RUN
    ensures forall j | 0 <= j < |cache| && !(at + n <= j < at + r.1) :: r.0[j] == cache[j]
    ensures Ends(r.0[at + r.1 - 1])
    decreases MAX_RUN - n
  {
    var x := code(n);
    if x.crosses && n > 0 then (cache[at + n := TraceEnd], n + 1, true)
    else if x.crosses then
      if x.faults then (cache[at := TraceEnd], 1, false)
      else if Ends(x.insn) then (cache[at := x.insn], 1, false)
      else (cache[at := x.insn][at + 1 := TraceEnd], 2, false)
    else
      var d := cache[at + n := x.insn];
      if Ends(x.insn) then (d, n + 1, true)
      else if n + 1 >= MAX_RUN - 1 then (d[at + n + 1 := TraceEnd], n + 2, true)
      else DecodeInto(d, at, code, n + 1)
  }

  /** The slots from at on hold a run from its n-th instruction on: each instruction in turn up to the first that ends a
      trace, or an end mark in place of one that crosses its page, or after 31 instructions. */
  ghost predicate HoldsRun(cache: seq<Insn>, at: int, code: Code, n: int, used: int)
    requires 0 <= at && at + MAX_RUN <= |cache| && 0 <= n < used <= MAX_RUN
  {
    var last := used - 1;
    && (forall j | n <= j < last :: !code(j).crosses && cache[at + j] == code(j).insn && !Ends(code(j).insn))
    && if last == MAX_RUN - 1 || code(last).crosses then cache[at + last] == TraceEnd
       else cache[at + last] == code(last).insn && Ends(code(last).insn)
  }

  /** A first instruction that crosses its page is alone, with an end mark behind it unless it ends a trace itself; if
      its second page faults there is only the mark. */
  ghost predicate HoldsCrossing(cache: seq<Insn>, at: int, first: Choice, used: int)
    requires 0 <= at && at + MAX_RUN <= |cache| && 0 < used <= MAX_RUN
  {
    if first.faults then used == 1 && cache[at] == TraceEnd
    else if Ends(first.insn) then used == 1 && cache[at] == first.insn
    else used == 2 && cache[at] == first.insn && cache[at + 1] == TraceEnd
  }

  lemma RunGoesOn(cache: seq<Insn>, at: int, code: Code, n: int, next: int, used: int)
    requires 0 <= at && at + MAX_RUN <= |cache| && 0 <= n && next == n + 1 && next < used <= MAX_RUN
    requires HoldsRun(cache, at, code, next, used)
    requires !code(n).crosses && cache[at + n] == code(n).insn && !Ends(code(n).insn)
    ensures HoldsRun(cache, at, code, n, used)
  {
    forall j | n <= j < used - 1
      ensures !code(j).crosses && cache[at + j] == code(j).insn && !Ends(code(j).insn)
    {
    }
  }

  lemma {:induction false} DecodeUnfolds(cache: seq<Insn>, at: int, code: Code, n: int, next: int, d: seq<Insn>)
    requires 0 <= at && at + MAX_RUN <= |cache| && 0 <= n && next == n + 1 && next < MAX_RUN - 1
    requires !code(n).crosses && !Ends(code(n).insn) && d == cache[at + n := code(n).insn]
    ensures DecodeInto(cache, at, code, n) == DecodeInto(d, at, code, next)
  {
  }

  /** What a decode leaves behind, and that a crossing first instruction alone keeps the run out of the table. */
  lemma {:induction false} RunHolds(cache: seq<Insn>, at: int, code: Code, n: int)
    requires 0 <= at && at + MAX_RUN <= |cache| && 0 <= n < MAX_RUN - 1
    ensures var (d, used, kept) := DecodeInto(cache, at, code, n);
            && (kept <==> n > 0 || !code(0).crosses)
            && if kept then HoldsRun(d, at, code, n, used) else HoldsCrossing(d, at, code(0), used)
    decreases MAX_RUN - n
  {
    var x, next := code(n), n + 1;
    if !x.crosses && !Ends(x.insn) && next < MAX_RUN - 1 {
      var c := cache[at + n := x.insn];
      RunHolds(c, at, code, next);
      DecodeUnfolds(cache, at, code, n, next, c);
      var (d, used, kept) := DecodeInto(c, at, code, next);
      assert d[at + n] == c[at + n];
      RunGoesOn(d, at, code, n, next, used);
    } else {
      RunEnds(cache, at, code, n);
    }
  }

  lemma {:induction false} RunEnds(cache: seq<Insn>, at: int, code: Code, n: int)
    requires 0 <= at && at + MAX_RUN <= |cache| && 0 <= n < MAX_RUN - 1
    requires code(n).crosses || Ends(code(n).insn) || n == MAX_RUN - 2
    ensures var (d, used, kept) := DecodeInto(cache, at, code, n);
            && (kept <==> n > 0 || !code(0).crosses)
            && if kept then HoldsRun(d, at, code, n, used) else HoldsCrossing(d, at, code(0), used)
  {
  }

  /** A run lies wholly below the usage mark and is still what was decoded. */
  ghost predicate LiveRun(cache: seq<Insn>, ptr: int, run: seq<Insn>, usage: int) {
    && 0 <= ptr && 0 < |run| <= MAX_RUN && ptr + |run| <= usage <= |cache|
    && cache[ptr..ptr + |run|] == run && Ends(run[|run| - 1])
  }

  /** Slots from at on are rewritten: the runs below are as they were. */
  lemma StaysLive(before: seq<Insn>, after: seq<Insn>, ptr: int, run: seq<Insn>, at: int, usage: int)
    requires LiveRun(before, ptr, run, at) && |after| == |before| && at <= usage <= |after|
    requires forall j | 0 <= j < at :: after[j] == before[j]
    ensures LiveRun(after, ptr, run, usage)
  {
  }

  /** An entry never filled since the last flush is zero, or the entry of address 0 invalidated. */
  ghost predicate Empty(info: seq<Info>, k: int)
    requires 0 <= k < |info|
  {
    info[k] == BLANK || (k == 0 && info[k] == BLANK.(phys := 0xFFFF_FFFF))
  }

  /** Every entry without a run is empty, and every other one names the run that it was filled with. */
  ghost predicate Sound(cache: seq<Insn>, info: seq<Info>, runs: map<int, seq<Insn>>, usage: int) {
    && |cache| == SIZE && |info| == ENTRIES && 0 <= usage < SIZE
    && forall k | 0 <= k < ENTRIES ::
      if info[k].ptr == -1 then Empty(info, k) else k in runs && LiveRun(cache, info[k].ptr, runs[k], usage)
  }

  lemma OthersStayLive(before: seq<Insn>, after: seq<Insn>, info: seq<Info>, runs: map<int, seq<Insn>>, at: int,
                       usage: int)
    requires Sound(before, info, runs, at) && |after| == SIZE && at <= usage < SIZE
    requires forall j | 0 <= j < at :: after[j] == before[j]
    ensures Sound(after, info, runs, usage)
  {
    forall i | 0 <= i < ENTRIES && info[i].ptr != -1 ensures LiveRun(after, info[i].ptr, runs[i], usage) {
      StaysLive(before, after, info[i].ptr, runs[i], at, usage);
    }
  }

  /** A decode into free slots keeps every run, and adds its own if it enters the table. */
  lemma DecodeKeepsSound(cache: seq<Insn>, info: seq<Info>, runs: map<int, seq<Insn>>, usage: int, k: int, phys: int,
                         hash: int, code: Code)
    requires Sound(cache, info, runs, usage) && usage + MAX_RUN < SIZE && 0 <= k < ENTRIES
    ensures var (after, used, kept) := DecodeInto(cache, usage, code, 0);
            if kept then
              Sound(after, info[k := Info(phys, hash, usage)], runs[k := after[usage..usage + used]], usage + used)
            else Sound(after, info, runs, usage)
  {
    var (after, used, kept) := DecodeInto(cache, usage, code, 0);
    var mark := if kept then usage + used else usage;
    DecodedRun(cache, usage, code);
    OthersStayLive(cache, after, info, runs, usage, mark);
    if kept { RunAdded(after, info, runs, mark, k, Info(phys, hash, usage), after[usage..usage + used]); }
  }

  /** The run of a decode lies behind everything decoded before. */
  lemma DecodedRun(cache: seq<Insn>, usage: int, code: Code)
    requires |cache| == SIZE && 0 <= usage && usage + MAX_RUN < SIZE
    ensures var (after, used, _) := DecodeInto(cache, usage, code, 0);
            && |after| == SIZE && 0 < used <= MAX_RUN && (forall j | 0 <= j < usage :: after[j] == cache[j])
            && LiveRun(after, usage, after[usage..usage + used], usage + used)
  {
    var (after, used, _) := DecodeInto(cache, usage, code, 0);
    assert after[usage..usage + used][used - 1] == after[usage + used - 1];
  }

  lemma RunAdded(cache: seq<Insn>, info: seq<Info>, runs: map<int, seq<Insn>>, usage: int, k: int, entry: Info,
                 run: seq<Insn>)
    requires Sound(cache, info, runs, usage) && 0 <= k < ENTRIES && LiveRun(cache, entry.ptr, run, usage)
    ensures Sound(cache, info[k := entry], runs[k := run], usage)
  {
  }

  class TraceCache {
    const cache: array<Insn>
    const info: array<Info>
    var usage: int
    /** The run that each entry was filled with last. */
    ghost var runs: map<int, seq<Insn>>

    ghost predicate Valid()
      reads this, cache, info
    {
      Sound(cache[..], info[..], runs, usage)
    }

    constructor ()
      ensures Valid() && fresh(cache) && fresh(info) && usage == 0 && forall k | 0 <= k < ENTRIES :: info[k] == BLANK
    {
      cache := new Insn[SIZE](_ => TraceEnd);
      info := new Info[ENTRIES](_ => BLANK);
      usage, runs := 0, map[];
    }

    /** cpu_trace_flush. */
    method Flush()
      requires Valid()
      modifies this, info
      ensures Valid() && usage == 0 && forall k | 0 <= k < ENTRIES :: info[k] == BLANK
    {
      forall k | 0 <= k < ENTRIES { info[k] := BLANK; }
      usage := 0;
    }

    /** cpu_decode for entry k, into the slots from at on. */
    method Decode(k: int, at: int, phys: int, hash: int, code: Code) returns (n: int)
      requires 0 <= k < info.Length && 0 <= at && at + MAX_RUN <= cache.Length
      modifies cache, info
      ensures cache[..] == DecodeInto(old(cache[..]), at, code, 0).0
      ensures n == if DecodeInto(old(cache[..]), at, code, 0).2 then DecodeInto(old(cache[..]), at, code, 0).1 else 0
      ensures info[..] == old(info[..])[k := if n != 0 then Info(phys, hash, at) else old(info[k])]
    {
      n := DecodeRun(at, code);
      if n != 0 { info[k] := Info(phys, hash, at); }
    }

    /** Its loop. */
    method DecodeRun(at: int, code: Code) returns (n: int)
      requires 0 <= at && at + MAX_RUN <= cache.Length
      modifies cache
      ensures cache[..] == DecodeInto(old(cache[..]), at, code, 0).0
      ensures n == if DecodeInto(old(cache[..]), at, code, 0).2 then DecodeInto(old(cache[..]), at, code, 0).1 else 0
    {
      var translated, temporary, done := 0, false, false;
      ghost var before := cache[..];
      while !done
        invariant !done ==> 0 <= translated < MAX_RUN - 1 && !temporary
        invariant !done ==> DecodeInto(cache[..], at, code, translated) == DecodeInto(before, at, code, 0)
        invariant done ==> cache[..] == DecodeInto(before, at, code, 0).0
        invariant done ==> temporary != DecodeInto(before, at, code, 0).2
        invariant done && !temporary ==> translated == DecodeInto(before, at, code, 0).1
        decreases if done then 0 else MAX_RUN - translated
      {
        var i := at + translated;
        var x := code(translated);
        if x.crosses && (translated != 0 || x.faults) {
          temporary := translated == 0;
          cache[i] := TraceEnd;
          translated := translated + 1;
          done := true;
        } else {
          temporary := x.crosses;
          cache[i] := x.insn;
          translated := translated + 1;
          if Ends(x.insn) || temporary || translated >= MAX_RUN - 1 {
            done := true;
            if !Ends(x.insn) {
              cache[i + 1] := TraceEnd;
              translated := translated + 1;
            }
          }
        }
      }
      n := if temporary then 0 else translated;
    }

    /** The n slots from p on end a trace. */
    ghost predicate RunOf(p: int, n: int)
      reads cache
    {
      0 < n <= MAX_RUN && 0 <= p && p + n <= cache.Length && Ends(cache[p + n - 1])
    }

    /** The slots from p on hold a run. */
    ghost predicate RunAt(p: int)
      reads cache
    {
      exists n :: RunOf(p, n)
    }

    /** Whether the table has an entry for an address in a processor state. */
    predicate Hits(phys: int, hash: int)
      requires info.Length == ENTRIES
      reads info
    {
      info[Hash(phys)].phys == phys && info[Hash(phys)].hash == hash
    }

    /** The flush before a decode that might not fit. */
    method MakeRoom()
      requires Valid()
      modifies this, info
      ensures Valid() && usage == if old(usage) + MAX_RUN >= SIZE then 0 else old(usage)
    {
      if usage + MAX_RUN >= SIZE { Flush(); }
    }

    lemma RunThere(before: seq<Insn>, p: int, code: Code)
      requires 0 <= p && p + MAX_RUN <= |before| == cache.Length && cache[..] == DecodeInto(before, p, code, 0).0
      ensures RunAt(p)
    {
      var n := DecodeInto(before, p, code, 0).1;
      assert Ends(cache[..][p + n - 1]) && RunOf(p, n);
    }

    /** The cache after a decode into the slots from p on: the slots used are taken, and the table has the entry, if the
        run enters the table. */
    ghost predicate Decoded(d: (seq<Insn>, int, bool), p: int, phys: int, hash: int)
      requires info.Length == ENTRIES
      reads this, cache, info
    {
      && cache[..] == d.0 && usage == p + (if d.2 then d.1 else 0)
      && (d.2 ==> Hits(phys, hash) && info[Hash(phys)].ptr == p)
    }

    /** A decode of a missing run, for which there is room. */
    method Fill(phys: int, hash: int, code: Code)
      requires Valid() && 0 <= phys && usage + MAX_RUN < SIZE
      modifies this, cache, info
      ensures Valid()
      ensures Decoded(DecodeInto(old(cache[..]), old(usage), code, 0), old(usage), phys, hash)
    {
      var k, p := Hash(phys), usage;
      ghost var (after, used, kept) := DecodeInto(cache[..], p, code, 0);
      DecodeKeepsSound(cache[..], info[..], runs, p, k, phys, hash, code);
      var n := Decode(k, p, phys, hash, code);
      usage := p + n;
      runs := if kept then runs[k := after[p..p + used]] else runs;
      assert cache[..] == after;
    }

    /** A miss: a flush if the cache may not have room for a run, and a decode. */
    method Miss(phys: int, hash: int, code: Code) returns (p: int)
      requires Valid() && 0 <= phys
      modifies this, cache, info
      ensures Valid() && RunAt(p) && p == if old(usage) + MAX_RUN >= SIZE then 0 else old(usage)
      ensures Decoded(DecodeInto(old(cache[..]), p, code, 0), p, phys, hash)
    {
      MakeRoom();
      p := usage;
      ghost var before := cache[..];
      Fill(phys, hash, code);
      RunThere(before, p, code);
    }

    /** cpu_get_trace on the page that m_phys_eip is known to be in; the abort is that of a matching entry without a
        run. */
    method GetTrace(phys: int, hash: int, code: Code) returns (p: int, aborted: bool)
      requires Valid() && 0 <= phys < 0xFFFF_FFFF
      modifies this, cache, info
      ensures Valid()
      ensures aborted <==> phys == 0 && hash == 0 && old(info[0]) == BLANK
      ensures old(Hits(phys, hash)) ==> unchanged(this, cache, info)
      ensures old(Hits(phys, hash)) && !aborted
        ==> p == info[Hash(phys)].ptr && Hash(phys) in runs && LiveRun(cache[..], p, runs[Hash(phys)], usage)
      ensures !old(Hits(phys, hash)) ==>
        && p == (if old(usage) + MAX_RUN >= SIZE then 0 else old(usage))
        && cache[..] == DecodeInto(old(cache[..]), p, code, 0).0
      ensures !aborted ==> RunAt(p)
    {
      var trace := info[Hash(phys)];
      if trace.phys == phys && trace.hash == hash {
        p := trace.ptr;
        aborted := p == -1;
        if !aborted {
          ghost var run := runs[Hash(phys)];
          assert LiveRun(cache[..], p, run, usage);
          assert cache[..][p..p + |run|][|run| - 1] == cache[p + |run| - 1];
          assert RunOf(p, |run|);
        }
      } else {
        aborted := false;
        p := Miss(phys, hash, code);
      }
    }

    /** The first lookup of all, for address 0 in state 0: an entry that was never filled matches, and the lookup
        aborts. */
    static method FirstLookup(code: Code) returns (aborted: bool)
      ensures aborted
    {
      var c := new TraceCache();
      var p;
      p, aborted := c.GetTrace(0, 0, code);
    }

    /** The entry that cpu_smc_invalidate drops when code at an address is overwritten. */
    method Invalidate(phys: int)
      requires Valid() && 0 <= phys < 0xFFFF_FFFF
      modifies info
      ensures Valid() && forall hash :: !Hits(phys, hash)
    {
      var k := Hash(phys);
      if info[k].phys == phys {
        info[k] := info[k].(phys := 0xFFFF_FFFF);
      }
    }
  }
}
