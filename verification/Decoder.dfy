/**
 Instruction lengths in src/cpu/decoder.cpp: the predictor, which counts bytes down from a limit, and the parser of
 ModRM, SIB and displacement bytes, which moves a cursor. The opcode tables are parameters.
 */
module Decoder {

  type Byte = b: int | 0 <= b < 256

  /** The bytes from the start of an instruction on. */
  type Stream = int -> Byte

  datatype Kind = SingleByte | Prefix | Special | ModRm | Moffs | Invalid

  /** An entry of optable or optable0F: its kind and its immediates of one byte, two bytes, and operand size. */
  datatype Entry = Entry(kind: Kind, imm8: bool, imm16: bool, immv: bool)

  datatype Tables = Tables(one: Byte -> Entry, two: Byte -> Entry)

  /** Bits 0 and 1 of the state hash: 16-bit operands, 16-bit addresses. */
  datatype Mode = Mode(op16: bool, addr16: bool)

  // ---------- Prefixes ----------

  predicate IsPrefix(b: Byte) {
    b == 0x66 || b == 0x67 || b == 0x26 || b == 0x2E || b == 0x36 || b == 0x3E || b == 0x64 || b == 0x65
    || b == 0xF0 || b == 0xF2 || b == 0xF3
  }

  /** The segment overrides are where the opcodes of segment registers leave off (26, 2E, 36 and 3E) or before the size
      prefixes (64 and 65, 66 and 67); LOCK is F0, and REPNE and REP are F2 and F3. */
  lemma PrefixBytes(b: Byte)
    ensures IsPrefix(b) <==> (b / 32 == 1 && b % 8 == 6) || b / 4 == 0x19 || (b / 4 == 0x3C && b % 4 != 1)
  {
  }

  /** Byte b is among the first n. */
  predicate Seen(s: Stream, n: nat, b: Byte) {
    n > 0 && (s(n - 1) == b || Seen(s, n - 1, b))
  }

  /** The mode after n prefixes: a size prefix counts once. */
  function ModeAfter(s: Stream, n: nat, m: Mode): Mode {
    Mode(m.op16 != Seen(s, n, 0x66), m.addr16 != Seen(s, n, 0x67))
  }

  /** A size prefix among the first n bytes, however often it is there, turns the size over. */
  lemma {:induction false} SizePrefixes(s: Stream, n: nat, m: Mode)
    ensures (ModeAfter(s, n, m).op16 != m.op16) <==> exists i :: 0 <= i < n && s(i) == 0x66
    ensures (ModeAfter(s, n, m).addr16 != m.addr16) <==> exists i :: 0 <= i < n && s(i) == 0x67
  {
    if n > 0 { SizePrefixes(s, n - 1, m); }
  }

  predicate AllPrefixes(s: Stream, n: nat) {
    forall i | 0 <= i < n :: IsPrefix(s(i))
  }

  /** The place of the opcode: the first byte that is no prefix. */
  predicate OpcodeAt(s: Stream, n: nat) {
    AllPrefixes(s, n) && !IsPrefix(s(n))
  }

  lemma OneOpcode(s: Stream, m: nat, n: nat)
    requires OpcodeAt(s, m) && OpcodeAt(s, n)
    ensures m == n
  {
  }

  // ---------- Predicted lengths ----------

  /** The SIB and displacement bytes that the predictor adds for a ModRM byte, followed by next. */
  function Extra(modrm: Byte, next: Byte, addr16: bool): int {
    if modrm >= 0xC0 then 0
    else if addr16 then
      match modrm / 64
      case 0 => if modrm % 8 == 6 then 2 else 0
      case 1 => 1
      case _ => 2
    else
      var x := modrm / 64 * 8 + modrm % 8;
      if x == 4 then (if next % 8 == 5 then 5 else 1)
      else if x == 0x0C then 2
      else if x == 0x14 then 5
      else if x == 5 || 16 <= x <= 19 || 21 <= x <= 23 then 4
      else if 8 <= x <= 0x0B || 0x0D <= x <= 0x0F then 1
      else 0
  }

  /** A ModRM byte of a memory operand with 32-bit addresses has a SIB byte if its low three bits are 4. A displacement
      has one byte if the upper two bits are 1, and the size of an address if they are 2; if they are 0 there is one for
      6 with 16-bit addresses, for 5 with 32-bit ones, and for a SIB byte whose base is 5. */
  lemma OperandBytes(modrm: Byte, next: Byte, addr16: bool)
    ensures var mod, rm := modrm / 64, modrm % 8;
            var sib := !addr16 && mod != 3 && rm == 4;
            var address := if addr16 then 2 else 4;
            var bare := if addr16 then rm == 6 else rm == 5 || (sib && next % 8 == 5);
            var displacement :=
              match mod case 0 => (if bare then address else 0) case 1 => 1 case 2 => address case _ => 0;
            Extra(modrm, next, addr16) == (if sib then 1 else 0) + displacement
  {
  }

  /** The immediates of an entry; TEST in the groups F6 and F7 has one that the table does not show. */
  function WithTest(e: Entry, two: bool, opcode: Byte, modrm: Byte): Entry {
    if !two && (opcode == 0xF6 || opcode == 0xF7) && modrm / 8 % 8 < 2 then
      if opcode == 0xF7 then e.(immv := true) else e.(imm8 := true)
    else e
  }

  function Immediates(e: Entry, op16: bool): int {
    (if e.imm8 then 1 else 0) + (if e.imm16 then 2 else 0) + (if e.immv then (if op16 then 2 else 4) else 0)
  }

  function EntryAt(t: Tables, s: Stream, n: nat): Entry {
    if s(n) == 0x0F then t.two(s(n + 1)) else t.one(s(n))
  }

  /** Opcode bytes. */
  function Head(s: Stream, n: nat): int {
    if s(n) == 0x0F then 2 else 1
  }

  /** The length of the instruction whose opcode is at n, in mode q. */
  function TotalIn(t: Tables, s: Stream, n: nat, q: Mode): int {
    var e, at := EntryAt(t, s, n), n + Head(s, n);
    match e.kind
    case ModRm =>
      var opcode := if s(n) == 0x0F then s(n + 1) else s(n);
      at + 1 + Extra(s(at), s(at + 1), q.addr16) + Immediates(WithTest(e, s(n) == 0x0F, opcode, s(at)), q.op16)
    case Moffs => at + (if q.addr16 then 2 else 4) + Immediates(e, q.op16)
    case _ => at + Immediates(e, q.op16)
  }

  /** Its length in the mode that its prefixes leave. */
  function Total(t: Tables, s: Stream, n: nat, m: Mode): int {
    TotalIn(t, s, n, ModeAfter(s, n, m))
  }

  /** The parts of an instruction behind its prefixes: one or two opcode bytes; a ModRM byte and what belongs to it, or
      the address of a Moffs operand; a byte, a word and an operand as its table entry has them; and for TEST, the first
      two members of the groups F6 and F7, a byte or an operand that the entry need not have. */
  lemma InstructionParts(t: Tables, s: Stream, n: nat, q: Mode)
    ensures var two, e := s(n) == 0x0F, EntryAt(t, s, n);
            var address, operand := if q.addr16 then 2 else 4, if q.op16 then 2 else 4;
            var at := n + if two then 2 else 1;
            var test := e.kind == ModRm && !two && (s(n) == 0xF6 || s(n) == 0xF7) && s(at) / 8 % 8 <= 1;
            TotalIn(t, s, n, q)
            == at + (match e.kind case ModRm => 1 + Extra(s(at), s(at + 1), q.addr16) case Moffs => address case _ => 0)
               + (if e.imm8 || (test && s(n) == 0xF6) then 1 else 0) + (if e.imm16 then 2 else 0)
               + (if e.immv || (test && s(n) == 0xF7) then operand else 0)
  {
  }

  datatype Outcome = Length(k: int) | TooLong | Aborted

  /** What the predictor answers where the opcode is at n: it aborts on a special opcode within its limit. */
  function Predicted(t: Tables, s: Stream, n: nat, m: Mode, limit: int): Outcome {
    if n + Head(s, n) > limit + 1 then TooLong
    else if EntryAt(t, s, n).kind.Special? then Aborted
    else if Total(t, s, n, m) <= limit then Length(Total(t, s, n, m))
    else TooLong
  }

  lemma SeenMore(s: Stream, n: nat)
    ensures Seen(s, n + 1, 0x66) == (s(n) == 0x66 || Seen(s, n, 0x66))
    ensures Seen(s, n + 1, 0x67) == (s(n) == 0x67 || Seen(s, n, 0x67))
  {
  }

  /** Its part on a ModRM byte, with left bytes left: it may find the limit passed at a SIB byte. */
  method CountModRm(s: Stream, modrm: Byte, left: int, limit: int, addr16: bool) returns (rest: int, over: bool)
    ensures over ==> left < 0
    ensures !over ==> rest == left - Extra(modrm, s(limit - left), addr16)
  {
    rest, over := left, false;
    if modrm < 0xC0 {
      if addr16 {
        if modrm / 64 == 0 {
          if modrm % 8 == 6 { rest := rest - 2; }
        } else if modrm / 64 == 1 {
          rest := rest - 1;
        } else {
          rest := rest - 2;
        }
      } else {
        var x := modrm / 64 * 8 + modrm % 8;
        if x == 4 {
          var sib := s(limit - rest);
          if rest < 0 { return rest, true; }
          rest := rest - 1;
          if sib % 8 == 5 { rest := rest - 4; }
        } else if x == 0x0C {
          rest := rest - 2;
        } else if x == 0x14 {
          rest := rest - 5;
        } else if x == 5 || 16 <= x <= 19 || 21 <= x <= 23 {
          rest := rest - 4;
        } else if 8 <= x <= 0x0B || 0x0D <= x <= 0x0F {
          rest := rest - 1;
        }
      }
    }
  }

  /** The part of find_instruction_length after the opcode bytes: the count left, or the outcome that it returns at
      once. */
  method CountOperands(t: Tables, s: Stream, e: Entry, two: bool, opcode: Byte, at: nat, q: Mode, limit: int)
      returns (r: Outcome)
    requires e.kind != Special && at <= limit + 1
    ensures var total := match e.kind
              case ModRm =>
                at + 1 + Extra(s(at), s(at + 1), q.addr16) + Immediates(WithTest(e, two, opcode, s(at)), q.op16)
              case Moffs => at + (if q.addr16 then 2 else 4) + Immediates(e, q.op16)
              case _ => at + Immediates(e, q.op16);
            r == if total <= limit then Length(total) else TooLong
  {
    var left, info := limit - at, e;
    if e.kind == ModRm {
      var modrm := s(limit - left);
      if left < 0 { return TooLong; }
      left := left - 1;
      if !two && (opcode == 0xF6 || opcode == 0xF7) {
        if modrm / 8 % 8 < 2 {
          if opcode == 0xF7 { info := info.(immv := true); } else { info := info.(imm8 := true); }
        }
      }
      var over;
      left, over := CountModRm(s, modrm, left, limit, q.addr16);
      if over { return TooLong; }
    } else if e.kind == Moffs {
      left := left - if q.addr16 then 2 else 4;
    }
    if info.imm8 { left := left - 1; }
    if info.imm16 { left := left - 2; }
    if info.immv { left := left - if q.op16 then 2 else 4; }
    r := if left < 0 then TooLong else Length(limit - left);
  }

  /** The loop of find_instruction_length over the prefixes: what is left of the limit after the opcode, or no
      opcode. */
  method SkipPrefixes(s: Stream, m: Mode, limit: int) returns (found: bool, left: int, q: Mode)
    ensures found ==> -1 <= left < limit && OpcodeAt(s, limit - left - 1) && q == ModeAfter(s, limit - left - 1, m)
    ensures !found ==> limit < 0 || AllPrefixes(s, limit + 1)
  {
    left, q, found := limit, m, false;
    while true
      invariant left <= limit && AllPrefixes(s, limit - left) && q == ModeAfter(s, limit - left, m)
      invariant -1 <= left || left == limit
      decreases left
    {
      var n := limit - left;
      var opcode := s(n);
      if left < 0 { return; }
      left := left - 1;
      if !IsPrefix(opcode) {
        found := true;
        return;
      }
      SeenMore(s, n);
      if opcode == 0x66 {
        if q.op16 == m.op16 { q := q.(op16 := !q.op16); }
      } else if opcode == 0x67 {
        if q.addr16 == m.addr16 { q := q.(addr16 := !q.addr16); }
      }
    }
  }

  lemma OpcodeBeyond(s: Stream, n: nat, k: nat)
    requires AllPrefixes(s, n) && OpcodeAt(s, k)
    ensures k >= n
  {
  }

  /** find_instruction_length: it predicts the length exactly if that is within the limit; a stream that starts with
      more prefixes than the limit is too long, and the loop over the prefixes ends. */
  method FindInstructionLength(t: Tables, s: Stream, m: Mode, limit: int) returns (r: Outcome)
    ensures forall n: nat | OpcodeAt(s, n) :: r == Predicted(t, s, n, m, limit)
    ensures limit >= -1 && AllPrefixes(s, limit + 1) ==> r == TooLong
  {
    var found, left, q := SkipPrefixes(s, m, limit);
    if !found {
      if limit >= 0 { forall k: nat | OpcodeAt(s, k) ensures k >= limit + 1 { OpcodeBeyond(s, limit + 1, k); } }
      return TooLong;
    }
    var n := limit - left - 1;
    forall k: nat | OpcodeAt(s, k) ensures k == n { OneOpcode(s, k, n); }
    var two, opcode := s(n) == 0x0F, s(n);
    if two {
      opcode := s(limit - left);
      if left < 0 { return TooLong; }
      left := left - 1;
    }
    var e := EntryAt(t, s, n);
    if e.kind == Special { return Aborted; }
    r := CountOperands(t, s, e, two, opcode, limit - left, q, limit);
  }

  // ---------- The parser ----------

  /** parse_modrm's cursor after the bytes that belong to a ModRM byte; at is the place behind it. */
  function ParseModRm(s: Stream, modrm: Byte, at: nat, addr16: bool): int {
    var x := modrm % 8 + modrm / 64 % 4 * 8;
    if addr16 then
      if 0 <= x <= 5 || x == 7 then at
      else if x == 6 then at + 2
      else if 8 <= x <= 15 then at + 1
      else if 16 <= x <= 23 then at + 2
      else at
    else
      if 0 <= x <= 3 || 6 <= x <= 7 then at
      else if x == 4 then (if s(at) % 8 == 5 then at + 1 + 4 else at + 1)
      else if x == 5 then at + 4
      else if 8 <= x <= 0x0B || 0x0D <= x <= 0x0F then at + 1
      else if x == 0x0C then at + 1 + 1
      else if 0x10 <= x <= 0x13 || 0x15 <= x <= 0x17 then at + 4
      else if x == 0x14 then at + 1 + 4
      else at
  }

  /** The parser takes exactly the bytes that the predictor counts, for every ModRM byte and both address sizes. */
  lemma ParserAgrees(s: Stream, modrm: Byte, at: nat, addr16: bool)
    ensures ParseModRm(s, modrm, at, addr16) == at + Extra(modrm, s(at), addr16)
  {
    assert modrm == modrm / 64 * 64 + modrm % 64;
  }

  /** The prefix loop of decode_prefix from place i on: where the opcode is, and the mode. */
  function ReadPrefixes(s: Stream, i: nat, n: nat, q: Mode, seen66: bool, seen67: bool): (int, Mode)
    requires i <= n && OpcodeAt(s, n)
    decreases n - i
  {
    if !IsPrefix(s(i)) then (i, q)
    else if s(i) == 0x66 then ReadPrefixes(s, i + 1, n, if seen66 then q else q.(op16 := !q.op16), true, seen67)
    else if s(i) == 0x67 then ReadPrefixes(s, i + 1, n, if seen67 then q else q.(addr16 := !q.addr16), seen66, true)
    else ReadPrefixes(s, i + 1, n, q, seen66, seen67)
  }

  lemma {:induction false} PrefixesAgree(s: Stream, i: nat, n: nat, m: Mode)
    requires i <= n && OpcodeAt(s, n)
    ensures ReadPrefixes(s, i, n, ModeAfter(s, i, m), Seen(s, i, 0x66), Seen(s, i, 0x67)) == (n, ModeAfter(s, n, m))
    decreases n - i
  {
    if IsPrefix(s(i)) {
      SeenMore(s, i);
      PrefixesAgree(s, i + 1, n, m);
    }
  }

  /** The decoder's prefix loop finds the predictor's opcode in the predictor's mode, and the ModRM parser then ends
      where the predictor has counted to, immediates aside. */
  lemma DecoderAgrees(t: Tables, s: Stream, n: nat, m: Mode)
    requires OpcodeAt(s, n) && EntryAt(t, s, n).kind == ModRm
    ensures var (at, q) := ReadPrefixes(s, 0, n, m, false, false);
            && at == n
            && var modrm, opcode := n + Head(s, n), if s(n) == 0x0F then s(n + 1) else s(n);
               ParseModRm(s, s(modrm), modrm + 1, q.addr16)
               == Total(t, s, n, m) - Immediates(WithTest(EntryAt(t, s, n), s(n) == 0x0F, opcode, s(modrm)), q.op16)
  {
    PrefixesAgree(s, 0, n, m);
    ParserAgrees(s, s(n + Head(s, n)), n + Head(s, n) + 1, ModeAfter(s, n, m).addr16);
  }

  // ---------- The decoder's own limit ----------

  function Tail(s: Stream): Stream {
    i => s(i + 1)
  }

  /** decode_prefix checks the length of what follows the first prefix, in the mode before it, against 15. */
  predicate PassesCheck(t: Tables, s: Stream, n: nat, m: Mode)
    requires n > 0
  {
    Predicted(t, Tail(s), n - 1, m, 15).Length?
  }

  lemma {:induction false} TailSeen(s: Stream, n: nat, b: Byte)
    requires n > 0
    ensures Seen(s, n, b) == (s(0) == b || Seen(Tail(s), n - 1, b))
  {
    if n > 1 { TailSeen(s, n - 1, b); }
  }

  lemma TailTotal(t: Tables, s: Stream, n: nat, q: Mode)
    requires n > 0
    ensures TotalIn(t, Tail(s), n - 1, q) == TotalIn(t, s, n, q) - 1
    ensures Head(Tail(s), n - 1) == Head(s, n) && EntryAt(t, Tail(s), n - 1) == EntryAt(t, s, n)
  {
  }

  /** The mode in which the check counts: the first prefix is not seen. */
  function CheckedMode(s: Stream, n: nat, m: Mode): Mode
    requires n > 0
  {
    ModeAfter(Tail(s), n - 1, m)
  }

  /** The check admits exactly the instructions of up to 16 bytes, counted in the mode that the prefixes after the first
      leave: the right one unless the first is a size prefix and not repeated. */
  lemma CheckAdmitsSixteen(t: Tables, s: Stream, n: nat, m: Mode)
    requires n > 0 && OpcodeAt(s, n)
    ensures PassesCheck(t, s, n, m)
        <==> EntryAt(t, s, n).kind != Special && TotalIn(t, s, n, CheckedMode(s, n, m)) <= 16
    ensures CheckedMode(s, n, m) == ModeAfter(s, n, m) <==>
              (s(0) == 0x66 ==> Seen(Tail(s), n - 1, 0x66)) && (s(0) == 0x67 ==> Seen(Tail(s), n - 1, 0x67))
  {
    TailSeen(s, n, 0x66);
    TailSeen(s, n, 0x67);
    TailTotal(t, s, n, CheckedMode(s, n, m));
    AtLeastHead(t, s, n, CheckedMode(s, n, m));
  }

  lemma AtLeastHead(t: Tables, s: Stream, n: nat, q: Mode)
    ensures TotalIn(t, s, n, q) >= n + Head(s, n)
  {
  }

  /** k prefixes and an opcode. */
  function Prefixed(first: Byte, k: nat, opcode: Byte): Stream {
    i => if i == 0 then first else if i < k then 0x26 else opcode
  }

  lemma PrefixedSeen(first: Byte, k: nat, opcode: Byte, n: nat, b: Byte)
    requires n < k && b != 0x26
    ensures !Seen(Tail(Prefixed(first, k, opcode)), n, b)
  {
  }

  /** Tables of single-byte opcodes, with an immediate of operand size or without. */
  function Plain(immv: bool): Tables {
    Tables(b => Entry(SingleByte, false, false, immv), b => Entry(SingleByte, false, false, immv))
  }

  lemma PrefixedTotal(first: Byte, k: nat, immv: bool, m: Mode)
    requires k > 0 && IsPrefix(first)
    ensures var s := Prefixed(first, k, 0x90);
            && OpcodeAt(s, k)
            && Total(Plain(immv), s, k, m) == k + 1 + (if !immv then 0 else if m.op16 != (first == 0x66) then 2 else 4)
            && (PassesCheck(Plain(immv), s, k, m) <==> k + 1 + (if !immv then 0 else if m.op16 then 2 else 4) <= 16)
  {
    var s := Prefixed(first, k, 0x90);
    PrefixedSeen(first, k, 0x90, k - 1, 0x66);
    TailSeen(s, k, 0x66);
    CheckAdmitsSixteen(Plain(immv), s, k, m);
  }

  /** Fifteen prefixes and a one-byte opcode pass, with 16 bytes; so does a 0x66, twelve more prefixes and an opcode
      with a four-byte immediate in a 16-bit segment, with 18; a 0x66, eleven more and an opcode with a two-byte
      immediate in a 32-bit segment does not, with 15. */
  lemma CheckMiscounts()
    ensures var s, t, m := Prefixed(0x26, 15, 0x90), Plain(false), Mode(false, false);
            OpcodeAt(s, 15) && Total(t, s, 15, m) == 16 && PassesCheck(t, s, 15, m)
    ensures var s, t, m := Prefixed(0x66, 13, 0x90), Plain(true), Mode(true, true);
            OpcodeAt(s, 13) && Total(t, s, 13, m) == 18 && PassesCheck(t, s, 13, m)
    ensures var s, t, m := Prefixed(0x66, 12, 0x90), Plain(true), Mode(false, false);
            OpcodeAt(s, 12) && Total(t, s, 12, m) == 15 && !PassesCheck(t, s, 12, m)
  {
    PrefixedTotal(0x26, 15, false, Mode(false, false));
    PrefixedTotal(0x66, 13, true, Mode(true, true));
    PrefixedTotal(0x66, 12, true, Mode(false, false));
  }
}
