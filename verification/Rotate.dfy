/**
 The rotations of src/cpu/arith.cpp. Operands are bit strings, lowest bit first, so that one model serves 8, 16 and 32
 bits; CF sits above the top bit.
 */
module Rotate {
  import opened Eflags
  import opened LazyFlags

  type Bits = s: seq<bool> | |s| == 8 || |s| == 16 || |s| == 32 witness seq(8, _ => false)

  // ---------- The source's shifts and masks; a shift by 32 or more is undefined there ----------

  function ShiftLeft(a: Bits, k: nat): Bits
    requires k < 32
  {
    seq(|a|, i => i >= k && i - k < |a| && a[i - k])
  }

  function ShiftRight(a: Bits, k: nat): Bits
    requires k < 32
  {
    seq(|a|, i => i >= 0 && i + k < |a| && a[i + k])
  }

  function Or(a: Bits, b: Bits): Bits
    requires |a| == |b|
  {
    seq(|a|, i => 0 <= i < |a| && (a[i] || b[i]))
  }

  /** The bit b at place k of a word as wide as a. */
  function Place(a: Bits, b: bool, k: nat): Bits
    requires k < |a|
  {
    seq(|a|, i => i == k && b)
  }

  /** The count as the switch cases reduce it. */
  function Reduced(a: Bits, count: nat): (n: nat)
    ensures n <= |a| && n < 32
  {
    if |a| == 32 then count % 32 else if |a| == 16 then count % 32 % 17 else count % 32 % 9
  }

  /** Case 2 of cpu_shift8, cpu_shift16 and cpu_shift32, for a reduced count: the result and CF. */
  function Rcl(a: Bits, cf: bool, n: nat): (Bits, bool)
    requires n <= |a| && n < 32
  {
    if n == 0 then (a, cf)
    else if |a| == 32 && n == 1 then (Or(ShiftLeft(a, 1), Place(a, cf, 0)), ShiftRight(a, 31)[0])
    else (Or(Or(ShiftLeft(a, n), Place(a, cf, n - 1)), ShiftRight(a, |a| + 1 - n)), ShiftRight(a, |a| - n)[0])
  }

  /** Case 3. */
  function Rcr(a: Bits, cf: bool, n: nat): (Bits, bool)
    requires n <= |a| && n < 32
  {
    if n == 0 then (a, cf)
    else if |a| == 32 && n == 1 then (Or(ShiftRight(a, 1), Place(a, cf, 31)), ShiftRight(a, 0)[0])
    else (Or(Or(ShiftRight(a, n), Place(a, cf, |a| - n)), ShiftLeft(a, |a| + 1 - n)), ShiftRight(a, n - 1)[0])
  }

  // ---------- The rotation they amount to ----------

  function Left(x: seq<bool>): (r: seq<bool>)
    requires x != []
    ensures |r| == |x|
  {
    [x[|x| - 1]] + x[..|x| - 1]
  }

  function Right(x: seq<bool>): (r: seq<bool>)
    requires x != []
    ensures |r| == |x|
  {
    x[1..] + [x[0]]
  }

  function LeftBy(x: seq<bool>, n: nat): (r: seq<bool>)
    requires x != []
    ensures |r| == |x|
  {
    if n == 0 then x else Left(LeftBy(x, n - 1))
  }

  function RightBy(x: seq<bool>, n: nat): (r: seq<bool>)
    requires x != []
    ensures |r| == |x|
  {
    if n == 0 then x else Right(RightBy(x, n - 1))
  }

  /** n steps in one go, up to a full turn. */
  lemma {:induction false} LeftByParts(x: seq<bool>, n: nat)
    requires x != [] && n <= |x|
    ensures LeftBy(x, n) == x[|x| - n..] + x[..|x| - n]
  {
    if n > 0 { LeftByParts(x, n - 1); }
  }

  lemma {:induction false} RightByParts(x: seq<bool>, n: nat)
    requires x != [] && n <= |x|
    ensures RightBy(x, n) == x[n..] + x[..n]
  {
    if n > 0 { RightByParts(x, n - 1); }
  }

  lemma LeftByAt(x: seq<bool>, n: nat, i: nat)
    requires n <= |x| && i < |x|
    ensures LeftBy(x, n)[i] == if i < n then x[|x| - n + i] else x[i - n]
  {
    LeftByParts(x, n);
  }

  lemma RightByAt(x: seq<bool>, n: nat, i: nat)
    requires n <= |x| && i < |x|
    ensures RightBy(x, n)[i] == if i + n < |x| then x[i + n] else x[i + n - |x|]
  {
    RightByParts(x, n);
  }

  lemma {:induction false} LeftBySum(x: seq<bool>, m: nat, n: nat)
    requires x != []
    ensures LeftBy(x, m + n) == LeftBy(LeftBy(x, m), n)
  {
    if n > 0 { LeftBySum(x, m, n - 1); }
  }

  lemma {:induction false} RightBySum(x: seq<bool>, m: nat, n: nat)
    requires x != []
    ensures RightBy(x, m + n) == RightBy(RightBy(x, m), n)
  {
    if n > 0 { RightBySum(x, m, n - 1); }
  }

  /** Steps left after the full turns. */
  function Beyond(n: nat, m: nat): (r: nat)
    requires 0 < m
    ensures r < m
  {
    if n < m then n else Beyond(n - m, m)
  }

  lemma SmallRemainders(n: nat)
    requires n < 32
    ensures n % 9 == (if n < 9 then n else if n < 18 then n - 9 else if n < 27 then n - 18 else n - 27)
    ensures n % 17 == if n < 17 then n else n - 17
  {
  }

  /** The reduced counts of the source leave out full turns. */
  lemma ReducedBeyond(a: Bits, count: nat)
    ensures Reduced(a, count) == Beyond(count % 32, |a| + 1)
  {
    var c := count % 32;
    SmallRemainders(c);
    if c >= 9 { assert Beyond(c, 9) == Beyond(c - 9, 9); }
    if c >= 18 { assert Beyond(c - 9, 9) == Beyond(c - 18, 9); }
  }

  /** Full turns do not count. */
  lemma {:induction false} LeftByTurns(x: seq<bool>, n: nat)
    requires x != []
    ensures LeftBy(x, n) == LeftBy(x, Beyond(n, |x|))
    decreases n
  {
    if n >= |x| {
      LeftByParts(x, |x|);
      LeftBySum(x, |x|, n - |x|);
      LeftByTurns(x, n - |x|);
      assert LeftBy(x, |x|) == x;
    }
  }

  lemma {:induction false} RightByTurns(x: seq<bool>, n: nat)
    requires x != []
    ensures RightBy(x, n) == RightBy(x, Beyond(n, |x|))
    decreases n
  {
    if n >= |x| {
      RightByParts(x, |x|);
      RightBySum(x, |x|, n - |x|);
      RightByTurns(x, n - |x|);
      assert RightBy(x, |x|) == x;
    }
  }

  lemma {:induction false} RightUndoesLeft(x: seq<bool>, n: nat)
    requires x != []
    ensures RightBy(LeftBy(x, n), n) == x
  {
    if n > 0 {
      RightBySum(LeftBy(x, n), 1, n - 1);
      assert RightBy(LeftBy(x, n), 1) == Right(LeftBy(x, n)) == LeftBy(x, n - 1);
      RightUndoesLeft(x, n - 1);
    }
  }

  /** CF above the word. */
  function Wide(p: (Bits, bool)): seq<bool> {
    p.0 + [p.1]
  }

  lemma RclBits(a: Bits, cf: bool, n: nat)
    requires 0 < n <= |a| && n < 32
    ensures var (r, c) := Rcl(a, cf, n);
            && |r| == |a| && c == a[|a| - n]
            && forall i | 0 <= i < |a| :: r[i] ==
                 if i >= n then a[i - n] else if i == n - 1 then cf else a[|a| + 1 + i - n]
  {
  }

  lemma RclRotates(a: Bits, cf: bool, n: nat)
    requires n <= |a| && n < 32
    ensures Wide(Rcl(a, cf, n)) == LeftBy(Wide((a, cf)), n)
  {
    if n > 0 {
      RclBits(a, cf, n);
      forall i | 0 <= i <= |a|
        ensures Wide(Rcl(a, cf, n))[i] == LeftBy(Wide((a, cf)), n)[i]
      {
        LeftByAt(Wide((a, cf)), n, i);
      }
    }
  }

  lemma RcrBits(a: Bits, cf: bool, n: nat)
    requires 0 < n <= |a| && n < 32
    ensures var (r, c) := Rcr(a, cf, n);
            && |r| == |a| && c == a[n - 1]
            && forall i | 0 <= i < |a| :: r[i] ==
                 if i + n < |a| then a[i + n] else if i + n == |a| then cf else a[i + n - |a| - 1]
  {
  }

  lemma RcrRotates(a: Bits, cf: bool, n: nat)
    requires n <= |a| && n < 32
    ensures Wide(Rcr(a, cf, n)) == RightBy(Wide((a, cf)), n)
  {
    if n > 0 {
      RcrBits(a, cf, n);
      forall i | 0 <= i <= |a|
        ensures Wide(Rcr(a, cf, n))[i] == RightBy(Wide((a, cf)), n)[i]
      {
        RightByAt(Wide((a, cf)), n, i);
      }
    }
  }

  lemma RclSteps(a: Bits, cf: bool, count: nat)
    ensures var p := Rcl(a, cf, Reduced(a, count)); |p.0| == |a| && Wide(p) == LeftBy(Wide((a, cf)), count % 32)
  {
    ReducedBeyond(a, count);
    RclRotates(a, cf, Reduced(a, count));
    LeftByTurns(Wide((a, cf)), count % 32);
  }

  lemma RcrSteps(a: Bits, cf: bool, count: nat)
    ensures var p := Rcr(a, cf, Reduced(a, count)); |p.0| == |a| && Wide(p) == RightBy(Wide((a, cf)), count % 32)
  {
    ReducedBeyond(a, count);
    RcrRotates(a, cf, Reduced(a, count));
    RightByTurns(Wide((a, cf)), count % 32);
  }

  /** RCL by any count is that count, modulo 32, of single steps of CF and the operand; so is RCR. */
  lemma CountsAreSteps(a: Bits, cf: bool, count: nat)
    ensures Wide(Rcl(a, cf, Reduced(a, count))) == LeftBy(Wide((a, cf)), count % 32)
    ensures Wide(Rcr(a, cf, Reduced(a, count))) == RightBy(Wide((a, cf)), count % 32)
  {
    RclSteps(a, cf, count);
    RcrSteps(a, cf, count);
  }

  /** RCR undoes RCL by the same count, for the operand and CF. */
  lemma RcrUndoesRcl(a: Bits, cf: bool, count: nat)
    ensures var n := Reduced(a, count);
            var (b, c) := Rcl(a, cf, n);
            |b| == |a| && Rcr(b, c, Reduced(b, count)) == (a, cf)
  {
    var n := Reduced(a, count);
    var (b, c) := Rcl(a, cf, n);
    RclRotates(a, cf, n);
    RcrRotates(b, c, n);
    RightUndoesLeft(Wide((a, cf)), n);
    WideInjective(Rcr(b, c, n), (a, cf));
  }

  lemma WideInjective(p: (Bits, bool), q: (Bits, bool))
    requires Wide(p) == Wide(q)
    ensures p == q
  {
    assert |p.0| == |q.0|;
    assert p.0 == Wide(p)[..|p.0|];
    assert q.0 == Wide(q)[..|q.0|];
  }

  // ---------- With the flags ----------

  method SetCarryAndOverflow(alu: Alu, cf: bool, of: bool)
    modifies alu
    ensures alu.Visible() == Rotated(old(alu.Visible()), cf, of)
  {
    alu.Set(CF, cf);
    alu.Set(OF, of);
  }

  /** The register with the flags that a rotation changes. */
  function Rotated(r: Register, cf: bool, of: bool): Register {
    r.(flags := r.flags.(cf := cf, of := of))
  }

  /** The new operand and CF, and whether the count leaves both alone. */
  method RclWord(dest: Bits, carry: bool, count: nat) returns (none: bool, res: Bits, cf: bool)
    ensures |res| == |dest| && Wide((res, cf)) == LeftBy(Wide((dest, carry)), count % 32)
    ensures none <==> Reduced(dest, count) == 0
    ensures none ==> cf == carry
  {
    var n := Reduced(dest, count);
    RclSteps(dest, carry, count);
    none, res, cf := count == 0 || n == 0, dest, carry;
    if !none {
      var p := Rcl(dest, carry, n);
      res, cf := p.0, p.1;
    }
  }

  method RcrWord(dest: Bits, carry: bool, count: nat) returns (none: bool, res: Bits, cf: bool)
    ensures |res| == |dest| && Wide((res, cf)) == RightBy(Wide((dest, carry)), count % 32)
    ensures none <==> Reduced(dest, count) == 0
    ensures none ==> cf == carry
  {
    var n := Reduced(dest, count);
    RcrSteps(dest, carry, count);
    none, res, cf := count == 0 || n == 0, dest, carry;
    if !none {
      var p := Rcr(dest, carry, n);
      res, cf := p.0, p.1;
    }
  }

  /** RCL on the machine with lazy flags. OF is set if the top bit changed in the last step. */
  method RotateCarryLeft(alu: Alu, dest: Bits, count: nat) returns (res: Bits)
    modifies alu
    ensures |res| == |dest|
    ensures var o, f := old(alu.Visible()), alu.Visible().flags;
            && Wide((res, f.cf)) == LeftBy(Wide((dest, o.flags.cf)), count % 32)
            && alu.Visible() == Rotated(o, f.cf, f.of)
            && f.of == if Reduced(dest, count) == 0 then o.flags.of else f.cf != res[|res| - 1]
  {
    var none, word, cf := RclWord(dest, alu.Visible().flags.cf, count);
    res := word;
    if !none { SetCarryAndOverflow(alu, cf, cf != res[|res| - 1]); }
  }

  /** RCR: OF is set if the two top bits of the result differ. */
  method RotateCarryRight(alu: Alu, dest: Bits, count: nat) returns (res: Bits)
    modifies alu
    ensures |res| == |dest|
    ensures var o, f := old(alu.Visible()), alu.Visible().flags;
            && Wide((res, f.cf)) == RightBy(Wide((dest, o.flags.cf)), count % 32)
            && alu.Visible() == Rotated(o, f.cf, f.of)
            && f.of == if Reduced(dest, count) == 0 then o.flags.of else res[|res| - 1] != res[|res| - 2]
  {
    var none, word, cf := RcrWord(dest, alu.Visible().flags.cf, count);
    res := word;
    if !none { SetCarryAndOverflow(alu, cf, res[|res| - 1] != res[|res| - 2]); }
  }
}
