/**
 The local interrupt controller of src/apic.cpp: requests, services and the task priority. The reference machine is a
 value over 256-bit strings; class Chip keeps the bits in three arrays of eight words and refines it.
 */
module Apic {

  type Vectors = s: seq<bool> | |s| == 256 witness seq(256, _ => false)

  function None(): Vectors {
    seq(256, _ => false)
  }

  /** The highest vector below n that is set, or -1. */
  function HighestBelow(b: Vectors, n: nat): (h: int)
    requires n <= 256
    ensures -1 <= h < n
    ensures h >= 0 ==> b[h]
    ensures forall v | h < v < n :: !b[v]
  {
    if n == 0 then -1 else if b[n - 1] then n - 1 else HighestBelow(b, n - 1)
  }

  function Highest(b: Vectors): (h: int)
    ensures -1 <= h < 256
    ensures h >= 0 ==> b[h]
    ensures forall v | h < v < 256 :: !b[v]
  {
    HighestBelow(b, 256)
  }

  lemma HighestIs(b: Vectors, h: int)
    requires -1 <= h < 256 && (h >= 0 ==> b[h]) && forall v | h < v < 256 :: !b[v]
    ensures Highest(b) == h
  {
  }

  datatype Kind = Fixed | LowestPriority | ExtInt

  datatype Apic = Apic(irr: Vectors, isr: Vectors, tmr: Vectors, tpr: int, ppr: int, line: bool, badVector: bool)

  function Reset(): Apic {
    Apic(None(), None(), None(), 0, 0, false, false)
  }

  /** The priority class: bits 4 to 7. */
  function Class(v: int): int {
    v / 16 % 16
  }

  // ---------- The operations ----------

  /** apic_send_highest_priority_interrupt. */
  function Send(a: Apic): Apic {
    var requested, served := Highest(a.irr), Highest(a.isr);
    if a.line || requested == -1 || served >= requested || Class(requested) <= Class(a.tpr) then a
    else a.(ppr := Class(requested) * 16, line := true)
  }

  /** apic_get_interrupt: the vector, and the controller after it. */
  function Deliver(a: Apic): (int, Apic)
    requires Highest(a.irr) != -1
  {
    var v := Highest(a.irr);
    (v, a.(irr := a.irr[v := false], isr := a.isr[v := true], line := false))
  }

  predicate InvalidVector(v: int) {
    Class(v) == 0 || v >= 255
  }

  /** apic_receive_bus_message; an invalid vector is reported and still accepted. */
  function Receive(a: Apic, vector: int, kind: Kind, level: bool): Apic
    requires 0 <= vector < 256
  {
    if kind == ExtInt then Send(a.(irr := a.irr[vector := true]))
    else
      var b := if InvalidVector(vector) then a.(badVector := true) else a;
      if b.irr[vector] then b
      else Send(b.(irr := b.irr[vector := true], tmr := b.tmr[vector := level]))
  }

  /** A write of the task priority register. */
  function WriteTpr(a: Apic, data: int): Apic {
    var tpr, served := data % 256, Highest(a.isr);
    var ppr := if served == -1 || Class(tpr) > Class(served) then tpr else Class(served) * 16;
    Send(a.(tpr := tpr, ppr := ppr))
  }

  /** A write of the EOI register: the highest vector in service retires. */
  function Eoi(a: Apic): Apic {
    var served := Highest(a.isr);
    if served == -1 then a else Send(a.(isr := a.isr[served := false]))
  }

  // ---------- One state ----------

  /** Software is to be interrupted: the highest request beats the highest service and the task priority. */
  predicate Due(a: Apic) {
    Highest(a.irr) > Highest(a.isr) && Class(Highest(a.irr)) > Class(a.tpr)
  }

  /** No request is lost, and a raised line stands for a request above all services. */
  predicate Sound(a: Apic) {
    && (Due(a) ==> a.line)
    && (a.line ==> Highest(a.irr) > Highest(a.isr))
  }

  lemma HighestAfterSet(b: Vectors, v: int)
    requires 0 <= v < 256
    ensures Highest(b[v := true]) == if v > Highest(b) then v else Highest(b)
  {
    HighestIs(b[v := true], if v > Highest(b) then v else Highest(b));
  }

  lemma HighestAfterClear(b: Vectors, v: int)
    requires 0 <= v < 256
    ensures Highest(b[v := false]) <= Highest(b)
    ensures v == Highest(b) ==> Highest(b[v := false]) < v
  {
  }

  lemma DeliverSound(a: Apic)
    requires Sound(a) && a.line
    ensures Sound(Deliver(a).1)
    ensures forall v | 0 <= v < 256 && a.isr[v] :: v < Deliver(a).0
  {
    var v := Highest(a.irr);
    HighestAfterClear(a.irr, v);
    HighestAfterSet(a.isr, v);
  }

  lemma ReceiveSound(a: Apic, vector: int, kind: Kind, level: bool)
    requires Sound(a) && 0 <= vector < 256
    ensures Sound(Receive(a, vector, kind, level))
  {
    HighestAfterSet(a.irr, vector);
  }

  lemma EoiSound(a: Apic)
    requires Sound(a)
    ensures Sound(Eoi(a))
  {
    if Highest(a.isr) != -1 { HighestAfterClear(a.isr, Highest(a.isr)); }
  }

  // ---------- Whole runs ----------

  datatype Event =
    | Message(vector: int, kind: Kind, level: bool)
    | Acknowledge
    | TaskPriority(data: int)
    | EndOfInterrupt

  predicate WellFormed(e: Event) {
    e.Message? ==> 0 <= e.vector < 256
  }

  /** The controller, with the vectors delivered and not yet retired, in order of delivery. */
  datatype Run = Run(apic: Apic, open: seq<int>)

  /** The processor acknowledges only if the line is up: pic_get_interrupt asks apic_has_interrupt first. The abort for
      a line without a request leaves the run where it is; no run reaches it. */
  function Step(r: Run, e: Event): Run
    requires WellFormed(e)
  {
    match e
    case Message(v, kind, level) => r.(apic := Receive(r.apic, v, kind, level))
    case TaskPriority(data) => r.(apic := WriteTpr(r.apic, data))
    case Acknowledge =>
      if !r.apic.line || Highest(r.apic.irr) == -1 then r
      else
        var (v, a) := Deliver(r.apic);
        Run(a, r.open + [v])
    case EndOfInterrupt =>
      Run(Eoi(r.apic), if r.open == [] then [] else r.open[..|r.open| - 1])
  }

  /** The open vectors are those in service, and they nest: each was delivered above all that were open. */
  ghost predicate Nested(r: Run) {
    && (forall i, j | 0 <= i < j < |r.open| :: r.open[i] < r.open[j])
    && (forall i | 0 <= i < |r.open| :: 0 <= r.open[i] < 256 && r.apic.isr[r.open[i]])
    && (forall v | 0 <= v < 256 && r.apic.isr[v] :: v in r.open)
  }

  ghost predicate Invariant(r: Run) {
    Sound(r.apic) && Nested(r)
  }

  /** The vector that EOI retires is the one delivered last. */
  lemma LastIsHighest(r: Run)
    requires Nested(r)
    ensures Highest(r.apic.isr) == if r.open == [] then -1 else r.open[|r.open| - 1]
  {
    var h := if r.open == [] then -1 else r.open[|r.open| - 1];
    forall v | h < v < 256 ensures !r.apic.isr[v] {
      assert v !in r.open;
    }
    HighestIs(r.apic.isr, h);
  }

  lemma AcknowledgeNests(r: Run)
    requires Invariant(r) && r.apic.line
    ensures Nested(Step(r, Acknowledge))
  {
    DeliverSound(r.apic);
    var v, q := Deliver(r.apic).0, Step(r, Acknowledge);
    forall u | 0 <= u < 256 && q.apic.isr[u] ensures u in q.open {
      if u == v { assert q.open[|r.open|] == v; } else { assert u in r.open; }
    }
    forall i | 0 <= i < |q.open|
      ensures 0 <= q.open[i] < 256 && q.apic.isr[q.open[i]] && (i < |r.open| ==> q.open[i] < v)
    {
      if i < |r.open| { assert q.open[i] == r.open[i]; }
    }
  }

  lemma EoiNests(r: Run)
    requires Invariant(r)
    ensures Nested(Step(r, EndOfInterrupt))
  {
    LastIsHighest(r);
    var q := Step(r, EndOfInterrupt);
    if r.open != [] {
      var last := r.open[|r.open| - 1];
      assert q.apic.isr == r.apic.isr[last := false];
      forall u | 0 <= u < 256 && q.apic.isr[u] ensures u in q.open {
        var i :| 0 <= i < |r.open| && r.open[i] == u;
        assert q.open[i] == u;
      }
      forall i | 0 <= i < |q.open| ensures q.open[i] == r.open[i] && q.open[i] < last { }
    }
  }

  lemma AcknowledgeKeeps(r: Run)
    requires Invariant(r) && r.apic.line
    ensures Invariant(Step(r, Acknowledge))
  {
    DeliverSound(r.apic);
    AcknowledgeNests(r);
  }

  lemma StepInvariant(r: Run, e: Event)
    requires Invariant(r) && WellFormed(e)
    ensures Invariant(Step(r, e))
  {
    match e
    case Message(v, kind, level) => ReceiveSound(r.apic, v, kind, level);
    case TaskPriority(_) =>
    case Acknowledge => if r.apic.line { AcknowledgeKeeps(r); }
    case EndOfInterrupt => EoiSound(r.apic); EoiNests(r);
  }

  predicate AllWellFormed(events: seq<Event>) {
    forall e | e in events :: WellFormed(e)
  }

  /** A run from reset. */
  function After(events: seq<Event>): Run
    requires AllWellFormed(events)
  {
    if events == [] then Run(Reset(), []) else Step(After(events[..|events| - 1]), events[|events| - 1])
  }

  lemma {:induction false} RunInvariant(events: seq<Event>)
    requires AllWellFormed(events)
    ensures Invariant(After(events))
  {
    if events == [] {
      HighestIs(None(), -1);
    } else {
      RunInvariant(events[..|events| - 1]);
      StepInvariant(After(events[..|events| - 1]), events[|events| - 1]);
    }
  }

  /** Over every run: a delivered vector is above every vector in service, and joins them. */
  lemma DeliveriesNest(events: seq<Event>)
    requires AllWellFormed(events) && After(events).apic.line
    ensures Highest(After(events).apic.irr) != -1
    ensures var before := After(events);
            var (v, after) := Deliver(before.apic);
            && (forall u | 0 <= u < 256 && before.apic.isr[u] :: u < v)
            && before.apic.irr[v] && !after.irr[v] && after.isr == before.apic.isr[v := true] && !after.line
  {
    RunInvariant(events);
    DeliverSound(After(events).apic);
  }

  /** Over every run: EOI retires the vector delivered last and no other, and nothing at all if none is open. */
  lemma LastInFirstOut(events: seq<Event>)
    requires AllWellFormed(events)
    ensures var r := After(events);
            if r.open == [] then Eoi(r.apic) == r.apic
            else
              var last := r.open[|r.open| - 1];
              0 <= last < 256 && r.apic.isr[last] && Eoi(r.apic).isr == r.apic.isr[last := false]
  {
    RunInvariant(events);
    LastIsHighest(After(events));
  }

  /** Over every run: a request that is due has the line up; the line is only up for a request above every service. */
  lemma NoLostRequest(events: seq<Event>)
    requires AllWellFormed(events)
    ensures Due(After(events).apic) ==> After(events).apic.line
    ensures After(events).apic.line ==> Highest(After(events).apic.irr) > Highest(After(events).apic.isr)
  {
    RunInvariant(events);
  }

  // ---------- Messages ----------

  /** A message requests its vector, whatever its kind, its trigger mode and the state of the chip, and touches no other
      request and no service. A vector that was not requested yet takes the message's trigger mode, unless it comes as
      ExtINT. Vectors below 16 and vector 255 are reported; the line stays up, and goes up if the vector is due. */
  lemma MessageRequests(a: Apic, vector: int, kind: Kind, level: bool, u: int)
    requires Sound(a) && 0 <= vector < 256 && 0 <= u < 256
    ensures var b := Receive(a, vector, kind, level);
            && (b.irr[u] <==> a.irr[u] || u == vector)
            && b.isr == a.isr && b.tpr == a.tpr
            && b.tmr[u] == (if u == vector && kind != ExtInt && !a.irr[u] then level else a.tmr[u])
            && (b.badVector <==> a.badVector || (kind != ExtInt && (vector < 16 || vector == 255)))
            && (b.line <==> a.line || (!a.irr[vector] && Due(b)))
  {
    HighestAfterSet(a.irr, vector);
    if a.irr[vector] && Due(a) { assert a.line; }
    if a.irr[vector] { assert a.irr[vector := true] == a.irr; }
  }

  /** The vector that the last event of a run delivers, or -1. */
  function Delivered(events: seq<Event>): int
    requires AllWellFormed(events) && events != []
  {
    var r, front := After(events), After(events[..|events| - 1]);
    if |r.open| > |front.open| then r.open[|r.open| - 1] else -1
  }

  /** The vector has been sent since it was last delivered. */
  predicate Outstanding(events: seq<Event>, v: int)
    requires AllWellFormed(events)
  {
    events != [] &&
      var front, last := events[..|events| - 1], events[|events| - 1];
      (last.Message? && last.vector == v) || (Outstanding(front, v) && Delivered(events) != v)
  }

  lemma StepRequests(r: Run, e: Event, v: int)
    requires Invariant(r) && WellFormed(e) && 0 <= v < 256
    ensures var s := Step(r, e);
            var delivered := if |s.open| > |r.open| then s.open[|s.open| - 1] else -1;
            && (s.apic.irr[v] <==> (e.Message? && e.vector == v) || (r.apic.irr[v] && delivered != v))
            && (delivered != -1 ==> e.Acknowledge? && 0 <= delivered < 256 && r.apic.irr[delivered])
  {
    match e
    case Message(u, kind, level) => MessageRequests(r.apic, u, kind, level, v);
    case TaskPriority(_) =>
    case Acknowledge =>
    case EndOfInterrupt =>
  }

  /** Over every run the requests are the vectors sent and not delivered since: none is forgotten, none is made up. */
  lemma {:induction false} RequestsAreMessages(events: seq<Event>, v: int)
    requires AllWellFormed(events) && 0 <= v < 256
    ensures After(events).apic.irr[v] <==> Outstanding(events, v)
  {
    if events != [] {
      var front, last := events[..|events| - 1], events[|events| - 1];
      RequestsAreMessages(front, v);
      RunInvariant(front);
      StepRequests(After(front), last, v);
    }
  }

  /** Over every run: what is delivered has been sent, and not been delivered since, and only an acknowledgement
      delivers. */
  lemma DeliveredWasSent(events: seq<Event>)
    requires AllWellFormed(events) && events != [] && Delivered(events) != -1
    ensures var v := Delivered(events);
            && 0 <= v < 256 && Outstanding(events[..|events| - 1], v) && events[|events| - 1].Acknowledge?
            && !Outstanding(events, v)
  {
    var front, last := events[..|events| - 1], events[|events| - 1];
    RunInvariant(front);
    StepRequests(After(front), last, 0);
    RequestsAreMessages(front, Delivered(events));
  }

  /** The priority that software reads: the task priority, or the class of the highest service if that is higher, until
      the write itself raises the line. */
  lemma ProcessorPriority(a: Apic, data: int)
    requires 0 <= data < 256
    ensures var b := WriteTpr(a, data);
            && b.tpr == data && b.irr == a.irr && b.isr == a.isr && b.tmr == a.tmr
            && (b.line == a.line ==>
                  (forall v | 0 <= v < 256 && a.isr[v] :: Class(v) <= Class(b.ppr)) && Class(data) <= Class(b.ppr)
                  && (b.ppr == data || exists v | 0 <= v < 256 && a.isr[v] :: b.ppr == Class(v) * 16))
            && (!a.line && b.line ==> b.ppr == Class(Highest(a.irr)) * 16)
  {
    var h := Highest(a.isr);
    forall v | 0 <= v < 256 && a.isr[v] ensures v <= h && Class(v) <= Class(h) { ClassMonotone(v, h); }
    if h != -1 { ClassOfClass(h); }
  }

  lemma ClassOfClass(v: int)
    requires 0 <= v < 256
    ensures Class(Class(v) * 16) == Class(v)
  {
  }

  // ---------- The task priority ----------

  /** The line, once up, does not come down when the task priority rises: a write keeps every delivery above the task
      priority exactly if the line is down or the new priority is still below the highest request. */
  lemma TaskPriorityRespected(a: Apic, data: int)
    requires Sound(a)
    ensures var b := WriteTpr(a, data);
            (b.line ==> Class(Deliver(b).0) > Class(b.tpr))
            <==> (!a.line || Class(data % 256) < Class(Highest(a.irr)))
  {
  }

  lemma OneRequest(e: Event, v: int)
    requires e == Message(v, Fixed, false) && 16 <= v < 255
    ensures AllWellFormed([e]) && After([e]).apic.line && Highest(After([e]).apic.irr) == v
  {
    assert [e][..0] == [];
    HighestIs(None(), -1);
    HighestAfterSet(None(), v);
  }

  lemma LineStaysUp(a: Apic, data: int)
    requires a.line
    ensures WriteTpr(a, data).line && WriteTpr(a, data).irr == a.irr && WriteTpr(a, data).tpr == data % 256
  {
  }

  /** A request, and the task priority raised to its class or above: the line stays up, and the vector is delivered. */
  lemma MaskedDelivery(e: Event, v: int, data: int)
    requires e == Message(v, Fixed, false) && 16 <= v < 255 && Class(v) <= Class(data) && 0 <= data < 256
    ensures AllWellFormed([e])
    ensures var b := WriteTpr(After([e]).apic, data);
            b.line && Highest(b.irr) == v && Deliver(b).0 == v && b.tpr == data && Class(v) <= Class(b.tpr)
  {
    OneRequest(e, v);
    LineStaysUp(After([e]).apic, data);
  }

  /** No other event puts the line up for a request that the task priority masks. */
  lemma LineRespectsTaskPriority(r: Run, e: Event)
    requires Invariant(r) && WellFormed(e) && !e.TaskPriority?
    requires r.apic.line ==> Class(Highest(r.apic.irr)) > Class(r.apic.tpr)
    ensures Step(r, e).apic.line ==> Class(Highest(Step(r, e).apic.irr)) > Class(r.apic.tpr)
  {
    if e.Message? {
      HighestAfterSet(r.apic.irr, e.vector);
      if Highest(r.apic.irr) <= e.vector { ClassMonotone(Highest(r.apic.irr), e.vector); }
    }
  }

  lemma ClassMonotone(u: int, v: int)
    requires -1 <= u <= v < 256
    ensures u >= 0 ==> Class(u) <= Class(v)
  {
  }

  // ---------- The chip ----------

  type Word = s: seq<bool> | |s| == 32 witness seq(32, _ => false)

  function Zero(): Word {
    seq(32, _ => false)
  }

  /** The 256 bits of eight words. */
  function Flat(words: seq<Word>): Vectors
    requires |words| == 8
  {
    seq(256, v requires 0 <= v < 256 => words[v / 32][v % 32])
  }

  method SetBit(words: array<Word>, v: int, bit: bool)
    requires words.Length == 8 && 0 <= v < 256
    modifies words
    ensures Flat(words[..]) == old(Flat(words[..]))[v := bit]
  {
    words[v / 32] := words[v / 32][v % 32 := bit];
    forall u | 0 <= u < 256 ensures Flat(words[..])[u] == old(Flat(words[..]))[v := bit][u] {
      if u != v { assert u / 32 != v / 32 || u % 32 != v % 32; }
    }
  }

  lemma SomeBit(w: Word)
    requires w != Zero()
    ensures exists j :: 0 <= j < 32 && w[j]
  {
    var j :| 0 <= j < 32 && w[j] != Zero()[j];
  }

  /** 31 less the leading zeros. */
  method HighestInWord(w: Word) returns (k: int)
    requires w != Zero()
    ensures 0 <= k < 32 && w[k] && forall j | k < j < 32 :: !w[j]
  {
    SomeBit(w);
    ghost var some :| 0 <= some < 32 && w[some];
    k := 31;
    while !w[k]
      invariant some <= k < 32 && forall j | k < j < 32 :: !w[j]
      decreases k
    {
      k := k - 1;
    }
  }

  method HighestSetBit(words: array<Word>) returns (h: int)
    requires words.Length == 8
    ensures h == Highest(Flat(words[..]))
  {
    var x, i := 256 - 32, 7;
    while i >= 0
      invariant -1 <= i < 8 && x == 32 * i
      invariant forall j | i < j < 8 :: words[j] == Zero()
    {
      if words[i] == Zero() {
        x := x - 32;
      } else {
        var k := HighestInWord(words[i]);
        h := k + x;
        HighestIs(Flat(words[..]), h);
        return;
      }
      i := i - 1;
    }
    h := -1;
    HighestIs(Flat(words[..]), h);
  }

  class Chip {
    const irr: array<Word>
    const isr: array<Word>
    const tmr: array<Word>
    var taskPriority: int
    var processorPriority: int
    var intrLineState: bool
    var error: bool

    ghost predicate Valid() {
      irr.Length == isr.Length == tmr.Length == 8 && irr != isr && irr != tmr && isr != tmr
    }

    function View(): Apic
      requires Valid()
      reads this, irr, isr, tmr
    {
      Apic(Flat(irr[..]), Flat(isr[..]), Flat(tmr[..]), taskPriority, processorPriority, intrLineState, error)
    }

    constructor ()
      ensures Valid() && fresh(irr) && fresh(isr) && fresh(tmr)
      ensures View() == Reset()
    {
      irr := new Word[8](_ => Zero());
      isr := new Word[8](_ => Zero());
      tmr := new Word[8](_ => Zero());
      taskPriority, processorPriority := 0, 0;
      intrLineState, error := false, false;
      new;
      assert Flat(irr[..]) == None() && Flat(isr[..]) == None() && Flat(tmr[..]) == None();
    }

    method SendHighestPriorityInterrupt()
      requires Valid()
      modifies this
      ensures View() == Send(old(View()))
    {
      if intrLineState { return; }
      var requested := HighestSetBit(irr);
      var inService := HighestSetBit(isr);
      if requested == -1 { return; }
      if inService < requested {
        if Class(requested) > Class(taskPriority) {
          processorPriority := Class(requested) * 16;
          intrLineState := true;
        }
      }
    }

    method GetInterrupt() returns (vector: int)
      requires Valid() && Sound(View()) && intrLineState
      modifies this, irr, isr
      ensures (vector, View()) == Deliver(old(View()))
    {
      vector := HighestSetBit(irr);
      SetBit(irr, vector, false);
      SetBit(isr, vector, true);
      intrLineState := false;
    }

    method ReceiveBusMessage(vector: int, kind: Kind, level: bool)
      requires Valid() && 0 <= vector < 256
      modifies this, irr, tmr
      ensures View() == Receive(old(View()), vector, kind, level)
    {
      if kind == ExtInt {
        SetBit(irr, vector, true);
        SendHighestPriorityInterrupt();
      } else {
        if InvalidVector(vector) { error := true; }
        if Flat(irr[..])[vector] { return; }
        SetBit(irr, vector, true);
        SetBit(tmr, vector, level);
        SendHighestPriorityInterrupt();
      }
    }

    method WriteTaskPriority(data: int)
      requires Valid()
      modifies this
      ensures View() == WriteTpr(old(View()), data)
    {
      taskPriority := data % 256;
      var highest := HighestSetBit(isr);
      if highest == -1 || Class(taskPriority) > Class(highest) {
        processorPriority := taskPriority;
      } else {
        processorPriority := Class(highest) * 16;
      }
      SendHighestPriorityInterrupt();
    }

    /** The vector whose retirement is told to the IOAPIC, or -1: the level-triggered ones. */
    method WriteEoi() returns (remote: int)
      requires Valid()
      modifies this, isr
      ensures View() == Eoi(old(View()))
      ensures var v := Highest(old(View()).isr); remote == if v != -1 && old(View()).tmr[v] then v else -1
    {
      remote := -1;
      var current := HighestSetBit(isr);
      if current != -1 {
        SetBit(isr, current, false);
        if Flat(tmr[..])[current] { remote := current; }
        SendHighestPriorityInterrupt();
      }
    }
  }
}
