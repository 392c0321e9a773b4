/**
 The two cascaded interrupt controllers of src/pic.cpp. The reference machine is a value; class Pair keeps the two
 controllers in an array, as the source does, and refines it.
 */
module Pic {

  /** Eight bits, lowest first. */
  type Bits = s: seq<bool> | |s| == 8 witness [false, false, false, false, false, false, false, false]

  type Irq = i: int | 0 <= i < 8

  function Clear(): Bits {
    seq(8, _ => false)
  }

  function Full(): Bits {
    seq(8, _ => true)
  }

  /** The bits of one controller that its behaviour depends on. */
  datatype Ctrl = Ctrl(irr: Bits, isr: Bits, imr: Bits, pins: Bits, base: Irq, toSend: Irq, offset: int,
                       icw1: Bits, icwIndex: int, ocw3: Bits,
                       autoEoi: bool, rotateOnAutoEoi: bool, initializing: bool, readIsr: bool)
  {
    predicate SpecialMask() {
      ocw3[5] && ocw3[6]
    }
  }

  /** Both controllers and the processor's interrupt line. */
  datatype Pics = Pics(master: Ctrl, slave: Ctrl, line: bool)

  // ---------- Priorities ----------

  /** The places of an input in the order of priority, 0 first. */
  function Rank(base: Irq, irq: Irq): Irq {
    if irq > base then irq - base - 1 else irq - base + 7
  }

  /** The input at a place. */
  function AtRank(base: Irq, r: Irq): Irq {
    if base + 1 + r < 8 then base + 1 + r else base - 7 + r
  }

  /** The arithmetic of three bits that the source does. */
  lemma RanksModuloEight(base: Irq, i: Irq)
    ensures Rank(base, i) == (i - base - 1) % 8 && AtRank(base, i) == (base + 1 + i) % 8
  {
  }

  lemma RanksAreInverse(base: Irq, i: Irq)
    ensures Rank(base, AtRank(base, i)) == i && AtRank(base, Rank(base, i)) == i
  {
  }

  /** Rotation left by count = base ^ 7, with the source's two shifts. */
  function Rol(value: Bits, base: Irq): Bits {
    var count := 7 - base;
    seq(8, i requires 0 <= i < 8 => (i >= count && value[i - count]) || (i + 8 - count < 8 && value[i + 8 - count]))
  }

  /** The rotated register lists the inputs by priority. */
  lemma RolOrders(value: Bits, base: Irq, i: Irq)
    ensures Rol(value, base)[i] == value[AtRank(base, i)]
  {
  }

  predicate Pending(c: Ctrl, irq: Irq) {
    c.irr[irq] && !c.imr[irq]
  }

  /** No input of the same or a higher priority is in service. */
  predicate Unblocked(c: Ctrl, irq: Irq) {
    forall j: Irq :: Rank(c.base, j) <= Rank(c.base, irq) ==> !c.isr[j]
  }

  /** What a controller may send now: in special mask mode a service blocks only its own input. */
  predicate Eligible(c: Ctrl, irq: Irq) {
    Pending(c, irq) && if c.SpecialMask() then !c.isr[irq] else Unblocked(c, irq)
  }

  /** The scan of pic_internal_update from rank i on: the input to send, or -1. */
  function Scan(c: Ctrl, i: int): (irq: int)
    requires 0 <= i <= 8
    ensures -1 <= irq < 8
    decreases 8 - i
  {
    if i == 8 then -1
    else
      var irq := AtRank(c.base, i);
      if !c.SpecialMask() && c.isr[irq] then -1
      else if Pending(c, irq) && !c.isr[irq] then irq
      else Scan(c, i + 1)
  }

  lemma {:induction false} ScanFinds(c: Ctrl, i: int)
    requires 0 <= i <= 8
    requires forall j: Irq :: Rank(c.base, j) < i ==> !Eligible(c, j) && (!c.SpecialMask() ==> !c.isr[j])
    ensures var irq := Scan(c, i);
            if irq == -1 then forall j: Irq :: !Eligible(c, j)
            else Eligible(c, irq) && forall j: Irq :: Rank(c.base, j) < Rank(c.base, irq) ==> !Eligible(c, j)
    decreases 8 - i
  {
    if i < 8 {
      var irq := AtRank(c.base, i);
      RanksAreInverse(c.base, i);
      forall j: Irq ensures AtRank(c.base, Rank(c.base, j)) == j { RanksAreInverse(c.base, j); }
      if (c.SpecialMask() || !c.isr[irq]) && !(Pending(c, irq) && !c.isr[irq]) {
        ScanFinds(c, i + 1);
      }
    }
  }

  function Choice(c: Ctrl): (irq: int)
    ensures -1 <= irq < 8
  {
    Scan(c, 0)
  }

  /** The controller sends the eligible input of the highest priority, if there is one. */
  lemma ChoiceIsHighest(c: Ctrl)
    ensures Choice(c) == -1 <==> forall irq: Irq :: !Eligible(c, irq)
    ensures forall irq: Irq :: Choice(c) == irq <==>
      Eligible(c, irq) && forall j: Irq :: Rank(c.base, j) < Rank(c.base, irq) ==> !Eligible(c, j)
  {
    ScanFinds(c, 0);
    forall i: Irq, j: Irq ensures Rank(c.base, i) == Rank(c.base, j) ==> i == j {
      RanksAreInverse(c.base, i); RanksAreInverse(c.base, j);
    }
  }

  // ---------- The operations ----------

  /** pic_internal_update of the master. */
  function UpdateMaster(p: Pics): Pics {
    var irq := Choice(p.master);
    if irq == -1 then p else p.(master := p.master.(toSend := irq), line := true)
  }

  function Lowered(c: Ctrl, irq: Irq): Ctrl {
    c.(irr := c.irr[irq := false], pins := c.pins[irq := false])
  }

  function Raised(c: Ctrl, irq: Irq): Ctrl {
    c.(irr := c.irr[irq := true], pins := c.pins[irq := true])
  }

  function LowerMaster(p: Pics, irq: Irq): Pics {
    p.(master := Lowered(p.master, irq))
  }

  function RaiseMaster(p: Pics, irq: Irq): Pics {
    if p.master.pins[irq] then p else UpdateMaster(p.(master := Raised(p.master, irq)))
  }

  /** pic_internal_update of the slave: a new edge on the master's input 2. */
  function UpdateSlave(p: Pics): Pics {
    var irq := Choice(p.slave);
    if irq == -1 then p else RaiseMaster(LowerMaster(p.(slave := p.slave.(toSend := irq)), 2), 2)
  }

  function LowerSlave(p: Pics, irq: Irq): Pics {
    var q := p.(slave := Lowered(p.slave, irq));
    if q.slave.irr == Clear() then LowerMaster(q, 2) else q
  }

  function RaiseSlave(p: Pics, irq: Irq): Pics {
    if p.slave.pins[irq] then p else UpdateSlave(p.(slave := Raised(p.slave, irq)))
  }

  /** pic_raise_irq and pic_lower_irq, inputs 8 to 15 being the slave's. */
  function Raise(p: Pics, irq: int): Pics
    requires 0 <= irq < 16
  {
    if irq > 7 then RaiseSlave(p, irq - 8) else RaiseMaster(p, irq)
  }

  function Lower(p: Pics, irq: int): Pics
    requires 0 <= irq < 16
  {
    if irq > 7 then LowerSlave(p, irq - 8) else LowerMaster(p, irq)
  }

  /** One controller takes its input into service, unless the request is gone. */
  function Taken(c: Ctrl): Ctrl {
    if !c.irr[c.toSend] then c
    else
      var d := c.(irr := c.irr[c.toSend := false]);
      if !c.autoEoi then d.(isr := c.isr[c.toSend := true])
      else if c.rotateOnAutoEoi then d.(base := c.toSend)
      else d
  }

  function Vector(c: Ctrl): int {
    c.offset + if c.irr[c.toSend] then c.toSend else 7
  }

  predicate Cascades(p: Pics) {
    p.master.irr[2] && p.master.toSend == 2
  }

  /** pic_get_interrupt: the vector and the controllers after it. */
  function Acknowledge(p: Pics): (int, Pics) {
    if Cascades(p) then (Vector(p.slave), Pics(Taken(p.master), Taken(p.slave), false))
    else (Vector(p.master), Pics(Taken(p.master), p.slave, false))
  }

  // ---------- Port writes ----------

  function Low3(data: Bits): Irq {
    (if data[0] then 1 else 0) + (if data[1] then 2 else 0) + (if data[2] then 4 else 0)
  }

  function High5(data: Bits): int {
    (if data[3] then 8 else 0) + (if data[4] then 16 else 0) + (if data[5] then 32 else 0) + (if data[6] then 64 else 0)
    + (if data[7] then 128 else 0)
  }

  /** pic_write_icw. */
  function WriteIcw(c: Ctrl, id: int, v: Bits): Ctrl {
    var d := match id
      case 1 => c.(icwIndex := 2, icw1 := v, imr := Clear(), isr := Clear(), irr := Clear(), base := 7)
      case 2 => c.(offset := High5(v), icwIndex := if c.icw1[1] then (if c.icw1[0] then 4 else 5) else 3)
      case 3 => c.(icwIndex := if c.icw1[0] then 4 else 5)
      case 4 => c.(autoEoi := v[1], icwIndex := 5)
      case _ => c;
    d.(initializing := d.icwIndex != 5)
  }

  /** The loop of pic_clear_highest_priority from rank i on. */
  function ClearHighest(c: Ctrl, i: int): Ctrl
    requires 0 <= i <= 8
    decreases 8 - i
  {
    if i == 8 then c
    else
      var irq := AtRank(c.base, i);
      if c.isr[irq] then c.(isr := c.isr[irq := false]) else ClearHighest(c, i + 1)
  }

  /** An end of interrupt, for input l or for the highest in service. */
  function Ended(c: Ctrl, specific: bool, l: Irq): Ctrl {
    if specific then c.(isr := c.isr[l := false]) else ClearHighest(c, 0)
  }

  /** OCW2 on one controller: ends of interrupt and rotations. */
  function Ocw2(c: Ctrl, data: Bits): Ctrl {
    var l, rotate, specific, eoi := Low3(data), data[7], data[6], data[5];
    if eoi then
      if rotate then Ended(c, specific, l).(base := l) else Ended(c, specific, l)
    else if specific then
      if rotate then c.(base := l) else c
    else c.(rotateOnAutoEoi := rotate)
  }

  function Ocw3(c: Ctrl, data: Bits): Ctrl {
    c.(ocw3 := data, readIsr := if data[1] then data[0] else c.readIsr)
  }

  function With(p: Pics, second: bool, c: Ctrl): Pics {
    if second then p.(slave := c) else p.(master := c)
  }

  function Of(p: Pics, second: bool): Ctrl {
    if second then p.slave else p.master
  }

  function Update(p: Pics, second: bool): Pics {
    if second then UpdateSlave(p) else UpdateMaster(p)
  }

  /** The command byte that starts an initialization. */
  function Restarted(c: Ctrl, data: Bits): Ctrl {
    WriteIcw(c.(initializing := true, imr := Clear(), isr := Clear(), irr := Clear(), base := 7,
                autoEoi := false, rotateOnAutoEoi := false), 1, data)
  }

  /** What a byte at the odd or the even port makes of a controller, before any update. */
  function Programmed(c: Ctrl, odd: bool, data: Bits): Ctrl {
    if odd then
      if c.initializing then WriteIcw(c, c.icwIndex, data) else c.(imr := data)
    else if data[4] then Restarted(c, data)
    else if data[3] then Ocw3(c, data)
    else Ocw2(c, data)
  }

  /** The mask and the ends of interrupt are followed by an update. */
  predicate Updates(c: Ctrl, odd: bool, data: Bits) {
    if odd then !c.initializing else !data[4] && !data[3] && data[5]
  }

  /** pic_writeb. A restart of either controller takes the processor's line down. */
  function Write(p: Pics, second: bool, odd: bool, data: Bits): Pics {
    var q := With(p, second, Programmed(Of(p, second), odd, data));
    if Updates(Of(p, second), odd, data) then Update(q, second)
    else if !odd && data[4] then q.(line := false)
    else q
  }

  // ---------- Runs ----------

  datatype Event =
    | RaiseIrq(irq: int)
    | LowerIrq(irq: int)
    | Port(second: bool, odd: bool, data: Bits)
    | Interrupt

  /** Devices drive every input but the master's input 2, which is the slave's. */
  predicate WellFormed(e: Event) {
    (e.RaiseIrq? || e.LowerIrq?) ==> 0 <= e.irq < 16 && e.irq != 2
  }

  /** The processor acknowledges only if its line is up. */
  function Step(p: Pics, e: Event): Pics
    requires WellFormed(e)
  {
    match e
    case RaiseIrq(irq) => Raise(p, irq)
    case LowerIrq(irq) => Lower(p, irq)
    case Port(second, odd, data) => Write(p, second, odd, data)
    case Interrupt => if p.line then Acknowledge(p).1 else p
  }

  /** Priorities stay as they are, except where nothing is in service; special mask mode is off. */
  predicate OrderKept(c: Ctrl, d: Ctrl) {
    !c.SpecialMask() && !d.SpecialMask() && (d.base == c.base || d.isr == Clear())
  }

  predicate Orderly(p: Pics, q: Pics) {
    OrderKept(p.master, q.master) && OrderKept(p.slave, q.slave)
  }

  /** What the line and the cascade stand for can enter service. */
  predicate Ready(p: Pics) {
    && (p.line ==> Unblocked(p.master, p.master.toSend))
    && (p.master.irr[2] ==> Unblocked(p.slave, p.slave.toSend))
  }

  // ---------- What the steps keep ----------

  /** Fewer services, in the same order, block less. */
  lemma StaysUnblocked(c: Ctrl, d: Ctrl, irq: Irq)
    requires Unblocked(c, irq) && (d.base == c.base || d.isr == Clear())
    requires forall j: Irq :: d.isr[j] ==> c.isr[j]
    ensures Unblocked(d, irq)
  {
  }

  lemma ChosenUnblocked(c: Ctrl)
    requires !c.SpecialMask() && Choice(c) != -1
    ensures Unblocked(c, Choice(c)) && Pending(c, Choice(c))
  {
    ChoiceIsHighest(c);
  }

  /** What an update of the master leaves alone. */
  lemma UpdateMasterReady(p: Pics)
    requires !p.master.SpecialMask()
    requires p.line ==> Unblocked(p.master, p.master.toSend)
    requires p.master.irr[2] ==> Unblocked(p.slave, p.slave.toSend)
    ensures Ready(UpdateMaster(p))
    ensures UpdateMaster(p).slave == p.slave
    ensures UpdateMaster(p).master == p.master.(toSend := UpdateMaster(p).master.toSend)
  {
    if Choice(p.master) != -1 {
      ChosenUnblocked(p.master);
      var d := p.master.(toSend := Choice(p.master));
      StaysUnblocked(p.master, d, Choice(p.master));
    }
  }

  lemma RaiseMasterReady(p: Pics, irq: Irq)
    requires !p.master.SpecialMask() && Ready(p)
    requires irq == 2 ==> Unblocked(p.slave, p.slave.toSend)
    ensures Ready(RaiseMaster(p, irq))
  {
    if !p.master.pins[irq] {
      var q := p.(master := Raised(p.master, irq));
      if p.line { StaysUnblocked(p.master, q.master, p.master.toSend); }
      UpdateMasterReady(q);
    }
  }

  lemma LowerMasterReady(p: Pics, irq: Irq)
    requires Ready(p)
    ensures Ready(LowerMaster(p, irq))
  {
    if p.line { StaysUnblocked(p.master, Lowered(p.master, irq), p.master.toSend); }
  }

  lemma UpdateSlaveReady(p: Pics)
    requires !p.master.SpecialMask() && !p.slave.SpecialMask() && Ready(p)
    ensures Ready(UpdateSlave(p))
    ensures UpdateSlave(p).slave == p.slave.(toSend := UpdateSlave(p).slave.toSend)
    ensures UpdateSlave(p).master.isr == p.master.isr && UpdateSlave(p).master.base == p.master.base
  {
    var irq := Choice(p.slave);
    if irq != -1 {
      ChosenUnblocked(p.slave);
      var q := p.(slave := p.slave.(toSend := irq));
      StaysUnblocked(p.slave, q.slave, irq);
      LowerMasterReady(q, 2);
      RaiseMasterReady(LowerMaster(q, 2), 2);
    }
  }

  /** A change of one controller that puts nothing into service. */
  lemma ChangeReady(p: Pics, second: bool, c: Ctrl)
    requires Ready(p) && OrderKept(Of(p, second), c)
    requires c.toSend == Of(p, second).toSend
    requires forall j: Irq :: c.isr[j] ==> Of(p, second).isr[j]
    requires c.irr[2] ==> second || p.master.irr[2]
    ensures Ready(With(p, second, c))
  {
    if second {
      if p.master.irr[2] { StaysUnblocked(p.slave, c, c.toSend); }
    } else {
      if p.line { StaysUnblocked(p.master, c, c.toSend); }
    }
  }

  /** Nothing new is requested or in service, and the input to send is the same. */
  predicate OnlyClears(c: Ctrl, d: Ctrl) {
    d.toSend == c.toSend && forall j: Irq :: (d.isr[j] ==> c.isr[j]) && (d.irr[j] ==> c.irr[j])
  }

  lemma {:induction false} ClearHighestOnlyClears(c: Ctrl, i: int)
    requires 0 <= i <= 8
    ensures OnlyClears(c, ClearHighest(c, i))
    decreases 8 - i
  {
    if i < 8 && !c.isr[AtRank(c.base, i)] { ClearHighestOnlyClears(c, i + 1); }
  }

  lemma EndedOnlyClears(c: Ctrl, specific: bool, l: Irq)
    ensures OnlyClears(c, Ended(c, specific, l))
  {
    if !specific { ClearHighestOnlyClears(c, 0); }
  }

  /** OCW2 ends a service or does not, and changes the order at most. */
  lemma Ocw2Parts(c: Ctrl, data: Bits)
    ensures var d := if data[5] then Ended(c, data[6], Low3(data)) else c;
            var e := Ocw2(c, data);
            e.isr == d.isr && e.irr == d.irr && e.imr == d.imr && e.ocw3 == d.ocw3 && e.toSend == d.toSend
  {
  }

  lemma Ocw2OnlyClears(c: Ctrl, data: Bits)
    ensures OnlyClears(c, Ocw2(c, data))
  {
    Ocw2Parts(c, data);
    EndedOnlyClears(c, data[6], Low3(data));
  }

  /** No write puts anything into service. */
  lemma ProgrammedOnlyClears(c: Ctrl, odd: bool, data: Bits)
    ensures OnlyClears(c, Programmed(c, odd, data))
  {
    if !odd && !data[4] && !data[3] { Ocw2OnlyClears(c, data); }
  }

  lemma UpdateReady(p: Pics, second: bool)
    requires !p.master.SpecialMask() && !p.slave.SpecialMask() && Ready(p)
    ensures Ready(Update(p, second))
  {
    if second { UpdateSlaveReady(p); } else { UpdateMasterReady(p); }
  }

  /** An update changes no service, no priority and no mode of either controller. */
  lemma UpdateLeaves(p: Pics, second: bool)
    ensures var q := Update(p, second);
            && q.master == p.master.(toSend := q.master.toSend, irr := q.master.irr, pins := q.master.pins)
            && q.slave == p.slave.(toSend := q.slave.toSend)
  {
  }

  lemma WriteReady(p: Pics, second: bool, odd: bool, data: Bits)
    requires Ready(p) && Orderly(p, Write(p, second, odd, data))
    ensures Ready(Write(p, second, odd, data))
  {
    var d := Programmed(Of(p, second), odd, data);
    ProgrammedOnlyClears(Of(p, second), odd, data);
    UpdateLeaves(With(p, second, d), second);
    ChangeReady(p, second, d);
    UpdateReady(With(p, second, d), second);
  }

  lemma RaiseReady(p: Pics, irq: int)
    requires Ready(p) && 0 <= irq < 16 && irq != 2 && !p.master.SpecialMask() && !p.slave.SpecialMask()
    ensures Ready(Raise(p, irq))
  {
    if irq <= 7 {
      RaiseMasterReady(p, irq);
    } else if !p.slave.pins[irq - 8] {
      var c := Raised(p.slave, irq - 8);
      ChangeReady(p, true, c);
      UpdateSlaveReady(p.(slave := c));
    }
  }

  lemma LowerReady(p: Pics, irq: int)
    requires Ready(p) && 0 <= irq < 16 && !p.master.SpecialMask() && !p.slave.SpecialMask()
    ensures Ready(Lower(p, irq))
  {
    if irq <= 7 {
      LowerMasterReady(p, irq);
    } else {
      var c := Lowered(p.slave, irq - 8);
      ChangeReady(p, true, c);
      LowerMasterReady(p.(slave := c), 2);
    }
  }

  lemma StepReady(p: Pics, e: Event)
    requires Ready(p) && WellFormed(e) && Orderly(p, Step(p, e))
    ensures Ready(Step(p, e))
  {
    match e
    case RaiseIrq(irq) => RaiseReady(p, irq);
    case LowerIrq(irq) => LowerReady(p, irq);
    case Port(second, odd, data) => WriteReady(p, second, odd, data);
    case Interrupt =>
  }

  /** Power-on followed by pic_reset: everything masked. */
  function Initial(): Pics {
    var c := Ctrl(Clear(), Clear(), Full(), Clear(), 0, 0, 0, Clear(), 0, Clear(), false, false, false, false);
    Pics(c, c, false)
  }

  function After(events: seq<Event>): Pics
    requires forall e | e in events :: WellFormed(e)
  {
    if events == [] then Initial() else Step(After(events[..|events| - 1]), events[|events| - 1])
  }

  /** A run that changes priorities only on an idle controller and does not use special mask mode. */
  predicate OrderlyRun(events: seq<Event>)
    requires forall e | e in events :: WellFormed(e)
  {
    events != [] ==>
      && OrderlyRun(events[..|events| - 1])
      && Orderly(After(events[..|events| - 1]), After(events))
  }

  lemma {:induction false} RunReady(events: seq<Event>)
    requires (forall e | e in events :: WellFormed(e)) && OrderlyRun(events)
    ensures Ready(After(events))
  {
    if events != [] {
      RunReady(events[..|events| - 1]);
      StepReady(After(events[..|events| - 1]), events[|events| - 1]);
    }
  }

  /** Nothing enters service under a service of the same or a higher priority of its controller. */
  ghost predicate EntersProperly(c: Ctrl, d: Ctrl) {
    forall irq: Irq :: d.isr[irq] && !c.isr[irq] ==> Unblocked(c, irq)
  }

  lemma WriteServices(p: Pics, second: bool, odd: bool, data: Bits)
    ensures var q := Write(p, second, odd, data);
            OnlyClears(p.master, q.master.(toSend := p.master.toSend, irr := Clear()))
    ensures var q := Write(p, second, odd, data);
            OnlyClears(p.slave, q.slave.(toSend := p.slave.toSend, irr := Clear()))
  {
    var d := Programmed(Of(p, second), odd, data);
    ProgrammedOnlyClears(Of(p, second), odd, data);
    UpdateLeaves(With(p, second, d), second);
  }

  lemma RaiseServices(p: Pics, irq: int)
    requires 0 <= irq < 16
    ensures Raise(p, irq).master.isr == p.master.isr && Raise(p, irq).slave.isr == p.slave.isr
  {
    if irq > 7 {
      UpdateLeaves(p.(slave := Raised(p.slave, irq - 8)), true);
    } else {
      UpdateLeaves(p.(master := Raised(p.master, irq)), false);
    }
  }

  lemma StepServices(p: Pics, e: Event)
    requires Ready(p) && WellFormed(e)
    ensures EntersProperly(p.master, Step(p, e).master) && EntersProperly(p.slave, Step(p, e).slave)
  {
    match e
    case RaiseIrq(irq) => RaiseServices(p, irq);
    case LowerIrq(irq) =>
    case Port(second, odd, data) => WriteServices(p, second, odd, data);
    case Interrupt =>
  }

  /** Over every orderly run, on both controllers. */
  lemma ServicesNest(events: seq<Event>, e: Event)
    requires (forall x | x in events :: WellFormed(x)) && OrderlyRun(events) && WellFormed(e)
    ensures EntersProperly(After(events).master, Step(After(events), e).master)
    ensures EntersProperly(After(events).slave, Step(After(events), e).slave)
  {
    RunReady(events);
    StepServices(After(events), e);
  }

  // ---------- Requests left behind ----------

  /** The master has something to send. */
  predicate Due(p: Pics) {
    Choice(p.master) != -1
  }

  /** The line is up if anything is due, and then nothing due beats what it is up for. */
  predicate Attended(p: Pics) {
    && (Due(p) ==> p.line)
    && (p.line ==>
          forall j: Irq :: Rank(p.master.base, j) < Rank(p.master.base, p.master.toSend) ==> !Eligible(p.master, j))
  }

  /** The order of priorities that an acknowledgement leaves. */
  function Reordered(c: Ctrl): Ctrl {
    if c.irr[c.toSend] && c.autoEoi && c.rotateOnAutoEoi then c.(base := c.toSend) else c
  }

  /** The steps after which a request waits, with the line down or with the line up for a lower one:
      - an acknowledgement that blocks nothing, because its request has gone, its end is automatic, or special mask mode
        is on, while another request could be sent;
      - a restart of the slave while the master has something to send;
      - a command that turns special mask mode on while a request that is not in service itself waits behind a service;
      - a command that sets the priorities, without an end of interrupt, so that a request comes before what the line is
        up for, or out from behind a service. */
  predicate LeavesBehind(p: Pics, e: Event) {
    var c := p.master;
    match e
    case Interrupt =>
      p.line && (c.SpecialMask() || !c.irr[c.toSend] || c.autoEoi)
      && exists j: Irq :: j != c.toSend && Eligible(Reordered(c), j)
    case Port(second, odd, data) =>
      if second then !odd && data[4] && Due(p)
      else if odd || data[4] then false
      else if data[3] then
        !c.SpecialMask() && data[5] && data[6] && exists j: Irq :: Pending(c, j) && !c.isr[j] && First(p, c, j)
      else
        !data[5] && data[6] && data[7]
        && exists j: Irq :: Eligible(c.(base := Low3(data)), j) && First(p, c.(base := Low3(data)), j)
    case _ => false
  }

  /** In the order of c, input j comes before what the line is up for. */
  predicate First(p: Pics, c: Ctrl, j: Irq) {
    !p.line || Rank(c.base, j) < Rank(c.base, p.master.toSend)
  }

  lemma {:induction false} SameScan(c: Ctrl, d: Ctrl, i: int)
    requires 0 <= i <= 8
    requires d.irr == c.irr && d.isr == c.isr && d.imr == c.imr && d.base == c.base && d.ocw3 == c.ocw3
    ensures Scan(d, i) == Scan(c, i)
    decreases 8 - i
  {
    if i < 8 { SameScan(c, d, i + 1); }
  }

  lemma AttendedMeans(p: Pics)
    ensures Attended(p) <==> forall j: Irq :: Eligible(p.master, j) ==> !First(p, p.master, j)
  {
    ChoiceIsHighest(p.master);
  }

  /** A controller that gains nothing eligible stays attended. */
  lemma ShrinkingAttends(p: Pics, q: Pics)
    requires Attended(p) && q.line == p.line
    requires q.master.base == p.master.base && q.master.toSend == p.master.toSend
    requires forall j: Irq :: Eligible(q.master, j) ==> Eligible(p.master, j)
    ensures Attended(q)
  {
    ChoiceIsHighest(p.master);
    ChoiceIsHighest(q.master);
  }

  lemma UpdateMasterAttends(p: Pics)
    ensures Attended(UpdateMaster(p))
  {
    ChoiceIsHighest(p.master);
    var q := UpdateMaster(p);
    ChoiceIsHighest(q.master);
    SameScan(p.master, q.master, 0);
  }

  lemma LowerMasterAttends(p: Pics, irq: Irq)
    requires Attended(p)
    ensures Attended(LowerMaster(p, irq))
  {
    var q := LowerMaster(p, irq);
    forall j: Irq | Eligible(q.master, j) ensures Eligible(p.master, j) { }
    ShrinkingAttends(p, q);
  }

  lemma RaiseMasterAttends(p: Pics, irq: Irq)
    requires Attended(p)
    ensures Attended(RaiseMaster(p, irq))
  {
    UpdateMasterAttends(p.(master := Raised(p.master, irq)));
  }

  lemma UpdateSlaveAttends(p: Pics)
    requires Attended(p)
    ensures Attended(UpdateSlave(p))
  {
    if Choice(p.slave) != -1 {
      var q := p.(slave := p.slave.(toSend := Choice(p.slave)));
      LowerMasterAttends(q, 2);
      RaiseMasterAttends(LowerMaster(q, 2), 2);
    }
  }

  lemma EdgeAttends(p: Pics, e: Event)
    requires Attended(p) && WellFormed(e) && (e.RaiseIrq? || e.LowerIrq?)
    ensures Attended(Step(p, e))
  {
    if e.RaiseIrq? {
      if e.irq > 7 {
        UpdateSlaveAttends(p.(slave := Raised(p.slave, e.irq - 8)));
      } else {
        RaiseMasterAttends(p, e.irq);
      }
    } else {
      if e.irq > 7 {
        LowerMasterAttends(p.(slave := Lowered(p.slave, e.irq - 8)), 2);
      } else {
        LowerMasterAttends(p, e.irq);
      }
    }
  }

  lemma SlaveWriteAttends(p: Pics, odd: bool, data: Bits)
    requires Attended(p)
    ensures Attended(Write(p, true, odd, data)) <==> !(!odd && data[4] && Due(p))
  {
    UpdateSlaveAttends(With(p, true, Programmed(p.slave, odd, data)));
  }

  /** A change of the master alone, without an update: what it must not make eligible. */
  lemma ChangeAttends(p: Pics, d: Ctrl)
    requires d.toSend == p.master.toSend
    ensures Attended(p.(master := d)) <==> forall j: Irq :: Eligible(d, j) ==> !First(p, d, j)
  {
    AttendedMeans(p.(master := d));
  }

  /** The first initialization word clears the requests; the others leave requests, services, masks and order alone. */
  lemma IcwParts(c: Ctrl, id: int, v: Bits)
    ensures var d := WriteIcw(c, id, v);
            && d.toSend == c.toSend && d.ocw3 == c.ocw3
            && (if id == 1 then d.irr == Clear()
                else d.irr == c.irr && d.isr == c.isr && d.imr == c.imr && d.base == c.base)
  {
    match id
    case 1 =>
    case 2 =>
    case 3 =>
    case 4 =>
    case _ =>
  }

  lemma SameAttends(p: Pics, d: Ctrl)
    requires Attended(p) && d.toSend == p.master.toSend && d.base == p.master.base
    requires forall j: Irq :: Eligible(d, j) ==> Eligible(p.master, j)
    ensures Attended(p.(master := d))
  {
    ShrinkingAttends(p, p.(master := d));
  }

  lemma NothingAttends(p: Pics, d: Ctrl)
    requires d.toSend == p.master.toSend && d.irr == Clear()
    ensures Attended(p.(master := d))
  {
    ChangeAttends(p, d);
  }

  /** Initialization words make nothing eligible. */
  lemma IcwAttends(p: Pics, data: Bits)
    requires Attended(p)
    ensures Attended(p.(master := WriteIcw(p.master, p.master.icwIndex, data)))
  {
    var c, d := p.master, WriteIcw(p.master, p.master.icwIndex, data);
    IcwParts(c, c.icwIndex, data);
    if c.icwIndex == 1 {
      NothingAttends(p, d);
    } else {
      forall j: Irq | Eligible(d, j) ensures Eligible(c, j) { SameEligible(c, d, j); }
      SameAttends(p, d);
    }
  }

  lemma SameEligible(c: Ctrl, d: Ctrl, j: Irq)
    requires d.irr == c.irr && d.isr == c.isr && d.imr == c.imr && d.base == c.base && d.ocw3 == c.ocw3
    ensures Eligible(d, j) == Eligible(c, j)
  {
  }

  lemma Ocw3Eligible(c: Ctrl, data: Bits, j: Irq)
    ensures Eligible(Ocw3(c, data), j) <==> Pending(c, j) && if data[5] && data[6] then !c.isr[j] else Unblocked(c, j)
  {
  }

  lemma Ocw3Attends(p: Pics, data: Bits)
    requires Attended(p) && data[3] && !data[4]
    ensures Attended(p.(master := Ocw3(p.master, data))) <==> !LeavesBehind(p, Port(false, false, data))
  {
    var c, d := p.master, Ocw3(p.master, data);
    forall j: Irq
      ensures Eligible(d, j) <==> Pending(c, j) && if data[5] && data[6] then !c.isr[j] else Unblocked(c, j)
    {
      Ocw3Eligible(c, data, j);
    }
    if !c.SpecialMask() && data[5] && data[6] {
      ChangeAttends(p, d);
    } else {
      SameAttends(p, d);
    }
  }

  /** OCW2 without an end of interrupt: the priorities are set, or nothing changes that matters here. */
  lemma OrderAttends(p: Pics, data: Bits)
    requires Attended(p) && !data[3] && !data[4] && !data[5]
    ensures Attended(p.(master := Ocw2(p.master, data))) <==> !LeavesBehind(p, Port(false, false, data))
  {
    var c, d := p.master, Ocw2(p.master, data);
    AttendedMeans(p);
    ChangeAttends(p, d);
    var e := if data[6] && data[7] then c.(base := Low3(data)) else c;
    forall j: Irq ensures Eligible(d, j) == Eligible(e, j) && First(p, d, j) == First(p, e, j) {
      SameEligible(e, d, j);
    }
  }

  lemma MasterWriteAttends(p: Pics, odd: bool, data: Bits)
    requires Attended(p) && (odd || !data[4])
    ensures Attended(Write(p, false, odd, data)) <==> !LeavesBehind(p, Port(false, odd, data))
  {
    if Updates(p.master, odd, data) {
      UpdateMasterAttends(With(p, false, Programmed(p.master, odd, data)));
    } else if odd {
      IcwAttends(p, data);
    } else if data[3] {
      Ocw3Attends(p, data);
    } else {
      OrderAttends(p, data);
    }
  }

  /** What can be sent after an acknowledgement. */
  lemma TakenEligible(c: Ctrl, j: Irq)
    requires Rank(c.base, j) < Rank(c.base, c.toSend) ==> !Eligible(c, j)
    ensures Eligible(Taken(c), j)
      <==> (c.SpecialMask() || !c.irr[c.toSend] || c.autoEoi) && j != c.toSend && Eligible(Reordered(c), j)
  {
    if c.irr[c.toSend] && !c.autoEoi && !c.SpecialMask() { BehindService(c, j); } else { NotBehind(c, j); }
  }

  /** Once an input is in service, only what beats it is eligible. */
  lemma BehindService(c: Ctrl, j: Irq)
    requires Rank(c.base, j) < Rank(c.base, c.toSend) ==> !Eligible(c, j)
    requires c.irr[c.toSend] && !c.autoEoi && !c.SpecialMask()
    ensures !Eligible(Taken(c), j)
  {
    var d := Taken(c);
    assert d.isr[c.toSend] && !d.irr[c.toSend];
    if Eligible(d, j) {
      assert forall k: Irq :: c.isr[k] ==> d.isr[k];
      assert Unblocked(c, j);
    }
  }

  /** Otherwise only its own request goes. */
  lemma NotBehind(c: Ctrl, j: Irq)
    requires c.SpecialMask() || !c.irr[c.toSend] || c.autoEoi
    ensures Eligible(Taken(c), j) <==> j != c.toSend && Eligible(Reordered(c), j)
  {
    var d, r := Taken(c), Reordered(c);
    assert d.base == r.base && d.imr == r.imr && d.ocw3 == r.ocw3 && !d.irr[c.toSend];
    if j != c.toSend {
      assert d.irr[j] == r.irr[j] && d.isr[j] == r.isr[j];
      if !c.SpecialMask() {
        assert d.isr == r.isr;
        assert Unblocked(d, j) == Unblocked(r, j);
      }
    }
  }

  lemma InterruptAttends(p: Pics)
    requires Attended(p) && p.line
    ensures Attended(Acknowledge(p).1) <==> !LeavesBehind(p, Interrupt)
  {
    AttendedMeans(Acknowledge(p).1);
    forall j: Irq ensures Eligible(Taken(p.master), j)
        <==> (p.master.SpecialMask() || !p.master.irr[p.master.toSend] || p.master.autoEoi)
             && j != p.master.toSend && Eligible(Reordered(p.master), j) {
      TakenEligible(p.master, j);
    }
  }

  lemma RestartAttends(p: Pics, data: Bits)
    ensures Attended(Write(p, false, false, data)) || !data[4]
  {
    ChoiceIsHighest(Restarted(p.master, data));
  }

  /** The exact condition: a step leaves a request behind in those cases and no others, in every mode. */
  lemma LeftBehindExactly(p: Pics, e: Event)
    requires Attended(p) && WellFormed(e)
    ensures Attended(Step(p, e)) <==> !LeavesBehind(p, e)
  {
    match e
    case RaiseIrq(_) => EdgeAttends(p, e);
    case LowerIrq(_) => EdgeAttends(p, e);
    case Port(second, odd, data) =>
      if second {
        SlaveWriteAttends(p, odd, data);
      } else if !odd && data[4] {
        RestartAttends(p, data);
      } else {
        MasterWriteAttends(p, odd, data);
      }
    case Interrupt => if p.line { InterruptAttends(p); }
  }

  function Byte(b0: bool, b1: bool, b2: bool, b3: bool, b4: bool): Bits {
    [b0, b1, b2, b3, b4, false, false, false]
  }

  /** The master is initialized: ICW1 = 0x11, ICW2 = 0x08, ICW3 = 0x04, and ICW4 = 0x03 for automatic ends of
      interrupt. */
  function Initialized(p: Pics): Pics {
    var p1 := Step(p, Port(false, false, Byte(true, false, false, false, true)));
    var p2 := Step(p1, Port(false, true, Byte(false, false, false, true, false)));
    var p3 := Step(p2, Port(false, true, Byte(false, false, true, false, false)));
    Step(p3, Port(false, true, Byte(true, true, false, false, false)))
  }

  lemma InitializedAutomatic(p: Pics)
    ensures var q := Initialized(p);
            && !q.line && q.master.irr == q.master.isr == q.master.imr == Clear() && q.master.pins == p.master.pins
            && q.master.base == 7 && q.master.autoEoi && !q.master.rotateOnAutoEoi && q.master.ocw3 == p.master.ocw3
  {
  }

  /** Inputs 0 and 1 raised, and an acknowledgement. */
  lemma AutomaticEnd(p: Pics)
    requires !p.line && p.master.irr == p.master.isr == p.master.imr == p.master.pins == Clear() && p.master.base == 7
    requires p.master.autoEoi && !p.master.rotateOnAutoEoi && !p.master.SpecialMask()
    ensures var r := Step(Step(Step(p, RaiseIrq(0)), RaiseIrq(1)), Interrupt);
            Eligible(r.master, 1) && !r.line
  {
  }

  /** On a master with automatic ends of interrupt, from power-on: input 1 waits with the line down. */
  lemma RequestLeftBehind(r: Pics)
    requires r == Step(Step(Step(Initialized(Initial()), RaiseIrq(0)), RaiseIrq(1)), Interrupt)
    ensures Eligible(r.master, 1) && Due(r) && !r.line
  {
    InitializedAutomatic(Initial());
    AutomaticEnd(Initialized(Initial()));
    ChoiceIsHighest(r.master);
  }

  /** From power-on: everything unmasked, input 1 in service, and input 3 requested behind it. */
  function Serving(): Pics {
    Step(Step(Step(Step(Initial(), Port(false, true, Clear())), RaiseIrq(1)), Interrupt), RaiseIrq(3))
  }

  lemma ServingOne(p: Pics)
    requires p == Serving()
    ensures !p.line && p.master.isr == Clear()[1 := true] && p.master.irr == Clear()[3 := true]
        && p.master.imr == Clear()
    ensures p.master.base == 0 && p.master.ocw3 == Clear()
  {
  }

  /** OCW3 = 0x68 turns special mask mode on, and OCW2 = 0xC1 makes input 1 the lowest: input 3 waits with the line
      down. */
  lemma CommandsLeaveBehind(p: Pics, special: Bits, order: Bits)
    requires p == Serving()
    requires special == Clear()[3 := true][5 := true][6 := true] && order == Clear()[0 := true][6 := true][7 := true]
    ensures var r := Step(p, Port(false, false, special)); Eligible(r.master, 3) && Due(r) && !r.line
    ensures var r := Step(p, Port(false, false, order)); Eligible(r.master, 3) && Due(r) && !r.line
  {
    ServingOne(p);
    ChoiceIsHighest(Step(p, Port(false, false, special)).master);
    ChoiceIsHighest(Step(p, Port(false, false, order)).master);
  }

  /** A run in which no step leaves a request behind. */
  predicate AttentiveRun(events: seq<Event>)
    requires forall e | e in events :: WellFormed(e)
  {
    events != [] ==>
      var front, last := events[..|events| - 1], events[|events| - 1];
      AttentiveRun(front) && !LeavesBehind(After(front), last)
  }

  /** Over every such run: whenever the master has something to send, the processor's line is up, and for the input of
      the highest priority. */
  lemma {:induction false} NoRequestWaits(events: seq<Event>)
    requires (forall e | e in events :: WellFormed(e)) && AttentiveRun(events)
    ensures Attended(After(events))
  {
    if events == [] {
      ChoiceIsHighest(Initial().master);
    } else {
      var front, last := events[..|events| - 1], events[|events| - 1];
      NoRequestWaits(front);
      LeftBehindExactly(After(front), last);
    }
  }

  // ---------- What the processor is told ----------

  /** An input leaves the requests of a controller by an acknowledgement. */
  predicate Leaves(c: Ctrl, d: Ctrl, i: Irq) {
    c.irr[i] && !d.irr[i]
  }

  /** The vector names the input whose request an acknowledgement takes: on the controller that it was raised at, the
      offset and the input. The slave is asked exactly if the master's input 2 is taken. If nothing is taken of the
      controller asked last, the vector is that of its input 7, and nothing enters service there. */
  lemma VectorNamesInput(p: Pics)
    ensures var (vector, q) := Acknowledge(p);
            && !q.line
            && (forall i: Irq :: Leaves(p.master, q.master, i) && i != 2 ==> vector == p.master.offset + i)
            && (forall i: Irq :: Leaves(p.slave, q.slave, i) ==>
                  vector == p.slave.offset + i && Leaves(p.master, q.master, 2))
            && (p.master.irr == q.master.irr ==> vector == p.master.offset + 7 && q == p.(line := false))
            && (Leaves(p.master, q.master, 2) && p.slave.irr == q.slave.irr ==>
                  vector == p.slave.offset + 7 && q.slave == p.slave)
  {
    TakenRequests(p.master);
    TakenRequests(p.slave);
  }

  lemma TakenRequests(c: Ctrl)
    ensures forall i: Irq :: Leaves(c, Taken(c), i) <==> i == c.toSend && c.irr[c.toSend]
    ensures Taken(c).irr == c.irr <==> !c.irr[c.toSend]
    ensures !c.irr[c.toSend] ==> Taken(c) == c && Vector(c) == c.offset + 7
    ensures c.irr[c.toSend] ==> Vector(c) == c.offset + c.toSend
  {
    if c.irr[c.toSend] { assert !Taken(c).irr[c.toSend]; }
  }

  /** At most one input of a controller leaves, and it enters service unless its end is automatic; nothing else changes
      but the order, which may rotate to it. */
  lemma OneLeaves(c: Ctrl, i: Irq)
    requires Leaves(c, Taken(c), i)
    ensures var d := Taken(c);
            && (forall j: Irq :: d.irr[j] <==> c.irr[j] && j != i)
            && (forall j: Irq :: d.isr[j] <==> c.isr[j] || (j == i && !c.autoEoi))
            && (if c.autoEoi && c.rotateOnAutoEoi then forall j: Irq :: Rank(d.base, j) <= Rank(d.base, i)
                else d.base == c.base)
            && d == c.(irr := d.irr, isr := d.isr, base := d.base)
  {
    assert i == c.toSend;
  }

  /** Over every run in which no step leaves a request behind, an acknowledgement takes the master's input of the
      highest priority of all that can be sent. */
  lemma HighestIsTaken(events: seq<Event>, i: Irq, j: Irq)
    requires (forall e | e in events :: WellFormed(e)) && AttentiveRun(events) && After(events).line
    requires Leaves(After(events).master, Acknowledge(After(events)).1.master, i)
    requires Eligible(After(events).master, j)
    ensures var c := After(events).master; Rank(c.base, i) <= Rank(c.base, j)
  {
    NoRequestWaits(events);
  }

  // ---------- The slave ----------

  /** While the slave asks through input 2, nothing that it could send beats what it asks for. */
  predicate SlaveAttended(p: Pics) {
    p.master.irr[2] ==> AsksForHighest(p.slave)
  }

  predicate AsksForHighest(c: Ctrl) {
    forall j: Irq :: Eligible(c, j) ==> !Beats(c, j)
  }

  predicate Beats(c: Ctrl, j: Irq) {
    Rank(c.base, j) < Rank(c.base, c.toSend)
  }

  /** The steps after which a request of the slave waits behind a lower one: commands at the slave, without an end of
      interrupt, that turn special mask mode on or set the priorities so that a request beats what the slave asks
      for. */
  predicate SlaveLeavesBehind(p: Pics, e: Event) {
    var c := p.slave;
    match e
    case Port(second, odd, data) =>
      second && !odd && !data[4] && p.master.irr[2] &&
      (if data[3] then
         !c.SpecialMask() && data[5] && data[6] && exists j: Irq :: Pending(c, j) && !c.isr[j] && Beats(c, j)
       else
         !data[5] && data[6] && data[7]
         && var d := c.(base := Low3(data));
            exists j: Irq :: Eligible(d, j) && Beats(d, j))
    case _ => false
  }

  lemma UpdateSlaveAsks(p: Pics)
    ensures AsksForHighest(UpdateSlave(p).slave)
  {
    UpdateLeaves(p, true);
    ChoiceAsks(p.slave);
    if Choice(p.slave) == -1 { assert UpdateSlave(p).slave == p.slave; }
  }

  lemma ChoiceAsks(c: Ctrl)
    ensures if Choice(c) == -1 then AsksForHighest(c) else AsksForHighest(c.(toSend := Choice(c)))
  {
    ChoiceIsHighest(c);
    if Choice(c) != -1 {
      var d := c.(toSend := Choice(c));
      forall j: Irq ensures Eligible(d, j) == Eligible(c, j) { SameEligible(c, d, j); }
    }
  }

  lemma ShrinkingAsks(c: Ctrl, d: Ctrl)
    requires AsksForHighest(c) && d.base == c.base && d.toSend == c.toSend
    requires forall j: Irq :: Eligible(d, j) ==> Eligible(c, j)
    ensures AsksForHighest(d)
  {
  }

  /** An initialization word at the slave. */
  lemma IcwAsks(c: Ctrl, id: int, data: Bits)
    requires AsksForHighest(c)
    ensures AsksForHighest(WriteIcw(c, id, data))
  {
    var d := WriteIcw(c, id, data);
    IcwParts(c, id, data);
    if id != 1 {
      forall j: Irq ensures Eligible(d, j) == Eligible(c, j) { SameEligible(c, d, j); }
      ShrinkingAsks(c, d);
    }
  }

  lemma Ocw3Asks(p: Pics, data: Bits)
    requires AsksForHighest(p.slave) && p.master.irr[2] && data[3] && !data[4]
    ensures AsksForHighest(Ocw3(p.slave, data)) <==> !SlaveLeavesBehind(p, Port(true, false, data))
  {
    var c, d := p.slave, Ocw3(p.slave, data);
    forall j: Irq
      ensures Eligible(d, j) <==> Pending(c, j) && if data[5] && data[6] then !c.isr[j] else Unblocked(c, j)
      ensures Beats(d, j) == Beats(c, j)
    {
      Ocw3Eligible(c, data, j);
    }
  }

  lemma OrderAsks(p: Pics, data: Bits)
    requires AsksForHighest(p.slave) && p.master.irr[2] && !data[3] && !data[4] && !data[5]
    ensures AsksForHighest(Ocw2(p.slave, data)) <==> !SlaveLeavesBehind(p, Port(true, false, data))
  {
    var c, d := p.slave, Ocw2(p.slave, data);
    var e := if data[6] && data[7] then c.(base := Low3(data)) else c;
    forall j: Irq ensures Eligible(d, j) == Eligible(e, j) && Beats(d, j) == Beats(e, j) { SameEligible(e, d, j); }
  }

  lemma SlaveWriteAsks(p: Pics, odd: bool, data: Bits)
    requires SlaveAttended(p)
    ensures SlaveAttended(Write(p, true, odd, data)) <==> !SlaveLeavesBehind(p, Port(true, odd, data))
  {
    if Updates(p.slave, odd, data) {
      UpdateSlaveAsks(With(p, true, Programmed(p.slave, odd, data)));
    } else if p.master.irr[2] {
      if odd { IcwAsks(p.slave, p.slave.icwIndex, data); }
      else if data[4] { }
      else if data[3] { Ocw3Asks(p, data); }
      else { OrderAsks(p, data); }
    }
  }

  /** What is written to the master raises no input of its own. */
  lemma MasterWriteAsks(p: Pics, odd: bool, data: Bits)
    ensures var q := Write(p, false, odd, data); q.slave == p.slave && (q.master.irr[2] ==> p.master.irr[2])
  {
    ProgrammedOnlyClears(p.master, odd, data);
  }

  lemma SlaveEdgeAsks(p: Pics, irq: Irq)
    requires SlaveAttended(p)
    ensures SlaveAttended(RaiseSlave(p, irq)) && SlaveAttended(LowerSlave(p, irq))
  {
    UpdateSlaveAsks(p.(slave := Raised(p.slave, irq)));
    if p.master.irr[2] {
      var d := Lowered(p.slave, irq);
      forall j: Irq | Eligible(d, j) ensures Eligible(p.slave, j) { }
      ShrinkingAsks(p.slave, d);
    }
  }

  lemma MasterEdgeAsks(p: Pics, irq: Irq)
    requires SlaveAttended(p) && irq != 2
    ensures SlaveAttended(RaiseMaster(p, irq)) && SlaveAttended(LowerMaster(p, irq))
  {
    UpdateMasterKeeps(p.(master := Raised(p.master, irq)));
  }

  lemma UpdateMasterKeeps(p: Pics)
    ensures UpdateMaster(p).master == p.master.(toSend := UpdateMaster(p).master.toSend)
    ensures UpdateMaster(p).slave == p.slave
  {
  }

  lemma EdgeAsks(p: Pics, e: Event)
    requires SlaveAttended(p) && WellFormed(e) && (e.RaiseIrq? || e.LowerIrq?)
    ensures SlaveAttended(Step(p, e))
  {
    if e.irq > 7 { SlaveEdgeAsks(p, e.irq - 8); } else { MasterEdgeAsks(p, e.irq); }
  }

  /** The exact condition for the slave, for every well-formed step and in every mode. */
  lemma SlaveLeftBehindExactly(p: Pics, e: Event)
    requires SlaveAttended(p) && WellFormed(e)
    ensures SlaveAttended(Step(p, e)) <==> !SlaveLeavesBehind(p, e)
  {
    match e
    case RaiseIrq(_) => EdgeAsks(p, e);
    case LowerIrq(_) => EdgeAsks(p, e);
    case Port(second, odd, data) => if second { SlaveWriteAsks(p, odd, data); } else { MasterWriteAsks(p, odd, data); }
    case Interrupt =>
  }

  /** From power-on: everything unmasked, and the slave's inputs 1 and 3 requested. */
  function SlaveAsking(): Pics {
    Step(Step(Step(Step(Initial(), Port(false, true, Clear())), Port(true, true, Clear())), RaiseIrq(9)), RaiseIrq(11))
  }

  lemma Unmasked(p: Pics)
    requires p == Step(Step(Initial(), Port(false, true, Clear())), Port(true, true, Clear()))
    ensures var c := Initial().master.(imr := Clear()); p == Pics(c, c, false)
  {
  }

  /** An edge at the slave's input i, none before it being requested and none in service. */
  lemma SlaveSends(p: Pics, i: Irq, first: Irq)
    requires p.slave.isr == p.slave.imr == p.slave.ocw3 == Clear() && p.slave.base == 0 && !p.slave.pins[i]
    requires 0 < first <= i && (first == i || p.slave.irr[first]) && forall j: Irq :: j < first ==> !p.slave.irr[j]
    ensures var q := Step(p, RaiseIrq(8 + i)); q.master.irr[2] && q.slave == Raised(p.slave, i).(toSend := first)
  {
    var c := Raised(p.slave, i);
    ChoiceIsHighest(c);
    assert forall j: Irq :: Rank(0, j) < Rank(0, first) ==> !c.irr[j];
    assert Eligible(c, first);
    UpdateLeaves(p.(slave := c), true);
  }

  lemma SlaveAsksForOne(p: Pics)
    requires p == SlaveAsking()
    ensures p.slave.irr == Clear()[1 := true][3 := true] && p.slave.isr == p.slave.imr == p.slave.ocw3 == Clear()
    ensures p.slave.toSend == 1 && p.master.irr[2] && !p.slave.autoEoi
  {
    var p2 := Step(Step(Initial(), Port(false, true, Clear())), Port(true, true, Clear()));
    Unmasked(p2);
    var p3 := Step(p2, RaiseIrq(9));
    SlaveSends(p2, 1, 1);
    SlaveSends(p3, 3, 1);
  }

  /** OCW2 = 0xC1 at the slave makes its input 1 the lowest, and input 3 comes first: input 1 is taken all the same. */
  lemma SlaveCommandLeavesBehind(p: Pics, order: Bits)
    requires p == SlaveAsking() && order == Clear()[0 := true][6 := true][7 := true]
    ensures var r := Step(p, Port(true, false, order));
            && r.master.irr[2] && Eligible(r.slave, 3) && Beats(r.slave, 3) && Leaves(r.slave, Taken(r.slave), 1)
  {
    SlaveAsksForOne(p);
    OneMadeLowest(p.slave, order);
    ThreeComesFirst(p.slave.(base := 1));
    assert Step(p, Port(true, false, order)) == p.(slave := p.slave.(base := 1));
  }

  lemma OneMadeLowest(c: Ctrl, order: Bits)
    requires order == Clear()[0 := true][6 := true][7 := true]
    ensures Programmed(c, false, order) == c.(base := 1) && !Updates(c, false, order)
  {
  }

  lemma ThreeComesFirst(c: Ctrl)
    requires c.irr == Clear()[1 := true][3 := true] && c.isr == c.imr == c.ocw3 == Clear() && c.base == c.toSend == 1
    ensures Eligible(c, 3) && Beats(c, 3) && Leaves(c, Taken(c), 1)
  {
    assert !Taken(c).irr[1];
  }

  predicate SlaveAttentiveRun(events: seq<Event>)
    requires forall e | e in events :: WellFormed(e)
  {
    events != [] ==>
      var front, last := events[..|events| - 1], events[|events| - 1];
      SlaveAttentiveRun(front) && !SlaveLeavesBehind(After(front), last)
  }

  lemma {:induction false} SlaveRun(events: seq<Event>)
    requires (forall e | e in events :: WellFormed(e)) && SlaveAttentiveRun(events)
    ensures SlaveAttended(After(events))
  {
    if events != [] {
      SlaveRun(events[..|events| - 1]);
      SlaveLeftBehindExactly(After(events[..|events| - 1]), events[|events| - 1]);
    }
  }

  /** Over every run without such commands, an acknowledgement takes the slave's input of the highest priority of all
      that can be sent. */
  lemma HighestOfSlaveIsTaken(events: seq<Event>, i: Irq, j: Irq)
    requires (forall e | e in events :: WellFormed(e)) && SlaveAttentiveRun(events)
    requires Leaves(After(events).slave, Acknowledge(After(events)).1.slave, i)
    requires Eligible(After(events).slave, j)
    ensures var c := After(events).slave; Rank(c.base, i) <= Rank(c.base, j)
  {
    SlaveRun(events);
  }

  // ---------- Inputs and commands ----------

  /** What raising and lowering an input makes of input i of its controller: only an edge is a request, and a request is
      withdrawn with its input. */
  predicate Edges(c: Ctrl, up: Ctrl, down: Ctrl, own: Irq, i: Irq) {
    && (up.irr[i] <==> c.irr[i] || (i == own && !c.pins[i]))
    && (up.pins[i] <==> c.pins[i] || i == own)
    && (down.irr[i] <==> c.irr[i] && i != own)
    && (down.pins[i] <==> c.pins[i] && i != own)
  }

  lemma MasterEdges(p: Pics, irq: Irq, i: Irq)
    ensures Edges(p.master, RaiseMaster(p, irq).master, LowerMaster(p, irq).master, irq, i)
    ensures RaiseMaster(p, irq).slave == p.slave
  {
    UpdateMasterKeeps(p.(master := Raised(p.master, irq)));
  }

  lemma SlaveEdges(p: Pics, irq: Irq, i: Irq)
    ensures Edges(p.slave, RaiseSlave(p, irq).slave, LowerSlave(p, irq).slave, irq, i)
    ensures i != 2 ==>
      RaiseSlave(p, irq).master.irr[i] == p.master.irr[i] == LowerSlave(p, irq).master.irr[i]
  {
    UpdateLeaves(p.(slave := Raised(p.slave, irq)), true);
    UpdateSlaveRequests(p.(slave := Raised(p.slave, irq)), i);
  }

  /** Only an edge makes a request: an input that was low is requested when it rises, one that was up stays as it was,
      and one that falls is withdrawn. Of the other requests only that of the master's input 2 may change. */
  lemma EdgesExactly(p: Pics, irq: int, i: Irq)
    requires 0 <= irq < 16
    ensures var second, own := irq > 7, if irq > 7 then irq - 8 else irq;
            var up, down := Raise(p, irq), Lower(p, irq);
            && Edges(Of(p, second), Of(up, second), Of(down, second), own, i)
            && (second && i != 2 ==> up.master.irr[i] == p.master.irr[i] == down.master.irr[i])
            && (!second ==> up.slave == p.slave == down.slave)
  {
    if irq > 7 { SlaveEdges(p, irq - 8, i); } else { MasterEdges(p, irq, i); }
  }

  lemma UpdateSlaveRequests(p: Pics, i: Irq)
    ensures i != 2 ==> UpdateSlave(p).master.irr[i] == p.master.irr[i]
  {
    if Choice(p.slave) != -1 {
      UpdateMasterKeeps(p.(slave := p.slave.(toSend := Choice(p.slave)),
                              master := Raised(Lowered(p.master, 2), 2)));
    }
  }

  lemma UpdateSlaveCascades(p: Pics)
    ensures var q := UpdateSlave(p);
            && (forall j: Irq :: Eligible(q.slave, j) == Eligible(p.slave, j))
            && (q.master.irr[2] <==> p.master.irr[2] || exists j: Irq :: Eligible(p.slave, j))
  {
    ChoiceIsHighest(p.slave);
    UpdateLeaves(p, true);
    forall j: Irq ensures Eligible(UpdateSlave(p).slave, j) == Eligible(p.slave, j) {
      SameEligible(p.slave, UpdateSlave(p).slave, j);
    }
  }

  /** The slave's requests reach the master's input 2: an edge at the slave that leaves it something to send raises it,
      and it falls with the slave's last request and not before. A mask and an end of interrupt at the slave ask
      again. */
  lemma CascadeFollows(p: Pics, irq: int, odd: bool, data: Bits)
    requires 8 <= irq < 16
    ensures var q := Raise(p, irq);
            q.master.irr[2] <==>
              p.master.irr[2] || (!p.slave.pins[irq - 8] && exists j: Irq :: Eligible(q.slave, j))
    ensures var q := Lower(p, irq);
            q.master.irr[2] <==> p.master.irr[2] && exists j: Irq :: q.slave.irr[j]
    ensures var q := Write(p, true, odd, data);
            Updates(p.slave, odd, data) ==>
              (q.master.irr[2] <==> p.master.irr[2] || exists j: Irq :: Eligible(q.slave, j))
  {
    UpdateSlaveCascades(p.(slave := Raised(p.slave, irq - 8)));
    UpdateSlaveCascades(p.(slave := Programmed(p.slave, odd, data)));
    var s := Lowered(p.slave, irq - 8);
    if forall j: Irq :: !s.irr[j] { assert s.irr == Clear(); }
  }

  lemma {:induction false} ClearHighestFrom(c: Ctrl, i: int, j: Irq)
    requires 0 <= i <= 8 && forall k: Irq :: Rank(c.base, k) < i ==> !c.isr[k]
    ensures ClearHighest(c, i).isr[j] <==> c.isr[j] && exists k: Irq :: c.isr[k] && Rank(c.base, k) < Rank(c.base, j)
    decreases 8 - i
  {
    if i < 8 {
      var irq := AtRank(c.base, i);
      RanksAreInverse(c.base, i);
      RanksAreInverse(c.base, j);
      forall k: Irq ensures AtRank(c.base, Rank(c.base, k)) == k { RanksAreInverse(c.base, k); }
      if !c.isr[irq] { ClearHighestFrom(c, i + 1, j); }
    }
  }

  /** An end of interrupt retires the service of the highest priority, or the one that it names, and no other: what
      stays is what another service outranks. With a rotation the input named becomes the lowest. */
  lemma EndsRetire(c: Ctrl, data: Bits, j: Irq)
    requires data[5]
    ensures var d := Ocw2(c, data);
            && (d.isr[j] <==>
                  && c.isr[j]
                  && if data[6] then j != Low3(data)
                     else exists k: Irq :: c.isr[k] && Rank(c.base, k) < Rank(c.base, j))
            && (if data[7] then Rank(d.base, j) <= Rank(d.base, Low3(data)) else d.base == c.base)
            && d.irr == c.irr && d.imr == c.imr
  {
    ClearHighestFrom(c, 0, j);
    Ocw2Parts(c, data);
    if !data[6] { ClearHighestBase(c, 0); }
  }

  /** OCW2 without an end of interrupt retires nothing. It makes an input the lowest, does nothing, or turns the
      rotation on automatic ends on or off. */
  lemma OrdersSet(c: Ctrl, data: Bits, i: Irq)
    requires !data[5]
    ensures var d := Ocw2(c, data);
            && d == c.(base := d.base, rotateOnAutoEoi := d.rotateOnAutoEoi)
            && (if data[6] && data[7] then Rank(d.base, i) <= Rank(d.base, Low3(data)) else d.base == c.base)
            && d.rotateOnAutoEoi == if data[6] then c.rotateOnAutoEoi else data[7]
  {
  }

  lemma {:induction false} ClearHighestBase(c: Ctrl, i: int)
    requires 0 <= i <= 8
    ensures ClearHighest(c, i) == c.(isr := ClearHighest(c, i).isr)
    decreases 8 - i
  {
    if i < 8 { ClearHighestBase(c, i + 1); }
  }

  /** The number of a byte. */
  function NumberOf(data: Bits): int {
    (if data[0] then 1 else 0) + (if data[1] then 2 else 0) + (if data[2] then 4 else 0) + (if data[3] then 8 else 0)
    + (if data[4] then 16 else 0) + (if data[5] then 32 else 0) + (if data[6] then 64 else 0)
    + (if data[7] then 128 else 0)
  }

  /** A command names an input by its three low bits; the vector offset is a multiple of 8. */
  lemma CommandFields(data: Bits)
    ensures Low3(data) == NumberOf(data) % 8 && High5(data) == NumberOf(data) - NumberOf(data) % 8
  {
    assert NumberOf(data) == Low3(data) + High5(data);
  }

  /** The words of an initialization, of which the first tells whether there are a third and a fourth. */
  function Initialize(c: Ctrl, w1: Bits, w2: Bits, w3: Bits, w4: Bits): Ctrl {
    var d2 := Programmed(Programmed(c, false, w1), true, w2);
    var d3 := if w1[1] then d2 else Programmed(d2, true, w3);
    if w1[0] then Programmed(d3, true, w4) else d3
  }

  /** They leave an idle controller with nothing masked and input 0 the highest, whose vectors start at the second
      word's upper five bits, and whose ends are automatic exactly if a fourth word says so. The next word is a mask. */
  lemma InitializationLeaves(c: Ctrl, w1: Bits, w2: Bits, w3: Bits, w4: Bits, mask: Bits)
    requires w1[4]
    ensures var d := Initialize(c, w1, w2, w3, w4);
            && d.irr == d.isr == d.imr == Clear() && d.offset == NumberOf(w2) - NumberOf(w2) % 8
            && (forall i: Irq :: Rank(d.base, i) == i)
            && d.autoEoi == (w1[0] && w4[1]) && !d.rotateOnAutoEoi
            && Programmed(d, true, mask) == d.(imr := mask)
  {
    CommandFields(w2);
    var d1 := Programmed(c, false, w1);
    assert d1.initializing && d1.icwIndex == 2 && d1.icw1 == w1;
    var d2 := Programmed(d1, true, w2);
    assert d2.offset == High5(w2) && d2.icwIndex == if w1[1] then (if w1[0] then 4 else 5) else 3;
  }

  // ---------- The two chips ----------

  lemma {:induction false} ScanNeedsPending(c: Ctrl, i: int)
    requires 0 <= i <= 8 && forall j: Irq :: !Pending(c, j)
    ensures Scan(c, i) == -1
    decreases 8 - i
  {
    if i < 8 { ScanNeedsPending(c, i + 1); }
  }

  lemma NothingUnmasked(c: Ctrl, unmasked: Bits)
    requires forall i: Irq :: unmasked[i] == Pending(c, i)
    ensures unmasked == Clear() ==> Choice(c) == -1
  {
    if unmasked == Clear() {
      forall j: Irq ensures !Pending(c, j) { assert !unmasked[j]; }
      ScanNeedsPending(c, 0);
    }
  }

  class Pair {
    const ctrl: array<Ctrl>
    var line: bool

    ghost predicate Valid() {
      ctrl.Length == 2
    }

    function View(): Pics
      requires Valid()
      reads this, ctrl
    {
      Pics(ctrl[0], ctrl[1], line)
    }

    constructor ()
      ensures Valid() && fresh(ctrl) && View() == Initial()
    {
      ctrl := new Ctrl[2](_ => Initial().master);
      line := false;
    }

    method InternalUpdate(k: int)
      requires Valid() && 0 <= k < 2
      modifies this, ctrl
      ensures View() == Update(old(View()), k == 1)
      decreases k, 0
    {
      var c := ctrl[k];
      var unmasked: Bits := seq(8, i requires 0 <= i < 8 => c.irr[i] && !c.imr[i]);
      NothingUnmasked(c, unmasked);
      if unmasked == Clear() { return; }
      var pending := Rol(unmasked, c.base);
      var isr := Rol(c.isr, c.base);
      var i := 0;
      while i < 8
        invariant 0 <= i <= 8 && Choice(c) == Scan(c, i) && View() == old(View())
      {
        RolOrders(unmasked, c.base, i);
        RolOrders(c.isr, c.base, i);
        if !c.SpecialMask() && isr[i] { return; }
        if pending[i] && !isr[i] {
          Signal(k, AtRank(c.base, i));
          return;
        }
        i := i + 1;
      }
    }

    /** The input to send goes on: from the master to the processor, from the slave to the master's input 2. */
    method Signal(k: int, irq: Irq)
      requires Valid() && 0 <= k < 2 && Choice(ctrl[k]) == irq
      modifies this, ctrl
      ensures View() == Update(old(View()), k == 1)
      decreases k, -1
    {
      ctrl[k] := ctrl[k].(toSend := irq);
      if k == 0 {
        line := true;
      } else {
        LowerIrq(2);
        RaiseIrq(2);
      }
    }

    method InternalRaiseIrq(k: int, irq: Irq)
      requires Valid() && 0 <= k < 2
      modifies this, ctrl
      ensures View() == if k == 1 then RaiseSlave(old(View()), irq) else RaiseMaster(old(View()), irq)
      decreases k, 1
    {
      if !ctrl[k].pins[irq] {
        ctrl[k] := ctrl[k].(pins := ctrl[k].pins[irq := true], irr := ctrl[k].irr[irq := true]);
        InternalUpdate(k);
      }
    }

    method InternalLowerIrq(k: int, irq: Irq)
      requires Valid() && 0 <= k < 2
      modifies ctrl
      ensures View() == if k == 1 then LowerSlave(old(View()), irq) else LowerMaster(old(View()), irq)
      decreases k, 1
    {
      ctrl[k] := ctrl[k].(irr := ctrl[k].irr[irq := false], pins := ctrl[k].pins[irq := false]);
      if k == 1 && ctrl[k].irr == Clear() { LowerIrq(2); }
    }

    method RaiseIrq(a: int)
      requires Valid() && 0 <= a < 16
      modifies this, ctrl
      ensures View() == Raise(old(View()), a)
      decreases if a > 7 then 1 else 0, 2
    {
      if a > 7 {
        InternalRaiseIrq(1, a - 8);
      } else {
        InternalRaiseIrq(0, a);
      }
    }

    method LowerIrq(a: int)
      requires Valid() && 0 <= a < 16
      modifies ctrl
      ensures View() == Lower(old(View()), a)
      decreases if a > 7 then 1 else 0, 2
    {
      if a > 7 {
        InternalLowerIrq(1, a - 8);
      } else {
        InternalLowerIrq(0, a);
      }
    }

    method InternalGetInterrupt(k: int) returns (vector: int)
      requires Valid() && 0 <= k < 2
      modifies ctrl
      ensures vector == if k == 0 && Cascades(old(View())) then Vector(old(ctrl[1])) else Vector(old(ctrl[k]))
      ensures ctrl[k] == Taken(old(ctrl[k]))
      ensures ctrl[1 - k] == if k == 0 && Cascades(old(View())) then Taken(old(ctrl[1])) else old(ctrl[1 - k])
      decreases 1 - k
    {
      var c := ctrl[k];
      var irq := c.toSend;
      if !c.irr[irq] { return c.offset + 7; }
      ctrl[k] := c.(irr := c.irr[irq := false]);
      if c.autoEoi {
        if c.rotateOnAutoEoi { ctrl[k] := ctrl[k].(base := irq); }
      } else {
        ctrl[k] := ctrl[k].(isr := c.isr[irq := true]);
      }
      if k == 0 && irq == 2 {
        vector := InternalGetInterrupt(1);
      } else {
        vector := c.offset + irq;
      }
    }

    /** The branch of pic_get_interrupt that the APIC does not take. */
    method GetInterrupt() returns (vector: int)
      requires Valid()
      modifies this, ctrl
      ensures (vector, View()) == Acknowledge(old(View()))
    {
      line := false;
      vector := InternalGetInterrupt(0);
    }

    method ClearHighestPriority(k: int)
      requires Valid() && 0 <= k < 2
      modifies ctrl
      ensures ctrl[k] == ClearHighest(old(ctrl[k]), 0) && ctrl[1 - k] == old(ctrl[1 - k])
    {
      var c := ctrl[k];
      for i := 0 to 8
        invariant ctrl[k] == c && ctrl[1 - k] == old(ctrl[1 - k]) && ClearHighest(c, 0) == ClearHighest(c, i)
      {
        var irq := AtRank(c.base, i);
        if c.isr[irq] {
          ctrl[k] := c.(isr := c.isr[irq := false]);
          return;
        }
      }
    }

    method WriteOcw2(k: int, data: Bits)
      requires Valid() && 0 <= k < 2
      modifies this, ctrl
      ensures var q := With(old(View()), k == 1, Ocw2(old(ctrl[k]), data));
              View() == if data[5] then Update(q, k == 1) else q
    {
      var l := Low3(data);
      if data[5] {
        if data[6] { ctrl[k] := ctrl[k].(isr := ctrl[k].isr[l := false]); } else { ClearHighestPriority(k); }
        if data[7] { ctrl[k] := ctrl[k].(base := l); }
        InternalUpdate(k);
      } else if data[6] {
        if data[7] { ctrl[k] := ctrl[k].(base := l); }
      } else {
        ctrl[k] := ctrl[k].(rotateOnAutoEoi := data[7]);
      }
    }

    /** pic_writeb. */
    method WriteByte(k: int, odd: bool, data: Bits)
      requires Valid() && 0 <= k < 2
      modifies this, ctrl
      ensures View() == Write(old(View()), k == 1, odd, data)
    {
      if !odd {
        if data[4] {
          ctrl[k] := Restarted(ctrl[k], data);
          line := false;
        } else if data[3] {
          ctrl[k] := Ocw3(ctrl[k], data);
        } else {
          WriteOcw2(k, data);
        }
      } else if ctrl[k].initializing {
        ctrl[k] := WriteIcw(ctrl[k], ctrl[k].icwIndex, data);
      } else {
        ctrl[k] := ctrl[k].(imr := data);
        InternalUpdate(k);
      }
    }
  }
}
