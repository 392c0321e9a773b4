/**
 The output side of the keyboard controller of src/kbd.cpp: two ring buffers, one for the keyboard and one for the
 mouse, and a latch that the program reads.
 */
module Kbd {

  const RING := 256

  // ---------- Ring buffers ----------

  /** The next place: one more, modulo 256. */
  function Succ(p: int): (q: int)
    requires 0 <= p < RING
    ensures 0 <= q < RING
  {
    if p == RING - 1 then 0 else p + 1
  }

  /** Places from r up to w. */
  function Distance(r: int, w: int): int {
    if w >= r then w - r else w - r + RING
  }

  /** The items of a ring from place r up to place w, in order. */
  function Between(data: seq<int>, r: int, w: int): (s: seq<int>)
    requires |data| == RING && 0 <= r < RING && 0 <= w < RING
    ensures |s| == Distance(r, w)
    decreases Distance(r, w)
  {
    if r == w then [] else [data[r]] + Between(data, Succ(r), w)
  }

  lemma {:induction false} BetweenAppend(data: seq<int>, r: int, w: int, x: int)
    requires |data| == RING && 0 <= r < RING && 0 <= w < RING && Distance(r, w) != RING - 1
    ensures Between(data[w := x], r, Succ(w)) == Between(data, r, w) + [x]
    decreases Distance(r, w)
  {
    if r == w {
      assert Between(data[w := x], Succ(r), Succ(w)) == [];
    } else {
      BetweenAppend(data, Succ(r), w, x);
    }
  }

  /** struct kbd_queue. */
  class Queue {
    const data: array<int>
    var readPos: int
    var writePos: int

    ghost predicate Valid()
      reads this
    {
      data.Length == RING && 0 <= readPos < RING && 0 <= writePos < RING
    }

    ghost function Items(): seq<int>
      requires Valid()
      reads this, data
    {
      Between(data[..], readPos, writePos)
    }

    constructor ()
      ensures Valid() && fresh(data) && Items() == []
    {
      data := new int[RING](_ => 0);
      readPos, writePos := 0, 0;
    }

    /** kbd_queue_add: it appends exactly if the ring holds fewer than 255 items; the 256th byte makes it empty. */
    method Add(x: int)
      requires Valid()
      modifies this, data
      ensures Valid() && Items() == Pushed(old(Items()), x)
    {
      if Distance(readPos, writePos) != RING - 1 { BetweenAppend(data[..], readPos, writePos, x); }
      data[writePos] := x;
      assert data[..] == old(data[..])[old(writePos) := x];
      writePos := Succ(writePos);
    }

    /** kbd_queue_has. */
    method Has() returns (b: bool)
      requires Valid()
      ensures b == (Items() != [])
    {
      b := readPos != writePos;
    }

    /** kbd_queue_get. */
    method Get() returns (x: int)
      requires Valid() && Items() != []
      modifies this
      ensures Valid() && old(Items()) == [x] + Items()
    {
      x := data[readPos];
      readPos := Succ(readPos);
    }

    /** kbd_queue_clear. */
    method Clear()
      requires Valid()
      modifies this
      ensures Valid() && Items() == []
    {
      readPos, writePos := 0, 0;
    }
  }

  // ---------- The controller ----------

  datatype Source = Keyboard | Mouse

  /** The queues, the latch with the queue that it was filled from, and the status bits OFULL and AUX. */
  datatype Kb = Kb(keys: seq<int>, mouse: seq<int>, latch: int, from: Source, unread: bool, full: bool, aux: bool)

  function Reset(): Kb {
    Kb([], [], 0, Keyboard, false, false, false)
  }

  /** kbd_raise_irq, as far as the status goes. */
  function Raise(k: Kb, aux: bool): Kb {
    k.(full := true, aux := aux)
  }

  /** kbd_refill_output: an unread latch stays, and the status tells of the next queue that has something. */
  function Refill(k: Kb): Kb {
    if k.unread then
      if k.keys != [] then Raise(k, false) else if k.mouse != [] then Raise(k, true) else k
    else if k.keys != [] then
      Raise(k.(latch := k.keys[0], from := Keyboard, unread := true, keys := k.keys[1..]), false)
    else if k.mouse != [] then
      Raise(k.(latch := k.mouse[0], from := Mouse, unread := true, mouse := k.mouse[1..]), true)
    else k
  }

  predicate Room(k: Kb, q: Source) {
    (if q == Keyboard then |k.keys| else |k.mouse|) < RING - 1
  }

  /** A queue after an addition: a full one comes out empty. */
  function Pushed(s: seq<int>, x: int): seq<int> {
    if |s| < RING - 1 then s + [x] else []
  }

  /** kbd_add. */
  function Add(k: Kb, q: Source, x: int): Kb {
    Refill(if q == Keyboard then k.(keys := Pushed(k.keys, x)) else k.(mouse := Pushed(k.mouse, x)))
  }

  /** kbd_read of the data port: the latch, read or not, and the controller after it. */
  function Read(k: Kb): (int, Kb) {
    (k.latch, Refill(k.(full := false, aux := false, unread := false)))
  }

  /** The commands that enable a port: a refill, and the status as if the latch held a byte of that port. */
  function Enable(k: Kb, q: Source): Kb {
    var r := Refill(k);
    if r.unread then Raise(r, q == Mouse) else r
  }

  datatype Event = Put(queue: Source, byte: int) | Take | EnablePort(port: Source) | Update

  /** A run: the controller, what was added to each queue, and what the program has read with OFULL set. */
  datatype Run = Run(k: Kb, addedKeys: seq<int>, addedMouse: seq<int>, gotKeys: seq<int>, gotMouse: seq<int>)

  predicate HasRoom(r: Run, e: Event) {
    e.Put? ==> Room(r.k, e.queue)
  }

  function Step(r: Run, e: Event): Run {
    match e
    case Put(Keyboard, x) => r.(k := Add(r.k, Keyboard, x), addedKeys := r.addedKeys + [x])
    case Put(Mouse, x) => r.(k := Add(r.k, Mouse, x), addedMouse := r.addedMouse + [x])
    case Take =>
      var (x, k) := Read(r.k);
      if !r.k.full then r.(k := k)
      else if r.k.from == Keyboard then r.(k := k, gotKeys := r.gotKeys + [x])
      else r.(k := k, gotMouse := r.gotMouse + [x])
    case EnablePort(q) => r.(k := Enable(r.k, q))
    case Update => r.(k := Refill(r.k))
  }

  /** OFULL tells of an unread latch, and a latch that has been read leaves both queues empty. */
  predicate Sound(k: Kb) {
    k.full == k.unread && (!k.unread ==> k.keys == [] && k.mouse == [])
  }

  /** The byte in the latch, if it is unread and of queue q. */
  function Latched(k: Kb, q: Source): seq<int> {
    if k.unread && k.from == q then [k.latch] else []
  }

  /** Each byte added to a queue has been read, is in the latch, or is still queued, in this order. */
  predicate Conserves(r: Run) {
    && r.addedKeys == r.gotKeys + Latched(r.k, Keyboard) + r.k.keys
    && r.addedMouse == r.gotMouse + Latched(r.k, Mouse) + r.k.mouse
  }

  lemma RefillKeeps(k: Kb)
    requires k.full == k.unread
    ensures Sound(Refill(k))
    ensures Latched(Refill(k), Keyboard) + Refill(k).keys == Latched(k, Keyboard) + k.keys
    ensures Latched(Refill(k), Mouse) + Refill(k).mouse == Latched(k, Mouse) + k.mouse
  {
  }

  lemma Joined(got: seq<int>, a: seq<int>, b: seq<int>, c: seq<int>, d: seq<int>)
    requires a + b == c + d
    ensures got + a + b == got + c + d
  {
    assert got + (a + b) == got + a + b && got + (c + d) == got + c + d;
  }

  lemma RefillConserves(r: Run)
    requires r.k.full == r.k.unread && Conserves(r)
    ensures Sound(Refill(r.k)) && Conserves(r.(k := Refill(r.k)))
  {
    RefillKeeps(r.k);
    Joined(r.gotKeys, Latched(Refill(r.k), Keyboard), Refill(r.k).keys, Latched(r.k, Keyboard), r.k.keys);
    Joined(r.gotMouse, Latched(Refill(r.k), Mouse), Refill(r.k).mouse, Latched(r.k, Mouse), r.k.mouse);
  }

  lemma StepConserves(r: Run, e: Event)
    requires Sound(r.k) && Conserves(r) && HasRoom(r, e)
    ensures Sound(Step(r, e).k) && Conserves(Step(r, e))
  {
    match e
    case Put(Keyboard, x) =>
      var k := r.k.(keys := r.k.keys + [x]);
      assert r.gotKeys + Latched(r.k, Keyboard) + (r.k.keys + [x])
          == r.gotKeys + Latched(r.k, Keyboard) + r.k.keys + [x];
      RefillConserves(r.(k := k, addedKeys := r.addedKeys + [x]));
    case Put(Mouse, x) =>
      var k := r.k.(mouse := r.k.mouse + [x]);
      assert r.gotMouse + Latched(r.k, Mouse) + (r.k.mouse + [x]) == r.gotMouse + Latched(r.k, Mouse) + r.k.mouse + [x];
      RefillConserves(r.(k := k, addedMouse := r.addedMouse + [x]));
    case Take =>
      var k := r.k.(full := false, aux := false, unread := false);
      var x := r.k.latch;
      assert r.gotKeys + [x] + [] == r.gotKeys + [x] && r.gotMouse + [x] + [] == r.gotMouse + [x];
      assert r.gotKeys + [] == r.gotKeys && r.gotMouse + [] == r.gotMouse;
      if !r.k.full { RefillConserves(r.(k := k)); }
      else if r.k.from == Keyboard { RefillConserves(r.(k := k, gotKeys := r.gotKeys + [x])); }
      else { RefillConserves(r.(k := k, gotMouse := r.gotMouse + [x])); }
    case EnablePort(_) => RefillConserves(r);
    case Update => RefillConserves(r);
  }

  /** An addition keeps all bytes exactly if its queue has room: a queue of 255 bytes loses them all, and the new
      one. */
  lemma AdditionKeepsExactly(r: Run, q: Source, x: int)
    requires Sound(r.k) && Conserves(r)
    ensures Conserves(Step(r, Put(q, x))) <==> Room(r.k, q)
  {
    if Room(r.k, q) {
      StepConserves(r, Put(q, x));
    } else {
      var s := Step(r, Put(q, x));
      if q == Keyboard {
        assert |s.addedKeys| > |s.gotKeys + Latched(s.k, Keyboard) + s.k.keys|;
      } else {
        assert |s.addedMouse| > |s.gotMouse + Latched(s.k, Mouse) + s.k.mouse|;
      }
    }
  }

  /** n keys added and none read: one is in the latch. */
  function Keys(n: nat): Run {
    if n == 0 then Run(Reset(), [], [], [], []) else Step(Keys(n - 1), Put(Keyboard, n))
  }

  lemma {:induction false} KeysQueued(n: nat)
    requires 0 < n <= RING
    ensures var r := Keys(n);
            Sound(r.k) && Conserves(r) && |r.k.keys| == n - 1 && r.k.unread && r.gotKeys == []
  {
    if n > 1 { KeysQueued(n - 1); }
    StepConserves(Keys(n - 1), Put(Keyboard, n));
  }

  /** With 256 keys unread, one more loses all but the one in the latch. */
  lemma QueueOverruns()
    ensures Keys(RING + 1).k.keys == [] && Keys(RING + 1).gotKeys == [] && !Conserves(Keys(RING + 1))
  {
    KeysQueued(RING);
    AdditionKeepsExactly(Keys(RING), Keyboard, RING + 1);
  }

  /** Keys come before mouse bytes. An unread latch stays until it is read; then it takes the oldest key, or the oldest
      mouse byte if no key is queued, and nothing if both queues are empty. */
  lemma KeysComeFirst(r: Run, e: Event)
    requires Sound(r.k)
    ensures var k, s := r.k, Step(r, e).k;
            var keys := k.keys + if e.Put? && e.queue == Keyboard then [e.byte] else [];
            var mouse := k.mouse + if e.Put? && e.queue == Mouse then [e.byte] else [];
            if k.unread && !e.Take? then s.unread && s.latch == k.latch && s.from == k.from
            else if keys != [] then
              s.unread && s.from == Keyboard && [s.latch] + s.keys == keys && s.mouse == mouse
            else if mouse != [] then
              s.unread && s.from == Mouse && [s.latch] + s.mouse == mouse && s.keys == []
            else !s.unread && s.keys == s.mouse == []
  {
  }

  /** A run from a reset, none of whose additions overflows its queue. */
  predicate Fits(events: seq<Event>) {
    events != [] ==>
      Fits(events[..|events| - 1]) && HasRoom(After(events[..|events| - 1]), events[|events| - 1])
  }

  function After(events: seq<Event>): Run {
    if events == [] then Run(Reset(), [], [], [], []) else Step(After(events[..|events| - 1]), events[|events| - 1])
  }

  /** Between resets the program reads, of each queue, exactly the bytes that were added, in order, none lost or
      repeated; OFULL is set exactly while the latch is unread, and then only may the queues hold anything. */
  lemma {:induction false} FirstInFirstOut(events: seq<Event>)
    requires Fits(events)
    ensures Sound(After(events).k) && Conserves(After(events))
    ensures After(events).gotKeys <= After(events).addedKeys && After(events).gotMouse <= After(events).addedMouse
    ensures !After(events).k.full
            ==> After(events).gotKeys == After(events).addedKeys && After(events).gotMouse == After(events).addedMouse
  {
    if events != [] {
      FirstInFirstOut(events[..|events| - 1]);
      StepConserves(After(events[..|events| - 1]), events[|events| - 1]);
    }
    Prefixes(After(events).gotKeys, Latched(After(events).k, Keyboard), After(events).k.keys);
    Prefixes(After(events).gotMouse, Latched(After(events).k, Mouse), After(events).k.mouse);
  }

  lemma Prefixes(a: seq<int>, b: seq<int>, c: seq<int>)
    ensures a <= a + b + c
    ensures b == [] && c == [] ==> a + b + c == a
  {
  }

  // ---------- The AUX bit ----------

  /** AUX tells the source of the latched byte. */
  predicate Truthful(k: Kb) {
    k.full ==> k.aux == (k.from == Mouse)
  }

  /** A refill with an unread latch sets AUX for the next queued byte, not for the latched one: it leaves the bit right
      exactly if these come from the same source, or nothing is queued and the bit was right. */
  lemma RefillTruthful(k: Kb)
    requires Sound(k)
    ensures Truthful(Refill(k)) <==>
      if k.unread && k.keys != [] then k.from == Keyboard
      else if k.unread && k.mouse != [] then k.from == Mouse
      else Truthful(k)
  {
  }

  /** An addition: AUX is right afterwards exactly if the latch is read, or holds a key where keys are queued then, or a
      mouse byte where only mouse bytes are; if the addition has emptied the one queue and the other is empty, AUX stays
      as it was. */
  lemma AddTruthful(k: Kb, q: Source, x: int)
    requires Sound(k)
    ensures Truthful(Add(k, q, x)) <==>
      if !k.unread then true
      else if (if q == Keyboard then Room(k, q) else k.keys != []) then k.from == Keyboard
      else if (if q == Mouse then Room(k, q) else k.mouse != []) then k.from == Mouse
      else Truthful(k)
  {
  }

  /** Enabling a port sets AUX for that port whatever the latch holds: the bit is right afterwards exactly if the latch
      is read or holds a byte of the same port. */
  lemma EnableTruthful(k: Kb, q: Source)
    requires Sound(k)
    ensures Truthful(Enable(k, q)) <==> !k.unread || k.from == q
  {
  }

  /** A key in the latch and a mouse byte behind it, or the keyboard enabled behind a mouse byte: AUX is wrong. */
  lemma WrongAux(x: int, y: int)
    ensures !Truthful(Step(After([Put(Keyboard, x)]), Put(Mouse, y)).k)
    ensures !Truthful(Step(After([Put(Mouse, x)]), EnablePort(Keyboard)).k)
  {
    AfterOne(Put(Keyboard, x));
    AfterOne(Put(Mouse, x));
  }

  lemma AfterOne(e: Event)
    ensures After([e]) == Step(Run(Reset(), [], [], [], []), e)
  {
    assert [e][..0] == [];
  }

  /** Reading the data port always leaves AUX right: the latch is filled anew. */
  lemma ReadTruthful(k: Kb)
    requires Sound(k)
    ensures Truthful(Read(k).1)
  {
  }

  // ---------- The chip ----------

  class Controller {
    const keys: Queue
    const mouse: Queue
    var data: int
    /** The queue that data was taken from. */
    ghost var from: Source
    var dataHasBeenRead: bool
    var ofull: bool
    var aux: bool

    ghost predicate Valid()
      reads this, keys, mouse
    {
      keys.Valid() && mouse.Valid() && keys != mouse && keys.data != mouse.data
    }

    ghost function View(): Kb
      requires Valid()
      reads this, keys, keys.data, mouse, mouse.data
    {
      Kb(keys.Items(), mouse.Items(), data, from, !dataHasBeenRead, ofull, aux)
    }

    /** kbd_reset on a fresh controller. */
    constructor ()
      ensures Valid() && fresh(keys) && fresh(mouse) && fresh(keys.data) && fresh(mouse.data) && View() == Reset()
    {
      keys := new Queue();
      mouse := new Queue();
      data, from := 0, Keyboard;
      dataHasBeenRead, ofull, aux := true, false, false;
    }

    method RaiseIrq(isAux: bool)
      requires Valid()
      modifies `ofull, `aux
      ensures Valid() && View() == Raise(old(View()), isAux)
    {
      ofull, aux := true, isAux;
    }

    method RefillOutput()
      requires Valid()
      modifies this, keys, mouse
      ensures Valid() && View() == Refill(old(View()))
    {
      var hasKeys := keys.Has();
      var hasMouse := mouse.Has();
      if !dataHasBeenRead {
        if hasKeys { RaiseIrq(false); } else if hasMouse { RaiseIrq(true); }
      } else if hasKeys {
        dataHasBeenRead := false;
        data := keys.Get();
        from := Keyboard;
        RaiseIrq(false);
      } else if hasMouse {
        dataHasBeenRead := false;
        data := mouse.Get();
        from := Mouse;
        RaiseIrq(true);
      }
    }

    /** kbd_add. */
    method AddByte(q: Source, x: int)
      requires Valid()
      modifies this, keys, mouse, keys.data, mouse.data
      ensures Valid() && View() == Add(old(View()), q, x)
    {
      if q == Keyboard { keys.Add(x); } else { mouse.Add(x); }
      RefillOutput();
    }

    /** kbd_read of port 0x60. */
    method ReadData() returns (x: int)
      requires Valid()
      modifies this, keys, mouse
      ensures Valid() && (x, View()) == Read(old(View()))
    {
      ofull, aux := false, false;
      x := data;
      dataHasBeenRead := true;
      RefillOutput();
    }

    /** Commands 0xA8 and 0xAE. */
    method EnableCommand(q: Source)
      requires Valid()
      modifies this, keys, mouse
      ensures Valid() && View() == Enable(old(View()), q)
    {
      RefillOutput();
      if !dataHasBeenRead { RaiseIrq(q == Mouse); }
    }
  }
}
