/**
 The save-state format of src/state.cpp: nested objects of named byte strings, written to a growing stream and parsed
 back.
 */
module State {

  /** Bytes are integers from 0 to 255. */
  type Bytes = seq<int>

  datatype Option<T> = None | Some(value: T)

  const TYPE_DATA := 0
  const TYPE_OBJECT := 1

  /** struct bjson_key_value. A free slot has no key. */
  datatype Slot = Free | Used(key: Bytes, value: Value)

  /** Any type byte other than that of objects is followed by data. */
  datatype Value = Data(kind: int, bytes: Bytes) | Child(child: Object)

  datatype Object = Object(slots: seq<Slot>)

  /** The slots in use, counted over all of them. */
  function Count(slots: seq<Slot>): (n: nat)
    ensures n <= |slots|
  {
    if slots == [] then 0 else Count(slots[..|slots| - 1]) + if slots[|slots| - 1].Used? then 1 else 0
  }

  function Filled(o: Object): (n: nat)
    ensures n <= |o.slots|
  {
    Count(o.slots)
  }

  predicate IsByte(b: int) {
    0 <= b < 256
  }

  predicate ValidKey(key: Bytes) {
    forall i | 0 <= i < |key| :: 0 < key[i] < 256
  }

  /** The keys fill a prefix, names contain no NUL, and lengths fit their fields. */
  predicate ValidObject(o: Object) {
    && |o.slots| < 256
    && (forall i | 0 <= i < |o.slots| :: o.slots[i].Used? <==> i < Filled(o))
    && (forall i | 0 <= i < |o.slots| && o.slots[i].Used? :: ValidKey(o.slots[i].key) && ValidValue(o.slots[i].value))
  }

  predicate ValidValue(v: Value) {
    match v
    case Data(kind, bytes) => IsByte(kind) && kind != TYPE_OBJECT && |bytes| < 0x1_0000_0000
    case Child(c) => ValidObject(c)
  }

  // ---------- Numbers ----------

  /** write32. */
  function Le32(n: int): Bytes {
    [n % 256, n / 256 % 256, n / 0x1_0000 % 256, n / 0x100_0000 % 256]
  }

  /** read32. */
  function FromLe32(r: Bytes): int
    requires |r| >= 4
  {
    r[0] + 0x100 * r[1] + 0x1_0000 * r[2] + 0x100_0000 * r[3]
  }

  lemma Le32RoundTrip(n: int, suffix: Bytes)
    requires 0 <= n < 0x1_0000_0000
    ensures FromLe32(Le32(n) + suffix) == n
  {
    var a := n / 256;
    var b := a / 256;
    assert b == n / 0x1_0000;
    var c := b / 256;
    assert c == n / 0x100_0000 && 0 <= c < 256;
    assert n == n % 256 + 256 * (a % 256) + 0x1_0000 * (b % 256) + 0x100_0000 * c;
  }

  // ---------- Writing ----------

  /** bjson_serialize. */
  function Write(o: Object): Bytes
    requires ValidObject(o)
    decreases o, |o.slots| + 1
  {
    [TYPE_OBJECT, Filled(o)] + WriteFrom(o, 0)
  }

  /** Its loop, from slot i on. */
  function WriteFrom(o: Object, i: nat): Bytes
    requires ValidObject(o) && i <= Filled(o)
    decreases o, |o.slots| - i
  {
    if i == Filled(o) then []
    else o.slots[i].key + [0] + WriteValue(o.slots[i].value) + WriteFrom(o, i + 1)
  }

  function WriteValue(v: Value): Bytes
    requires ValidValue(v)
    decreases v, 0
  {
    match v
    case Data(kind, bytes) => [kind] + Le32(|bytes|) + bytes
    case Child(c) => Write(c)
  }

  /** The four bytes of a number, the lowest first. */
  lemma Le32Digits(n: int)
    requires 0 <= n < 0x1_0000_0000
    ensures var b := Le32(n);
            && |b| == 4 && IsByte(b[0]) && IsByte(b[1]) && IsByte(b[2]) && IsByte(b[3])
            && n == b[0] + 0x100 * (b[1] + 0x100 * (b[2] + 0x100 * b[3]))
  {
    Le32RoundTrip(n, []);
    assert Le32(n) + [] == Le32(n);
  }

  /** Where slot i starts in the bytes of an object. */
  function Start(o: Object, i: nat): int
    requires ValidObject(o) && i <= Filled(o)
  {
    |Write(o)| - |WriteFrom(o, i)|
  }

  lemma {:induction false} StartsThere(o: Object, i: nat)
    requires ValidObject(o) && i <= Filled(o)
    ensures 2 <= Start(o, i) <= |Write(o)| && Write(o)[Start(o, i)..] == WriteFrom(o, i)
    decreases i
  {
    if i > 0 {
      StartsThere(o, i - 1);
      var slot := o.slots[i - 1];
      var front := slot.key + [0] + WriteValue(slot.value);
      assert WriteFrom(o, i - 1) == front + WriteFrom(o, i);
      assert Write(o)[Start(o, i)..] == Write(o)[Start(o, i - 1)..][|front|..];
    }
  }

  /** The format: the type of objects and the number of keys, and then from each slot's start to the next one's its name
      and a NUL, the type of its value, and for data the length in four bytes and the bytes. */
  lemma Layout(o: Object, i: nat)
    requires ValidObject(o) && i < Filled(o)
    ensures var w := Write(o); |w| >= 2 && w[0] == 1 && w[1] == Filled(o)
    ensures Start(o, 0) == 2 && Start(o, Filled(o)) == |Write(o)|
    ensures var at, next, key := Start(o, i), Start(o, i + 1), o.slots[i].key;
            var body := at + |key| + 1;
            && 2 <= at && body < next <= |Write(o)|
            && Write(o)[at..body] == key + [0]
            && o.slots[i].Used? && ValidValue(o.slots[i].value)
            && match o.slots[i].value
               case Data(kind, bytes) =>
                 && next == body + 5 + |bytes| && Write(o)[body] == kind
                 && Write(o)[body + 1..body + 5] == Le32(|bytes|) && Write(o)[body + 5..next] == bytes
               case Child(c) => Write(o)[body..next] == Write(c)
  {
    StartsThere(o, i);
    StartsThere(o, i + 1);
    var at, slot := Start(o, i), o.slots[i];
    var value, rest := WriteValue(slot.value), WriteFrom(o, i + 1);
    assert WriteFrom(o, i) == slot.key + [0] + value + rest;
    SliceOf(Write(o), at, slot.key + [0], value, rest);
    ValueBytes(slot.value);
    if slot.value.Data? { DataLayout(Write(o), at + |slot.key| + 1, slot.value.kind, slot.value.bytes, rest); }
  }

  lemma ValueBytes(v: Value)
    requires ValidValue(v)
    ensures |WriteValue(v)| > 0
  {
    if v.Child? { assert |Write(v.child)| >= 2; }
  }

  lemma DataLayout(w: Bytes, at: int, kind: int, bytes: Bytes, rest: Bytes)
    requires 0 <= at <= |w| && w[at..] == [kind] + Le32(|bytes|) + bytes + rest
    ensures var next := at + 5 + |bytes|;
            && next <= |w| && w[at] == kind && w[at + 1..at + 5] == Le32(|bytes|) && w[at + 5..next] == bytes
  {
    assert [kind] + Le32(|bytes|) + bytes + rest == [kind] + Le32(|bytes|) + (bytes + rest);
    SliceOf(w, at, [kind], Le32(|bytes|), bytes + rest);
    assert w[at..at + 1][0] == w[at];
    SliceOf(w, at + 1, Le32(|bytes|), bytes, rest);
  }

  /** Two parts of what follows a place. */
  lemma SliceOf(w: Bytes, at: int, a: Bytes, b: Bytes, rest: Bytes)
    requires 0 <= at <= |w| && w[at..] == a + b + rest
    ensures at + |a| + |b| <= |w|
    ensures w[at..at + |a|] == a && w[at + |a|..at + |a| + |b|] == b && w[at + |a|..] == b + rest
  {
    var s := w[at..];
    assert w[at..at + |a|] == s[..|a|] && w[at + |a|..at + |a| + |b|] == s[|a|..|a| + |b|];
    assert w[at + |a|..] == s[|a|..];
  }

  // ---------- Reading ----------

  /** strlen, if there is a NUL at all. */
  function Terminator(r: Bytes): (k: Option<nat>)
    ensures k.Some? ==> k.value < |r| && r[k.value] == 0 && forall i | 0 <= i < k.value :: r[i] != 0
    ensures k.None? ==> 0 !in r
  {
    if r == [] then None
    else if r[0] == 0 then Some(0)
    else
      match Terminator(r[1..])
      case None => None
      case Some(k) => Some(k + 1)
  }

  /** A slot in front of others. */
  function WithSlot(slot: Slot, p: Option<(seq<Slot>, Bytes)>): Option<(seq<Slot>, Bytes)> {
    match p
    case None => None
    case Some((slots, end)) => Some(([slot] + slots, end))
  }

  function WithSlots(slots: seq<Slot>, p: Option<(seq<Slot>, Bytes)>): Option<(seq<Slot>, Bytes)> {
    match p
    case None => None
    case Some((more, end)) => Some((slots + more, end))
  }

  lemma NoSlots(p: Option<(seq<Slot>, Bytes)>)
    ensures WithSlots([], p) == p
  {
    if p.Some? { assert [] + p.value.0 == p.value.0; }
  }

  lemma SlotsJoin(slots: seq<Slot>, slot: Slot, p: Option<(seq<Slot>, Bytes)>)
    ensures WithSlots(slots, WithSlot(slot, p)) == WithSlots(slots + [slot], p)
  {
    if p.Some? { assert slots + ([slot] + p.value.0) == slots + [slot] + p.value.0; }
  }

  /** The bytes behind the key of the first slot. */
  function BehindKey(r: Bytes): (p: Option<(Bytes, Bytes)>)
    ensures p.Some? ==> |p.value.1| < |r|
  {
    match Terminator(r)
    case None => None
    case Some(k) => Some((r[..k], r[k + 1..]))
  }

  /** bjson_parse: the object and what follows it, or None where the source aborts or would read past its input. */
  function Parse(r: Bytes): (p: Option<(Object, Bytes)>)
    ensures p.Some? ==> |p.value.1| < |r|
    decreases |r|, 0
  {
    if |r| < 2 || r[0] != TYPE_OBJECT || r[1] < 0 then None
    else
      match ParseSlots(r[1], r[2..])
      case None => None
      case Some((slots, rest)) => Some((Object(slots), rest))
  }

  function ParseSlots(n: nat, r: Bytes): (p: Option<(seq<Slot>, Bytes)>)
    ensures p.Some? ==> |p.value.1| <= |r|
    decreases |r|, 1
  {
    if n == 0 then Some(([], r))
    else
      match BehindKey(r)
      case None => None
      case Some((key, tail)) =>
        match ParseValue(tail)
        case None => None
        case Some((value, rest)) => WithSlot(Used(key, value), ParseSlots(n - 1, rest))
  }

  function ParseValue(r: Bytes): (p: Option<(Value, Bytes)>)
    ensures p.Some? ==> |p.value.1| < |r|
    decreases |r|, 2
  {
    if r == [] then None
    else if r[0] == TYPE_OBJECT then
      match Parse(r)
      case None => None
      case Some((o, rest)) => Some((Child(o), rest))
    else if |r| < 5 then None
    else
      var length := FromLe32(r[1..5]);
      if length < 0 || |r| < 5 + length then None
      else Some((Data(r[0], r[5..5 + length]), r[5 + length..]))
  }

  // ---------- Round trip ----------

  /** The object without its free slots, and its children likewise. */
  function Trimmed(o: Object): Object
    requires ValidObject(o)
    decreases o, |o.slots| + 1
  {
    Object(TrimmedFrom(o, 0))
  }

  function TrimmedFrom(o: Object, i: nat): (s: seq<Slot>)
    requires ValidObject(o) && i <= Filled(o)
    ensures |s| == Filled(o) - i
    ensures forall j | 0 <= j < |s| :: s[j] == Used(o.slots[i + j].key, TrimmedValue(o.slots[i + j].value))
    decreases o, |o.slots| - i
  {
    if i == Filled(o) then [] else [Used(o.slots[i].key, TrimmedValue(o.slots[i].value))] + TrimmedFrom(o, i + 1)
  }

  function TrimmedValue(v: Value): Value
    requires ValidValue(v)
    decreases v, 0
  {
    if v.Child? then Child(Trimmed(v.child)) else v
  }

  lemma TerminatorOfKey(key: Bytes, rest: Bytes)
    requires ValidKey(key)
    ensures Terminator(key + [0] + rest) == Some(|key|)
  {
    var r := key + [0] + rest;
    assert r[|key|] == 0;
    assert forall j | 0 <= j < |key| :: r[j] == key[j];
  }

  lemma {:induction false} ParseWrittenValue(v: Value, suffix: Bytes)
    requires ValidValue(v)
    ensures ParseValue(WriteValue(v) + suffix) == Some((TrimmedValue(v), suffix))
    decreases v, 0
  {
    match v
    case Data(kind, bytes) =>
      var r := WriteValue(v) + suffix;
      Le32RoundTrip(|bytes|, []);
      assert r[1..5] == Le32(|bytes|) + [];
      assert r[5..5 + |bytes|] == bytes && r[5 + |bytes|..] == suffix;
    case Child(c) =>
      ParseWritten(c, suffix);
  }

  lemma {:induction false} ParseWrittenFrom(o: Object, i: nat, suffix: Bytes)
    requires ValidObject(o) && i <= Filled(o)
    ensures ParseSlots(Filled(o) - i, WriteFrom(o, i) + suffix) == Some((TrimmedFrom(o, i), suffix))
    decreases o, |o.slots| - i
  {
    if i == Filled(o) {
      assert WriteFrom(o, i) + suffix == suffix;
    } else {
      var left, next := Filled(o) - i, i + 1;
      var r, rest := WriteFrom(o, i) + suffix, WriteFrom(o, next) + suffix;
      var slot := Used(o.slots[i].key, TrimmedValue(o.slots[i].value));
      ParseWrittenSlot(o, i, suffix, left, Filled(o) - next, r, rest, slot);
      ParseWrittenFrom(o, next, suffix);
      assert TrimmedFrom(o, i) == [slot] + TrimmedFrom(o, next);
    }
  }

  lemma {:induction false} ParseSlot(n: nat, m: nat, r: Bytes, key: Bytes, tail: Bytes, value: Value, rest: Bytes)
    requires n == m + 1 && BehindKey(r) == Some((key, tail)) && ParseValue(tail) == Some((value, rest))
    ensures ParseSlots(n, r) == WithSlot(Used(key, value), ParseSlots(m, rest))
  {
  }

  /** What there is if n slots can be parsed. */
  lemma {:induction false} SlotsThere(n: nat, r: Bytes)
    requires n > 0 && ParseSlots(n, r).Some?
    ensures BehindKey(r).Some? && ParseValue(BehindKey(r).value.1).Some?
  {
  }

  /** Where the key of a written slot ends, and what follows it. */
  lemma SlotWritten(o: Object, i: nat, suffix: Bytes)
    requires ValidObject(o) && i < Filled(o)
    ensures var r, key := WriteFrom(o, i) + suffix, o.slots[i].key;
            BehindKey(r) == Some((key, WriteValue(o.slots[i].value) + (WriteFrom(o, i + 1) + suffix)))
  {
    var key, value, tail := o.slots[i].key, WriteValue(o.slots[i].value), WriteFrom(o, i + 1) + suffix;
    assert WriteFrom(o, i) + suffix == key + [0] + (value + tail);
    TerminatorOfKey(key, value + tail);
    var r := key + [0] + (value + tail);
    assert r[..|key|] == key && r[|key| + 1..] == value + tail;
  }

  lemma {:induction false} ParseWrittenSlot(o: Object, i: nat, suffix: Bytes, n: nat, m: nat, r: Bytes, rest: Bytes,
                                            slot: Slot)
    requires ValidObject(o) && i < Filled(o) && n == m + 1
    requires r == WriteFrom(o, i) + suffix && rest == WriteFrom(o, i + 1) + suffix
    requires slot == Used(o.slots[i].key, TrimmedValue(o.slots[i].value))
    ensures ParseSlots(n, r) == WithSlot(slot, ParseSlots(m, rest))
    decreases o, 0
  {
    SlotWritten(o, i, suffix);
    ParseWrittenValue(o.slots[i].value, rest);
    ParseSlot(n, m, r, o.slots[i].key, WriteValue(o.slots[i].value) + rest, TrimmedValue(o.slots[i].value), rest);
  }

  /** Parsing what was written gives the object, less its free slots, and leaves exactly what follows. */
  lemma {:induction false} ParseWritten(o: Object, suffix: Bytes)
    requires ValidObject(o)
    ensures Parse(Write(o) + suffix) == Some((Trimmed(o), suffix))
    decreases o, |o.slots| + 1
  {
    var r := Write(o) + suffix;
    assert r[2..] == WriteFrom(o, 0) + suffix;
    ParseWrittenFrom(o, 0, suffix);
  }

  /** An object without free slots at any depth. */
  predicate Full(o: Object)
  {
    forall i | 0 <= i < |o.slots| :: o.slots[i].Used? && (o.slots[i].value.Child? ==> Full(o.slots[i].value.child))
  }

  lemma {:induction false} TrimmedFull(o: Object)
    requires ValidObject(o) && Full(o)
    ensures Trimmed(o) == o
    decreases o
  {
    forall i | 0 <= i < |o.slots| ensures TrimmedValue(o.slots[i].value) == o.slots[i].value {
      if o.slots[i].value.Child? { TrimmedFull(o.slots[i].value.child); }
    }
    assert Filled(o) == |o.slots| by { if |o.slots| > 0 { assert o.slots[|o.slots| - 1].Used?; } }
    assert Trimmed(o).slots == o.slots;
  }

  // ---------- Fields ----------

  /** get_value: the search stops at the first free slot. */
  function GetValue(slots: seq<Slot>, key: Bytes): Option<Value> {
    if slots == [] || slots[0].Free? then None
    else if slots[0].key == key then Some(slots[0].value)
    else GetValue(slots[1..], key)
  }

  /** set_value, None where the source aborts: the key is there already, or no slot is free. */
  function SetValue(slots: seq<Slot>, key: Bytes, value: Value): (r: Option<seq<Slot>>)
    ensures r.Some? ==> |r.value| == |slots|
  {
    if slots == [] then None
    else if slots[0].Free? then Some(slots[0 := Used(key, value)])
    else if slots[0].key == key then None
    else
      match SetValue(slots[1..], key, value)
      case None => None
      case Some(rest) => Some([slots[0]] + rest)
  }

  /** state_field when loading: what becomes of the variable. */
  function LoadField(slots: seq<Slot>, name: Bytes, data: Bytes): (r: Bytes)
    ensures |r| == |data|
  {
    match GetValue(slots, name)
    case Some(Data(TYPE_DATA, saved)) =>
      if |data| > |saved| then saved + data[|saved|..] else saved[..|data|]
    case _ => seq(|data|, _ => 0)
  }

  // ---------- Save and load ----------

  /** Keys and values in the order in which they are added. */
  type Entries = seq<(Bytes, Value)>

  predicate HasKey(entries: Entries, key: Bytes) {
    exists i :: 0 <= i < |entries| && entries[i].0 == key
  }

  predicate Distinct(entries: Entries) {
    forall i, j | 0 <= i < j < |entries| :: entries[i].0 != entries[j].0
  }

  /** state_create_bjson_object and a state_add for each entry. */
  function Build(capacity: nat, entries: Entries): Option<seq<Slot>> {
    if entries == [] then Some(seq(capacity, _ => Free))
    else
      var last := |entries| - 1;
      match Build(capacity, entries[..last])
      case None => None
      case Some(slots) => SetValue(slots, entries[last].0, entries[last].1)
  }

  /** The entries, then free slots. */
  function Shape(capacity: nat, entries: Entries): (s: seq<Slot>)
    ensures |s| == capacity
  {
    seq(capacity, i requires i >= 0 => if i < |entries| then Used(entries[i].0, entries[i].1) else Free)
  }

  lemma ShapeTail(capacity: nat, entries: Entries)
    requires capacity > 0
    ensures Shape(capacity, entries)[1..] == Shape(capacity - 1, if entries == [] then [] else entries[1..])
  {
  }

  lemma {:induction false} SetOnShape(capacity: nat, entries: Entries, key: Bytes, value: Value)
    requires |entries| <= capacity
    ensures SetValue(Shape(capacity, entries), key, value)
      == if HasKey(entries, key) || |entries| == capacity then None else Some(Shape(capacity, entries + [(key, value)]))
    decreases capacity
  {
    if capacity > 0 {
      var s := Shape(capacity, entries);
      if entries == [] {
        assert s[0 := Used(key, value)] == Shape(capacity, [(key, value)]);
        assert entries + [(key, value)] == [(key, value)];
      } else if entries[0].0 != key {
        ShapeTail(capacity, entries);
        SetOnShape(capacity - 1, entries[1..], key, value);
        assert HasKey(entries, key) == HasKey(entries[1..], key) by {
          if HasKey(entries, key) {
            var i :| 0 <= i < |entries| && entries[i].0 == key;
            assert entries[1..][i - 1].0 == key;
          }
          if HasKey(entries[1..], key) {
            var i :| 0 <= i < |entries[1..]| && entries[1..][i].0 == key;
            assert entries[i + 1].0 == key;
          }
        }
        assert [s[0]] + Shape(capacity - 1, entries[1..] + [(key, value)]) == Shape(capacity, entries + [(key, value)]);
      }
    }
  }

  /** Adding entries succeeds exactly if their keys differ and there is a slot for each. */
  lemma {:induction false} BuildShape(capacity: nat, entries: Entries)
    ensures Build(capacity, entries)
      == if Distinct(entries) && |entries| <= capacity then Some(Shape(capacity, entries)) else None
  {
    if entries == [] {
      assert seq(capacity, _ => Free) == Shape(capacity, []);
    } else {
      var front, last := entries[..|entries| - 1], entries[|entries| - 1];
      BuildShape(capacity, front);
      assert front + [last] == entries;
      if Distinct(front) && |front| <= capacity { SetOnShape(capacity, front, last.0, last.1); }
      assert Distinct(entries) <==> Distinct(front) && !HasKey(front, last.0);
    }
  }

  lemma {:induction false} GetOnShape(capacity: nat, entries: Entries, i: nat)
    requires |entries| <= capacity && Distinct(entries) && i < |entries|
    ensures GetValue(Shape(capacity, entries), entries[i].0) == Some(entries[i].1)
    decreases capacity
  {
    if i > 0 {
      ShapeTail(capacity, entries);
      GetOnShape(capacity - 1, entries[1..], i - 1);
    }
  }

  lemma {:induction false} CountPrefix(slots: seq<Slot>, n: nat)
    requires n <= |slots| && forall i | 0 <= i < |slots| :: slots[i].Used? <==> i < n
    ensures Count(slots) == n
  {
    if slots != [] { CountPrefix(slots[..|slots| - 1], if n == |slots| then n - 1 else n); }
  }

  predicate ValidEntries(capacity: nat, entries: Entries) {
    && |entries| <= capacity < 256 && Distinct(entries)
    && forall i | 0 <= i < |entries| :: ValidKey(entries[i].0) && ValidValue(entries[i].1)
  }

  lemma ShapeValid(capacity: nat, entries: Entries)
    requires ValidEntries(capacity, entries)
    ensures ValidObject(Object(Shape(capacity, entries))) && Filled(Object(Shape(capacity, entries))) == |entries|
  {
    CountPrefix(Shape(capacity, entries), |entries|);
  }

  /** Parsing finds under each key what was stored under it, trimmed. */
  lemma TrimmedShape(capacity: nat, entries: Entries)
    requires ValidEntries(capacity, entries)
    ensures ValidObject(Object(Shape(capacity, entries)))
    ensures var trimmed := seq(|entries|, i requires 0 <= i < |entries| => (entries[i].0, TrimmedValue(entries[i].1)));
            Trimmed(Object(Shape(capacity, entries))).slots == Shape(|entries|, trimmed)
  {
    ShapeValid(capacity, entries);
  }

  lemma GetTrimmed(capacity: nat, entries: Entries, i: nat)
    requires ValidEntries(capacity, entries) && i < |entries|
    ensures ValidObject(Object(Shape(capacity, entries)))
    ensures GetValue(Trimmed(Object(Shape(capacity, entries))).slots, entries[i].0) == Some(TrimmedValue(entries[i].1))
  {
    TrimmedShape(capacity, entries);
    var trimmed := seq(|entries|, j requires 0 <= j < |entries| => (entries[j].0, TrimmedValue(entries[j].1)));
    GetOnShape(|entries|, trimmed, i);
  }

  /** A device's variables by name. */
  type Fields = seq<(Bytes, Bytes)>

  datatype Device = Device(name: Bytes, capacity: nat, fields: Fields)

  function FieldEntries(fields: Fields): (e: Entries)
    ensures |e| == |fields|
  {
    seq(|fields|, i requires 0 <= i < |fields| => (fields[i].0, Data(TYPE_DATA, fields[i].1)))
  }

  predicate ValidDevice(d: Device) {
    ValidKey(d.name) && ValidEntries(d.capacity, FieldEntries(d.fields))
  }

  function DeviceEntries(devices: seq<Device>): (e: Entries)
    ensures |e| == |devices|
  {
    seq(|devices|, i requires 0 <= i < |devices| =>
      (devices[i].name, Child(Object(Shape(devices[i].capacity, FieldEntries(devices[i].fields))))))
  }

  /** Room for the handlers in state_store_to_file. */
  const ROOT := 64

  predicate ValidMachine(devices: seq<Device>) {
    && |devices| <= ROOT && Distinct(DeviceEntries(devices))
    && forall i | 0 <= i < |devices| :: ValidDevice(devices[i])
  }

  lemma MachineValid(devices: seq<Device>)
    requires ValidMachine(devices)
    ensures ValidEntries(ROOT, DeviceEntries(devices)) && ValidObject(Object(Shape(ROOT, DeviceEntries(devices))))
  {
    forall i | 0 <= i < |devices| ensures ValidValue(DeviceEntries(devices)[i].1) {
      ShapeValid(devices[i].capacity, FieldEntries(devices[i].fields));
    }
    ShapeValid(ROOT, DeviceEntries(devices));
  }

  /** Saving a machine and loading it: what parsing gives holds, under the name of each device, an object from which
      each field is loaded with the bytes that it was saved with, whatever follows in the file. */
  lemma LoadRestoresSave(devices: seq<Device>, suffix: Bytes, d: nat, f: nat, data: Bytes)
    requires ValidMachine(devices) && d < |devices| && f < |devices[d].fields| && |data| == |devices[d].fields[f].1|
    ensures ValidObject(Object(Shape(ROOT, DeviceEntries(devices))))
    ensures var p := Parse(Write(Object(Shape(ROOT, DeviceEntries(devices)))) + suffix);
            && p.Some? && p.value.1 == suffix
            && var o := GetValue(p.value.0.slots, devices[d].name);
               && o.Some? && o.value.Child?
               && LoadField(o.value.child.slots, devices[d].fields[f].0, data) == devices[d].fields[f].1
  {
    MachineValid(devices);
    ParseWritten(Object(Shape(ROOT, DeviceEntries(devices))), suffix);
    GetTrimmed(ROOT, DeviceEntries(devices), d);
    GetTrimmed(devices[d].capacity, FieldEntries(devices[d].fields), f);
  }

  // ---------- The streams ----------

  /** Every key with its NUL, and all data, is at most n bytes long. */
  predicate FitsIn(o: Object, n: int) {
    forall i | 0 <= i < |o.slots| && o.slots[i].Used? ::
      |o.slots[i].key| < n && match o.slots[i].value case Data(_, bytes) => |bytes| <= n case Child(c) => FitsIn(c, n)
  }

  lemma {:induction false} FitsInMore(o: Object, m: int, n: int)
    requires FitsIn(o, m) && m <= n
    ensures FitsIn(o, n)
    decreases o
  {
    forall i | 0 <= i < |o.slots| && o.slots[i].Used? && o.slots[i].value.Child?
      ensures FitsIn(o.slots[i].value.child, n)
    {
      FitsInMore(o.slots[i].value.child, m, n);
    }
  }

  class WStream {
    var buf: array<int>
    var pos: nat

    ghost predicate Valid()
      reads this, buf
    {
      pos <= buf.Length && 4 <= buf.Length
    }

    ghost function Written(): Bytes
      requires pos <= buf.Length
      reads this, buf
    {
      buf[..pos]
    }

    /** wstream_init. */
    constructor (initialSize: nat)
      requires 4 <= initialSize
      ensures Valid() && fresh(buf) && Written() == [] && buf.Length == initialSize
    {
      buf := new int[initialSize];
      pos := 0;
    }

    /** wstream_grow. */
    method Grow()
      requires Valid()
      modifies this
      ensures Valid() && fresh(buf) && Written() == old(Written()) && pos == old(pos)
          && buf.Length == 2 * old(buf.Length)
    {
      var larger := new int[2 * buf.Length];
      forall i | 0 <= i < pos { larger[i] := buf[i]; }
      buf := larger;
    }

    /** writemem, and writestr with the NUL as the last byte. The one growth makes room for bytes that fit into twice
        the buffer, and for no more. */
    method WriteMem(mem: Bytes)
      requires Valid() && pos + |mem| <= 2 * buf.Length
      modifies this, buf
      ensures Valid() && Written() == old(Written()) + mem && old(buf.Length) <= buf.Length
      ensures buf == old(buf) || fresh(buf)
    {
      if pos + |mem| >= buf.Length { Grow(); }
      forall i | 0 <= i < |mem| { buf[pos + i] := mem[i]; }
      pos := pos + |mem|;
    }

    method Write8(a: int)
      requires Valid()
      modifies this, buf
      ensures Valid() && Written() == old(Written()) + [a] && old(buf.Length) <= buf.Length
      ensures buf == old(buf) || fresh(buf)
    {
      if pos >= buf.Length { Grow(); }
      buf[pos] := a;
      pos := pos + 1;
    }

    method Write32(a: int)
      requires Valid()
      modifies this, buf
      ensures Valid() && Written() == old(Written()) + Le32(a) && old(buf.Length) <= buf.Length
      ensures buf == old(buf) || fresh(buf)
    {
      if pos + 3 >= buf.Length { Grow(); }
      buf[pos], buf[pos + 1], buf[pos + 2], buf[pos + 3] :=
        a % 256, a / 256 % 256, a / 0x1_0000 % 256, a / 0x100_0000 % 256;
      pos := pos + 4;
    }

    /** bjson_serialize: the buffer is never overrun if each key and each field fits into the buffer as it is. */
    method Serialize(o: Object)
      requires Valid() && ValidObject(o) && FitsIn(o, buf.Length)
      modifies this, buf
      ensures Valid() && Written() == old(Written()) + Write(o) && old(buf.Length) <= buf.Length
      ensures buf == old(buf) || fresh(buf)
      decreases o, 1
    {
      Write8(TYPE_OBJECT);
      Write8(Filled(o));
      ghost var head := Written();
      assert head == old(Written()) + [TYPE_OBJECT, Filled(o)];
      var i := 0;
      assert head + Write(o)[2..] == old(Written()) + Write(o);
      while i < Filled(o)
        invariant 0 <= i <= Filled(o) && Valid() && old(buf.Length) <= buf.Length
        invariant buf == old(buf) || fresh(buf)
        invariant Written() + WriteFrom(o, i) == head + WriteFrom(o, 0)
      {
        FitsInMore(o, old(buf.Length), buf.Length);
        WriteSlot(o, i);
        i := i + 1;
      }
      assert Written() + [] == Written();
    }

    method WriteData(kind: int, bytes: Bytes)
      requires Valid() && ValidValue(Data(kind, bytes)) && |bytes| <= buf.Length
      modifies this, buf
      ensures Valid() && Written() == old(Written()) + WriteValue(Data(kind, bytes)) && old(buf.Length) <= buf.Length
      ensures buf == old(buf) || fresh(buf)
    {
      Write8(kind);
      Write32(|bytes|);
      WriteMem(bytes);
    }

    method WriteSlot(o: Object, i: nat)
      requires Valid() && ValidObject(o) && i < Filled(o) && FitsIn(o, buf.Length)
      modifies this, buf
      ensures Valid() && Written() + WriteFrom(o, i + 1) == old(Written()) + WriteFrom(o, i)
          && old(buf.Length) <= buf.Length
      ensures buf == old(buf) || fresh(buf)
      decreases o, 0
    {
      ghost var n := buf.Length;
      WriteMem(o.slots[i].key + [0]);
      WriteValueOf(o.slots[i].value, n);
      assert old(Written()) + WriteFrom(o, i) == Written() + WriteFrom(o, i + 1);
    }

    method WriteValueOf(value: Value, ghost n: int)
      requires Valid() && ValidValue(value) && n <= buf.Length
      requires match value case Data(_, bytes) => |bytes| <= n case Child(c) => FitsIn(c, n)
      modifies this, buf
      ensures Valid() && Written() == old(Written()) + WriteValue(value) && old(buf.Length) <= buf.Length
      ensures buf == old(buf) || fresh(buf)
      decreases value, 2
    {
      match value {
        case Child(c) =>
          FitsInMore(c, n, buf.Length);
          Serialize(c);
        case Data(kind, bytes) =>
          WriteData(kind, bytes);
      }
    }
  }

  /** The input. Each method needs what the source relies on: that parsing does not fail. */
  class RStream {
    const buf: array<int>
    var pos: nat

    ghost predicate Valid()
      reads this, buf
    {
      pos <= buf.Length
    }

    ghost function Rest(): Bytes
      requires pos <= buf.Length
      reads this, buf
    {
      buf[pos..]
    }

    /** rstream_init. */
    constructor (buf: array<int>)
      ensures Valid() && this.buf == buf && Rest() == buf[..]
    {
      this.buf := buf;
      pos := 0;
    }

    /** readstr without the final copy of the NUL. */
    method ReadStr() returns (s: Bytes)
      requires Valid() && Terminator(Rest()).Some?
      modifies this
      ensures Valid() && BehindKey(old(Rest())) == Some((s, Rest()))
    {
      ghost var r := Rest();
      var length := 0;
      while buf[pos + length] != 0
        invariant 0 <= length <= Terminator(r).value && r == buf[pos..]
        invariant forall i | 0 <= i < length :: r[i] != 0
        decreases |r| - length
      {
        assert r[length] == buf[pos + length];
        length := length + 1;
      }
      assert r[length] == buf[pos + length];
      s := buf[pos..pos + length];
      pos := pos + length + 1;
      assert s == r[..length] && Rest() == r[length + 1..];
    }

    /** bjson_parse. */
    method ParseObject() returns (o: Object)
      requires Valid() && Parse(Rest()).Some?
      modifies this
      ensures Valid() && Parse(old(Rest())) == Some((o, Rest()))
      decreases |Rest()|, 0
    {
      ghost var r := Rest();
      var length := buf[pos + 1];
      pos := pos + 2;
      assert Rest() == r[2..];
      var slots := ReadSlots(length);
      o := Object(slots);
    }

    /** Its loop over the keys. */
    method ReadSlots(length: nat) returns (slots: seq<Slot>)
      requires Valid() && ParseSlots(length, Rest()).Some?
      modifies this
      ensures Valid() && ParseSlots(length, old(Rest())) == Some((slots, Rest()))
      decreases |Rest()|, 3
    {
      ghost var p, left := ParseSlots(length, Rest()), length;
      NoSlots(p);
      var i := 0;
      slots := [];
      while i < length
        invariant 0 <= i <= length && left == length - i && Valid() && |Rest()| <= |old(Rest())|
        invariant p == WithSlots(slots, ParseSlots(left, Rest()))
        decreases length - i
      {
        ghost var m: nat := left - 1;
        var slot := ReadSlot(left, m);
        SlotsJoin(slots, slot, ParseSlots(m, Rest()));
        slots, left := slots + [slot], m;
        i := i + 1;
      }
      assert slots + [] == slots;
    }

    /** One turn, n slots being left before it and m after it. */
    method ReadSlot(ghost n: nat, ghost m: nat) returns (slot: Slot)
      requires Valid() && n == m + 1 && ParseSlots(n, Rest()).Some?
      modifies this
      ensures Valid() && |Rest()| < |old(Rest())| && ParseSlots(n, old(Rest())) == WithSlot(slot, ParseSlots(m, Rest()))
      decreases |Rest()|, 2
    {
      SlotsThere(n, Rest());
      ghost var r := Rest();
      var key := ReadStr();
      ghost var tail := Rest();
      var value := ReadValue();
      ParseSlot(n, m, r, key, tail, value, Rest());
      slot := Used(key, value);
    }

    /** The part of bjson_parse after a key. */
    method ReadValue() returns (v: Value)
      requires Valid() && ParseValue(Rest()).Some?
      modifies this
      ensures Valid() && ParseValue(old(Rest())) == Some((v, Rest()))
      decreases |Rest()|, 1
    {
      ghost var r := Rest();
      var kind := buf[pos];
      if kind == TYPE_OBJECT {
        var c := ParseObject();
        v := Child(c);
      } else {
        var length := buf[pos + 1] + 0x100 * buf[pos + 2] + 0x1_0000 * buf[pos + 3] + 0x100_0000 * buf[pos + 4];
        assert r[1..5] == [buf[pos + 1], buf[pos + 2], buf[pos + 3], buf[pos + 4]];
        assert length == FromLe32(r[1..5]);
        v := Data(kind, buf[pos + 5..pos + 5 + length]);
        assert r[5..] == buf[pos + 5..];
        assert r[5..5 + length] == r[5..][..length] && buf[pos + 5..pos + 5 + length] == buf[pos + 5..][..length];
        pos := pos + 5 + length;
      }
    }
  }
}
