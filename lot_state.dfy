/**
 The parking lot of the smart parking system, as a value.

 A lot has a fixed capacity, a stack of parked vehicles (the last element is the
 top, the most recently parked vehicle, which blocks every other one), a FIFO
 waiting queue (the first element is the head) and an append-only departure log.
 `Park`, `Remove` and `Status` are the lot's three operations as functions of the
 old state; the class in module SmartParking performs them in place and is proved
 to agree with them.
 */
module LotState {

  datatype Option<T> = None | Some(value: T)

  /** A vehicle: its number (the natural key) and the clock reading taken on arrival. */
  datatype Vehicle = Vehicle(number: string, entryTime: int)

  /** One departure log record: the vehicle number and how long it stayed parked. */
  datatype Departure = Departure(number: string, duration: int)

  /** What parking a vehicle reports. */
  datatype ParkResult = AlreadyExists | Parked | Queued

  /** What removing a vehicle reports; `promoted` is the number of the queue head
      moved into the freed slot, if any. */
  datatype RemoveResult = Removed(duration: int, promoted: Option<string>) | NotFound

  datatype Lot = Lot(capacity: nat, stack: seq<Vehicle>, queue: seq<Vehicle>, removed: seq<Departure>)

  /** The status snapshot: parked vehicles bottom first, waiting vehicles head first. */
  datatype Status = Status(parked: seq<Vehicle>, waiting: seq<Vehicle>, removed: seq<Departure>, availableSlots: int)

  /** Some vehicle of `s` carries `number`. */
  predicate Holds(s: seq<Vehicle>, number: string)
  {
    exists i :: 0 <= i < |s| && s[i].number == number
  }

  /** No vehicle number occurs twice in `s`. */
  predicate DistinctNumbers(s: seq<Vehicle>)
  {
    forall i, j :: 0 <= i < j < |s| ==> s[i].number != s[j].number
  }

  /** The vehicles that are in the lot or waiting for it. */
  function Live(l: Lot): seq<Vehicle>
  {
    l.stack + l.queue
  }

  /** The lot invariant: the stack fits, no number is held twice across stack and
      queue, and nobody waits while a slot is free. */
  predicate Consistent(l: Lot)
  {
    && |l.stack| <= l.capacity
    && DistinctNumbers(Live(l))
    && (l.queue != [] ==> |l.stack| == l.capacity)
  }

  /** The position of the topmost vehicle of `s` carrying `number`: the one the
      unwind loop of a removal stops at. */
  function TopmostIndex(s: seq<Vehicle>, number: string): (r: Option<nat>)
    ensures r.None? <==> !Holds(s, number)
    ensures r.Some? ==> r.value < |s| && s[r.value].number == number
    ensures r.Some? ==> forall j :: r.value < j < |s| ==> s[j].number != number
  {
    if s == [] then None
    else if s[|s| - 1].number == number then Some(|s| - 1)
    else TopmostIndex(s[..|s| - 1], number)
  }

  /** The vehicle at `i` carries `number` and none above it does: it is the topmost one. */
  lemma TopmostAt(s: seq<Vehicle>, number: string, i: nat)
    requires i < |s| && s[i].number == number
    requires forall j :: i < j < |s| ==> s[j].number != number
    ensures TopmostIndex(s, number) == Some(i)
  {
  }

  /** `s` with the element at position `i` taken out. */
  function DeleteAt(s: seq<Vehicle>, i: nat): (r: seq<Vehicle>)
    requires i < |s|
    ensures |r| == |s| - 1
    ensures forall j :: 0 <= j < i ==> r[j] == s[j]
    ensures forall j :: i < j < |s| ==> r[j - 1] == s[j]
  {
    s[..i] + s[i + 1..]
  }

  /** Parking `v`: refused when its number is already parked or waiting, pushed on
      the stack while there is room, queued otherwise. */
  function Park(l: Lot, v: Vehicle): (r: (Lot, ParkResult))
    ensures r.1 == AlreadyExists <==> Holds(Live(l), v.number)
    ensures r.1 == AlreadyExists ==> r.0 == l
    ensures r.1 == Parked <==> !Holds(Live(l), v.number) && |l.stack| < l.capacity
    ensures r.1 == Parked ==> r.0 == l.(stack := l.stack + [v])
    ensures r.1 == Queued ==> r.0 == l.(queue := l.queue + [v])
  {
    if Holds(Live(l), v.number) then (l, AlreadyExists)
    else if |l.stack| < l.capacity then (l.(stack := l.stack + [v]), Parked)
    else (l.(queue := l.queue + [v]), Queued)
  }

  /** Removing the vehicle `number` at clock reading `now`: the topmost vehicle of
      the stack with that number leaves, the vehicles above it keep their order, a
      departure record is logged and the queue head, if any, takes the top. The
      queue itself is never searched. */
  function Remove(l: Lot, number: string, now: int): (r: (Lot, RemoveResult))
    ensures r.0.capacity == l.capacity
    ensures r.1.NotFound? <==> !Holds(l.stack, number)
    ensures r.1.NotFound? ==> r.0 == l
    ensures r.1.Removed? ==> r.0.removed == l.removed + [Departure(number, r.1.duration)]
    ensures r.1.Removed? ==> |r.0.stack| == |l.stack| - 1 + (if l.queue == [] then 0 else 1)
    ensures r.1.Removed? ==> r.1.promoted == (if l.queue == [] then None else Some(l.queue[0].number))
  {
    match TopmostIndex(l.stack, number)
    case None => (l, NotFound)
    case Some(i) =>
      var d := now - l.stack[i].entryTime;
      var log := l.removed + [Departure(l.stack[i].number, d)];
      var rest := DeleteAt(l.stack, i);
      if l.queue == [] then
        (l.(stack := rest, removed := log), Removed(d, None))
      else
        (Lot(l.capacity, rest + [l.queue[0]], l.queue[1..], log), Removed(d, Some(l.queue[0].number)))
  }

  /** The outcome of a removal whose target sits at position `i`, spelled out. */
  lemma RemoveAt(l: Lot, number: string, now: int, i: nat)
    requires TopmostIndex(l.stack, number) == Some(i)
    ensures i < |l.stack|
    ensures var d := now - l.stack[i].entryTime;
            var log := l.removed + [Departure(number, d)];
            Remove(l, number, now) ==
              if l.queue == [] then (Lot(l.capacity, DeleteAt(l.stack, i), [], log), Removed(d, None))
              else (Lot(l.capacity, DeleteAt(l.stack, i) + [l.queue[0]], l.queue[1..], log),
                    Removed(d, Some(l.queue[0].number)))
  {
  }

  /** The read-only snapshot of the lot. */
  function StatusOf(l: Lot): (s: Status)
    ensures s.parked == l.stack && s.waiting == l.queue && s.removed == l.removed
    ensures |s.parked| + s.availableSlots == l.capacity
    ensures Consistent(l) ==> s.availableSlots >= 0
  {
    Status(l.stack, l.queue, l.removed, l.capacity - |l.stack|)
  }

  /** An empty lot is consistent. */
  lemma EmptyConsistent(capacity: nat)
    ensures Consistent(Lot(capacity, [], [], []))
  {
  }

  /** Appending a vehicle whose number is new keeps the numbers distinct. */
  lemma {:induction false} DistinctAppend(s: seq<Vehicle>, v: Vehicle)
    requires DistinctNumbers(s) && !Holds(s, v.number)
    ensures DistinctNumbers(s + [v])
  {
    forall i, j | 0 <= i < j < |s| + 1
      ensures (s + [v])[i].number != (s + [v])[j].number
    {
      if j == |s| {
        assert (s + [v])[i] == s[i];
      }
    }
  }

  /** Parking preserves the lot invariant. */
  lemma ParkConsistent(l: Lot, v: Vehicle)
    requires Consistent(l)
    ensures Consistent(Park(l, v).0)
  {
    var (l', res) := Park(l, v);
    if res == Parked {
      DistinctAppend(Live(l), v);
      assert Live(l') == l.stack + [v] + l.queue;
      assert l.queue == [];
      assert Live(l) + [v] == Live(l');
    } else if res == Queued {
      DistinctAppend(Live(l), v);
      assert Live(l') == Live(l) + [v];
    }
  }

  /** Taking one element out of a sequence keeps its numbers distinct. */
  lemma DistinctDelete(s: seq<Vehicle>, i: nat)
    requires DistinctNumbers(s) && i < |s|
    ensures DistinctNumbers(DeleteAt(s, i))
  {
    var r := DeleteAt(s, i);
    forall a, b | 0 <= a < b < |r|
      ensures r[a].number != r[b].number
    {
      var a' := if a < i then a else a + 1;
      var b' := if b < i then b else b + 1;
      assert r[a] == s[a'] && r[b] == s[b'];
    }
  }

  /** Taking out a position of the first part of a concatenation. */
  lemma DeleteAtConcat(a: seq<Vehicle>, b: seq<Vehicle>, i: nat)
    requires i < |a|
    ensures DeleteAt(a + b, i) == DeleteAt(a, i) + b
  {
    assert (a + b)[..i] == a[..i];
    assert (a + b)[i + 1..] == a[i + 1..] + b;
  }

  /** After a removal that found its target at position `i`, the live vehicles are
      the old ones with position `i` taken out: the promoted queue head moves from
      the front of the queue to the top of the stack, it is not copied. */
  lemma LiveAfterRemove(l: Lot, number: string, now: int, i: nat)
    requires TopmostIndex(l.stack, number) == Some(i)
    ensures i < |l.stack| && i < |Live(l)| && Live(l)[i] == l.stack[i]
    ensures Live(Remove(l, number, now).0) == DeleteAt(Live(l), i)
  {
    var l' := Remove(l, number, now).0;
    RemoveAt(l, number, now, i);
    DeleteAtConcat(l.stack, l.queue, i);
    if l.queue != [] {
      assert l.queue == [l.queue[0]] + l.queue[1..];
      assert Live(l') == DeleteAt(l.stack, i) + [l.queue[0]] + l.queue[1..];
    }
  }

  /** Removal preserves the lot invariant: it frees one slot and promotes at most
      one vehicle, which moves from the queue to the stack. */
  lemma RemoveConsistent(l: Lot, number: string, now: int)
    requires Consistent(l)
    ensures Consistent(Remove(l, number, now).0)
  {
    var (l', res) := Remove(l, number, now);
    if res.Removed? {
      var i := TopmostIndex(l.stack, number).value;
      LiveAfterRemove(l, number, now, i);
      DistinctDelete(Live(l), i);
    }
  }
}
