/**
 Properties of the parking lot's operations that relate several calls or compare
 an operation with an independent definition: removal keeps the other vehicles in
 order, moves vehicles rather than copying them and misses queued vehicles;
 parking then removing a vehicle undoes the parking; arrivals are admitted in
 order; and the lot invariant and the departure log survive any run.
 */
module LotProperties {
  import opened LotState

  /** Reference definition: `s` with every vehicle carrying `number` filtered out,
      the others in their order. */
  function Without(s: seq<Vehicle>, number: string): (r: seq<Vehicle>)
    ensures !Holds(r, number)
    ensures |r| <= |s|
  {
    if s == [] then []
    else if s[|s| - 1].number == number then Without(s[..|s| - 1], number)
    else Without(s[..|s| - 1], number) + [s[|s| - 1]]
  }

  /** Dropping the last vehicle of a sequence with distinct numbers keeps them
      distinct, and the dropped number no longer occurs. */
  lemma DistinctInit(s: seq<Vehicle>)
    requires DistinctNumbers(s) && s != []
    ensures DistinctNumbers(s[..|s| - 1]) && !Holds(s[..|s| - 1], s[|s| - 1].number)
  {
    var init := s[..|s| - 1];
    forall a | 0 <= a < |init| ensures init[a] == s[a] {
    }
  }

  /** Filtering out a number that does not occur changes nothing. */
  lemma {:induction false} WithoutAbsent(s: seq<Vehicle>, number: string)
    requires !Holds(s, number)
    ensures Without(s, number) == s
  {
    if s != [] {
      var init := s[..|s| - 1];
      assert !Holds(init, number) by {
        forall k | 0 <= k < |init| ensures init[k].number != number {
          assert init[k] == s[k];
        }
      }
      WithoutAbsent(init, number);
      assert s == init + [s[|s| - 1]];
    }
  }

  /** With distinct numbers, taking out the topmost vehicle carrying `number` is
      the same as filtering that number out. */
  lemma {:induction false} DeleteTopmostIsWithout(s: seq<Vehicle>, number: string, i: nat)
    requires DistinctNumbers(s)
    requires TopmostIndex(s, number) == Some(i)
    ensures DeleteAt(s, i) == Without(s, number)
  {
    var n := |s|;
    var init := s[..n - 1];
    DistinctInit(s);
    if i == n - 1 {
      WithoutAbsent(init, number);
      assert DeleteAt(s, i) == init;
    } else {
      assert s[n - 1].number != number;
      TopmostAt(init, number, i);
      DeleteTopmostIsWithout(init, number, i);
      assert s == init + [s[n - 1]];
      DeleteAtConcat(init, [s[n - 1]], i);
    }
  }

  /** The stack after a removal, below any promoted vehicle. */
  function Unpromoted(l': Lot, res: RemoveResult): seq<Vehicle>
  {
    if res.Removed? && res.promoted.Some? && l'.stack != [] then l'.stack[..|l'.stack| - 1] else l'.stack
  }

  /** Removal keeps every other parked vehicle, in its relative order: below the
      promoted vehicle the new stack is the old one with the target filtered out,
      and the promoted vehicle, if any, is the old queue head, now on top, the rest
      of the queue keeping its order. */
  lemma RemoveKeepsOrder(l: Lot, number: string, now: int)
    requires Consistent(l)
    ensures var (l', res) := Remove(l, number, now);
            && Unpromoted(l', res) == Without(l.stack, number)
            && (res.Removed? && l.queue != [] ==>
                  l'.stack == Unpromoted(l', res) + [l.queue[0]] && l'.queue == l.queue[1..])
            && (res.Removed? && l.queue == [] ==> l'.queue == [])
  {
    var (l', res) := Remove(l, number, now);
    match TopmostIndex(l.stack, number)
    case None =>
      WithoutAbsent(l.stack, number);
    case Some(i) =>
      RemoveAt(l, number, now, i);
      assert DistinctNumbers(l.stack) by {
        forall a, b | 0 <= a < b < |l.stack| ensures l.stack[a].number != l.stack[b].number {
          assert Live(l)[a] == l.stack[a] && Live(l)[b] == l.stack[b];
        }
      }
      DeleteTopmostIsWithout(l.stack, number, i);
      if l.queue != [] {
        assert l'.stack[..|l'.stack| - 1] == DeleteAt(l.stack, i);
      }
  }

  /** A removal that finds its target moves exactly that vehicle out of the lot
      and the queue: the vehicles that remain are the old ones less the departed
      one, whose entry time the reported duration recovers, and its number is no
      longer held anywhere. */
  lemma RemoveOwnership(l: Lot, number: string, now: int)
    requires Consistent(l)
    requires Remove(l, number, now).1.Removed?
    ensures var (l', res) := Remove(l, number, now);
            && multiset(Live(l)) == multiset(Live(l')) + multiset{Vehicle(number, now - res.duration)}
            && !Holds(Live(l'), number)
  {
    var (l', res) := Remove(l, number, now);
    var i := TopmostIndex(l.stack, number).value;
    LiveAfterRemove(l, number, now, i);
    RemoveAt(l, number, now, i);
    MultisetDelete(Live(l), i);
    DeletedMisses(Live(l), i);
    var gone := l.stack[i];
    assert gone == Vehicle(number, now - res.duration) by {
      assert gone.number == number && res.duration == now - gone.entryTime;
    }
  }

  /** Taking out position `i` takes exactly one copy of `s[i]` out of the multiset. */
  lemma MultisetDelete(s: seq<Vehicle>, i: nat)
    requires i < |s|
    ensures multiset(s) == multiset(DeleteAt(s, i)) + multiset{s[i]}
  {
    assert s == s[..i] + [s[i]] + s[i + 1..];
  }

  /** With distinct numbers, the number at position `i` is gone once `i` is taken out. */
  lemma DeletedMisses(s: seq<Vehicle>, i: nat)
    requires DistinctNumbers(s) && i < |s|
    ensures !Holds(DeleteAt(s, i), s[i].number)
  {
    var r := DeleteAt(s, i);
    forall k | 0 <= k < |r| ensures r[k].number != s[i].number {
      var k' := if k < i then k else k + 1;
      assert r[k] == s[k'];
    }
  }

  /** The queue is never searched: removing a waiting vehicle reports it not found
      and changes nothing; it keeps its place in the queue. */
  lemma RemoveQueuedMisses(l: Lot, number: string, now: int)
    requires Consistent(l)
    requires Holds(l.queue, number)
    ensures Remove(l, number, now) == (l, NotFound)
  {
    var j :| 0 <= j < |l.queue| && l.queue[j].number == number;
    forall k | 0 <= k < |l.stack| ensures l.stack[k].number != number {
      assert Live(l)[k] == l.stack[k] && Live(l)[|l.stack| + j] == l.queue[j];
    }
  }

  /** Parking a new vehicle while a slot is free and then removing it restores the
      stack and the queue exactly; only the log gains the departure, whose duration
      is the elapsed clock time and so is not negative when the clock has not gone
      back. */
  lemma ParkThenRemove(l: Lot, v: Vehicle, now: int)
    requires Consistent(l)
    requires !Holds(Live(l), v.number) && |l.stack| < l.capacity
    ensures Park(l, v).1 == Parked
    ensures Remove(Park(l, v).0, v.number, now)
         == (l.(removed := l.removed + [Departure(v.number, now - v.entryTime)]),
             Removed(now - v.entryTime, None))
    ensures now >= v.entryTime ==> Remove(Park(l, v).0, v.number, now).1.duration >= 0
  {
    var l1 := Park(l, v).0;
    var n := |l.stack|;
    assert l1.stack[n] == v;
    TopmostAt(l1.stack, v.number, n);
    RemoveAt(l1, v.number, now, n);
    assert DeleteAt(l1.stack, n) == l.stack;
  }

  /** When the lot is full a new vehicle is queued, and removing it right away
      misses: it stays in the queue, so parking then removing does not undo the
      parking in this case. */
  lemma ParkFullThenRemove(l: Lot, v: Vehicle, now: int)
    requires Consistent(l)
    requires !Holds(Live(l), v.number) && |l.stack| == l.capacity
    ensures Park(l, v).1 == Queued
    ensures Remove(Park(l, v).0, v.number, now) == (Park(l, v).0, NotFound)
    ensures Park(l, v).0.queue == l.queue + [v]
  {
    var l1 := Park(l, v).0;
    ParkConsistent(l, v);
    assert l1.queue[|l.queue|] == v;
    RemoveQueuedMisses(l1, v.number, now);
  }

  /** Parks the vehicles of `vs` one after the other, first one first. */
  function ParkAll(l: Lot, vs: seq<Vehicle>): Lot
  {
    if vs == [] then l else Park(ParkAll(l, vs[..|vs| - 1]), vs[|vs| - 1]).0
  }

  /** From an empty lot, distinct arrivals fill the stack in arrival order and the
      ones after the first `capacity` wait in the queue in arrival order. */
  lemma {:induction false} ParkAllFromEmpty(capacity: nat, vs: seq<Vehicle>)
    requires DistinctNumbers(vs)
    ensures var k := if |vs| < capacity then |vs| else capacity;
            ParkAll(Lot(capacity, [], [], []), vs) == Lot(capacity, vs[..k], vs[k..], [])
  {
    if vs != [] {
      var init := vs[..|vs| - 1];
      DistinctInit(vs);
      ParkAllFromEmpty(capacity, init);
      ArrivalStep(capacity, init, vs[|vs| - 1]);
      assert vs == init + [vs[|vs| - 1]];
    }
  }

  /** One more arrival at a lot holding the earlier arrivals `init` in order. */
  lemma ArrivalStep(capacity: nat, init: seq<Vehicle>, last: Vehicle)
    requires !Holds(init, last.number)
    ensures var k := if |init| < capacity then |init| else capacity;
            var vs := init + [last];
            var k' := if |vs| < capacity then |vs| else capacity;
            Park(Lot(capacity, init[..k], init[k..], []), last).0 == Lot(capacity, vs[..k'], vs[k'..], [])
  {
    var vs := init + [last];
    var n := |init|;
    if n < capacity {
      var l := Lot(capacity, init, [], []);
      assert init[..n] == init && init[n..] == [];
      assert Live(l) == init;
      assert vs[..n + 1] == vs && vs[n + 1..] == [];
    } else {
      var c := capacity;
      var l := Lot(capacity, init[..c], init[c..], []);
      assert Live(l) == init by {
        assert init == init[..c] + init[c..];
      }
      assert vs[..c] == init[..c];
      assert vs[c..] == init[c..] + [last];
    }
  }

  /** One request to the lot. */
  datatype Request = ParkRequest(v: Vehicle) | RemoveRequest(number: string, now: int)

  /** The lot after one request. */
  function Step(l: Lot, q: Request): Lot
  {
    match q
    case ParkRequest(v) => Park(l, v).0
    case RemoveRequest(number, now) => Remove(l, number, now).0
  }

  /** The lot after the requests of `qs`, first one first. */
  function Run(l: Lot, qs: seq<Request>): Lot
  {
    if qs == [] then l else Step(Run(l, qs[..|qs| - 1]), qs[|qs| - 1])
  }

  /** Every run keeps the lot invariant: the stack never exceeds the capacity, no
      number is held twice, and nobody waits while a slot is free; the capacity
      never changes and the departure log only grows at its end. */
  lemma {:induction false} RunConsistent(l: Lot, qs: seq<Request>)
    requires Consistent(l)
    ensures Consistent(Run(l, qs))
    ensures Run(l, qs).capacity == l.capacity
    ensures |l.removed| <= |Run(l, qs).removed| && Run(l, qs).removed[..|l.removed|] == l.removed
  {
    if qs != [] {
      var l0 := Run(l, qs[..|qs| - 1]);
      RunConsistent(l, qs[..|qs| - 1]);
      match qs[|qs| - 1]
      case ParkRequest(v) =>
        ParkConsistent(l0, v);
      case RemoveRequest(number, now) =>
        RemoveConsistent(l0, number, now);
        assert Run(l, qs).removed[..|l0.removed|] == l0.removed;
    }
  }

  /** Two slots: A and B park, C finds the lot full and waits. */
  lemma ScenarioArrivals()
    ensures var a, b, c := Vehicle("A", 0), Vehicle("B", 1), Vehicle("C", 2);
            var (l1, r1) := Park(Lot(2, [], [], []), a);
            var (l2, r2) := Park(l1, b);
            var (l3, r3) := Park(l2, c);
            && r1 == Parked && r2 == Parked && r3 == Queued
            && l3 == Lot(2, [a, b], [c], [])
  {
    var a, b, c := Vehicle("A", 0), Vehicle("B", 1), Vehicle("C", 2);
    var l1, l2 := Lot(2, [a], [], []), Lot(2, [a, b], [], []);
    assert Park(Lot(2, [], [], []), a) == (l1, Parked) by {
      assert !Holds(Live(Lot(2, [], [], [])), "A");
      assert [] + [a] == [a];
    }
    assert Park(l1, b) == (l2, Parked) by {
      assert Live(l1) == [a];
      assert !Holds([a], "B") by { assert [a][0].number == "A"; }
      assert [a] + [b] == [a, b];
    }
    assert Park(l2, c) == (Lot(2, [a, b], [c], []), Queued) by {
      assert Live(l2) == [a, b];
      assert !Holds([a, b], "C") by { assert [a, b][0].number == "A" && [a, b][1].number == "B"; }
      assert [] + [c] == [c];
    }
  }

  /** Continuing: removing A, at the bottom, promotes C; B stays under C and the
      queue empties. */
  lemma ScenarioPromotion()
    ensures var a, b, c := Vehicle("A", 0), Vehicle("B", 1), Vehicle("C", 2);
            Remove(Lot(2, [a, b], [c], []), "A", 10)
              == (Lot(2, [b, c], [], [Departure("A", 10)]), Removed(10, Some("C")))
  {
    var a, b, c := Vehicle("A", 0), Vehicle("B", 1), Vehicle("C", 2);
    var l := Lot(2, [a, b], [c], []);
    assert !Holds([a, b][1..], "A") by { assert [a, b][1..] == [b]; }
    TopmostAt(l.stack, "A", 0);
    RemoveAt(l, "A", 10, 0);
    assert DeleteAt([a, b], 0) + [c] == [b, c];
    assert [c][1..] == [];
    var r := Remove(l, "A", 10);
    assert r.1 == Removed(10, Some("C"));
    assert r.0.stack == [b, c];
    assert r.0.queue == [];
    assert r.0.removed == [Departure("A", 10)];
  }

  /** Removing from an empty lot misses and changes nothing. */
  lemma ScenarioEmptyRemove(capacity: nat, number: string, now: int)
    ensures Remove(Lot(capacity, [], [], []), number, now) == (Lot(capacity, [], [], []), NotFound)
  {
  }

  /** One slot: A parks, a second A is refused, A leaves, a second removal misses. */
  lemma ScenarioSingleSlot()
    ensures var a := Vehicle("A", 5);
            var (l1, r1) := Park(Lot(1, [], [], []), a);
            var (l2, r2) := Park(l1, a);
            var (l3, r3) := Remove(l2, "A", 9);
            var (l4, r4) := Remove(l3, "A", 12);
            && r1 == Parked && r2 == AlreadyExists && r3 == Removed(4, None) && r4 == NotFound
            && l4 == Lot(1, [], [], [Departure("A", 4)])
  {
    var a := Vehicle("A", 5);
    var l1 := Lot(1, [a], [], []);
    assert Live(l1)[0] == a;
    TopmostAt(l1.stack, "A", 0);
    RemoveAt(l1, "A", 9, 0);
  }
}
