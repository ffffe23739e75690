/**
 The slot-allocation engine of the smart parking system: a parking lot object
 whose stack, waiting queue and departure log are updated in place. Each
 operation is proved to perform the corresponding function of module LotState
 on the lot's state and to keep the lot invariant.
 */
module SmartParking {
  import opened LotState

  /** `s` back to front: the order in which a stack is rebuilt from the vehicles popped off it. */
  ghost function Reversed(s: seq<Vehicle>): seq<Vehicle>
  {
    if s == [] then [] else [s[|s| - 1]] + Reversed(s[..|s| - 1])
  }

  /** Popping `v` off `a + [v]` and finding the target: the old stack is `a`, then
      `v`, then the popped vehicles in reverse; `v` leaves and the rest is kept. */
  lemma UnwoundTo(s: seq<Vehicle>, a: seq<Vehicle>, v: Vehicle, t: seq<Vehicle>)
    requires s == (a + [v]) + Reversed(t)
    ensures |a| < |s| && s[|a|] == v
    ensures DeleteAt(s, |a|) == a + Reversed(t)
  {
    assert s[..|a|] == a;
    assert s[|a| + 1..] == Reversed(t);
  }

  /** Popping `v` off `a + [v]` into `t` keeps the old stack recoverable. */
  lemma UnwoundPast(a: seq<Vehicle>, v: Vehicle, t: seq<Vehicle>)
    ensures (a + [v]) + Reversed(t) == a + Reversed(t + [v])
  {
    assert (t + [v])[..|t|] == t;
    ReversedLast(t + [v]);
    Regroup(a, [v], Reversed(t));
  }

  /** Pushing the last element of `t` back onto `a` keeps `a + Reversed(t)`. */
  lemma Restacked(a: seq<Vehicle>, t: seq<Vehicle>)
    requires t != []
    ensures a + Reversed(t) == (a + [t[|t| - 1]]) + Reversed(t[..|t| - 1])
  {
    ReversedLast(t);
    Regroup(a, [t[|t| - 1]], Reversed(t[..|t| - 1]));
  }

  /** One unfolding of `Reversed`. */
  lemma ReversedLast(t: seq<Vehicle>)
    requires t != []
    ensures Reversed(t) == [t[|t| - 1]] + Reversed(t[..|t| - 1])
  {
  }

  /** Concatenation is associative. */
  lemma Regroup(a: seq<Vehicle>, b: seq<Vehicle>, c: seq<Vehicle>)
    ensures a + (b + c) == (a + b) + c
  {
  }

  class ParkingLot {
    const capacity: nat
    /** parked vehicles, bottom first; the last one blocks all the others */
    var stack: seq<Vehicle>
    /** vehicles waiting for a slot, head first */
    var waitingQueue: seq<Vehicle>
    /** departure log, oldest first */
    var removed: seq<Departure>

    /** The lot's state as a value. */
    function State(): Lot
      reads this
    {
      Lot(capacity, stack, waitingQueue, removed)
    }

    ghost predicate Valid()
      reads this
    {
      Consistent(State())
    }

    /** A lot with `capacity` slots (three unless given), nothing parked, nobody
        waiting and an empty log. */
    constructor (capacity: nat := 3)
      ensures State() == Lot(capacity, [], [], [])
      ensures Valid()
    {
      this.capacity := capacity;
      stack := [];
      waitingQueue := [];
      removed := [];
    }

    /** Parks `v` on top of the stack, or queues it when the lot is full; refuses a
        number that is already parked or waiting. */
    method ParkVehicle(v: Vehicle) returns (r: ParkResult)
      modifies this
      ensures (State(), r) == Park(old(State()), v)
      ensures old(Valid()) ==> Valid()
    {
      if old(Valid()) {
        ParkConsistent(State(), v);
      }
      if Holds(stack + waitingQueue, v.number) {
        return AlreadyExists;
      }
      if |stack| < capacity {
        stack := stack + [v];
        r := Parked;
      } else {
        waitingQueue := waitingQueue + [v];
        r := Queued;
      }
    }

    /** Removes vehicle `number` at clock reading `now`: unwinds the stack down to
        the target, restores the vehicles it popped, and promotes the head of the
        waiting queue into the freed slot. */
    method RemoveVehicle(number: string, now: int) returns (r: RemoveResult)
      modifies this
      ensures (State(), r) == Remove(old(State()), number, now)
      ensures old(Valid()) ==> Valid()
    {
      ghost var l := State();
      var temp, found, duration := Unwind(number, now);
      ghost var base := |stack|;
      Restore(temp);
      if found {
        RemoveAt(l, number, now, base);
        if waitingQueue != [] {
          var next := waitingQueue[0];
          waitingQueue := waitingQueue[1..];
          stack := stack + [next];
          r := Removed(duration, Some(next.number));
        } else {
          r := Removed(duration, None);
        }
        assert r == Remove(l, number, now).1;
        assert stack == Remove(l, number, now).0.stack;
        assert waitingQueue == Remove(l, number, now).0.queue;
        assert removed == Remove(l, number, now).0.removed;
      } else {
        r := NotFound;
        assert stack == l.stack;
        assert removed == l.removed;
        assert waitingQueue == l.queue;
        assert Remove(l, number, now) == (l, NotFound);
      }
      if old(Valid()) {
        RemoveConsistent(l, number, now);
      }
    }

    /** The unwind loop of a removal: pops vehicles off the top into `temp` (the
        first popped first) until the target comes off, and logs its departure.
        The target is the topmost vehicle with that number; when there is none
        the whole stack ends up in `temp`. */
    method Unwind(number: string, now: int) returns (temp: seq<Vehicle>, found: bool, duration: int)
      modifies this`stack, this`removed
      ensures found <==> Holds(old(stack), number)
      ensures found ==> TopmostIndex(old(stack), number) == Some(|stack|)
      ensures found ==> stack + Reversed(temp) == DeleteAt(old(stack), |stack|)
      ensures found ==> duration == now - old(stack)[|stack|].entryTime
      ensures removed == old(removed) + (if found then [Departure(number, duration)] else [])
      ensures !found ==> stack == [] && Reversed(temp) == old(stack)
    {
      ghost var s := stack;
      temp, found, duration := [], false, 0;
      while stack != []
        invariant s == stack + Reversed(temp)
        invariant forall k :: |stack| <= k < |s| ==> s[k].number != number
        invariant removed == old(removed)
      {
        var v := stack[|stack| - 1];
        assert stack == stack[..|stack| - 1] + [v];
        stack := stack[..|stack| - 1];
        if v.number == number {
          UnwoundTo(s, stack, v, temp);
          TopmostAt(s, number, |stack|);
          duration := now - v.entryTime;
          removed := removed + [Departure(v.number, duration)];
          found := true;
          break;
        }
        UnwoundPast(stack, v, temp);
        temp := temp + [v];
      }
    }

    /** The restore loop of a removal: pushes the popped vehicles back, the last
        popped first, so they are stacked as they were. */
    method Restore(temp: seq<Vehicle>)
      modifies this`stack
      ensures stack == old(stack) + Reversed(temp)
    {
      var t := temp;
      while t != []
        invariant stack + Reversed(t) == old(stack) + Reversed(temp)
      {
        Restacked(stack, t);
        stack := stack + [t[|t| - 1]];
        t := t[..|t| - 1];
      }
    }

    /** The status snapshot; reads the lot and changes nothing. */
    function GetStatus(): (st: Status)
      reads this
      ensures st == StatusOf(State())
      ensures Valid() ==> 0 <= st.availableSlots <= capacity
    {
      Status(stack, waitingQueue, removed, capacity - |stack|)
    }
  }
}
