# Smart parking: the slot-allocation engine in Dafny

This project models the core of the Smart Parking System, the `ParkingLot` class of
`smart_parking.py` and the `Vehicle` record it stores, and proves properties of it.
A lot has a fixed number of slots arranged as a last-in/first-out stack, like an
over/under garage: the most recently parked vehicle blocks all the others. When every
slot is taken, new arrivals wait in a first-in/first-out queue. A departure log records
each vehicle that leaves and how long it stayed.

- `lot_state.dfy`, module `LotState`, has the data model. It defines `Vehicle`, the
  departure record, the result datatypes that replace the source's messages, and the
  lot state as a value (`Lot`). It gives the three operations as functions of the old
  state: `Park`, `Remove` and `StatusOf`. It also defines the lot invariant
  `Consistent`, with the lemmas showing that both state-changing operations keep it.
- `parking_lot.dfy`, module `SmartParking`, has the class `ParkingLot`. Its fields
  `stack`, `waitingQueue` and `removed` are updated in place, as the source's `self.`
  attributes are.
  - `ParkVehicle` appends to the stack or to the queue.
  - `RemoveVehicle` runs the unwind-and-restore algorithm. Its first while-loop pops
    vehicles off the top into `temp` until the target comes off, and logs the
    departure when it does. That loop is the method `Unwind`. Its second while-loop
    pushes `temp` back, the last popped first. That loop is the method `Restore`.
    Then `RemoveVehicle` promotes the head of the queue.
  - Each method is proved to produce exactly the state that the matching `LotState`
    function gives, and to keep the invariant.
- `lot_properties.dfy`, module `LotProperties`, proves properties that involve
  several calls or an independent reference definition:
  - removal keeps the other vehicles in order (compared with a filter, `Without`);
  - a vehicle moves between containers and is never copied;
  - a queued vehicle cannot be removed;
  - parking a vehicle and then removing it undoes the parking;
  - distinct arrivals are admitted in arrival order;
  - every run of requests keeps the invariant and leaves the departure log append-only;
  - three small usage scenarios give the expected results.

The clock is a parameter. A `Vehicle` carries the integer clock reading taken when it
was created, and `Remove` takes the current reading `now`. The parked stack is listed
bottom first: its last element is the top.

Where the system's documented design and its code differ, the model follows the code:
- The round trip "park X, then remove X restores parked and waiting" holds only when
  a slot was free (`LotProperties.ParkThenRemove`). When the lot is full, X is queued.
  Removal never searches the queue, so it reports not found and X stays queued
  (`LotProperties.ParkFullThenRemove`).
- `park_vehicle` receives a `Vehicle` that the caller already created, with its entry
  time. The model's `Park` does the same and does not create the vehicle itself.

## Model

| member | source | states |
|---|---|---|
| `LotState.Park` | smart_parking.py:22-31 | The result is "already exists" exactly when the number is on the stack or in the queue, and then nothing changes. The result is "parked" exactly when the number is new and the stack has room, and then the vehicle is the new top and the queue is unchanged. Otherwise the vehicle is appended to the tail of the queue and the stack is unchanged. |
| `SmartParking.ParkingLot.ParkVehicle` | smart_parking.py:22-31 | The in-place update leaves the object in the state `Park` gives, returns `Park`'s result, and keeps the lot invariant. |
| `LotState.ParkConsistent` | smart_parking.py:23-31 | Parking keeps the lot invariant: the stack stays within capacity, no number appears twice across stack and queue, and nobody waits while a slot is free. |
| `LotState.TopmostIndex` | smart_parking.py:36-42 | The unwind loop stops at the topmost vehicle carrying the number. This function returns its position, and returns nothing exactly when no parked vehicle carries the number. |
| `LotState.TopmostAt` | smart_parking.py:36-42 | A vehicle that carries the number, with none above it carrying the number, is the one the unwind loop stops at. |
| `LotState.DeleteAt` | smart_parking.py:36-46 | Taking out one position keeps every vehicle below it in place and shifts every vehicle above it down by one, in the same order. |
| `LotState.Remove` | smart_parking.py:33-57 | The result is "not found" exactly when no parked vehicle carries the number, and then nothing changes. Otherwise the log gains exactly one record (the number and its duration) at its end, the stack shrinks by one, or keeps its size when a vehicle is promoted, and the promoted vehicle is the queue head. |
| `LotState.RemoveAt` | smart_parking.py:36-57 | Spells out a removal whose target is at position i. The log gains `(number, now - entry time)`. The stack becomes the old stack without position i, with the queue head on top when the queue is non-empty. The queue loses its head. |
| `SmartParking.ParkingLot.RemoveVehicle` | smart_parking.py:33-57 | The two loops and the promotion leave the object in the state `Remove` gives, return `Remove`'s result, and keep the lot invariant. |
| `SmartParking.ParkingLot.Unwind` | smart_parking.py:34-44 | The first loop pops vehicles off the top into `temp`. It finds the target exactly when the number is parked, and then stops at the topmost such vehicle. Whatever is left on the stack plus `temp` put back is the old stack without the target. The log gains the target's departure. When the target is not found, the whole stack ends up in `temp`, in reverse, and the log is unchanged. |
| `SmartParking.ParkingLot.Restore` | smart_parking.py:45-46 | The second loop pushes `temp` back, the last popped first, so the vehicles are restacked in their original order. |
| `LotState.LiveAfterRemove` | smart_parking.py:49-53 | After a successful removal, the parked and waiting vehicles together are the old ones minus the target. The promoted vehicle is moved from the queue to the stack, not copied. |
| `LotState.RemoveConsistent` | smart_parking.py:33-57 | Removal keeps the lot invariant. It frees one slot and fills it with at most one promoted vehicle, so a non-empty queue still means a full stack. |
| `LotProperties.Without` | smart_parking.py:36-46 | Reference definition of the target's removal: the stack with that number filtered out. The result never carries the number. |
| `LotProperties.DeleteTopmostIsWithout` | smart_parking.py:36-46 | When numbers are distinct, taking out the topmost vehicle with the number equals filtering the number out. |
| `LotProperties.RemoveKeepsOrder` | smart_parking.py:36-53 | Under the lot invariant, the stack after a removal, below any promoted vehicle, is the old stack with the target filtered out, so every other vehicle keeps its relative order. A promoted vehicle is the old queue head, now on top, and the rest of the queue keeps its order. |
| `LotProperties.RemoveOwnership` | smart_parking.py:36-53 | A successful removal takes exactly one vehicle out of stack and queue together: the vehicle with the target number and the entry time that the reported duration recovers. Afterwards no parked or waiting vehicle carries that number. |
| `LotProperties.RemoveQueuedMisses` | smart_parking.py:33-57 | Removing a vehicle that is waiting in the queue reports "not found" and leaves the whole lot unchanged, because the queue is never searched. |
| `LotProperties.ParkThenRemove` | smart_parking.py:22-57 | When a slot is free, parking a new vehicle and then removing it restores the stack and the queue exactly. Only the log gains `(number, now - entry time)`, and that duration is not negative when `now` is not before the entry time. |
| `LotProperties.ParkFullThenRemove` | smart_parking.py:26-57 | When the lot is full, a new vehicle is queued at the tail. Removing it right away reports "not found" and changes nothing. |
| `LotProperties.ParkAllFromEmpty` | smart_parking.py:26-31 | Parking distinct vehicles one by one in an empty lot puts the first `capacity` of them on the stack and the rest in the queue, both in arrival order. |
| `LotProperties.RunConsistent` | smart_parking.py:22-57 | After any sequence of park and remove requests, the invariant still holds and the capacity is unchanged. The old departure log is a prefix of the new one. |
| `LotState.EmptyConsistent` | smart_parking.py:16-20 | A new, empty lot satisfies the lot invariant. |
| `SmartParking.ParkingLot.constructor` | smart_parking.py:16-20 | A new lot has the given capacity, three unless given, and an empty stack, queue and log. |
| `LotState.StatusOf` | smart_parking.py:59-65 | The snapshot lists the parked vehicles, the waiting vehicles and the log as they are. The free slots plus the parked vehicles equal the capacity, and the free slots are never negative in a consistent lot. |
| `SmartParking.ParkingLot.GetStatus` | smart_parking.py:59-65 | Reading the status changes nothing and returns `StatusOf` of the object's state. The number of free slots is between 0 and the capacity. |
| `LotProperties.ScenarioArrivals` | smart_parking.py:22-31 | With two slots, A and B are parked and C is queued. |
| `LotProperties.ScenarioPromotion` | smart_parking.py:33-57 | Removing A from that lot logs A's duration and promotes C. The stack becomes B under C and the queue empties. |
| `LotProperties.ScenarioEmptyRemove` | smart_parking.py:33-57 | Removing from an empty lot reports "not found" and changes nothing. |
| `LotProperties.ScenarioSingleSlot` | smart_parking.py:22-57 | With one slot: A parks, a second A is refused, A is removed, and removing A again reports "not found". |

## Left out

- The tkinter interface (`UserGUI`, `AdminGUI`, `LoginRegisterGUI`) and `main`: presentation and event-loop code.
- `load_users` and `save_users`: reading and writing the user file, with the fallback to an empty mapping.
- The hard-coded admin credentials and the checks on registration fields: they belong to the interface.
- The module-level shared `parking_lot` instance: wiring, not logic.
- Clock details: `time.time()` becomes an integer parameter, and durations are integers rather than floats. The `entry_datetime` display string and the two-decimal formatting are not modelled.
- The message strings: `ParkResult` and `RemoveResult` stand for them, with the duration and the promoted number as data.
- SmartParking.ParkingLot.constructor: takes the capacity as a natural number. The source accepts any integer, and a negative capacity would send every vehicle to the queue.
- SmartParking.ParkingLot.GetStatus: returns values. The source's dictionary holds the live `stack` and `removed` lists themselves, so later changes show through it. That aliasing is not modelled.
- `waiting_queue` is a `deque` in the source. Here it is a sequence whose head is element 0, and `popleft` becomes dropping that element.
