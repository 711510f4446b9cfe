# Hotel room reservation: the allocation core in Dafny

`HotelRoomSystem` runs a hotel of 97 rooms: floors 1 to 9 hold ten rooms each,
numbered `floor * 100 + position`, and floor 10 holds seven, numbered
`1000 + position`. Moving between rooms costs two minutes per floor plus one
minute per room along the corridor. A guest asks for `k` rooms and the system
books the set it judges quickest to walk. Two versions of the class exist, and
both are modelled here:

- `server.js`, the primary version. `findOptimalRooms` scans every floor with
  at least `k` free rooms. For each such floor it looks at every run of `k`
  rooms in position order and keeps the first strictly cheapest run. When no
  floor qualifies it falls back to `findCrossFloorOptimalRooms`. That tries
  every k-subset of the free rooms, produced by a backtracking generator, and
  sorts each subset by floor then position. `bookRooms(k)` occupies the chosen
  rooms under the next booking id and records room number to id in
  `bookings`. `generateRandomOccupancy` resets everything, then books the
  first rooms of a shuffle, each under its own id. `resetAllBookings` and
  `getRoomStatus` complete the class.
- `api/index.js`, a variant. Its allocator returns the first free room when
  one room is wanted. Otherwise it returns the first `k` free rooms of the
  lowest floor that has `k`, and failing that the k-subset whose travel times
  summed over all pairs are least. Its `bookRooms` takes room numbers and
  skips any number that names no room or a taken room. Its random fill
  records no bookings.

Rooms live in one `seq<Room>`. A selection is a sequence of indices into it,
which stands in for JavaScript's shared room objects. Modules follow the
program's structure:

| module | what it holds |
|---|---|
| `Rooms` | the catalogue |
| `Travel` | the metric and path cost |
| `Sorting` | the two comparator sorts, as a stable insertion sort |
| `Combinations` | the generator and the strict running minimum |
| `Availability` | free rooms and floor grouping |
| `Scan` | the window scan, over abstract floor sizes and costs |
| `Allocator` | the primary `findOptimalRooms` |
| `Occupancy` | room updates, slice arithmetic and status, shared by both versions |
| `Server` | the primary hotel state |
| `ApiAllocator` | the variant's allocator |
| `ApiServer` | the variant's hotel state |

Behaviours kept exactly as the code has them:

- When the primary allocator takes the cross-floor path, it reports the travel
  time `Infinity`. This is modelled as `None`, because `minTravelTime` of
  `findOptimalRooms` is never updated on that path.
- `for (const floor in roomsByFloor)` visits array-index keys (non-negative
  integers) first, in ascending numeric order, as section 10.1.11.1 of
  ECMA-262 (OrdinaryOwnPropertyKeys) requires. Every floor of the hotel is such
  a key, so the model scans floors lowest first.
- `slice(0, n)` counts a negative `n` from the back and clamps to the length.
  `SliceEnd` gives the length kept, and `SliceKeeps` says which positions are
  kept, following section 23.1.3.28 of ECMA-262.
- `Array.prototype.sort` is stable (section 23.1.3.30 of ECMA-262). The model
  sorts by insertion, which keeps rooms the comparator ties in input order.
- The variant's random fill reports the requested count, whatever `slice`
  kept.

## Model

| member | source | states |
|---|---|---|
| Rooms.InitializeRooms | server.js:25-55 | the catalogue holds 97 rooms, each available and unbooked, on floors 1-10, with positions 1-10 below floor 10 and 1-7 on it |
| Rooms.InitializeRoomsLayout | server.js:25-55 | the catalogue holds 97 rooms: floors 1-9 with positions 1-10 and floor 10 with positions 1-7; each is numbered floor*100+position (1000+position on floor 10), starts available and unbooked, and the list rises strictly in (floor, position) and in number |
| Rooms.LoopsShape | server.js:29-52 | loops over `lower` floors of ten rooms, then `top` rooms on floor 10, push 10*lower+top rooms: index i below 10*lower holds position i%10+1 of floor i/10+1, numbered floor*100+position; the next `top` indices hold positions 1.. of floor 10, numbered 1000+position |
| Rooms.InitializeRoomsIsLoops | server.js:29-52 | the two nested loops push exactly the catalogue, in its order, if and only if their bounds are the source's: nine floors of ten, then seven on floor 10 |
| Rooms.InitializeRoomsCoversLayout | server.js:25-55 | every (floor, position) of the layout has a room, at a stated index |
| Rooms.CatalogueOrder | server.js:25-55 | earlier catalogue entries sit at earlier (floor, position) places and carry lower numbers |
| Occupancy.CatalogueConsistent | server.js:18-23 | the constructor's rooms are in place order with unique numbers, and all are free |
| Travel.TravelTime | server.js:58-69 | travel time is zero exactly between rooms at one place; it is the position gap on one floor and twice the floor gap at one position |
| Travel.TravelTimeIsMetric | server.js:58-69 | travel time is symmetric and obeys the triangle inequality |
| Travel.CalculateTotalTravelTime | server.js:72-80 | the loop over consecutive pairs computes the path cost: 0 for fewer than two rooms, the single hop for two |
| Travel.PathCostSplit | server.js:72-80 | the path cost splits at any interior room into the two halves plus the hop between them |
| Travel.PathCostTelescopes | server.js:72-80 | on one floor with rising positions, the path cost is the last position minus the first |
| Travel.WindowNoWorseThanSubset | server.js:106-123 | on a floor listed by rising position, the contiguous run that starts where a pick starts costs no more than the pick |
| Sorting.SortIndicesCorrect | server.js:110 | the sort's result is ordered by the comparator; it equals an already-ordered input and keeps a duplicate-free input duplicate-free |
| Sorting.SortIndicesPermutes | server.js:148-153 | the sort's result is a permutation of its input, as a multiset |
| Sorting.SortIndices | server.js:110 | the sort returns a list of the same length with the same members, all indices of the room list |
| Sorting.SortIndicesStable | server.js:148-153 | rooms the comparator ties keep their input order: the tied subsequence of the result equals that of the input |
| Sorting.InsertSorted | server.js:148-153 | inserting into an ordered list keeps it ordered |
| Combinations.GenerateCombinations | server.js:167-185 | every combination the generator emits has exactly k rooms |
| Combinations.Backtrack | server.js:170-181 | `backtrack(start, current)` emits nothing once `current` is longer than k; otherwise each emission has k rooms and begins with `current` |
| Combinations.BacktrackFrom | server.js:176-180 | the loop over `i` from `start` emits nothing once `current` has k rooms; otherwise each emission has k rooms and begins with `current` |
| Combinations.GenerateCombinationsIsChoose | server.js:167-185 | the backtracking generator emits exactly the reference enumeration of k-subsequences, in the same order |
| Combinations.BacktrackMatchesChoose | server.js:170-181 | `backtrack(start, current)` emits `current` extended by each k-subsequence of the rest, in order |
| Combinations.GeneratedCombinations | server.js:167-185 | over an increasing list the generator lists only k-subsets, every k-subset, in strictly increasing lexicographic order, and at least one when k fits |
| Combinations.ChooseComplete | server.js:167-185 | every k-subset of an increasing list is enumerated |
| Combinations.ChooseOrdered | server.js:167-185 | the enumeration is strictly increasing in lexicographic order, so no subset appears twice |
| Combinations.FirstMin | server.js:143-161 | the strict running minimum finds nothing only in an empty list; otherwise it finds a cheapest candidate, and every earlier candidate is strictly dearer |
| Combinations.FirstCheapestCombination | server.js:141-164 | over the generator's output, the running minimum picks a cheapest k-subset, and every lexicographically earlier k-subset is strictly dearer |
| Availability.IndicesWhere | server.js:84 | the filter keeps exactly the rooms whose flag matches, in ascending index order |
| Availability.AvailablePlusBooked | server.js:254-255 | every room is counted once, as available or as booked |
| Availability.FloorGroup | server.js:94-100 | `roomsByFloor[f]` holds exactly the free rooms of floor f, in list order |
| Availability.FloorKeys | server.js:106 | `for…in` visits every floor that has a free room, once each, lowest first |
| Availability.SortedFloorContents | server.js:107-110 | a floor's sorted list holds exactly its free rooms, once each, ascending by position |
| Scan.ScanFindsBest | server.js:102-123 | the two scan loops end with the first cheapest window in (floor, start) order; every window is at least as dear, every earlier one strictly dearer; they end with nothing when no floor is big enough |
| Scan.ScanWindowsWith | server.js:113-121 | the inner loop keeps the running best or replaces it with a fitting window of this floor, from the current start on, at its own cost; it never makes a held best dearer |
| Scan.ScanFloorsWith | server.js:106-123 | the outer loop keeps the running best or replaces it with a fitting window on a remaining floor, at its own cost; it never makes a held best dearer |
| Scan.ScanFloorsCorrect | server.js:106-123 | the outer loop keeps the running minimum the first cheapest window seen so far |
| Scan.ScanWindowsCorrect | server.js:113-121 | the inner loop keeps the running minimum the first cheapest window seen so far |
| Allocator.FindOptimalRooms | server.js:83-138 | the allocator fails, reporting the free count, exactly when fewer than k rooms are free; otherwise it answers k rooms |
| Allocator.ScanFindsFirstCheapestWindow | server.js:102-123 | on this hotel, the scan ends holding the first cheapest run of k rooms on any floor, or nothing when no floor has k free rooms |
| Allocator.SingleFloorPreference | server.js:102-137 | when some floor has k free rooms, the answer is one floor's first cheapest run of k position-sorted rooms, reported with its cost |
| Allocator.NoWindowWhenFloorsTooSmall | server.js:108 | with no floor holding k free rooms, the scan ends with nothing |
| Allocator.CrossFloorFallback | server.js:125-164 | otherwise the answer is a cheapest k-subset of the free rooms, sorted by floor then position, with travel time Infinity (None); earlier subsets in lexicographic order are strictly dearer |
| Allocator.FindCrossFloorOptimalRooms | server.js:141-164 | the cross-floor search answers exactly when k rooms are free; its answer is k indices of the list, sorted by floor then position |
| Allocator.CrossFloorSpansFloors | server.js:125-131 | a cross-floor answer of two or more rooms spans at least two floors |
| Allocator.AllocationIsValid | server.js:83-138 | every answer is k distinct free rooms, and a reported travel time is their path cost in the order given |
| Allocator.SingleRoomCostsNothing | server.js:113-121 | one room, when any is free, comes back with travel time 0 |
| Allocator.SingleFloorBeatsEverySubset | server.js:106-123 | in a hotel in place order, the reported time never exceeds that of any k free rooms of one floor walked in position order |
| Allocator.WindowRooms | server.js:113-114 | a window is k distinct free rooms of its floor |
| Occupancy.ResetRoomsFreesAll | server.js:238-244 | reset frees every room and clears every id, changes no identity, lists every room as free, and is idempotent |
| Occupancy.MarkRooms | server.js:199-203 | exactly the chosen rooms become occupied under the id; the rest are unchanged |
| Occupancy.MarkRoomsCount | server.js:199-203 | occupying k distinct free rooms lowers the free count by exactly k |
| Occupancy.AssignIds | server.js:224-228 | the t-th room of the order is occupied under id first+t; rooms outside the order are unchanged |
| Occupancy.SliceEnd | server.js:222 | the length `slice(0, end)` keeps never exceeds the list's |
| Occupancy.SliceEndUnique | server.js:222 | a length m is `SliceEnd` exactly when the positions below m are exactly the positions `slice(0, end)` keeps (below `end`, or below length+end when `end` is negative) |
| Occupancy.PermutationCovers | server.js:221 | a shuffle of all room indices contains every index |
| Occupancy.GetRoomStatus | server.js:250-257 | the status holds the rooms and the total; the available count is the number of free rooms; available plus booked is the total |
| Server.RecordBooking | server.js:202 | the chosen numbers map to the id; every other entry is kept |
| Server.NewHotel | server.js:18-23 | the constructor yields 97 free, unbooked rooms, no bookings and next id 1 |
| Server.ResetAllBookings | server.js:238-247 | reset frees every room, clears every id and the bookings, sets the next id to 1 and keeps identities |
| Server.ResetReportsAllAvailable | server.js:238-257 | after a reset the status report counts every room available and none booked |
| Server.BookRooms | server.js:188-211 | a booking is rejected, with the state unchanged, exactly when fewer than k rooms are free; otherwise it returns the allocator's rooms and travel time, uses the next id, advances it, occupies those k rooms and records them |
| Server.BookingReportsTravelTime | server.js:188-211 | a booking reports no travel time exactly when no floor had k free rooms; a reported time is the path cost of the booked rooms in the order given |
| Server.BookingMarksChosenRooms | server.js:188-211 | a booking occupies exactly the chosen rooms, all free before and none twice, under its id; it records each number under that id and keeps every other room and entry |
| Server.BookingTakesK | server.js:188-211 | a successful booking takes exactly k rooms off the free count |
| Server.GenerateRandomOccupancy | server.js:214-235 | random fill reports the total and the number of rooms slice kept; the next id follows that count; identities are unchanged |
| Server.RandomFillBooksPrefix | server.js:221-228 | the t-th room of the shuffle, below the count, is occupied under id t+1, and bookings maps its number to t+1 |
| Server.RandomFillLeavesRest | server.js:221-228 | rooms of the shuffle from the count on are free |
| Server.RandomFillRecordsBooked | server.js:224-228 | after random fill, bookings holds exactly the numbers of the booked rooms |
| Server.NewHotelConsistent | server.js:18-23 | the constructed hotel satisfies the state invariant: place order, unique numbers, flags matching ids, ids issued below the next id, bookings matching rooms |
| Server.BookingKeepsConsistent | server.js:188-211 | booking preserves the state invariant |
| Server.RecordKeepsMatch | server.js:199-203 | occupying rooms and recording their numbers under one id keeps bookings matching the rooms |
| Server.ResetKeepsConsistent | server.js:238-247 | reset preserves the state invariant |
| Server.RandomFillKeepsConsistent | server.js:214-235 | random fill preserves the state invariant |
| ApiAllocator.PairTravelTime | api/index.js:106-111 | the nested loop sums the travel time over every unordered pair of rooms |
| ApiAllocator.AllPairsAtLeastPath | api/index.js:106-111 | the all-pairs cost is never below the consecutive-pairs path cost the primary version uses |
| ApiAllocator.FindOptimalRooms | api/index.js:69-120 | the variant fails exactly when fewer than k rooms are free; otherwise it answers k rooms |
| ApiAllocator.FirstQualifyingFloor | api/index.js:91-96 | the loop returns a floor with k free rooms, before which no visited floor qualifies; it returns none when no visited floor qualifies |
| ApiAllocator.SingleRoomIsFirstAvailable | api/index.js:77-79 | one room is the first free room of the list |
| ApiAllocator.LowestQualifyingFloor | api/index.js:82-96 | the loop finds the lowest floor that has k free rooms |
| ApiAllocator.SingleFloorIsLowestFloor | api/index.js:82-96 | for two or more rooms, when a floor qualifies, the answer is the first k free rooms of the lowest such floor |
| ApiAllocator.CrossFloorMinimisesAllPairs | api/index.js:98-119 | otherwise the answer is a k-subset of the free rooms with the least all-pairs cost; lexicographically earlier subsets are strictly dearer |
| ApiAllocator.CheapestCombination | api/index.js:103-117 | the running minimum over the generator's output is a least-cost k-subset; earlier ones are strictly dearer |
| ApiAllocator.SelectionIsValid | api/index.js:69-120 | every answer is k distinct free rooms |
| ApiServer.FindRoom | api/index.js:149 | the lookup finds the first room with the number, or none when no room has it |
| ApiServer.FindRoomOfNumber | api/index.js:149 | with unique numbers, looking up a room's number finds that room |
| ApiServer.BookEach | api/index.js:148-155 | the loop occupies exactly the free rooms that some listed number finds, once each, and skips the rest |
| ApiServer.BookRooms | api/index.js:144-164 | a booking always takes and advances the next id and stores its record under it; its rooms are distinct free rooms, now occupied under the id |
| ApiServer.BookRoomsTakesListedAvailable | api/index.js:144-164 | with unique numbers, a booking takes exactly the free rooms whose numbers were listed |
| ApiServer.EmptyBookingUsesId | api/index.js:144-164 | when no listed number names a free room, an empty booking is still stored and the id used up, with the rooms unchanged |
| ApiServer.BookEachOfNumbers | api/index.js:148-155 | booking the numbers of distinct free rooms books exactly those rooms, in order |
| ApiServer.RouteBooksAllocatorChoice | api/index.js:216-231 | the route books exactly the allocator's rooms under the next id, taking k rooms off the free count |
| ApiServer.ResetAllBookings | api/index.js:185-194 | reset frees every room, clears bookings, sets the next id to 1 and keeps identities |
| ApiServer.GenerateRandomOccupancy | api/index.js:167-183 | random fill reports the requested count and records no booking; it occupies the t-th shuffled room, below the count slice kept, under id t+1, and leaves every other room free |
| ApiServer.ReportedCountIsBooked | api/index.js:171-182 | the reported count equals the number of rooms booked exactly when the requested count lies between 0 and the number of rooms |
| ApiServer.NewHotel | api/index.js:18-23 | the constructor yields 97 free, unbooked rooms, no bookings and next id 1 |
| ApiServer.NewHotelConsistent | api/index.js:18-23 | the constructed variant hotel satisfies its state invariant |
| ApiServer.BookingKeepsConsistent | api/index.js:144-164 | booking by numbers preserves the state invariant |
| ApiServer.ResetKeepsConsistent | api/index.js:185-194 | reset preserves the state invariant |
| ApiServer.RandomFillKeepsConsistent | api/index.js:167-183 | random fill preserves the state invariant |

## Left out

- The Express routes, static file serving and the listening server are left out. The routes' guard `numRooms >= 1` becomes `requires k >= 1` on both allocators. The primary route's upper bound of 5 is not required, since the allocator itself does not need it.
- `findOptimalRooms` with `numRooms` of 0 is left out, because the routes never call it with 0.
- `numRooms` is taken to be a whole number. The routes' guards would let a fractional value such as 1.5 through, and that path is not modelled.
- Floors are assumed to be non-negative integers, so that `for…in` visits them in ascending order. Every reachable state has floors 1 to 10; a negative floor would be visited after the others, in insertion order, and that is not modelled.
- The React client in client/src/App.js is not part of this model.
- `Math.random` and the percentage are left out. The shuffle is a parameter `perm`, a permutation of the room indices. `Math.floor(totalRooms * percentage)` is a parameter `count`, an integer, so no floating-point arithmetic is modelled. The comparator-based shuffle's distribution is not modelled.
- The variant's booking `timestamp` (`new Date()`) and all message strings are left out. Failures are datatype constructors that carry the numbers the messages print.
- Running time is not modelled. The cross-floor search is exponential in the number of free rooms.
- The variant's `initializeRooms`, `calculateTravelTime`, `generateCombinations` and `getRoomStatus` compute the same thing as the primary version's; its `calculateTravelTime` writes the corridor term as `positionDiff * 1`. Both versions share one model of each.
- JavaScript object identity is not modelled. The shared room objects that `bookRooms` mutates through the allocator's result are indices into the room list. The variant's booking record stores room indices, not room objects.
- Server.Consistent and ApiServer.Consistent assume rooms in (floor, position) order with unique numbers. The constructor establishes this (`Server.NewHotelConsistent`, `ApiServer.NewHotelConsistent`), and every transition keeps it.
- Allocator.SingleFloorBeatsEverySubset: compares the window only with picks from one floor walked in position order, and assumes rooms listed in (floor, position) order, as every reachable state lists them.
- Server.GenerateRandomOccupancy: needs unique room numbers, which every reachable state has. Without them, a later room would overwrite an earlier room's entry in `bookings`.
