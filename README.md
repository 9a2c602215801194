# Taking turns and list rotation, modelled in Dafny

This project models two pieces of a set of C# teaching exercises.

- `TakingTurnsQueue` (week02/code/TakingTurnsQueue.cs) is a round-robin turn
  scheduler. Each person is registered with a number of turns, where zero or
  less means unlimited. `GetNextPerson` dequeues the head and returns the
  person with their *original* turn count. An unlimited person always goes
  back to the tail. A finite person has their remaining count decremented in
  place and goes back only while turns remain. An empty queue throws
  `InvalidOperationException("No one in the queue.")`.
- `Arrays.RotateListRight` (week01/code/Arrays.cs) rotates a list right, in
  place, by any amount. It normalises C#'s truncating `amount % n` into
  `[0, n)`, splits the list at `n - r` and refills it with the tail followed by
  the head. A null list throws `ArgumentNullException`.

Files:

- `errors.dfy` (module `Errors`): the two exception kinds as values, plus
  `Result` (a value or an exception) and `Outcome` (a `void` call that may throw).
- `arrays.dfy` (module `Arrays`): the C# remainder, the normalised shift, and
  the rotation specified by index. `RotateListRight` is a method over an
  `array?<T>` that follows the source's algorithm and is proved equal to that
  specification.
- `taking_turns.dfy` (module `TakingTurns`):
  - A value-level specification: `Slot` is the state of one entry,
    `NextPerson`/`NextQueue` are one call, and `Turns`/`After` are a run of
    calls. The turn-accounting lemmas are stated over these.
  - Two classes, `Entry` and `TakingTurnsQueue`. `Entry` has an immutable name
    and original turn count and a mutable `remaining` counter.
    `TakingTurnsQueue` holds a `seq<Entry>` and a ghost `Contents` view. Its
    methods are proved against the value-level step.

## Model

| member | source | states |
|---|---|---|
| `Arrays.Remainder` | week01/code/Arrays.cs:65 | C#'s `amount % n`: magnitude below `n`, same sign as the dividend, and differs from it by a multiple of `n` |
| `Arrays.NormalizedShift` | week01/code/Arrays.cs:65-66 | the shift after adding `n` to a negative remainder lies in `[0, n)` and equals the mathematical `amount mod n`, negative amounts included |
| `Arrays.RotatedRight` | week01/code/Arrays.cs:69-75 | the rotation, specified by index, keeps the list's length |
| `Arrays.RotatedRightMoves` | week01/code/Arrays.cs:69-75 | the element at old index `j` ends at index `(j + amount) mod n` |
| `Arrays.RotatedRightSplit` | week01/code/Arrays.cs:69-75 | for a non-empty list, the rotation is the last `amount mod n` elements followed by the first `n - amount mod n` |
| `Arrays.RotatedRightPermutes` | week01/code/Arrays.cs:69-75 | the rotated list is a permutation (multiset-equal) of the input |
| `Arrays.RotatedRightShort` | week01/code/Arrays.cs:59-63 | a list of zero or one element is unchanged for any amount |
| `Arrays.RotatedRightFull` | week01/code/Arrays.cs:67 | an amount that is a multiple of the length leaves the list unchanged |
| `Arrays.RotatedRightInverse` | week01/code/Arrays.cs:52-76 | rotating by `amount` and then by `-amount` restores the list |
| `Arrays.RotateListRight` | week01/code/Arrays.cs:52-76 | a null list yields `ArgumentNull("data")` with nothing changed; otherwise the call returns normally and the array's new contents are `RotatedRight(old contents, amount)` |
| `Arrays.Refill` | week01/code/Arrays.cs:73-75 | the array ends up holding the tail followed by the head, the order `Clear` then `AddRange(tail)` then `AddRange(head)` leaves the list in |
| `TakingTurns.NewSlot` | week02/code/TakingTurnsQueue.cs:25-32 | a new entry keeps its name and original turns, is infinite iff `turns <= 0`, has `remaining == turns` when finite, and is well formed (finite implies `remaining > 0`, infinite implies `remaining == 0`) |
| `TakingTurns.NextPerson` | week02/code/TakingTurnsQueue.cs:64-74 | fails with `InvalidOperation("No one in the queue.")` exactly when the queue is empty; otherwise returns the head's name and its original turn count, not its remaining count |
| `TakingTurns.NextQueue` | week02/code/TakingTurnsQueue.cs:71-90 | the other entries keep their relative order at the front. An infinite head gives the queue rotated left by one. A finite head comes back at the tail, one turn lower, iff it had more than one turn left. Well-formedness of every entry is preserved |
| `TakingTurns.NextQueueLength` | week02/code/TakingTurnsQueue.cs:76-90 | on a well-formed queue the length drops by one exactly when a finite head has its last turn, and is unchanged otherwise |
| `TakingTurns.NothingOwed` | week02/code/TakingTurnsQueue.cs:23-31 | a well-formed queue owes no turns exactly when every entry is infinite |
| `TakingTurns.BudgetStep` | week02/code/TakingTurnsQueue.cs:81-90 | one call uses up exactly one owed turn when the head is finite and none when it is infinite, per name and in total |
| `TakingTurns.BudgetConserved` | week02/code/TakingTurnsQueue.cs:64-93 | over any number of calls, the turns handed to finite people called `name` plus the turns still owed to them equal the turns owed at the start, so nobody finite is served more often than owed |
| `TakingTurns.FiniteQueueDrains` | week02/code/TakingTurnsQueue.cs:81-90 | a queue of finite people is empty after exactly as many calls as it owes turns, every one of those calls succeeds, and each name is served exactly as often as it was owed |
| `TakingTurns.FinitePersonServedExactly` | week02/code/TakingTurnsQueue.cs:52-90 | a person added with `k > 0` turns under a fresh name behind finite people is served exactly `k` times before the queue runs dry |
| `TakingTurns.InfinitesKept` | week02/code/TakingTurnsQueue.cs:76-80 | after any number of calls the queue holds exactly the same infinite entries |
| `TakingTurns.InfiniteNeverRunsDry` | week02/code/TakingTurnsQueue.cs:66-80 | while an infinite entry is queued, every call succeeds |
| `TakingTurns.Entry.IsInfinite` | week02/code/TakingTurnsQueue.cs:25 | the entry's infiniteness equals `Slot.IsInfinite` on its `Snapshot()`, which depends only on the original turn count being <= 0, not on the remaining count |
| `TakingTurns.Entry.constructor` | week02/code/TakingTurnsQueue.cs:27-32 | a new entry's state is `NewSlot(name, originalTurns)` |
| `TakingTurns.TakingTurnsQueue.constructor` | week02/code/TakingTurnsQueue.cs:37-40 | a new queue is valid and empty |
| `TakingTurns.TakingTurnsQueue.Length` | week02/code/TakingTurnsQueue.cs:45 | the length is the number of entries in the queue |
| `TakingTurns.TakingTurnsQueue.AddPerson` | week02/code/TakingTurnsQueue.cs:52-57 | appends exactly one new entry at the tail, leaves the existing entries unchanged and in order, and keeps the queue valid |
| `TakingTurns.TakingTurnsQueue.GetNextPerson` | week02/code/TakingTurnsQueue.cs:64-93 | returns `NextPerson` of the old queue and leaves the queue as `NextQueue` of the old one; on an empty queue it fails and nothing changes; only the head entry's counter is written |

## Left out

- `Arrays.MultiplesOf` (week01/code/Arrays.cs:18-37) is not modelled. Its whole purpose is `double` multiplication, which is floating point.
- `PriorityQueue` is not part of this model. Its implementation is not among the modelled files, and its tests are test-harness plumbing.
- `Person` is not part of this model as a class. It is a plain datatype `Person(name, turns)`.
- `AddPerson`'s `ArgumentNullException` for a null name (TakingTurnsQueue.cs:54) is not modelled. A Dafny `string` is a value and cannot be null.
- `RotateListRight`'s `List<T>` is modelled as a nullable fixed-length array. The source's `GetRange` copies become sequence slices, and `Clear`/`AddRange` become element writes in the same order. List capacity and growth are not modelled, because rotation never changes the length.
- 32-bit `int` arithmetic is not modelled: `amount`, turn counts and `Remaining` are unbounded integers. The model proves `Remaining > 0` before every decrement, so the counter never wraps. `int.MinValue` amounts are not special-cased.
- FinitePersonServedExactly: proves "served exactly `k` times" only when every other queued entry is finite. With unlimited people also queued, `BudgetConserved` proves only the upper bound "never more than `k` times", plus the exact count once the queue owes no more turns. The number of calls needed to get there is not bounded. It also requires that no other entry has the same name; entries sharing a name are covered only in total per name, by `FiniteQueueDrains`.
- Concurrency: none exists in the source, and the single-threaded use is assumed.
