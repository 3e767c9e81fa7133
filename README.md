# Move-list pool of Fairy-Stockfish, modelled in Dafny

The engine's search builds one list of candidate moves at every node it
visits. Instead of a fresh allocation each time, it takes a buffer from a
per-thread pool, `movelist_buf`. The pool carves one backing array into
`list_count` slots of `move_count` scored moves each. It hands the slots out
through a stack of slot addresses with a cursor `top`: `acquire` pops,
`release` pushes back. The last stack cell holds a null guard, so only
`list_count - 1` real slots exist. `MoveList<T>` ties one slot to one
scope. Its constructor acquires a slot and lets the move generator fill it.
Its destructor releases the slot. In between it offers `begin`, `end`,
`size` and `contains`. `ExtMove` is the scored-move record stored in the
slots.

The project has four modules:

- `ExtMoves` (`extmove.dfy`): `ExtMove`, its score-only ordering, the
  conversion to and assignment from `Move`, and the `std::find` scan used by
  `contains`.
- `PoolModel` (`pool_model.dfy`): the stack and cursor as a value
  (`PoolState`), with pointers as `Ptr = Null | Addr(offset)`, where
  `Addr(o)` means `data + o`. It defines the layout `init` builds, the
  `acquire` and `release` transitions, and the nested acquire/release
  pattern of a recursive search (`Search`, `Run`). It holds the LIFO
  round-trip, capacity and slot-layout lemmas.
- `MovelistBuffer` (`movelist_buf.dfy`): the class `MovelistBuf`. It has
  the two arrays, the cursor and the operations `init`, `reinit`,
  `shutdown`, `acquire` and `release`. Each method states its whole new
  state. `Acquire` and `Release` tie it to the `PoolModel` transition of the
  old state, `Init` and `Reinit` to the layout `InitialStack`, and
  `Shutdown` says both arrays become null.
- `MoveLists` (`movelist.dfy`): the class `MoveList` (constructor,
  destructor `Dispose`, `Begin`, `End`, `Size`, `Contains`). It also has
  `RunSearch`, which plays a recursive search against a real pool and
  shows that the pool follows `PoolModel.Run` and writes only the slots it
  hands out. Three client methods use it. `SearchOnFreshPool` and
  `OuterListSurvivesSearch` hold for every search. `NestedScenario` runs one
  fixed scenario.

## Model

| member | source | states |
|---|---|---|
| `ExtMoves.Less` | src/movegen.h:54-56 | `operator<`: compares the two scores and nothing else (its order properties are the two lemmas below) |
| `ExtMoves.ToMove` | src/movegen.h:46 | `operator Move`: yields the move component and drops the score |
| `ExtMoves.AssignMove` | src/movegen.h:47 | assigning a `Move` sets the move, keeps the score, and so leaves the record's place in the ordering unchanged |
| `ExtMoves.LessIgnoresMove` | src/movegen.h:54-56 | `<` on scored moves does not depend on the move component |
| `ExtMoves.LessIsStrictWeakOrder` | src/movegen.h:54-56 | `<` is irreflexive and transitive, and two records are incomparable exactly when their scores are equal |
| `ExtMoves.Find` | src/movegen.h:165 | `std::find` returns the first index whose move equals `m`, or the end when no entry has it |
| `ExtMoves.Contains` | src/movegen.h:164-166 | `contains(m)` holds exactly when some entry of the range has move `m` |
| `ExtMoves.ContainsIgnoresValues` | src/movegen.h:46 | through the `Move` conversion, scores play no part in the scan: ranges with the same moves give the same `find` index and `contains` answer |
| `PoolModel.InitialStack` | src/movegen.h:84-92 | the stack `init` builds has `list_count` cells; cell `i < list_count-1` is `data + i*move_count` and the last cell is the null guard |
| `PoolModel.Acquire` | src/movegen.h:123-126 | `acquire` leaves the cursor inside the stack, and `release` of the pointer it returned restores the whole stack and the cursor |
| `PoolModel.Release` | src/movegen.h:128-131 | `release(ptr)` lowers the cursor by one and stores `ptr` in the cell it lands on; every other cell keeps its value |
| `PoolModel.ReleaseThenAcquire` | src/movegen.h:123-131 | the pointer just released is the next one `acquire` returns, and only that one stack cell was written |
| `PoolModel.AcquireMany` | src/movegen.h:123-126 | `k` acquires in a row raise the cursor by `k`, leave the stack unchanged and return `k` pointers |
| `PoolModel.AcquireManyReadsStack` | src/movegen.h:123-126 | `k` acquires with no release in between return the stack cells `[top, top+k)` in order, raise the cursor by `k`, and leave the stack unchanged |
| `PoolModel.InitialSlotsDisjoint` | src/movegen.h:85-89 | after `init`, any two non-guard cells address slots of `move_count` entries that do not overlap and that lie inside `data` |
| `PoolModel.InitialSlotWithin` | src/movegen.h:85-89 | after `init`, non-guard cell `i` is `data + i*move_count`, and that whole slot lies inside `data` |
| `PoolModel.FreshPoolHoldsSlots` | src/movegen.h:84-92 | after `init`, the `list_count - 1` cells above a zero cursor are all whole slots inside `data` |
| `PoolModel.FreshPoolCapacity` | src/movegen.h:87-92 | from a fresh pool with `top == 0`, the first `list_count - 1` acquires return pairwise distinct non-null slots, and the `list_count`-th returns the null guard |
| `PoolModel.Run` | src/movegen.h:149-159 | a properly nested search leaves the cursor where it was and keeps the stack's size, so every release happens on a non-empty stack |
| `PoolModel.RunRestores` | src/movegen.h:123-131 | any properly nested (LIFO) sequence of acquires and releases leaves stack and cursor exactly as they were |
| `PoolModel.ReuseAfterSearch` | src/movegen.h:123-131 | after a complete nested search, the next acquire returns the same address as the first acquire before it |
| `PoolModel.GrantsFollowDepth` | src/movegen.h:152-158 | in a nested search, every move list is granted with its nesting level `d` (counted from the outermost nodes), `d` is below the search's depth, and the list gets stack cell `top + d` as it was before the search |
| `MovelistBuffer.MovelistBuf.constructor` | src/movegen.h:77 | a new pool records its list count, allocates nothing and starts with `top == 0` |
| `MovelistBuffer.MovelistBuf.Default` | src/movegen.h:76 | the default pool has 64 stack cells |
| `MovelistBuffer.MovelistBuf.Init` | src/movegen.h:82-93 | `init` allocates fresh arrays of `list_count` and `list_count*move_count` cells. Cell `i < list_count-1` of the stack holds `data + i*move_count` and the last cell holds the null guard. The cursor is untouched |
| `MovelistBuffer.MovelistBuf.Shutdown` | src/movegen.h:95-99 | both arrays become null and the cursor is untouched; on an already shut down pool nothing changes (idempotence) |
| `MovelistBuffer.MovelistBuf.Reinit` | src/movegen.h:107-121 | `reinit` builds the same stack layout as `init` in fresh arrays and leaves the cursor untouched |
| `MovelistBuffer.MovelistBuf.Acquire` | src/movegen.h:123-126 | returns the cell at the old cursor, raises the cursor by one and leaves the stack unchanged (the model's `Acquire` transition). Requires `top < list_count` |
| `MovelistBuffer.MovelistBuf.Release` | src/movegen.h:128-131 | lowers the cursor by one and writes the pointer into the cell it lands on; no other cell changes (the model's `Release` transition). Requires `top > 0` |
| `MoveLists.Generate` | src/movegen.h:70-71 | the generator's contract as the pool relies on it: it writes its moves from the slot's start and returns one past the last, changing no other cell |
| `MoveLists.MoveList.constructor` | src/movegen.h:149-154 | construction acquires the slot under the cursor (raising `top` by one) and fills it. The range `[begin, end)` then holds exactly the generated moves, and no other cell of `data` changes |
| `MoveLists.MoveList.Dispose` | src/movegen.h:156-159 | destruction releases the list's own slot pointer and lowers `top` by one |
| `MoveLists.MoveList.Begin` | src/movegen.h:161 | `begin()` is a real address in the slot, never after `end()` |
| `MoveLists.MoveList.End` | src/movegen.h:162 | `end()` is exactly `size()` entries after `begin()` |
| `MoveLists.MoveList.Size` | src/movegen.h:163 | `size()` is `last - moveList`, the number of entries in `[begin, end)`, and at most `move_count` |
| `MoveLists.MoveList.Contains` | src/movegen.h:164-166 | `contains(m)` holds exactly when some cell in `[begin, end)` has move `m`, whatever its score |
| `MoveLists.RunSearch` | src/movegen.h:149-159 | nested move lists built and destroyed by a recursive search drive the real pool through the model's `Run` and leave its stack and cursor as they were. Every cell of `data` outside the slots of the `Depth(s)` stack cells above the cursor keeps its value |
| `MoveLists.OuterListSurvivesSearch` | src/movegen.h:149-159 | on a fresh pool, an outer move list still holds exactly its generated moves after any nested search run under it, and the cursor is back at 1 |
| `MoveLists.SearchOnFreshPool` | src/movegen.h:82-93 | after `init` with `top == 0`, any search that fits in the real slots ends at `top == 0` with the stack `init` built, whatever the generator wrote |
| `MoveLists.NestedScenario` | src/movegen.h:149-166 | two nested lists on a 4-cell, 8-move pool: sizes 3 and 5, the outer list is untouched by the inner one, the cursor returns to 0, and the next acquire returns the outer list's slot |

## Left out

- `alloc<T>`, `malloc` and `free` (src/movegen.h:58-68): allocating is creating fresh Dafny arrays, and freeing is setting the field to null. Allocation failure is not handled by the code and is not modelled. Memory from `malloc` is uninitialised; Dafny arrays start at default values.
- The destructor `~movelist_buf` (src/movegen.h:101-105): it only frees memory.
- The body of `generate<T>` and the `GenType` dispatch (src/movegen.h:33-40, 70-71): the generator is external. The moves it would write are a parameter of the `MoveList` constructor, and `MoveLists.Generate` states what the pool relies on.
- `Position`, `get_mlb`, `mlb_pool`, `mlb_init`, `mlb_shutdown`, `thread_count` (src/movegen.h:31, 79-80, 133, 142): these route each thread to its own pool, which is concurrency. The `MoveList` constructor takes the pool itself instead of a position.
- `operator float() = delete` (src/movegen.h:51): a compile-time guard with no run-time behaviour.
- `list_count` and `move_count` are `static` in the code (src/movegen.h:134-135), so they are shared by every pool. A constructor's write to `list_count` changes it for all pools. The model makes them per-object constants fixed at construction. `move_count` is never set in this file, so it is a constructor parameter here.
- Integer widths: `top`, `i * move_count` and `last - moveList` are C++ `int`/`size_t`. The model uses unbounded integers, since the engine's sizes (64 cells of a few hundred moves) never come near overflow.
- MoveLists.MoveList.constructor: requires the cell under the cursor to be a real slot with room for `move_count` moves. The code passes whatever `acquire` returns to the generator, so on the null guard (or after an out-of-order release) it dereferences an invalid pointer. The model states the condition under which that does not happen instead of modelling undefined behaviour.
- Undefined behaviour past the ends of the stack is not modelled: `acquire` with `top >= list_count`, `release` with `top == 0`, and `init` with `list_count == 0`. These are `requires` clauses, because the code checks none of these bounds.
- Exhaustion is not reported: the code reserves the last stack cell as a null guard, hands out cells `[top, list_count)` and checks no bound; the model does the same.
