/** A value-level model of the free-list stack of `movelist_buf`: the
    stack of slot addresses and its cursor `top`, the transitions that
    `acquire` and `release` make on them, the layout `init` builds, and
    the nested acquire/release pattern of a recursive search. */
module PoolModel {
  import opened ExtMoves

  /** A slot address: `Addr(o)` stands for `data + o`, `Null` for `nullptr`. */
  datatype Ptr = Null | Addr(offset: nat)

  /** The part of a pool that `acquire` and `release` read and write. */
  datatype PoolState = PoolState(stack: seq<Ptr>, top: nat)

  /** The stack layout built by `init`: slot `i` starts `i * moveCount`
      entries into the backing array, and the last cell is the null guard. */
  function InitialStack(listCount: nat, moveCount: nat): (r: seq<Ptr>)
    ensures |r| == listCount
    ensures forall i :: 0 <= i < listCount - 1 ==> r[i] == Addr(i * moveCount)
    ensures 0 < listCount ==> r[listCount - 1] == Null
  {
    seq(listCount, i requires 0 <= i < listCount =>
      if i < listCount - 1 then Addr(i * moveCount) else Null)
  }

  /** A freshly initialised pool whose cursor is still at 0. */
  function FreshPool(listCount: nat, moveCount: nat): PoolState
  {
    PoolState(InitialStack(listCount, moveCount), 0)
  }

  /** `acquire`: hand out the cell under the cursor, then advance the cursor.
      The code performs no bounds check, so the cursor must be inside the stack.
      Releasing the pointer just acquired gives back the pool exactly as it was. */
  function Acquire(p: PoolState): (r: (PoolState, Ptr))
    requires p.top < |p.stack|
    ensures 0 < r.0.top <= |r.0.stack|
    ensures Release(r.0, r.1) == p
  {
    (p.(top := p.top + 1), p.stack[p.top])
  }

  /** `release(ptr)`: move the cursor back and store `ptr` in the cell it
      lands on; every other cell keeps its value. */
  function Release(p: PoolState, ptr: Ptr): (r: PoolState)
    requires 0 < p.top <= |p.stack|
    ensures r.top == p.top - 1 && |r.stack| == |p.stack|
    ensures r.stack[r.top] == ptr
    ensures forall k :: 0 <= k < |p.stack| && k != r.top ==> r.stack[k] == p.stack[k]
  {
    PoolState(p.stack[p.top - 1 := ptr], p.top - 1)
  }

  /** The pointer just released is the next one handed out, so a sibling
      call reuses the slot its predecessor gave back. */
  lemma ReleaseThenAcquire(p: PoolState, ptr: Ptr)
    requires 0 < p.top <= |p.stack|
    ensures Acquire(Release(p, ptr)).1 == ptr
    ensures Acquire(Release(p, ptr)).0 == p.(stack := p.stack[p.top - 1 := ptr])
  {
  }

  /** `k` consecutive acquires with no release between them, and the pointers
      they return, in order. */
  function AcquireMany(p: PoolState, k: nat): (r: (PoolState, seq<Ptr>))
    requires p.top + k <= |p.stack|
    ensures r.0 == p.(top := p.top + k) && |r.1| == k
    decreases k
  {
    if k == 0 then (p, [])
    else
      var (p1, x) := Acquire(p);
      var (p2, xs) := AcquireMany(p1, k - 1);
      (p2, [x] + xs)
  }

  /** Consecutive acquires read the stack upward from the cursor and change nothing but it. */
  lemma {:induction false} AcquireManyReadsStack(p: PoolState, k: nat)
    requires p.top + k <= |p.stack|
    ensures AcquireMany(p, k).0 == p.(top := p.top + k)
    ensures AcquireMany(p, k).1 == p.stack[p.top .. p.top + k]
    decreases k
  {
    if k > 0 {
      AcquireManyReadsStack(Acquire(p).0, k - 1);
    }
  }

  /** The non-guard cells built by `init` are slots lying one after the other:
      each is `moveCount` entries long, they do not overlap, and they all lie
      inside the `listCount * moveCount` entries of the backing array. */
  lemma InitialSlotsDisjoint(listCount: nat, moveCount: nat, i: nat, j: nat)
    requires i < j < listCount - 1
    ensures InitialStack(listCount, moveCount)[i].Addr?
    ensures InitialStack(listCount, moveCount)[j].Addr?
    ensures InitialStack(listCount, moveCount)[i].offset + moveCount
            <= InitialStack(listCount, moveCount)[j].offset
    ensures InitialStack(listCount, moveCount)[j].offset + moveCount
            <= listCount * moveCount
  {
    MulMonotone(i + 1, j, moveCount);
    MulMonotone(j + 1, listCount, moveCount);
  }

  /** Every non-guard cell built by `init` is a whole slot inside the backing array. */
  lemma InitialSlotWithin(listCount: nat, moveCount: nat, i: nat)
    requires i < listCount - 1
    ensures InitialStack(listCount, moveCount)[i] == Addr(i * moveCount)
    ensures i * moveCount + moveCount <= listCount * moveCount
  {
    MulMonotone(i + 1, listCount, moveCount);
  }

  lemma MulMonotone(a: nat, b: nat, c: nat)
    requires a <= b
    ensures a * c <= b * c
  {
  }

  /** Capacity: from a freshly initialised pool, the first `listCount - 1`
      acquires return pairwise distinct slot addresses and the
      `listCount`-th returns the null guard. */
  lemma FreshPoolCapacity(listCount: nat, moveCount: nat)
    requires 0 < listCount && 0 < moveCount
    ensures |AcquireMany(FreshPool(listCount, moveCount), listCount).1| == listCount
    ensures AcquireMany(FreshPool(listCount, moveCount), listCount).1[listCount - 1] == Null
    ensures forall i :: 0 <= i < listCount - 1 ==>
              AcquireMany(FreshPool(listCount, moveCount), listCount).1[i].Addr?
    ensures forall i, j :: 0 <= i < j < listCount - 1 ==>
              AcquireMany(FreshPool(listCount, moveCount), listCount).1[i]
              != AcquireMany(FreshPool(listCount, moveCount), listCount).1[j]
  {
    var p := FreshPool(listCount, moveCount);
    AcquireManyReadsStack(p, listCount);
    var ptrs := AcquireMany(p, listCount).1;
    assert ptrs == InitialStack(listCount, moveCount);
    forall i, j | 0 <= i < j < listCount - 1
      ensures ptrs[i] != ptrs[j]
    {
      InitialSlotsDisjoint(listCount, moveCount, i, j);
    }
  }

  /** The `n` cells above the cursor are whole slots of `moveCount` entries
      inside a backing array of `capacity` entries. */
  ghost predicate HoldsSlots(p: PoolState, n: nat, moveCount: nat, capacity: nat)
  {
    forall k :: p.top <= k < p.top + n && k < |p.stack| ==>
      p.stack[k].Addr? && p.stack[k].offset + moveCount <= capacity
  }

  /** A freshly initialised pool holds `listCount - 1` whole slots above its cursor. */
  lemma FreshPoolHoldsSlots(listCount: nat, moveCount: nat)
    requires 0 < listCount
    ensures HoldsSlots(FreshPool(listCount, moveCount), listCount - 1, moveCount, listCount * moveCount)
  {
    forall k | 0 <= k < listCount - 1
      ensures InitialStack(listCount, moveCount)[k].offset + moveCount <= listCount * moveCount
    {
      InitialSlotWithin(listCount, moveCount, k);
    }
  }

  /** The shape of a recursive search as the pool sees it. `Visit` is one
      node: it builds a move list (acquiring a slot, into which the move
      generator writes `generated`), makes the recursive calls `inner`
      while that list is live, destroys the list (releasing the slot) and
      then goes on with `rest`, its later siblings. */
  datatype Search = Return | Visit(generated: seq<ExtMove>, inner: Search, rest: Search)

  /** The deepest nesting of live move lists the search reaches. */
  function Depth(s: Search): nat
  {
    match s
    case Return => 0
    case Visit(_, inner, rest) =>
      var d := 1 + Depth(inner);
      if d < Depth(rest) then Depth(rest) else d
  }

  /** The pool after running a whole search; each node releases exactly the
      pointer it acquired. The nesting must fit in the stack, since `acquire`
      checks no bound. */
  function Run(p: PoolState, s: Search): (r: PoolState)
    requires p.top + Depth(s) <= |p.stack|
    ensures r.top == p.top && |r.stack| == |p.stack|
    decreases s
  {
    match s
    case Return => p
    case Visit(_, inner, rest) =>
      var (p1, x) := Acquire(p);
      var p2 := Run(p1, inner);
      var p3 := Release(p2, x);
      Run(p3, rest)
  }

  /** LIFO round trip: any properly nested run of acquires and releases
      leaves the stack and its cursor exactly as they were. */
  lemma {:induction false} RunRestores(p: PoolState, s: Search)
    requires p.top + Depth(s) <= |p.stack|
    ensures Run(p, s) == p
    decreases s
  {
    match s
    case Return =>
    case Visit(_, inner, rest) =>
      var (p1, x) := Acquire(p);
      RunRestores(p1, inner);
      RunRestores(p, rest);
  }

  /** After a complete search the next acquire returns the same address as
      the first acquire before it: slots are recycled, not leaked. */
  lemma ReuseAfterSearch(p: PoolState, s: Search)
    requires p.top + Depth(s) < |p.stack|
    ensures Run(p, s).top < |Run(p, s).stack|
    ensures Acquire(Run(p, s)).1 == Acquire(p).1
  {
    RunRestores(p, s);
  }

  /** One slot handed to one node of a search: `level` is how many move
      lists enclose that node's own, and `ptr` what its `acquire` returned. */
  datatype Grant = Grant(level: nat, ptr: Ptr)

  /** Every slot granted during a search whose outermost nodes sit at nesting
      level `level`, in the order of the acquires. */
  function Grants(p: PoolState, s: Search, level: nat): seq<Grant>
    requires p.top + Depth(s) <= |p.stack|
    decreases s
  {
    match s
    case Return => []
    case Visit(_, inner, rest) =>
      var (p1, x) := Acquire(p);
      [Grant(level, x)] + Grants(p1, inner, level + 1)
        + Grants(Release(Run(p1, inner), x), rest, level)
  }

  /** The slot a node receives depends only on how deeply it is nested: a
      node `d` levels below the search's outermost nodes always gets the
      cell `top + d` of the stack as it was before the search. */
  lemma {:induction false} GrantsFollowDepth(p: PoolState, s: Search, level: nat)
    requires p.top + Depth(s) <= |p.stack|
    ensures forall g :: g in Grants(p, s, level) ==>
              level <= g.level < level + Depth(s) &&
              g.ptr == p.stack[p.top + (g.level - level)]
    decreases s
  {
    match s
    case Return =>
    case Visit(_, inner, rest) =>
      var (p1, x) := Acquire(p);
      GrantsFollowDepth(p1, inner, level + 1);
      RunRestores(p1, inner);
      GrantsFollowDepth(p, rest, level);
  }

  /** The cell `k` of the backing array lies in none of the slots named by
      the `n` stack cells above the cursor. */
  ghost predicate OutsideSlots(p: PoolState, n: nat, moveCount: nat, k: nat)
  {
    forall c :: p.top <= c < p.top + n && c < |p.stack| && p.stack[c].Addr? ==>
      !(p.stack[c].offset <= k < p.stack[c].offset + moveCount)
  }
}
