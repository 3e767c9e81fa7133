/** `MoveList<T>`: a scope-bound view of one pool slot. Construction acquires
    a slot and lets the move generator fill it; destruction gives the slot
    back. The generator itself is outside this model: the moves it would
    write are a parameter of the constructor. */
module MoveLists {
  import opened ExtMoves
  import opened PoolModel
  import opened MovelistBuffer

  /** The part of `generate<T>` the pool relies on: it writes its moves one
      after another from `start` and returns the address one past the last
      one written. Nothing outside those cells changes. */
  method Generate(data: array<ExtMove>, start: Ptr, generated: seq<ExtMove>) returns (end: Ptr)
    requires start.Addr? && start.offset + |generated| <= data.Length
    modifies data
    ensures end == Addr(start.offset + |generated|)
    ensures data[start.offset .. end.offset] == generated
    ensures forall k :: 0 <= k < data.Length && !(start.offset <= k < end.offset) ==> data[k] == old(data[k])
  {
    forall k | 0 <= k < |generated| {
      data[start.offset + k] := generated[k];
    }
    end := Addr(start.offset + |generated|);
  }

  class MoveList {
    /** The pool the slot came from. */
    const mlb: MovelistBuf
    /** The first entry of the slot (`begin()`). */
    const moveList: Ptr
    /** One past the last generated entry (`end()`). */
    const last: Ptr

    ghost predicate Valid()
      reads this, mlb
    {
      mlb.data != null && moveList.Addr? && last.Addr? &&
      moveList.offset <= last.offset <= mlb.data.Length &&
      last.offset - moveList.offset <= mlb.moveCount
    }

    /** The entries in `[begin, end)`. */
    ghost function Entries(): seq<ExtMove>
      reads this, mlb, mlb.data
      requires Valid()
    {
      mlb.data[moveList.offset .. last.offset]
    }

    /** Acquire the slot under the pool's cursor and have the generator fill
        it. The slot must be a real one with room for a full move list, as
        the generator writes up to `moveCount` entries into it. */
    constructor (pool: MovelistBuf, generated: seq<ExtMove>)
      requires pool.Valid() && pool.ptrStack != null && pool.top < pool.listCount
      requires pool.ptrStack[pool.top].Addr?
      requires pool.ptrStack[pool.top].offset + pool.moveCount <= pool.data.Length
      requires |generated| <= pool.moveCount
      modifies pool`top, pool.data
      ensures Valid() && mlb == pool && pool.Valid()
      ensures moveList == old(pool.ptrStack[pool.top])
      ensures pool.top == old(pool.top) + 1
      ensures pool.State() == PoolModel.Acquire(old(pool.State())).0
      ensures Entries() == generated
      ensures forall k :: 0 <= k < pool.data.Length && !(moveList.offset <= k < last.offset) ==>
                pool.data[k] == old(pool.data[k])
    {
      var start := pool.Acquire();
      var end := Generate(pool.data, start, generated);
      mlb, moveList, last := pool, start, end;
    }

    /** `~MoveList`: give the slot back to the pool it came from. */
    method Dispose()
      requires mlb.Valid() && mlb.ptrStack != null && 0 < mlb.top
      modifies mlb`top, mlb.ptrStack
      ensures mlb.Valid()
      ensures mlb.top == old(mlb.top) - 1
      ensures mlb.State() == PoolModel.Release(old(mlb.State()), moveList)
    {
      mlb.Release(moveList);
    }

    /** `begin()`: the start of the slot, never after `end()`. */
    function Begin(): (r: Ptr)
      reads this, mlb
      ensures Valid() ==> r.Addr? && r.offset <= End().offset
    {
      moveList
    }

    /** `end()`: one past the last generated entry, `size()` entries after `begin()`. */
    function End(): (r: Ptr)
      reads this, mlb
      ensures Valid() ==> r.Addr? && r.offset == moveList.offset + Size()
    {
      last
    }

    /** `size()`: the number of entries between `begin()` and `end()`. */
    function Size(): (n: nat)
      reads this, mlb
      requires Valid()
      ensures n == |Entries()| && n <= mlb.moveCount
    {
      last.offset - moveList.offset
    }

    /** `contains(m)`: some entry in `[begin, end)` has move `m`; scores are ignored. */
    function Contains(m: Move): (r: bool)
      reads this, mlb, mlb.data
      requires Valid()
      ensures r <==> exists k :: moveList.offset <= k < last.offset && mlb.data[k].move == m
    {
      var s := mlb.data[moveList.offset .. last.offset];
      assert forall k :: moveList.offset <= k < last.offset ==> mlb.data[k] == s[k - moveList.offset];
      ExtMoves.Contains(s, m)
    }
  }

  /** Every list the generator produces during the search fits in a slot. */
  predicate Fits(s: Search, moveCount: nat)
  {
    match s
    case Return => true
    case Visit(generated, inner, rest) =>
      |generated| <= moveCount && Fits(inner, moveCount) && Fits(rest, moveCount)
  }

  /** Plays a recursive search against a pool: every node builds a move list,
      runs its inner calls while the list is live and destroys the list
      before its next sibling. The pool's stack and cursor follow the
      value-level model, and so end exactly as they started; the only cells
      of the backing array it writes are those of the slots it hands out. */
  method RunSearch(pool: MovelistBuf, s: Search)
    requires pool.Valid() && pool.ptrStack != null
    requires pool.top + Depth(s) <= pool.listCount
    requires HoldsSlots(pool.State(), Depth(s), pool.moveCount, pool.data.Length)
    requires Fits(s, pool.moveCount)
    modifies pool`top, pool.ptrStack, pool.data
    ensures pool.Valid()
    ensures pool.State() == Run(old(pool.State()), s)
    ensures pool.State() == old(pool.State())
    ensures forall k ::
              (0 <= k < pool.data.Length && OutsideSlots(old(pool.State()), Depth(s), pool.moveCount, k))
              ==> pool.data[k] == old(pool.data[k])
    decreases s
  {
    match s
    case Return =>
    case Visit(generated, inner, rest) =>
      ghost var p := pool.State();
      var list := new MoveList(pool, generated);
      RunSearch(pool, inner);
      list.Dispose();
      RunSearch(pool, rest);
      RunRestores(p, s);
  }

  /** Scoped release from a freshly initialised pool: any search whose
      nesting fits in the real slots (the guard cell excluded) leaves the
      cursor at 0 and the stack exactly as `init` built it, however many
      moves the generator wrote at each node. */
  method SearchOnFreshPool(listCnt: nat, moveCnt: nat, s: Search) returns (cursor: nat, stack: seq<Ptr>)
    requires Depth(s) < listCnt
    requires Fits(s, moveCnt)
    ensures cursor == 0 && stack == InitialStack(listCnt, moveCnt)
  {
    var pool := new MovelistBuf(listCnt, moveCnt);
    pool.Init();
    FreshPoolHoldsSlots(listCnt, moveCnt);
    RunSearch(pool, s);
    cursor, stack := pool.top, pool.ptrStack[..];
  }

  /** A live move list survives the nested search its owner runs: on a
      freshly initialised pool, the outer list takes the first slot, the
      search uses only the slots above it, and afterwards the outer list
      still holds exactly what the generator wrote and the cursor is back at 1. */
  method OuterListSurvivesSearch(listCnt: nat, moveCnt: nat, generated: seq<ExtMove>, s: Search)
    returns (entries: seq<ExtMove>, cursor: nat)
    requires Depth(s) + 1 < listCnt
    requires |generated| <= moveCnt && Fits(s, moveCnt)
    ensures entries == generated && cursor == 1
  {
    var pool := new MovelistBuf(listCnt, moveCnt);
    pool.Init();
    FreshPoolHoldsSlots(listCnt, moveCnt);
    var outer := new MoveList(pool, generated);
    ghost var p := pool.State();
    ghost var before := pool.data[..];
    assert outer.moveList == Addr(0);
    forall k | 0 <= k < |generated|
      ensures OutsideSlots(p, Depth(s), moveCnt, k)
    {
      forall c | p.top <= c < p.top + Depth(s)
        ensures !(p.stack[c].offset <= k < p.stack[c].offset + moveCnt)
      {
        InitialSlotsDisjoint(listCnt, moveCnt, 0, c);
      }
    }
    RunSearch(pool, s);
    assert forall k :: 0 <= k < |generated| ==> pool.data[k] == before[k];
    entries, cursor := pool.data[outer.moveList.offset .. outer.last.offset], pool.top;
  }

  /** Two nested move lists on a pool of four cells holding eight moves
      each: the lists have the sizes the generator gave them, the outer
      list is untouched by the inner one, both releases bring the cursor
      back to 0, and the next acquire hands out the outer list's slot again. */
  method NestedScenario() returns (outerSize: nat, innerSize: nat, cursor: nat, reused: bool)
    ensures outerSize == 3 && innerSize == 5 && cursor == 0 && reused
  {
    var pool := new MovelistBuf(4, 8);
    pool.Init();
    var outer := new MoveList(pool, [ExtMove(1, 0), ExtMove(2, 0), ExtMove(3, 0)]);
    var inner := new MoveList(pool, [ExtMove(4, 0), ExtMove(5, 0), ExtMove(6, 0), ExtMove(7, 0), ExtMove(8, 0)]);
    assert outer.Entries() == [ExtMove(1, 0), ExtMove(2, 0), ExtMove(3, 0)];
    assert pool.data[1].move == 2;
    assert outer.Contains(2) && !outer.Contains(5);
    innerSize := inner.Size();
    inner.Dispose();
    outerSize := outer.Size();
    outer.Dispose();
    cursor := pool.top;
    var again := pool.Acquire();
    reused := again == outer.Begin();
  }
}
