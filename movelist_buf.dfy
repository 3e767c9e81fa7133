/** `movelist_buf`: a LIFO pool of fixed-size move-list slots, all carved out
    of one backing array, handed out through a stack of slot addresses. */
module MovelistBuffer {
  import opened ExtMoves
  import opened PoolModel

  class MovelistBuf {
    /** Number of stack cells; the last one holds the null guard, so
        `listCount - 1` real slots exist. */
    const listCount: nat
    /** Capacity of one slot, in scored moves. */
    const moveCount: nat

    /** The free-list stack of slot addresses (`null` when not allocated). */
    var ptrStack: array?<Ptr>
    /** The backing storage of all slots (`null` when not allocated). */
    var data: array?<ExtMove>
    /** The stack cursor: cells `[top, listCount)` are the ones still to hand out. */
    var top: nat

    ghost predicate Valid()
      reads this
    {
      top <= listCount &&
      (ptrStack != null ==>
         ptrStack.Length == listCount &&
         data != null && data.Length == listCount * moveCount)
    }

    /** The stack and cursor of an allocated pool, as a value. */
    ghost function State(): PoolState
      reads this, ptrStack
      requires ptrStack != null
    {
      PoolState(ptrStack[..], top)
    }

    /** `movelist_buf(list_cnt)`: records the number of slots; nothing is allocated yet. */
    constructor (listCnt: nat, moveCnt: nat)
      ensures Valid()
      ensures listCount == listCnt && moveCount == moveCnt
      ensures ptrStack == null && data == null && top == 0
    {
      listCount, moveCount := listCnt, moveCnt;
      ptrStack, data, top := null, null, 0;
    }

    /** `movelist_buf()`: the default pool has 64 stack cells. */
    constructor Default(moveCnt: nat)
      ensures Valid()
      ensures listCount == 64 && moveCount == moveCnt
      ensures ptrStack == null && data == null && top == 0
    {
      listCount, moveCount := 64, moveCnt;
      ptrStack, data, top := null, null, 0;
    }

    /** `init`: allocate the stack and the backing array and fill the stack
        with the start of every slot, the last cell being the null guard.
        The cursor is left as it was. The guard write needs at least one cell. */
    method Init()
      requires Valid()
      requires 0 < listCount
      modifies this
      ensures Valid() && top == old(top)
      ensures fresh(ptrStack) && fresh(data)
      ensures data.Length == listCount * moveCount
      ensures ptrStack[..] == InitialStack(listCount, moveCount)
      ensures forall i :: 0 <= i < listCount - 1 ==> ptrStack[i] == Addr(i * moveCount)
      ensures ptrStack[listCount - 1] == Null
    {
      var stack := new Ptr[listCount];
      var buffer := new ExtMove[listCount * moveCount];
      var i := 0;
      while i < listCount - 1
        invariant 0 <= i <= listCount - 1
        invariant forall k :: 0 <= k < i ==> stack[k] == Addr(k * moveCount)
        modifies stack
      {
        stack[i] := Addr(i * moveCount);
        i := i + 1;
      }
      stack[listCount - 1] := Null;
      ptrStack, data := stack, buffer;
      assert ptrStack[..] == InitialStack(listCount, moveCount);
    }

    /** `shutdown`: drop whichever of the two arrays is allocated. The cursor
        is left as it was, and a second call changes nothing. */
    method Shutdown()
      requires Valid()
      modifies this
      ensures Valid()
      ensures ptrStack == null && data == null && top == old(top)
      ensures old(ptrStack) == null && old(data) == null ==> unchanged(this)
    {
      if ptrStack != null { ptrStack := null; }
      if data != null { data := null; }
    }

    /** `reinit`: drop the old arrays and build the same layout as `init`
        in new ones. The cursor is left as it was. */
    method Reinit()
      requires Valid()
      requires 0 < listCount
      modifies this
      ensures Valid() && top == old(top)
      ensures fresh(ptrStack) && fresh(data)
      ensures data.Length == listCount * moveCount
      ensures ptrStack[..] == InitialStack(listCount, moveCount)
    {
      Shutdown();
      Init();
    }

    /** `acquire`: return the cell under the cursor and advance the cursor.
        There is no bounds check, so the cursor must be inside the stack. */
    method Acquire() returns (ptr: Ptr)
      requires Valid() && ptrStack != null
      requires top < listCount
      modifies this`top
      ensures Valid()
      ensures ptr == old(ptrStack[top]) && top == old(top) + 1
      ensures (State(), ptr) == PoolModel.Acquire(old(State()))
    {
      ptr := ptrStack[top];
      top := top + 1;
    }

    /** `release(ptr)`: move the cursor back and store `ptr` in the cell it
        lands on; no other cell changes. The cursor must not be at the bottom. */
    method Release(ptr: Ptr)
      requires Valid() && ptrStack != null
      requires 0 < top
      modifies this`top, ptrStack
      ensures Valid()
      ensures top == old(top) - 1
      ensures ptrStack[top] == ptr
      ensures forall k :: 0 <= k < ptrStack.Length && k != top ==> ptrStack[k] == old(ptrStack[k])
      ensures State() == PoolModel.Release(old(State()), ptr)
    {
      top := top - 1;
      ptrStack[top] := ptr;
    }
  }
}
