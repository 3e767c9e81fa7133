/** The scored-move record handed out in move lists, and the linear scan
    that `MoveList::contains` performs over a range of them. */
module ExtMoves {

  /** A move identifier; the engine encodes moves as a plain integer. */
  type Move = int

  /** A candidate move together with its ordering score. */
  datatype ExtMove = ExtMove(move: Move, value: int)

  /** `operator<`: scored moves are ordered by their score alone. */
  predicate Less(f: ExtMove, s: ExtMove)
  {
    f.value < s.value
  }

  /** `operator Move`: the implicit conversion drops the score. */
  function ToMove(e: ExtMove): Move
  {
    e.move
  }

  /** `operator=(Move)`: assigning a move replaces the move and keeps the score. */
  function AssignMove(e: ExtMove, m: Move): (r: ExtMove)
    ensures ToMove(r) == m && r.value == e.value
    ensures forall x :: Less(r, x) == Less(e, x) && Less(x, r) == Less(x, e)
  {
    e.(move := m)
  }

  /** The ordering ignores the move component entirely. */
  lemma LessIgnoresMove(f: ExtMove, s: ExtMove, m1: Move, m2: Move)
    ensures Less(f.(move := m1), s.(move := m2)) == Less(f, s)
  {
  }

  /** The ordering is a strict weak order: irreflexive, transitive, and two
      records are incomparable exactly when their scores are equal. */
  lemma LessIsStrictWeakOrder(a: ExtMove, b: ExtMove, c: ExtMove)
    ensures !Less(a, a)
    ensures Less(a, b) && Less(b, c) ==> Less(a, c)
    ensures !Less(a, b) && !Less(b, a) <==> a.value == b.value
  {
  }

  /** `std::find` over a range of scored moves compared against a `Move`:
      the index of the first entry whose move is `m`, or `|s|` (the end)
      when there is none. */
  function Find(s: seq<ExtMove>, m: Move): (i: nat)
    ensures i <= |s|
    ensures forall k :: 0 <= k < i ==> ToMove(s[k]) != m
    ensures i < |s| ==> ToMove(s[i]) == m
  {
    if s == [] then 0
    else if ToMove(s[0]) == m then 0
    else 1 + Find(s[1..], m)
  }

  /** `contains`: the scan stops before the end exactly when some entry carries `m`. */
  function Contains(s: seq<ExtMove>, m: Move): (r: bool)
    ensures r <==> exists k :: 0 <= k < |s| && s[k].move == m
  {
    Find(s, m) != |s|
  }

  /** The scores play no part in `contains`: two ranges holding the same
      moves in the same places contain the same moves. */
  lemma ContainsIgnoresValues(s: seq<ExtMove>, t: seq<ExtMove>, m: Move)
    requires |s| == |t|
    requires forall k :: 0 <= k < |s| ==> s[k].move == t[k].move
    ensures Find(s, m) == Find(t, m)
    ensures Contains(s, m) == Contains(t, m)
  {
  }
}
