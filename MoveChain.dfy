/** The optimistic write of `moveColumn` on a board whose columns form one
    chain: it keeps a single chain, with the moved column right before its
    target (or last), except when the target is the column's own successor
    and the column has a predecessor, where it leaves two columns pointing
    at the same place. */
module MoveChain {

  import opened Wrappers
  import Keyed
  import opened Columns
  import opened ColumnChain
  import opened ColumnMove

  /** The position of the column the target is put after: the board's last
      column for a move to the end, the target's predecessor otherwise (-1
      when the target is the head). */
  function BeforeIndex(order: seq<int>, nextId: Option<int>): (a: int)
    requires nextId.Some? ==> nextId.value in order
  {
    match nextId
    case None => |order| - 1
    case Some(n) => IndexOf(order, n) - 1
  }

  /** The pointer of the `a`-th column of the chain after the move of the
      `i`-th: the last write to it wins, as in NextAfter. */
  function PointerAt(m: map<int, Column>, order: seq<int>, i: int, nextId: Option<int>, a: int): (p: Option<int>)
    requires 0 <= i < |order| && 0 <= a < |order|
    requires forall x :: 0 <= x < |order| ==> order[x] in m
    requires nextId.Some? ==> nextId.value in order
  {
    if a == i then nextId
    else if a == BeforeIndex(order, nextId) then Some(order[i])
    else if a == i - 1 then m[order[i]].nextId
    else m[order[a]].nextId
  }

  lemma ChainInRecord(m: map<int, Column>, b: int, order: seq<int>)
    requires IsChain(m, b, order)
    ensures forall x :: 0 <= x < |order| ==> order[x] in m
  {
    forall x | 0 <= x < |order| ensures order[x] in m {
      assert order[x] in order;
    }
  }

  /** The lookups of the move on a chain: the moved column, its
      predecessor, and the column before the target. */
  lemma TargetsOnChain(m: map<int, Column>, b: int, order: seq<int>, i: int, nextId: Option<int>)
    requires KeyedById(m) && PointersStayInBoard(m) && IsChain(m, b, order) && 0 <= i < |order|
    requires nextId.Some? ==> nextId.value in order
    ensures forall x :: 0 <= x < |order| ==> order[x] in m
    ensures var t := MoveTargets(m, order[i], nextId);
      && t.current == Some(m[order[i]])
      && t.previous == (if i == 0 then None else Some(m[order[i - 1]]))
      && t.beforeNext == (if BeforeIndex(order, nextId) < 0 then None else Some(m[order[BeforeIndex(order, nextId)]]))
  {
    ChainInRecord(m, b, order);
    var cs := Keyed.Values(m);
    forall c | c in cs ensures c.id in m && m[c.id] == c {
      ValuesAreEntries(m, c);
    }
    forall k | k in order ensures k in m && m[k] in cs {
      Keyed.ValuesHas(m, k);
    }
    forall c | c in cs && c.nextId.Some? && c.nextId.value in order ensures c.boardId == b {
      ValuesAreEntries(m, c);
    }
    assert Covers(cs, m, order);
    FindPredecessor(cs, m, b, order, i);
    ChainIsKeyed(m, b, order, i);
    match nextId {
      case None =>
        FindTail(cs, m, b, order);
      case Some(n) =>
        var j := IndexOf(order, n);
        FindPredecessor(cs, m, b, order, j);
    }
  }

  /** What the lookups find on a chain, as positions. */
  ghost predicate TargetsAt(m: map<int, Column>, order: seq<int>, i: int, nextId: Option<int>, t: Targets)
    requires 0 <= i < |order| && forall x :: 0 <= x < |order| ==> order[x] in m
    requires nextId.Some? ==> nextId.value in order
  {
    && t.current == Some(m[order[i]])
    && t.previous == (if i == 0 then None else Some(m[order[i - 1]]))
    && t.beforeNext == (if BeforeIndex(order, nextId) < 0 then None else Some(m[order[BeforeIndex(order, nextId)]]))
  }

  lemma ApplyPointers(m: map<int, Column>, b: int, order: seq<int>, i: int, nextId: Option<int>, t: Targets)
    requires KeyedById(m) && IsChain(m, b, order) && 0 <= i < |order|
    requires forall x :: 0 <= x < |order| ==> order[x] in m
    requires nextId.Some? ==> nextId.value in order
    requires TargetsAt(m, order, i, nextId, t)
    ensures var r := Apply(m, order[i], nextId, t);
      forall a :: 0 <= a < |order| ==> order[a] in r && r[order[a]].nextId == PointerAt(m, order, i, nextId, a)
  {
    var bi := BeforeIndex(order, nextId);
    ChainIsKeyed(m, b, order, i);
    if bi >= 0 { ChainIsKeyed(m, b, order, bi); }
    if i > 0 { ChainIsKeyed(m, b, order, i - 1); }
    assert Found(m, t);
    ApplyFrame(m, order[i], nextId, t);
    forall a | 0 <= a < |order|
      ensures NextAfter(m, order[i], nextId, t, order[a]) == PointerAt(m, order, i, nextId, a)
    {
      NextAfterAt(m, b, order, i, nextId, t, a);
    }
  }

  /** The last write to the `a`-th column of the chain, by position. */
  lemma NextAfterAt(m: map<int, Column>, b: int, order: seq<int>, i: int, nextId: Option<int>, t: Targets, a: int)
    requires KeyedById(m) && IsChain(m, b, order) && 0 <= i < |order| && 0 <= a < |order|
    requires forall x :: 0 <= x < |order| ==> order[x] in m
    requires nextId.Some? ==> nextId.value in order
    requires TargetsAt(m, order, i, nextId, t)
    ensures NextAfter(m, order[i], nextId, t, order[a]) == PointerAt(m, order, i, nextId, a)
  {
    var bi := BeforeIndex(order, nextId);
    ChainIsKeyed(m, b, order, i);
    if bi >= 0 { ChainIsKeyed(m, b, order, bi); }
    if i > 0 { ChainIsKeyed(m, b, order, i - 1); }
    assert order[a] == order[i] <==> a == i;
    assert bi >= 0 ==> (order[a] == order[bi] <==> a == bi);
    assert i > 0 ==> (order[a] == order[i - 1] <==> a == i - 1);
  }

  /** The pointers of the chain's columns after the move, by position. */
  lemma MovePointers(m: map<int, Column>, b: int, order: seq<int>, i: int, nextId: Option<int>)
    requires KeyedById(m) && PointersStayInBoard(m) && IsChain(m, b, order) && 0 <= i < |order|
    requires nextId.Some? ==> nextId.value in order
    ensures forall x :: 0 <= x < |order| ==> order[x] in m
    ensures var r := Relinked(m, order[i], nextId);
      forall a :: 0 <= a < |order| ==> order[a] in r && r[order[a]].nextId == PointerAt(m, order, i, nextId, a)
  {
    TargetsOnChain(m, b, order, i, nextId);
    ApplyPointers(m, b, order, i, nextId, MoveTargets(m, order[i], nextId));
  }

  // ---- the chain after the move, case by case ------------------------------------

  ghost predicate PointerTable(r: map<int, Column>, m: map<int, Column>, order: seq<int>, i: int, nextId: Option<int>)
    requires 0 <= i < |order| && forall x :: 0 <= x < |order| ==> order[x] in m
    requires nextId.Some? ==> nextId.value in order
  {
    forall a :: 0 <= a < |order| ==> order[a] in r && r[order[a]].nextId == PointerAt(m, order, i, nextId, a)
  }

  /** The chain's pointers before the move, by position. */
  lemma ChainNext(m: map<int, Column>, order: seq<int>, a: int)
    requires LinkedTo(m, order, None) && 0 <= a < |order|
    ensures order[a] in m && m[order[a]].nextId == if a + 1 < |order| then Some(order[a + 1]) else None
  {
    if a + 1 < |order| {
      assert m[order[a]].nextId == Some(order[a + 1]);
    }
  }

  /** The ids `o` are linked by `r` when each position's pointer names the
      next position. */
  lemma LinkedByPositions(r: map<int, Column>, o: seq<int>)
    requires forall p :: 0 <= p < |o| ==> o[p] in r
    requires forall p {:trigger r[o[p]]} :: 0 <= p < |o| ==>
      r[o[p]].nextId == if p + 1 < |o| then Some(o[p + 1]) else None
    ensures LinkedTo(r, o, None)
  {
    forall p, q | 0 <= p && q == p + 1 && q < |o| ensures r[o[p]].nextId == Some(o[q]) {
    }
    if o != [] {
      assert r[o[|o| - 1]].nextId == None;
    }
  }

  /** Moving a column that is not last to the end of its chain. */
  lemma LinkedAfterMoveToEnd(m: map<int, Column>, r: map<int, Column>, order: seq<int>, i: int)
    requires Distinct(order) && LinkedTo(m, order, None) && 0 <= i < |order| - 1
    requires PointerTable(r, m, order, i, None)
    ensures LinkedTo(r, Moved(order, order[i], None), None)
  {
    var n := |order|;
    var o := Moved(order, order[i], None);
    WithoutSplit(order, i);
    assert o == order[..i] + order[i + 1..] + [order[i]];
    forall p | 0 <= p < |o| ensures o[p] in r && r[o[p]].nextId == (if p + 1 < |o| then Some(o[p + 1]) else None) {
      if p < i - 1 {
        assert o[p] == order[p] && o[p + 1] == order[p + 1];
        assert r[order[p]].nextId == PointerAt(m, order, i, None, p);
        ChainNext(m, order, p);
      } else if p == i - 1 {
        assert o[p] == order[i - 1] && o[p + 1] == order[i + 1];
        assert r[order[i - 1]].nextId == PointerAt(m, order, i, None, i - 1);
        ChainNext(m, order, i);
      } else if p < n - 2 {
        assert o[p] == order[p + 1] && o[p + 1] == order[p + 2];
        assert r[order[p + 1]].nextId == PointerAt(m, order, i, None, p + 1);
        ChainNext(m, order, p + 1);
      } else if p == n - 2 {
        assert o[p] == order[n - 1] && o[p + 1] == order[i];
        assert r[order[n - 1]].nextId == PointerAt(m, order, i, None, n - 1);
      } else {
        assert o[p] == order[i];
        assert r[order[i]].nextId == PointerAt(m, order, i, None, i);
      }
    }
    LinkedByPositions(r, o);
  }

  /** Where `Moved` puts each id when a column moves forward: `j` is the
      target's position, after the column's successor. */
  function ForwardSource(i: int, j: int, p: int): int
  {
    if p < i then p else if p < j - 1 then p + 1 else if p == j - 1 then i else p
  }

  /** Where `Moved` puts each id when a column moves back before position `j`. */
  function BackSource(i: int, j: int, p: int): int
  {
    if p < j then p else if p == j then i else if p <= i then p - 1 else p
  }

  lemma MovedForwardLayout(order: seq<int>, i: int, j: int)
    requires Distinct(order) && 0 <= i && i + 1 < j < |order|
    ensures var o := Moved(order, order[i], Some(order[j]));
      |o| == |order| && forall p :: 0 <= p < |o| ==> o[p] == order[ForwardSource(i, j, p)]
  {
    MovedBefore(order, i, j, j - 1);
    var w := order[..i] + order[i + 1..];
    CutAt(order, i);
    InsertAt(w, j - 1, order[i]);
    var o := w[..j - 1] + [order[i]] + w[j - 1..];
    forall p | 0 <= p < |o| ensures o[p] == order[ForwardSource(i, j, p)] {
      if p < j - 1 {
        assert o[p] == w[p];
      } else if p > j - 1 {
        assert o[p] == w[p - 1];
      }
    }
  }

  lemma MovedBackLayout(order: seq<int>, i: int, j: int)
    requires Distinct(order) && 0 <= j < i < |order|
    ensures var o := Moved(order, order[i], Some(order[j]));
      |o| == |order| && forall p :: 0 <= p < |o| ==> o[p] == order[BackSource(i, j, p)]
  {
    MovedBefore(order, i, j, j);
    var w := order[..i] + order[i + 1..];
    CutAt(order, i);
    InsertAt(w, j, order[i]);
    var o := w[..j] + [order[i]] + w[j..];
    forall p | 0 <= p < |o| ensures o[p] == order[BackSource(i, j, p)] {
      if p < j {
        assert o[p] == w[p];
      } else if p > j {
        assert o[p] == w[p - 1];
      }
    }
  }

  /** Moving a column before a later column that is not its own successor:
      the pointers after the move link the ids in their new positions. */
  lemma LinkedForward(m: map<int, Column>, r: map<int, Column>, order: seq<int>, i: int, j: int, o: seq<int>)
    requires Distinct(order) && LinkedTo(m, order, None) && 0 <= i && i + 1 < j < |order|
    requires PointerTable(r, m, order, i, Some(order[j]))
    requires |o| == |order| && forall p :: 0 <= p < |o| ==> o[p] == order[ForwardSource(i, j, p)]
    ensures LinkedTo(r, o, None)
  {
    var t := Some(order[j]);
    assert BeforeIndex(order, t) == j - 1 by { IndexOfDistinct(order, j); }
    var n := |order|;
    forall p | 0 <= p < n ensures o[p] in r && r[o[p]].nextId == (if p + 1 < n then Some(o[p + 1]) else None) {
      assert o[p] == order[ForwardSource(i, j, p)];
      if p + 1 < n {
        assert o[p + 1] == order[ForwardSource(i, j, p + 1)];
      }
      if p < i - 1 {
        assert r[order[p]].nextId == PointerAt(m, order, i, t, p);
        ChainNext(m, order, p);
      } else if p == i - 1 {
        assert r[order[p]].nextId == PointerAt(m, order, i, t, p);
        ChainNext(m, order, i);
      } else if p < j - 2 {
        assert r[order[p + 1]].nextId == PointerAt(m, order, i, t, p + 1);
        ChainNext(m, order, p + 1);
      } else if p == j - 2 {
        assert r[order[j - 1]].nextId == PointerAt(m, order, i, t, j - 1);
      } else if p == j - 1 {
        assert r[order[i]].nextId == PointerAt(m, order, i, t, i);
      } else {
        assert r[order[p]].nextId == PointerAt(m, order, i, t, p);
        ChainNext(m, order, p);
      }
    }
    LinkedByPositions(r, o);
  }

  /** Moving a column before an earlier column. */
  lemma LinkedBack(m: map<int, Column>, r: map<int, Column>, order: seq<int>, i: int, j: int, o: seq<int>)
    requires Distinct(order) && LinkedTo(m, order, None) && 0 <= j < i < |order|
    requires PointerTable(r, m, order, i, Some(order[j]))
    requires |o| == |order| && forall p :: 0 <= p < |o| ==> o[p] == order[BackSource(i, j, p)]
    ensures LinkedTo(r, o, None)
  {
    var t := Some(order[j]);
    assert BeforeIndex(order, t) == j - 1 by { IndexOfDistinct(order, j); }
    var n := |order|;
    forall p | 0 <= p < n ensures o[p] in r && r[o[p]].nextId == (if p + 1 < n then Some(o[p + 1]) else None) {
      assert o[p] == order[BackSource(i, j, p)];
      if p + 1 < n {
        assert o[p + 1] == order[BackSource(i, j, p + 1)];
      }
      if p < j - 1 {
        assert r[order[p]].nextId == PointerAt(m, order, i, t, p);
        ChainNext(m, order, p);
      } else if p == j - 1 {
        assert r[order[j - 1]].nextId == PointerAt(m, order, i, t, j - 1);
      } else if p == j {
        assert r[order[i]].nextId == PointerAt(m, order, i, t, i);
      } else if p < i {
        assert r[order[p - 1]].nextId == PointerAt(m, order, i, t, p - 1);
        ChainNext(m, order, p - 1);
      } else if p == i {
        assert r[order[i - 1]].nextId == PointerAt(m, order, i, t, i - 1);
        ChainNext(m, order, i);
      } else {
        assert r[order[p]].nextId == PointerAt(m, order, i, t, p);
        ChainNext(m, order, p);
      }
    }
    LinkedByPositions(r, o);
  }

  // ---- the move keeps one chain per board ----------------------------------------

  /** The move only touches columns of the moved column's board. */
  lemma MoveStaysInBoard(m: map<int, Column>, b: int, order: seq<int>, i: int, nextId: Option<int>)
    requires KeyedById(m) && PointersStayInBoard(m) && IsChain(m, b, order) && 0 <= i < |order|
    requires nextId.Some? ==> nextId.value in order
    ensures var r := Relinked(m, order[i], nextId);
      && r.Keys == m.Keys && KeyedById(r)
      && (forall k :: k in m ==> r[k].boardId == m[k].boardId)
      && (forall k :: k in m && m[k].boardId != b ==> r[k] == m[k])
  {
    RelinkedFrame(m, order[i], nextId);
    RecordOnChain(m, b, order, i, nextId);
    forall k | k in m && m[k].boardId != b
      ensures forall c :: c in Recorded(m, order[i], nextId) ==> c.id != k
    {
      assert k !in order;
    }
  }

  /** Every column the move records is a column of the chain. */
  lemma RecordOnChain(m: map<int, Column>, b: int, order: seq<int>, i: int, nextId: Option<int>)
    requires KeyedById(m) && PointersStayInBoard(m) && IsChain(m, b, order) && 0 <= i < |order|
    requires nextId.Some? ==> nextId.value in order
    ensures forall c :: c in Recorded(m, order[i], nextId) ==> c.id in order
  {
    TargetsOnChain(m, b, order, i, nextId);
    var t := MoveTargets(m, order[i], nextId);
    RelinkedBy(m, order[i], nextId, t);
    RecordInOrder(m, b, order, i, BeforeIndex(order, nextId), t);
  }

  lemma RecordInOrder(m: map<int, Column>, b: int, order: seq<int>, i: int, bi: int, t: Targets)
    requires KeyedById(m) && IsChain(m, b, order) && 0 <= i < |order| && bi < |order|
    requires t.current == Some(m[order[i]])
    requires t.previous == (if i == 0 then None else Some(m[order[i - 1]]))
    requires t.beforeNext == (if bi < 0 then None else Some(m[order[bi]]))
    ensures forall c :: c in Record(t) ==> c.id in order
  {
    ChainIsKeyed(m, b, order, i);
    if bi >= 0 { ChainIsKeyed(m, b, order, bi); }
    if i > 0 { ChainIsKeyed(m, b, order, i - 1); }
  }

  /** The pointers after a move link the moved order. */
  lemma MoveLinks(m: map<int, Column>, b: int, order: seq<int>, i: int, nextId: Option<int>)
    requires KeyedById(m) && PointersStayInBoard(m) && IsChain(m, b, order) && 0 <= i < |order|
    requires nextId.Some? ==> nextId.value in order && nextId.value != order[i]
    requires forall x :: 0 <= x < |order| ==> order[x] in m
    requires nextId != m[order[i]].nextId
    ensures LinkedTo(Relinked(m, order[i], nextId), Moved(order, order[i], nextId), None)
  {
    MovePointers(m, b, order, i, nextId);
    var r := Relinked(m, order[i], nextId);
    assert PointerTable(r, m, order, i, nextId);
    ChainNext(m, order, i);
    IndexOfDistinct(order, i);
    match nextId {
      case None =>
        LinkedAfterMoveToEnd(m, r, order, i);
      case Some(n) =>
        var j := IndexOf(order, n);
        if j > i {
          assert j != i + 1;
          MovedForwardLayout(order, i, j);
          LinkedForward(m, r, order, i, j, Moved(order, order[i], nextId));
        } else {
          assert j != i;
          MovedBackLayout(order, i, j);
          LinkedBack(m, r, order, i, j, Moved(order, order[i], nextId));
        }
    }
  }

  /** On a record whose every board is one chain and whose pointers stay in
      their board, the optimistic write of a move to a different place
      leaves the moved column's board one chain, in the order `Moved`
      gives (the column right before its target, or last), keeps every
      pointer in its board, and leaves every other board alone. The target
      must not be the column's current successor: see MoveToOwnSuccessor. */
  lemma MovePreservesChain(m: map<int, Column>, b: int, order: seq<int>, id: int, nextId: Option<int>)
    requires KeyedById(m) && PointersStayInBoard(m) && IsChain(m, b, order)
    requires id in m && id in order
    requires nextId.Some? ==> nextId.value in order && nextId.value != id
    requires nextId != m[id].nextId
    ensures var r := Relinked(m, id, nextId);
      && IsChain(r, b, Moved(order, id, nextId))
      && PointersStayInBoard(r)
      && r.Keys == m.Keys && KeyedById(r)
      && (forall k :: k in m && m[k].boardId != b ==> r[k] == m[k])
  {
    var i := IndexOf(order, id);
    ChainInRecord(m, b, order);
    MoveStaysInBoard(m, b, order, i, nextId);
    MoveLinks(m, b, order, i, nextId);
    MovedPlacesColumn(order, id, nextId);
    var r := Relinked(m, id, nextId);
    var o := Moved(order, id, nextId);
    assert forall k :: k in o <==> k in r && r[k].boardId == b;
    forall k | k in r && r[k].nextId.Some?
      ensures r[k].nextId.value in r && r[r[k].nextId.value].boardId == r[k].boardId
    {
      if m[k].boardId == b {
        var p := IndexOf(o, k);
        ChainNext(r, o, p);
        assert p + 1 < |o|;
        assert o[p + 1] in o;
      } else {
        assert m[k].nextId.value in m;
      }
    }
  }

  // ---- moving a column to where it already is ------------------------------------

  /** In a chain no two columns have the same pointer. */
  lemma ChainPointersDiffer(r: map<int, Column>, b: int, o: seq<int>, x: int, y: int)
    ensures IsChain(r, b, o) && x in o && y in o && x != y ==> r[x].nextId != r[y].nextId
  {
    if IsChain(r, b, o) && x in o && y in o && x != y {
      var px, py := IndexOf(o, x), IndexOf(o, y);
      ChainNext(r, o, px);
      ChainNext(r, o, py);
    }
  }

  /** `moveColumn(id, columns[id].nextId)` when the column has a predecessor:
      the predecessor takes over the column's pointer, the lookup for the
      column before the target finds the moved column itself, and the moved
      column is then given back its own pointer. The predecessor and the
      column end up pointing at the same place (two tails when the column
      was last), so the board is no longer one chain in any order. */
  lemma MoveToOwnSuccessor(m: map<int, Column>, b: int, order: seq<int>, i: int)
    requires KeyedById(m) && PointersStayInBoard(m) && IsChain(m, b, order)
    requires 0 < i < |order|
    ensures forall x :: 0 <= x < |order| ==> order[x] in m
    ensures var id, p := order[i], order[i - 1];
      var r := Relinked(m, id, m[id].nextId);
      && p in r && id in r && r[p].nextId == m[id].nextId && r[id].nextId == m[id].nextId
      && forall o :: !IsChain(r, b, o)
  {
    ChainInRecord(m, b, order);
    var id, p := order[i], order[i - 1];
    var nextId := m[id].nextId;
    ChainNext(m, order, i);
    if nextId.Some? { assert nextId.value == order[i + 1]; }
    MovePointers(m, b, order, i, nextId);
    MoveStaysInBoard(m, b, order, i, nextId);
    var r := Relinked(m, id, nextId);
    if nextId.Some? { IndexOfDistinct(order, i + 1); }
    assert r[p].nextId == PointerAt(m, order, i, nextId, i - 1);
    assert r[id].nextId == PointerAt(m, order, i, nextId, i);
    assert order[i] in order && order[i - 1] in order;
    assert r[id].boardId == b && r[p].boardId == b;
    forall o ensures !IsChain(r, b, o) {
      ChainPointersDiffer(r, b, o, p, id);
    }
  }

  lemma SameRecord(m: map<int, Column>, r: map<int, Column>, b: int, order: seq<int>)
    requires IsChain(m, b, order) && r.Keys == m.Keys
    requires forall k :: k in m ==> r[k].id == m[k].id && r[k].boardId == m[k].boardId && r[k].name == m[k].name
    requires forall k :: k in m && m[k].boardId != b ==> r[k] == m[k]
    requires forall a :: 0 <= a < |order| ==> order[a] in r && order[a] in m && r[order[a]].nextId == m[order[a]].nextId
    ensures r == m
  {
    forall k | k in m ensures r[k] == m[k] {
      if m[k].boardId == b {
        var a := IndexOf(order, k);
        assert r[order[a]].nextId == m[order[a]].nextId;
      }
    }
  }

  /** The same call on the head of a chain changes nothing. */
  lemma MoveHeadToOwnSuccessor(m: map<int, Column>, b: int, order: seq<int>)
    requires KeyedById(m) && PointersStayInBoard(m) && IsChain(m, b, order) && order != []
    ensures order[0] in m && Relinked(m, order[0], m[order[0]].nextId) == m
  {
    ChainInRecord(m, b, order);
    HeadPointersKept(m, b, order);
    var nextId := m[order[0]].nextId;
    MovePointers(m, b, order, 0, nextId);
    MoveStaysInBoard(m, b, order, 0, nextId);
    RelinkedFrame(m, order[0], nextId);
    SameRecord(m, Relinked(m, order[0], nextId), b, order);
  }

  /** Moving the head before its own successor writes every pointer of the
      chain back as it was. */
  lemma HeadPointersKept(m: map<int, Column>, b: int, order: seq<int>)
    requires IsChain(m, b, order) && order != []
    requires forall x :: 0 <= x < |order| ==> order[x] in m
    ensures m[order[0]].nextId.Some? ==> m[order[0]].nextId.value in order
    ensures forall a :: 0 <= a < |order| ==> PointerAt(m, order, 0, m[order[0]].nextId, a) == m[order[a]].nextId
  {
    ChainNext(m, order, 0);
    if |order| > 1 {
      IndexOfDistinct(order, 1);
    }
  }
}
