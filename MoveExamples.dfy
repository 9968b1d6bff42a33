/** The moves of a three-column board A→B→C (ids 1, 2, 3 on board 7). */
module MoveExamples {

  import opened Wrappers
  import opened Columns
  import opened ColumnChain
  import opened ColumnMove
  import opened MoveChain

  const A := Column(1, 7, Some(2), "A")
  const B := Column(2, 7, Some(3), "B")
  const C := Column(3, 7, None, "C")
  const Board: map<int, Column> := map[1 := A, 2 := B, 3 := C]

  lemma BoardIsChain()
    ensures KeyedById(Board) && PointersStayInBoard(Board) && IsChain(Board, 7, [1, 2, 3])
  {
    var o := [1, 2, 3];
    assert forall k :: k in o <==> k in Board && Board[k].boardId == 7;
    forall i, j | 0 <= i && j == i + 1 && j < |o| ensures Board[o[i]].nextId == Some(o[j]) {
      if i == 0 { assert o[0] == 1 && o[1] == 2; } else { assert o[1] == 2 && o[2] == 3; }
    }
  }

  /** A record equal to `Board` but for the pointers given. */
  lemma Repointed(r: map<int, Column>, n1: Option<int>, n2: Option<int>, n3: Option<int>)
    requires r.Keys == Board.Keys
    requires forall k :: k in Board ==> r[k].id == Board[k].id && r[k].boardId == Board[k].boardId && r[k].name == Board[k].name
    requires r[1].nextId == n1 && r[2].nextId == n2 && r[3].nextId == n3
    ensures r == map[1 := A.(nextId := n1), 2 := B.(nextId := n2), 3 := C.(nextId := n3)]
  {
  }

  /** The pointers of a three-column chain. */
  lemma ThreeLinked(r: map<int, Column>, o: seq<int>)
    requires |o| == 3 && LinkedTo(r, o, None)
    ensures r[o[0]].nextId == Some(o[1]) && r[o[1]].nextId == Some(o[2]) && r[o[2]].nextId == None
  {
    ChainNext(r, o, 0);
    ChainNext(r, o, 1);
    ChainNext(r, o, 2);
  }

  /** The orders the two moves are meant to produce. */
  lemma MovedOrders()
    ensures Moved([1, 2, 3], 3, Some(2)) == [1, 3, 2]
    ensures Moved([1, 2, 3], 1, None) == [2, 3, 1]
  {
    assert Without([1, 2, 3], 3) == [1, 2];
    assert IndexOf([1, 2], 2) == 1;
    assert Without([1, 2, 3], 1) == [2, 3];
  }

  /** `moveColumn(C, B)` turns A→B→C into A→C→B. */
  lemma MoveLastBeforeMiddle()
    ensures Moved([1, 2, 3], 3, Some(2)) == [1, 3, 2]
    ensures Relinked(Board, 3, Some(2)) == map[1 := A.(nextId := Some(3)), 2 := B.(nextId := None), 3 := C.(nextId := Some(2))]
  {
    BoardIsChain();
    MovedOrders();
    var o := [1, 3, 2];
    MovePreservesChain(Board, 7, [1, 2, 3], 3, Some(2));
    RelinkedFrame(Board, 3, Some(2));
    var r := Relinked(Board, 3, Some(2));
    ThreeLinked(r, o);
    Repointed(r, Some(3), None, Some(2));
  }

  /** `moveColumn(A, null)` turns A→B→C into B→C→A. */
  lemma MoveHeadToEnd()
    ensures Moved([1, 2, 3], 1, None) == [2, 3, 1]
    ensures Relinked(Board, 1, None) == map[1 := A.(nextId := None), 2 := B, 3 := C.(nextId := Some(1))]
  {
    BoardIsChain();
    MovedOrders();
    var o := [2, 3, 1];
    MovePreservesChain(Board, 7, [1, 2, 3], 1, None);
    RelinkedFrame(Board, 1, None);
    var r := Relinked(Board, 1, None);
    ThreeLinked(r, o);
    Repointed(r, None, Some(3), Some(1));
  }

  /** `moveColumn(C, null)`, C being last already, leaves two tails: B
      takes over C's `null`, and C keeps it. */
  lemma MoveTailToEndMakesTwoTails()
    ensures Relinked(Board, 3, None) == map[1 := A, 2 := B.(nextId := None), 3 := C]
    ensures forall o :: !IsChain(Relinked(Board, 3, None), 7, o)
  {
    BoardIsChain();
    MoveToOwnSuccessor(Board, 7, [1, 2, 3], 2);
    RelinkedFrame(Board, 3, None);
    var r := Relinked(Board, 3, None);
    var o := [1, 2, 3];
    MovePointers(Board, 7, o, 2, None);
    assert r[o[0]].nextId == PointerAt(Board, o, 2, None, 0);
    Repointed(r, Some(2), None, None);
  }
}
