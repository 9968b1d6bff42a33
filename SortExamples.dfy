/** `sortColumns` on a board whose chain passes through the id 0: the falsy
    test `!column.nextId` takes the column pointing at 0 for the tail. */
module SortExamples {

  import opened Wrappers
  import Keyed
  import opened Columns
  import opened ColumnChain
  import opened ColumnSort

  const X := Column(7, 1, Some(0), "X")
  const Y := Column(0, 1, Some(9), "Y")
  const Z := Column(9, 1, None, "Z")
  const Board: map<int, Column> := map[7 := X, 0 := Y, 9 := Z]

  lemma BoardIsChain()
    ensures KeyedById(Board) && PointersStayInBoard(Board) && IsChain(Board, 1, [7, 0, 9])
  {
    var o := [7, 0, 9];
    assert forall k :: k in o <==> k in Board && Board[k].boardId == 1;
    forall i, j | 0 <= i && j == i + 1 && j < |o| ensures Board[o[i]].nextId == Some(o[j]) {
      if i == 0 { assert o[0] == 7 && o[1] == 0; } else { assert o[1] == 0 && o[2] == 9; }
    }
  }

  /** The listed columns of the board are X, Y and Z, in ascending id order;
      only X and Z pass the falsy test. */
  lemma Listed(cs: seq<Column>)
    requires forall c :: c in cs <==> Keyed.Stored(Board, c) && c.boardId == 1
    ensures X in cs && Z in cs
    ensures forall c :: c in cs ==> c == X || c == Y || c == Z
  {
    assert Board[7] == X && Board[9] == Z;
    forall c | c in cs ensures c == X || c == Y || c == Z {
      var k :| k in Board && Board[k] == c;
    }
  }

  /** On the chain X→Y→Z, with Y's id 0, the walk starts at X (whose
      `nextId` 0 is falsy), finds nothing pointing at X and stops: the
      sorted selector answers X alone. */
  lemma ZeroIdCutsSortShort()
    ensures IsChain(Board, 1, [7, 0, 9])
    ensures forall sorted :: IsSortResult(GetColumnsInBoard(Board, 1), sorted) ==> sorted == [X]
  {
    BoardIsChain();
    CutShort(GetColumnsInBoard(Board, 1));
  }

  lemma CutShort(cs: seq<Column>)
    requires forall c :: c in cs <==> Keyed.Stored(Board, c) && c.boardId == 1
    requires forall i, j :: 0 <= i < j < |cs| ==> cs[i].id < cs[j].id
    ensures forall sorted :: IsSortResult(cs, sorted) ==> sorted == [X]
  {
    Listed(cs);
    forall c | c in cs ensures !Matches(c, PointsTo(7)) {
    }
    assert Find(cs, PointsTo(7)).None?;
    var j :| 0 <= j < |cs| && cs[j] == X;
    assert Matches(cs[j], Falsy);
    FindIsFirst(cs, Falsy);
    var i :| 0 <= i < |cs| && cs[i] == Find(cs, Falsy).value &&
             (forall t :: 0 <= t < i ==> !Matches(cs[t], Falsy));
    assert i <= j;
    assert cs[i].id <= 7;
    assert Find(cs, Falsy) == Some(X);
    forall sorted: seq<Column> | IsSortResult(cs, sorted) ensures sorted == [X] {
      if |sorted| >= 2 {
        SortLinkAt(cs, sorted, |sorted| - 2);
        assert false;
      }
    }
  }

  /** A sort result links each column to the next by `find`. */
  lemma SortLinkAt(cs: seq<Column>, sorted: seq<Column>, i: int)
    requires IsSortResult(cs, sorted) && Find(cs, Falsy).Some? && 0 <= i < |sorted| - 1
    ensures Find(cs, PointsTo(sorted[i + 1].id)) == Some(sorted[i])
  {
  }
}
