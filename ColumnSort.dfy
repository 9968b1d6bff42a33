/** `sortColumns` of src/store/columns.ts and the sorted selectors built on it:
    start at the column whose `nextId` is falsy, repeatedly look for the
    column that points at the current one, and reverse what was collected. */
module ColumnSort {

  import opened Wrappers
  import Keyed
  import opened Columns
  import opened ColumnChain

  ghost predicate DistinctIds(cs: seq<Column>)
  {
    forall i, j :: 0 <= i < j < |cs| ==> cs[i].id != cs[j].id
  }

  /** What `sortColumns(cs)` returns, stated through `find` alone: nothing when
      no column has a falsy `nextId`; otherwise a list that ends with the
      first such column, in which each column is the first one pointing at
      its successor, and whose head nothing points at. */
  ghost predicate IsSortResult(cs: seq<Column>, sorted: seq<Column>)
  {
    if Find(cs, Falsy).None? then sorted == []
    else
      && sorted != []
      && sorted[|sorted| - 1] == Find(cs, Falsy).value
      && (forall i :: 0 <= i < |sorted| - 1 ==> Find(cs, PointsTo(sorted[i + 1].id)) == Some(sorted[i]))
      && Find(cs, PointsTo(sorted[0].id)).None?
  }

  lemma {:induction false} DistinctLength(a: seq<Column>, b: seq<Column>)
    requires DistinctIds(a)
    requires forall i :: 0 <= i < |a| ==> a[i] in b
    ensures |a| <= |b|
    decreases |b|
  {
    if a != [] {
      var x := a[|a| - 1];
      var k :| 0 <= k < |b| && b[k] == x;
      var b' := b[..k] + b[k + 1..];
      var a' := a[..|a| - 1];
      forall i | 0 <= i < |a'| ensures a'[i] in b' {
        assert a[i].id != x.id;
        var t :| 0 <= t < |b| && b[t] == a[i];
        assert t != k;
        assert b'[if t < k then t else t - 1] == a[i];
      }
      DistinctLength(a', b');
    }
  }

  lemma SameIdSameColumn(cs: seq<Column>, a: Column, b: Column)
    requires DistinctIds(cs) && a in cs && b in cs
    ensures a.id == b.id ==> a == b
  {
    var p :| 0 <= p < |cs| && cs[p] == a;
    var q :| 0 <= q < |cs| && cs[q] == b;
    assert a.id == b.id ==> p == q;
  }

  /** Each collected column is the first one pointing at the one before it. */
  ghost predicate FindChained(columns: seq<Column>, collected: seq<Column>)
  {
    forall i, j :: 0 <= i && j == i + 1 && j < |collected| ==>
      Find(columns, PointsTo(collected[i].id)) == Some(collected[j])
  }

  /** Each collected column points at the one before it. */
  ghost predicate PointsBack(collected: seq<Column>)
  {
    forall i, j :: 0 <= i && j == i + 1 && j < |collected| ==> collected[j].nextId == Some(collected[i].id)
  }

  ghost predicate AllIn(s: seq<Column>, columns: seq<Column>)
  {
    forall i :: 0 <= i < |s| ==> s[i] in columns
  }

  /** The facts the walk keeps about what it has collected, tail first. */
  ghost predicate Walked(columns: seq<Column>, collected: seq<Column>)
  {
    && collected != [] && Find(columns, Falsy) == Some(collected[0])
    && FindChained(columns, collected)
    && PointsBack(collected)
    && AllIn(collected, columns)
    && DistinctIds(collected)
  }

  /** The column pointing at the last one collected has not been collected
      yet, so the walk never comes back. */
  lemma WalkFresh(columns: seq<Column>, collected: seq<Column>, c: Column)
    requires DistinctIds(columns) && forall i :: 0 <= i < |columns| ==> columns[i].id != 0
    requires Walked(columns, collected)
    requires c in columns && c.nextId == Some(collected[|collected| - 1].id)
    ensures forall i :: 0 <= i < |collected| ==> collected[i].id != c.id
  {
    var current := collected[|collected| - 1];
    assert current in columns;
    forall i | 0 <= i < |collected| ensures collected[i].id != c.id {
      assert collected[i] in columns;
      SameIdSameColumn(columns, collected[i], c);
      if i == 0 {
        assert Matches(collected[0], Falsy);
      } else {
        assert collected[i].nextId == Some(collected[i - 1].id);
      }
    }
  }

  lemma FindChainedStep(columns: seq<Column>, collected: seq<Column>, c: Column)
    requires collected != [] && FindChained(columns, collected)
    requires Find(columns, PointsTo(collected[|collected| - 1].id)) == Some(c)
    ensures FindChained(columns, collected + [c])
  {
    var n := collected + [c];
    forall i, j | 0 <= i && j == i + 1 && j < |n| ensures Find(columns, PointsTo(n[i].id)) == Some(n[j]) {
      assert n[i] == collected[i];
    }
  }

  lemma PointsBackStep(collected: seq<Column>, c: Column)
    requires collected != [] && PointsBack(collected)
    requires c.nextId == Some(collected[|collected| - 1].id)
    ensures PointsBack(collected + [c])
  {
    var n := collected + [c];
    forall i, j | 0 <= i && j == i + 1 && j < |n| ensures n[j].nextId == Some(n[i].id) {
      assert n[i] == collected[i];
    }
  }

  lemma DistinctStep(collected: seq<Column>, c: Column)
    requires DistinctIds(collected)
    requires forall i :: 0 <= i < |collected| ==> collected[i].id != c.id
    ensures DistinctIds(collected + [c])
  {
    var n := collected + [c];
    forall i, j | 0 <= i < j < |n| ensures n[i].id != n[j].id {
      assert n[i] == collected[i];
    }
  }

  lemma WalkStep(columns: seq<Column>, collected: seq<Column>, c: Column)
    requires DistinctIds(columns) && forall i :: 0 <= i < |columns| ==> columns[i].id != 0
    requires Walked(columns, collected)
    requires Find(columns, PointsTo(collected[|collected| - 1].id)) == Some(c)
    ensures Walked(columns, collected + [c])
  {
    assert c in columns && c.nextId == Some(collected[|collected| - 1].id);
    WalkFresh(columns, collected, c);
    FindChainedStep(columns, collected, c);
    PointsBackStep(collected, c);
    DistinctStep(collected, c);
    var n := collected + [c];
    assert n[0] == collected[0];
    forall i | 0 <= i < |n| ensures n[i] in columns {
    }
  }

  /** `sortColumns`. The walk needs distinct ids (it is given the values of a
      record) and non-zero ids: the falsy test also takes `nextId == 0` for a
      tail, and a column with id 0 could then lead the walk back to where it
      started. */
  method SortColumns(columns: seq<Column>) returns (sorted: seq<Column>)
    requires DistinctIds(columns)
    requires forall i :: 0 <= i < |columns| ==> columns[i].id != 0
    ensures IsSortResult(columns, sorted)
    ensures sorted != [] ==> Matches(sorted[|sorted| - 1], Falsy)
    ensures forall i :: 0 <= i < |sorted| - 1 ==> sorted[i].nextId == Some(sorted[i + 1].id)
    ensures forall i :: 0 <= i < |sorted| ==> sorted[i] in columns
    ensures DistinctIds(sorted) && |sorted| <= |columns|
  {
    var first := Find(columns, Falsy);
    if first.None? {
      return [];
    }
    var current := first.value;
    // `sortedColumns` before its `reverse()`: the tail first.
    var collected := [current];
    assert current in columns;
    var next := Find(columns, PointsTo(current.id));
    while next.Some?
      invariant Walked(columns, collected)
      invariant current == collected[|collected| - 1]
      invariant next == Find(columns, PointsTo(current.id))
      decreases |columns| - |collected|
    {
      WalkStep(columns, collected, next.value);
      DistinctLength(collected + [next.value], columns);
      current := next.value;
      collected := collected + [current];
      next := Find(columns, PointsTo(current.id));
    }
    DistinctLength(collected, columns);
    sorted := Reverse(collected);
    ReversedWalk(columns, collected);
  }

  function Reverse(s: seq<Column>): (r: seq<Column>)
    ensures |r| == |s| && forall k :: 0 <= k < |s| ==> r[k] == s[|s| - 1 - k]
  {
    seq(|s|, k requires 0 <= k < |s| => s[|s| - 1 - k])
  }

  /** A finished walk, reversed, is what `sortColumns` promises. */
  lemma ReversedWalk(columns: seq<Column>, collected: seq<Column>)
    requires Walked(columns, collected)
    requires Find(columns, PointsTo(collected[|collected| - 1].id)).None?
    ensures var sorted := Reverse(collected);
      && IsSortResult(columns, sorted)
      && Matches(sorted[|sorted| - 1], Falsy)
      && (forall i :: 0 <= i < |sorted| - 1 ==> sorted[i].nextId == Some(sorted[i + 1].id))
      && (forall i :: 0 <= i < |sorted| ==> sorted[i] in columns)
      && DistinctIds(sorted)
  {
    var sorted := Reverse(collected);
    var n := |collected|;
    forall i | 0 <= i < n - 1
      ensures Find(columns, PointsTo(sorted[i + 1].id)) == Some(sorted[i])
      ensures sorted[i].nextId == Some(sorted[i + 1].id)
    {
      assert sorted[i + 1] == collected[n - 2 - i] && sorted[i] == collected[n - 1 - i];
    }
    forall i | 0 <= i < n ensures sorted[i] in columns {
      assert sorted[i] == collected[n - 1 - i];
    }
    forall i, j | 0 <= i < j < n ensures sorted[i].id != sorted[j].id {
      assert sorted[i] == collected[n - 1 - i] && sorted[j] == collected[n - 1 - j];
    }
  }

  // ---- sorting a well-formed board ---------------------------------------------

  /** The columns given to `sortColumns` are those of one board, each the
      record's entry under its id. */
  ghost predicate BoardColumns(cs: seq<Column>, m: map<int, Column>, b: int, order: seq<int>)
  {
    && Covers(cs, m, order)
    && (forall c :: c in cs ==> c.boardId == b)
  }

  /** What `find` answers on the columns of a chain (FindPredecessor and
      FindFalsy): each column's predecessor, nothing for the head, the tail
      for the falsy test. */
  ghost predicate ChainFinds(cs: seq<Column>, m: map<int, Column>, order: seq<int>)
  {
    && order != []
    && (forall t :: 0 <= t < |order| ==> order[t] in m && m[order[t]].id == order[t])
    && Find(cs, Falsy) == Some(m[order[|order| - 1]])
    && Find(cs, PointsTo(order[0])).None?
    && (forall t :: 0 < t < |order| ==> Find(cs, PointsTo(order[t])) == Some(m[order[t - 1]]))
  }

  lemma ChainFindsHold(cs: seq<Column>, m: map<int, Column>, b: int, order: seq<int>)
    requires KeyedById(m) && IsChain(m, b, order) && 0 !in order && order != []
    requires BoardColumns(cs, m, b, order)
    ensures ChainFinds(cs, m, order)
  {
    FindFalsy(cs, m, b, order);
    FindPredecessor(cs, m, b, order, 0);
    forall t | 0 <= t < |order| ensures order[t] in m && m[order[t]].id == order[t] {
      ChainIsKeyed(m, b, order, t);
    }
    forall t | 0 < t < |order| ensures Find(cs, PointsTo(order[t])) == Some(m[order[t - 1]]) {
      FindPredecessor(cs, m, b, order, t);
    }
  }

  /** Walking back from the tail, the `k`-th column from the end of a sort
      result is the `k`-th column from the end of the chain. */
  lemma {:induction false} SortSuffix(cs: seq<Column>, m: map<int, Column>, order: seq<int>,
                                      sorted: seq<Column>, k: nat)
    requires ChainFinds(cs, m, order)
    requires IsSortResult(cs, sorted)
    requires k < |sorted| && k < |order|
    ensures sorted[|sorted| - 1 - k] == m[order[|order| - 1 - k]]
  {
    if k > 0 {
      SortSuffix(cs, m, order, sorted, k - 1);
      var i := |sorted| - 1 - k;
      var t := |order| - 1 - k;
      assert sorted[i + 1].id == order[t + 1];
      assert Find(cs, PointsTo(sorted[i + 1].id)) == Some(sorted[i]);
    }
  }

  /** Only the head of a sort result has no column pointing at it. */
  lemma SortHeadOnly(cs: seq<Column>, sorted: seq<Column>, i: int)
    requires IsSortResult(cs, sorted) && 0 <= i < |sorted|
    ensures Find(cs, PointsTo(sorted[i].id)).None? ==> i == 0
  {
    assert i > 0 ==> Find(cs, PointsTo(sorted[i].id)) == Some(sorted[i - 1]);
  }

  /** Only the head of a chain has no column pointing at it. */
  lemma ChainHeadOnly(cs: seq<Column>, m: map<int, Column>, order: seq<int>, t: int)
    requires ChainFinds(cs, m, order) && 0 <= t < |order|
    ensures Find(cs, PointsTo(order[t])).None? ==> t == 0
  {
    assert t > 0 ==> Find(cs, PointsTo(order[t])) == Some(m[order[t - 1]]);
  }

  /** A sort result over columns that `find` answers like a chain is that chain. */
  lemma SortFollowsFinds(cs: seq<Column>, m: map<int, Column>, order: seq<int>, sorted: seq<Column>)
    requires ChainFinds(cs, m, order)
    requires IsSortResult(cs, sorted)
    ensures |sorted| == |order| && forall i :: 0 <= i < |order| ==> sorted[i] == m[order[i]]
  {
    assert sorted != [];
    var k := (if |sorted| < |order| then |sorted| else |order|) - 1;
    SortSuffix(cs, m, order, sorted, k);
    var i, t := |sorted| - 1 - k, |order| - 1 - k;
    assert sorted[i].id == order[t];
    // Walking back stops at the head of both: only a head has no predecessor.
    assert Find(cs, PointsTo(sorted[i].id)).None?;
    SortHeadOnly(cs, sorted, i);
    ChainHeadOnly(cs, m, order, t);
    forall i | 0 <= i < |order| ensures sorted[i] == m[order[i]] {
      SortSuffix(cs, m, order, sorted, |order| - 1 - i);
    }
  }

  /** On the columns of a board whose pointers form a chain, a sort result is
      exactly the chain, head first: `sortColumns` gives the board's order. */
  lemma SortOfChain(cs: seq<Column>, m: map<int, Column>, b: int, order: seq<int>, sorted: seq<Column>)
    requires KeyedById(m) && IsChain(m, b, order) && 0 !in order
    requires BoardColumns(cs, m, b, order)
    requires IsSortResult(cs, sorted)
    ensures forall i :: 0 <= i < |order| ==> order[i] in m
    ensures sorted == ColumnsAlong(m, order)
  {
    FindFalsy(cs, m, b, order);
    forall i | 0 <= i < |order| ensures order[i] in m {
      assert order[i] in order;
    }
    if order != [] {
      ChainFindsHold(cs, m, b, order);
      SortFollowsFinds(cs, m, order, sorted);
    }
  }

  // ---- the sorted selectors ------------------------------------------------------

  /** The columns of a board, as listed from the record, can be walked. */
  lemma BoardColumnsWalkable(m: map<int, Column>, b: int)
    requires KeyedById(m)
    requires forall k :: k in m && m[k].boardId == b ==> k != 0
    ensures var cs := GetColumnsInBoard(m, b);
      DistinctIds(cs) && forall i :: 0 <= i < |cs| ==> cs[i].id != 0
  {
    var cs := GetColumnsInBoard(m, b);
    forall i | 0 <= i < |cs| ensures cs[i].id != 0 {
      assert cs[i] in cs;
      var k :| k in m && m[k] == cs[i];
    }
  }

  /** The chain of a board, given the columns the selector lists for it. */
  lemma ChainOfBoard(m: map<int, Column>, b: int, order: seq<int>)
    requires KeyedById(m) && IsChain(m, b, order)
    requires forall k :: k in m && m[k].boardId == b ==> k != 0
    ensures 0 !in order && BoardColumns(GetColumnsInBoard(m, b), m, b, order)
  {
    BoardMembers(GetColumnsInBoard(m, b), m, b, order);
  }

  /** Only which columns make up the board counts for `BoardColumns`. */
  lemma BoardMembers(cs: seq<Column>, m: map<int, Column>, b: int, order: seq<int>)
    requires KeyedById(m) && forall k :: k in order <==> k in m && m[k].boardId == b
    requires forall k :: k in m && m[k].boardId == b ==> k != 0
    requires forall c :: c in cs <==> Keyed.Stored(m, c) && c.boardId == b
    ensures 0 !in order && BoardColumns(cs, m, b, order)
  {
    forall c | c in cs ensures c.id in m && m[c.id] == c {
      assert Keyed.Stored(m, c);
      Keyed.ValueUnderKey(m, ColumnId, c);
    }
    forall k | k in order ensures k in m && m[k] in cs {
      assert Keyed.Stored(m, m[k]);
    }
  }

  /** `getSortedColumnsInBoard(boardId)(state)`: the board's columns in the
      order their pointers give, head first, whatever that order is. */
  method GetSortedColumnsInBoard(m: map<int, Column>, b: int) returns (sorted: seq<Column>)
    requires KeyedById(m)
    requires forall k :: k in m && m[k].boardId == b ==> k != 0
    ensures IsSortResult(GetColumnsInBoard(m, b), sorted)
    ensures forall c :: c in sorted ==> Keyed.Stored(m, c) && c.boardId == b
    ensures forall order :: IsChain(m, b, order) ==> sorted == ColumnsAlong(m, order)
  {
    var cs := GetColumnsInBoard(m, b);
    BoardColumnsWalkable(m, b);
    sorted := SortColumns(cs);
    SortOfBoard(m, b, sorted);
  }

  /** Whatever list `sortColumns` answers on a board's columns is the
      board's chain, head first, when its columns form one. */
  lemma SortOfBoard(m: map<int, Column>, b: int, sorted: seq<Column>)
    requires KeyedById(m)
    requires forall k :: k in m && m[k].boardId == b ==> k != 0
    requires IsSortResult(GetColumnsInBoard(m, b), sorted)
    ensures forall order :: IsChain(m, b, order) ==> sorted == ColumnsAlong(m, order)
  {
    forall order | IsChain(m, b, order) ensures sorted == ColumnsAlong(m, order) {
      ChainOfBoard(m, b, order);
      SortOfChain(GetColumnsInBoard(m, b), m, b, order, sorted);
    }
  }

  /** `getSortedColumnsInCurrentBoard()(state)`, the current board passed in. */
  method GetSortedColumnsInCurrentBoard(m: map<int, Column>, currentBoardId: Option<int>)
    returns (sorted: seq<Column>)
    requires KeyedById(m)
    requires currentBoardId.Some? ==> forall k :: k in m && m[k].boardId == currentBoardId.value ==> k != 0
    ensures IsSortResult(GetColumnsInCurrentBoard(m, currentBoardId), sorted)
    ensures forall c :: c in sorted ==>
      Keyed.Stored(m, c) && currentBoardId.Some? && c.boardId == currentBoardId.value
    ensures currentBoardId.None? ==> sorted == []
    ensures currentBoardId.Some? ==> forall order :: IsChain(m, currentBoardId.value, order) ==>
      sorted == ColumnsAlong(m, order)
  {
    match currentBoardId {
      case None =>
        sorted := SortColumns(GetColumnsInCurrentBoard(m, currentBoardId));
      case Some(b) =>
        sorted := GetSortedColumnsInBoard(m, b);
    }
  }
}
