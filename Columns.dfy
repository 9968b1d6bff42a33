/** The column entity of src/store/columns.ts, the copy-on-write helpers
    `setColumn` and `removeColumn`, their folds, `Array.prototype.find` as the
    store uses it, and the pure selectors. */
module Columns {

  import opened Wrappers
  import Keyed

  /** A column of a board. `nextId` is the id of the column after it on the
      same board, or `None` (`null`) for the last one. */
  datatype Column = Column(id: int, boardId: int, nextId: Option<int>, name: string)

  function ColumnId(c: Column): int { c.id }

  /** The record `columns` holds every column under its own id. */
  ghost predicate KeyedById(m: map<int, Column>)
  {
    Keyed.KeyedBy(m, ColumnId)
  }

  /** `setColumn(state, column)`: the column is stored under its id, every
      other entry stays as it was. */
  function SetColumn(m: map<int, Column>, c: Column): (r: map<int, Column>)
    ensures c.id in r && r[c.id] == c
    ensures r.Keys == m.Keys + {c.id}
    ensures forall k :: k in m && k != c.id ==> r[k] == m[k]
    ensures KeyedById(m) ==> KeyedById(r)
  {
    Keyed.Put(m, c.id, c)
  }

  /** `removeColumn(state, columnId)`: the id is gone, every other entry
      stays, and removing an absent id changes nothing. */
  function RemoveColumn(m: map<int, Column>, id: int): (r: map<int, Column>)
    ensures id !in r
    ensures r.Keys == m.Keys - {id}
    ensures forall k :: k in r ==> r[k] == m[k]
    ensures id !in m ==> r == m
    ensures KeyedById(m) ==> KeyedById(r)
  {
    Keyed.Drop(m, id)
  }

  /** `columns.reduce(setColumn, state)`: the ids of `cs` are added, the later
      of two columns with the same id wins, and every column whose id is not
      in `cs` is kept as it was. */
  function AddColumns(m: map<int, Column>, cs: seq<Column>): (r: map<int, Column>)
    ensures forall k :: k in r <==> k in m || exists i :: 0 <= i < |cs| && cs[i].id == k
    ensures forall i :: 0 <= i < |cs| && (forall j :: i < j < |cs| ==> cs[j].id != cs[i].id) ==>
      r[cs[i].id] == cs[i]
    ensures forall k :: k in m && (forall i :: 0 <= i < |cs| ==> cs[i].id != k) ==> r[k] == m[k]
    ensures KeyedById(m) ==> KeyedById(r)
  {
    Keyed.PutAllLatest(m, cs, ColumnId);
    Keyed.PutAllKeyedBy(m, cs, ColumnId);
    var r := Keyed.PutAll(m, cs, ColumnId);
    r
  }

  /** `columnIds.reduce(removeColumn, state)`: exactly the listed ids are
      removed. */
  function RemoveColumns(m: map<int, Column>, ids: seq<int>): (r: map<int, Column>)
    ensures forall k :: k in r <==> k in m && k !in ids
    ensures forall k :: k in r ==> r[k] == m[k]
    ensures KeyedById(m) ==> KeyedById(r)
  {
    Keyed.DropAllSpec(m, ids);
    Keyed.DropAllKeyedBy(m, ids, ColumnId);
    Keyed.DropAll(m, ids)
  }

  /** The predicates the store hands to `columns.find`. */
  datatype Query =
    | PointsTo(target: int)   // column.nextId === target
    | Falsy                   // !column.nextId: null, or the number 0
    | TailOf(boardId: int)    // column.boardId === boardId && column.nextId === null

  predicate Matches(c: Column, q: Query)
  {
    match q
    case PointsTo(t) => c.nextId == Some(t)
    case Falsy => c.nextId == None || c.nextId == Some(0)
    case TailOf(b) => c.boardId == b && c.nextId == None
  }

  /** `cs.find(q)`: a column that matches, or `None` (`undefined`) when none
      does; FindIsFirst shows it is the first that matches. */
  function Find(cs: seq<Column>, q: Query): (r: Option<Column>)
    ensures r.None? <==> forall i :: 0 <= i < |cs| ==> !Matches(cs[i], q)
    ensures r.Some? ==> r.value in cs && Matches(r.value, q)
    decreases |cs|
  {
    if cs == [] then None
    else if Matches(cs[0], q) then Some(cs[0])
    else Find(cs[1..], q)
  }

  /** `find` returns the first match: nothing before it matches. */
  lemma {:induction false} FindIsFirst(cs: seq<Column>, q: Query)
    requires Find(cs, q).Some?
    ensures exists i :: 0 <= i < |cs| && cs[i] == Find(cs, q).value &&
                        (forall j :: 0 <= j < i ==> !Matches(cs[j], q))
    decreases |cs|
  {
    if !Matches(cs[0], q) {
      FindIsFirst(cs[1..], q);
      var i :| 0 <= i < |cs[1..]| && cs[1..][i] == Find(cs, q).value &&
               (forall j :: 0 <= j < i ==> !Matches(cs[1..][j], q));
      assert cs[i + 1] == Find(cs, q).value;
      forall j | 0 <= j < i + 1 ensures !Matches(cs[j], q) {
        if j > 0 { assert cs[j] == cs[1..][j - 1]; }
      }
    } else {
      assert cs[0] == Find(cs, q).value;
    }
  }

  /** What a `find` over `Object.values(state.columns)` answers, said of the
      record itself: nothing exactly when no stored column matches, otherwise
      a stored column that matches, and, the record being keyed by id, no
      column with a smaller id matches. */
  ghost predicate FirstInRecord(m: map<int, Column>, q: Query, r: Option<Column>)
  {
    && (r.None? <==> forall k :: k in m ==> !Matches(m[k], q))
    && (r.Some? ==> Keyed.Stored(m, r.value) && Matches(r.value, q))
    && (r.Some? && KeyedById(m) ==> forall k :: k in m && k < r.value.id ==> !Matches(m[k], q))
  }

  lemma FindInRecord(m: map<int, Column>, q: Query)
    ensures FirstInRecord(m, q, Find(Keyed.Values(m), q))
  {
    var ks := Keyed.SortedKeys(m.Keys);
    FindInListing(m, ks, Keyed.Values(m), q);
  }

  /** `find` over the record's values listed in ascending key order. */
  lemma FindInListing(m: map<int, Column>, ks: seq<int>, vs: seq<Column>, q: Query)
    requires |ks| == |vs|
    requires forall a, b :: 0 <= a < b < |ks| ==> ks[a] < ks[b]
    requires forall k :: k in m ==> k in ks
    requires forall j :: 0 <= j < |ks| ==> ks[j] in m && vs[j] == m[ks[j]]
    ensures FirstInRecord(m, q, Find(vs, q))
  {
    var r := Find(vs, q);
    if r.None? {
      forall k | k in m ensures !Matches(m[k], q) {
        var i :| 0 <= i < |ks| && ks[i] == k;
        assert vs[i] == m[k];
      }
    } else {
      FindIsFirst(vs, q);
      var i :| 0 <= i < |vs| && vs[i] == r.value && (forall j :: 0 <= j < i ==> !Matches(vs[j], q));
      assert ks[i] in m && m[ks[i]] == r.value;
      if KeyedById(m) {
        assert r.value.id == ks[i];
        SmallerKeysMiss(m, ks, vs, q, i);
      }
    }
  }

  /** Listed in ascending key order, the columns before position `i` are
      those under keys smaller than the `i`-th. */
  lemma SmallerKeysMiss(m: map<int, Column>, ks: seq<int>, vs: seq<Column>, q: Query, i: int)
    requires 0 <= i < |ks| == |vs|
    requires forall a, b :: 0 <= a < b < |ks| ==> ks[a] < ks[b]
    requires forall k :: k in m ==> k in ks
    requires forall j :: 0 <= j < |ks| ==> ks[j] in m && vs[j] == m[ks[j]]
    requires forall j :: 0 <= j < i ==> !Matches(vs[j], q)
    ensures forall k :: k in m && k < ks[i] ==> !Matches(m[k], q)
  {
    forall k | k in m && k < ks[i] ensures !Matches(m[k], q) {
      var j :| 0 <= j < |ks| && ks[j] == k;
      assert j < i;
    }
  }

  /** `getColumn(columnId)(state)` */
  function GetColumn(m: map<int, Column>, id: int): (r: Option<Column>)
    ensures r.Some? <==> id in m
    ensures r.Some? ==> r.value == m[id]
  {
    if id in m then Some(m[id]) else None
  }

  /** `filter((column) => column.boardId === boardId)`, keeping the order. */
  function InBoard(cs: seq<Column>, b: int): (r: seq<Column>)
    ensures forall c :: c in r <==> c in cs && c.boardId == b
    ensures |r| <= |cs|
    ensures (forall i, j :: 0 <= i < j < |cs| ==> cs[i].id < cs[j].id) ==>
            (forall i, j :: 0 <= i < j < |r| ==> r[i].id < r[j].id)
    decreases |cs|
  {
    if cs == [] then []
    else
      var rest := InBoard(cs[1..], b);
      assert forall c :: c in rest ==> c in cs[1..];
      if cs[0].boardId == b then [cs[0]] + rest else rest
  }

  /** `getColumnsInBoard(boardId)(state)`: the columns of the board, in the
      order `Object.values` lists them (ascending id). */
  function GetColumnsInBoard(m: map<int, Column>, b: int): (r: seq<Column>)
    ensures forall c :: c in r <==> Keyed.Stored(m, c) && c.boardId == b
    ensures KeyedById(m) ==> forall i, j :: 0 <= i < j < |r| ==> r[i].id < r[j].id
  {
    var vs := Keyed.Values(m);
    Keyed.ValuesAreValues(m);
    Keyed.ValuesAscend(m, ColumnId);
    InBoard(vs, b)
  }

  /** `getColumnsInCurrentBoard()(state)` with the board store's
      `currentBoardId` passed in: `column.boardId === null` never holds, so no
      board selected means no columns. */
  function GetColumnsInCurrentBoard(m: map<int, Column>, currentBoardId: Option<int>): (r: seq<Column>)
    ensures currentBoardId.None? ==> r == []
    ensures currentBoardId.Some? ==>
      forall c :: c in r <==> Keyed.Stored(m, c) && c.boardId == currentBoardId.value
    ensures KeyedById(m) ==> forall i, j :: 0 <= i < j < |r| ==> r[i].id < r[j].id
  {
    match currentBoardId
    case None => []
    case Some(b) => GetColumnsInBoard(m, b)
  }
}
