/** What the optimistic write of `moveColumn` in src/store/columns.ts does to
    the record, as functions of the record before it: which columns it
    looks up, the few `nextId` pointers it rewrites, and the old columns it
    records for the rollback. */
module ColumnMove {

  import opened Wrappers
  import Keyed
  import opened Columns
  import opened ColumnChain

  /** The three lookups on the snapshot `Object.values(state.columns)`. */
  datatype Targets = Targets(current: Option<Column>, previous: Option<Column>, beforeNext: Option<Column>)

  /** `currentColumn` is the column moved; `previousColumn` the first column
      pointing at it; `beforeNextColumn` the first column pointing at the
      target, or, for a move to the end, the first column of the moved
      column's board with a `null` pointer. Without a current column the
      board test compares with `undefined` and finds nothing. */
  function MoveTargets(m: map<int, Column>, id: int, nextId: Option<int>): (t: Targets)
  {
    var cs := Keyed.Values(m);
    var current := GetColumn(m, id);
    var previous := Find(cs, PointsTo(id));
    var beforeNext :=
      match nextId
      case None => if current.None? then None else Find(cs, TailOf(current.value.boardId))
      case Some(n) => Find(cs, PointsTo(n));
    Targets(current, previous, beforeNext)
  }

  /** The lookups, said of the record: the moved column is the entry under
      its id; the predecessor is the stored column with the smallest id
      pointing at it; the column before the target is the one with the
      smallest id pointing at the target, or, for a move to the end, the
      tail of the moved column's board with the smallest id. Each is absent
      exactly when no stored column qualifies; a move to the end of a
      missing column finds nothing. */
  lemma LookupsInRecord(m: map<int, Column>, id: int, nextId: Option<int>)
    ensures var t := MoveTargets(m, id, nextId);
      && (t.current.Some? <==> id in m)
      && (t.current.Some? ==> t.current.value == m[id])
      && FirstInRecord(m, PointsTo(id), t.previous)
      && (nextId.Some? ==> FirstInRecord(m, PointsTo(nextId.value), t.beforeNext))
      && (nextId.None? && id in m ==> FirstInRecord(m, TailOf(m[id].boardId), t.beforeNext))
      && (nextId.None? && id !in m ==> t.beforeNext.None?)
  {
    FindInRecord(m, PointsTo(id));
    match nextId {
      case None =>
        if id in m {
          FindInRecord(m, TailOf(m[id].boardId));
        }
      case Some(n) =>
        FindInRecord(m, PointsTo(n));
    }
  }

  /** The three guarded writes of the optimistic update, given what the
      lookups found: the predecessor takes over the moved column's pointer,
      the column before the target points at the moved column, and the
      moved column points at the target. Each write copies the snapshot
      column. */
  function Apply(m: map<int, Column>, id: int, nextId: Option<int>, t: Targets): (r: map<int, Column>)
  {
    WriteCurrent(WriteBeforeNext(WritePrevious(m, t), id, t), nextId, t)
  }

  /** The first write: the predecessor takes the moved column's pointer. */
  function WritePrevious(s: map<int, Column>, t: Targets): map<int, Column>
  {
    if t.previous.Some? && t.current.Some?
    then SetColumn(s, t.previous.value.(nextId := t.current.value.nextId)) else s
  }

  /** The second write: the column before the target points at the moved one. */
  function WriteBeforeNext(s: map<int, Column>, id: int, t: Targets): map<int, Column>
  {
    if t.beforeNext.Some? then SetColumn(s, t.beforeNext.value.(nextId := Some(id))) else s
  }

  /** The third write: the moved column points at the target. */
  function WriteCurrent(s: map<int, Column>, nextId: Option<int>, t: Targets): map<int, Column>
  {
    if t.current.Some? then SetColumn(s, t.current.value.(nextId := nextId)) else s
  }

  /** The snapshot columns the writes copy, in the order they are written. */
  function Record(t: Targets): (r: seq<Column>)
  {
    (if t.previous.Some? && t.current.Some? then [t.previous.value] else [])
    + (if t.beforeNext.Some? then [t.beforeNext.value] else [])
    + (if t.current.Some? then [t.current.value] else [])
  }

  /** The pointer a column has after the writes: the last write to it wins. */
  function NextAfter(m: map<int, Column>, id: int, nextId: Option<int>, t: Targets, k: int): Option<int>
    requires k in m
  {
    if t.current.Some? && k == t.current.value.id then nextId
    else if t.beforeNext.Some? && k == t.beforeNext.value.id then Some(id)
    else if t.previous.Some? && t.current.Some? && k == t.previous.value.id then t.current.value.nextId
    else m[k].nextId
  }

  ghost predicate IsEntry(m: map<int, Column>, o: Option<Column>)
  {
    o.Some? ==> o.value.id in m && m[o.value.id] == o.value
  }

  ghost predicate Found(m: map<int, Column>, t: Targets)
  {
    IsEntry(m, t.current) && IsEntry(m, t.previous) && IsEntry(m, t.beforeNext)
  }

  /** Writes of entries found in the record only rewrite `nextId` pointers,
      and only those of the recorded columns; they add and remove no column. */
  lemma ApplyFrame(m: map<int, Column>, id: int, nextId: Option<int>, t: Targets)
    requires KeyedById(m) && Found(m, t)
    ensures var r := Apply(m, id, nextId, t);
      && r.Keys == m.Keys
      && KeyedById(r)
      && (forall k :: k in m ==> r[k] == m[k].(nextId := NextAfter(m, id, nextId, t, k)))
  {
    var s1 := WritePrevious(m, t);
    var s2 := WriteBeforeNext(s1, id, t);
    assert s1.Keys == m.Keys;
    assert s2.Keys == m.Keys;
  }

  lemma ApplyUnrecorded(m: map<int, Column>, id: int, nextId: Option<int>, t: Targets, k: int)
    requires k in m
    requires forall c :: c in Record(t) ==> c.id != k
    ensures NextAfter(m, id, nextId, t, k) == m[k].nextId
  {
    if t.previous.Some? && t.current.Some? { assert t.previous.value in Record(t); }
    if t.beforeNext.Some? { assert t.beforeNext.value in Record(t); }
    if t.current.Some? { assert t.current.value in Record(t); }
  }

  /** Writing the recorded columns back, in the order they were recorded,
      undoes the writes. */
  lemma ApplyUndone(m: map<int, Column>, id: int, nextId: Option<int>, t: Targets)
    requires KeyedById(m) && Found(m, t)
    ensures AddColumns(Apply(m, id, nextId, t), Record(t)) == m
  {
    ApplyFrame(m, id, nextId, t);
    var r := Apply(m, id, nextId, t);
    var vs := Record(t);
    forall i | 0 <= i < |vs| ensures ColumnId(vs[i]) in m && m[ColumnId(vs[i])] == vs[i] {
    }
    forall k | k in m && Keyed.LastWithKey(vs, ColumnId, k).None? ensures r[k] == m[k] {
      forall c | c in vs ensures c.id != k {
        var i :| 0 <= i < |vs| && vs[i] == c;
        assert ColumnId(vs[i]) != k;
      }
      ApplyUnrecorded(m, id, nextId, t, k);
    }
    Keyed.PutAllRestores(m, r, vs, ColumnId);
  }

  /** The record after the optimistic update. */
  function Relinked(m: map<int, Column>, id: int, nextId: Option<int>): (r: map<int, Column>)
  {
    Apply(m, id, nextId, MoveTargets(m, id, nextId))
  }

  /** `modifiedColumns` after the optimistic update. */
  function Recorded(m: map<int, Column>, id: int, nextId: Option<int>): (r: seq<Column>)
    ensures |r| <= 3
  {
    Record(MoveTargets(m, id, nextId))
  }

  /** The optimistic update and its record, in terms of the lookups made. */
  lemma RelinkedBy(m: map<int, Column>, id: int, nextId: Option<int>, t: Targets)
    requires t == MoveTargets(m, id, nextId)
    ensures Relinked(m, id, nextId) == Apply(m, id, nextId, t)
    ensures Recorded(m, id, nextId) == Record(t)
  {
  }

  /** Every column listed by `Object.values` is the record's entry under its id. */
  lemma ValuesAreEntries(m: map<int, Column>, c: Column)
    requires KeyedById(m) && c in Keyed.Values(m)
    ensures c.id in m && m[c.id] == c
  {
    var vs := Keyed.Values(m);
    var i :| 0 <= i < |vs| && vs[i] == c;
    var k := Keyed.SortedKeys(m.Keys)[i];
    assert k in m && m[k] == c;
  }

  lemma TargetsAreEntries(m: map<int, Column>, id: int, nextId: Option<int>)
    requires KeyedById(m)
    ensures Found(m, MoveTargets(m, id, nextId))
  {
    var t := MoveTargets(m, id, nextId);
    if t.previous.Some? { ValuesAreEntries(m, t.previous.value); }
    if t.beforeNext.Some? { ValuesAreEntries(m, t.beforeNext.value); }
  }

  /** The optimistic update only rewrites `nextId` pointers, and only those
      of the (at most three) recorded columns; it adds and removes no column. */
  lemma RelinkedFrame(m: map<int, Column>, id: int, nextId: Option<int>)
    requires KeyedById(m)
    ensures var r := Relinked(m, id, nextId);
      && r.Keys == m.Keys
      && KeyedById(r)
      && (forall k :: k in m ==> r[k].id == m[k].id && r[k].boardId == m[k].boardId && r[k].name == m[k].name)
      && (forall k :: k in m && (forall c :: c in Recorded(m, id, nextId) ==> c.id != k) ==> r[k] == m[k])
  {
    TargetsAreEntries(m, id, nextId);
    ApplyKeeps(m, id, nextId, MoveTargets(m, id, nextId));
  }

  lemma ApplyKeeps(m: map<int, Column>, id: int, nextId: Option<int>, t: Targets)
    requires KeyedById(m) && Found(m, t)
    ensures var r := Apply(m, id, nextId, t);
      && r.Keys == m.Keys
      && KeyedById(r)
      && (forall k :: k in m ==> r[k].id == m[k].id && r[k].boardId == m[k].boardId && r[k].name == m[k].name)
      && (forall k :: k in m && (forall c :: c in Record(t) ==> c.id != k) ==> r[k] == m[k])
  {
    ApplyFrame(m, id, nextId, t);
    forall k | k in m && (forall c :: c in Record(t) ==> c.id != k) ensures Apply(m, id, nextId, t)[k] == m[k] {
      ApplyUnrecorded(m, id, nextId, t, k);
    }
  }

  /** Writing the recorded columns back, in the order they were recorded,
      gives exactly the record before the move. */
  lemma RollbackRestores(m: map<int, Column>, id: int, nextId: Option<int>)
    requires KeyedById(m)
    ensures AddColumns(Relinked(m, id, nextId), Recorded(m, id, nextId)) == m
  {
    TargetsAreEntries(m, id, nextId);
    ApplyUndone(m, id, nextId, MoveTargets(m, id, nextId));
  }
}
