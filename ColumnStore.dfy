/** The `useColumns` store of src/store/columns.ts: the `columns` record as a
    field that each action replaces, the remote actions with the server's
    answer passed in, and `moveColumn` with its optimistic write and its
    rollback written step by step. */
module ColumnStore {

  import opened Wrappers
  import Keyed
  import opened Columns
  import opened ColumnMove

  /** The request `moveColumn` sends: `Rest.moveColumn(columnId, nextId)`. */
  datatype MoveRequest = MoveRequest(columnId: int, nextId: Option<int>)

  class Store {
    var columns: map<int, Column>

    /** Every column is stored under its own id. */
    ghost predicate Valid()
      reads this
    {
      KeyedById(columns)
    }

    constructor()
      ensures columns == map[] && Valid()
    {
      columns := map[];
    }

    method ResetColumns()
      modifies this
      ensures columns == map[] && Valid()
    {
      columns := map[];
    }

    method AddColumn(c: Column)
      requires Valid()
      modifies this
      ensures columns == SetColumn(old(columns), c) && Valid()
    {
      columns := SetColumn(columns, c);
    }

    method AddColumns(cs: seq<Column>)
      requires Valid()
      modifies this
      ensures columns == Columns.AddColumns(old(columns), cs) && Valid()
    {
      columns := Columns.AddColumns(columns, cs);
    }

    method RemoveColumn(id: int)
      requires Valid()
      modifies this
      ensures columns == Columns.RemoveColumn(old(columns), id) && Valid()
    {
      columns := Columns.RemoveColumn(columns, id);
    }

    method RemoveColumns(ids: seq<int>)
      requires Valid()
      modifies this
      ensures columns == Columns.RemoveColumns(old(columns), ids) && Valid()
    {
      columns := Columns.RemoveColumns(columns, ids);
    }

    /** `fetchColumn`, `createColumn` and `updateColumn` share this handling:
        on an error nothing is stored and the action answers `null`; on
        success the returned column is stored and returned. */
    method StoreColumn(response: Result<Column>) returns (r: Option<Column>)
      requires Valid()
      modifies this
      ensures response.Err? ==> r.None? && columns == old(columns)
      ensures response.Ok? ==> r == Some(response.data) && columns == SetColumn(old(columns), response.data)
      ensures Valid()
    {
      if response.Err? {
        return None;
      }
      columns := SetColumn(columns, response.data);
      r := Some(response.data);
    }

    /** `fetchColumn(columnId)`, the answer of `Rest.getColumn` passed in. */
    method FetchColumn(response: Result<Column>) returns (r: Option<Column>)
      requires Valid()
      modifies this
      ensures response.Err? ==> r.None? && columns == old(columns)
      ensures response.Ok? ==> r == Some(response.data) && columns == SetColumn(old(columns), response.data)
      ensures Valid()
    {
      r := StoreColumn(response);
    }

    /** `createColumn(column)`, the answer of `Rest.createColumn` passed in. */
    method CreateColumn(response: Result<Column>) returns (r: Option<Column>)
      requires Valid()
      modifies this
      ensures response.Err? ==> r.None? && columns == old(columns)
      ensures response.Ok? ==> r == Some(response.data) && columns == SetColumn(old(columns), response.data)
      ensures Valid()
    {
      r := StoreColumn(response);
    }

    /** `updateColumn(columnId, column)`: the column stored is the one the
        server returns, whatever id was asked for. */
    method UpdateColumn(response: Result<Column>) returns (r: Option<Column>)
      requires Valid()
      modifies this
      ensures response.Err? ==> r.None? && columns == old(columns)
      ensures response.Ok? ==> r == Some(response.data) && columns == SetColumn(old(columns), response.data)
      ensures Valid()
    {
      r := StoreColumn(response);
    }

    /** `fetchColumns(boardIds)`: the returned columns are folded in, the
        later of two with the same id winning. */
    method FetchColumns(response: Result<seq<Column>>) returns (r: Option<seq<Column>>)
      requires Valid()
      modifies this
      ensures response.Err? ==> r.None? && columns == old(columns)
      ensures response.Ok? ==> r == Some(response.data) && columns == Columns.AddColumns(old(columns), response.data)
      ensures Valid()
    {
      if response.Err? {
        return None;
      }
      columns := Columns.AddColumns(columns, response.data);
      r := Some(response.data);
    }

    /** `deleteColumn(columnId)`: the id is removed only once the server has
        answered without error. */
    method DeleteColumn<S>(id: int, response: Result<S>) returns (r: Option<S>)
      requires Valid()
      modifies this
      ensures response.Err? ==> r.None? && columns == old(columns)
      ensures response.Ok? ==> r == Some(response.data) && columns == Columns.RemoveColumn(old(columns), id)
      ensures Valid()
    {
      if response.Err? {
        return None;
      }
      columns := Columns.RemoveColumn(columns, id);
      r := Some(response.data);
    }

    /** The first `set` of `moveColumn`: the lookups on the snapshot
        `Object.values(state.columns)`, then the optimistic write. */
    method BeginMove(id: int, nextId: Option<int>) returns (modified: seq<Column>)
      requires Valid()
      modifies this
      ensures columns == Relinked(old(columns), id, nextId)
      ensures modified == Recorded(old(columns), id, nextId)
      ensures Valid()
    {
      var t := MoveTargets(columns, id, nextId);
      RelinkedBy(columns, id, nextId, t);
      modified := Relink(id, nextId, t);
    }

    /** The three guarded writes, each recording the snapshot column it
        copies before the copy is stored. */
    method Relink(id: int, nextId: Option<int>, t: Targets) returns (modified: seq<Column>)
      requires Valid()
      modifies this
      ensures columns == Apply(old(columns), id, nextId, t)
      ensures modified == Record(t)
      ensures Valid()
    {
      var current, previous, beforeNext := t.current, t.previous, t.beforeNext;
      modified := [];
      var newState := columns;
      if previous.Some? && current.Some? {
        modified := modified + [previous.value];
        newState := SetColumn(newState, previous.value.(nextId := current.value.nextId));
      }
      assert newState == WritePrevious(old(columns), t);
      assert modified == (if previous.Some? && current.Some? then [previous.value] else []);
      if beforeNext.Some? {
        modified := modified + [beforeNext.value];
        newState := SetColumn(newState, beforeNext.value.(nextId := Some(id)));
      }
      assert newState == WriteBeforeNext(WritePrevious(old(columns), t), id, t);
      if current.Some? {
        modified := modified + [current.value];
        newState := SetColumn(newState, current.value.(nextId := nextId));
      }
      columns := newState;
    }

    /** The second `set`, after an error: each recorded column is written
        back, in the order recorded. */
    method Rollback(modified: seq<Column>)
      requires Valid()
      modifies this
      ensures columns == Columns.AddColumns(old(columns), modified) && Valid()
    {
      var m := columns;
      var newState := m;
      for i := 0 to |modified|
        invariant newState == Keyed.PutAll(m, modified[..i], ColumnId)
      {
        Keyed.PutAllSnoc(m, modified[..i], modified[i], ColumnId);
        assert modified[..i + 1] == modified[..i] + [modified[i]];
        newState := SetColumn(newState, modified[i]);
      }
      assert modified[..|modified|] == modified;
      assert Columns.AddColumns(m, modified) == Keyed.PutAll(m, modified, ColumnId);
      columns := newState;
    }

    /** `moveColumn(columnId, nextId)`. Moving a column before itself is
        refused outright. Otherwise the optimistic write happens, the
        request goes out, and on an error the write is undone exactly; on
        success the optimistic state stays and the server's column is
        returned without being stored. */
    method MoveColumn(id: int, nextId: Option<int>, response: Result<Column>)
      returns (r: Option<Column>, request: Option<MoveRequest>)
      requires Valid()
      modifies this
      ensures nextId == Some(id) ==> r.None? && request.None? && columns == old(columns)
      ensures nextId != Some(id) ==> request == Some(MoveRequest(id, nextId))
      ensures nextId != Some(id) && response.Ok? ==>
        r == Some(response.data) && columns == Relinked(old(columns), id, nextId)
      ensures nextId != Some(id) && response.Err? ==> r.None? && columns == old(columns)
      ensures Valid()
    {
      if nextId == Some(id) {
        return None, None;
      }
      var before := columns;
      var modified := BeginMove(id, nextId);
      request := Some(MoveRequest(id, nextId));
      if response.Err? {
        Rollback(modified);
        RollbackRestores(before, id, nextId);
        return None, request;
      }
      r := Some(response.data);
    }
  }
}
