/** The state of the `useBoards` store of src/store/boards.ts: the board
    record and the id of the board currently selected, the copy-on-write
    helpers `setBoard` and `removeBoard` on the whole state, their folds and
    the two selectors. */
module Boards {

  import opened Wrappers
  import Keyed

  /** A board. Its other attributes play no part in the store's logic. */
  datatype Board = Board(id: int, name: string)

  function BoardId(b: Board): int { b.id }

  /** The data part of `BoardState`: the selection (`null` is `None`) and the
      record of boards. */
  datatype BoardState = BoardState(currentBoardId: Option<int>, boards: map<int, Board>)

  /** `setBoard(state, board)`: the board is stored under its id; every other
      board and the selection stay as they were. */
  function SetBoard(s: BoardState, b: Board): (r: BoardState)
    ensures b.id in r.boards && r.boards[b.id] == b
    ensures r.boards.Keys == s.boards.Keys + {b.id}
    ensures forall k :: k in s.boards && k != b.id ==> r.boards[k] == s.boards[k]
    ensures r.currentBoardId == s.currentBoardId
    ensures Keyed.KeyedBy(s.boards, BoardId) ==> Keyed.KeyedBy(r.boards, BoardId)
  {
    s.(boards := Keyed.Put(s.boards, b.id, b))
  }

  /** `removeBoard(state, boardId)`: the id is gone and every other board
      stays. The selection is left alone, even when it names the removed
      board. */
  function RemoveBoard(s: BoardState, id: int): (r: BoardState)
    ensures id !in r.boards
    ensures r.boards.Keys == s.boards.Keys - {id}
    ensures forall k :: k in r.boards ==> r.boards[k] == s.boards[k]
    ensures id !in s.boards ==> r == s
    ensures r.currentBoardId == s.currentBoardId
    ensures Keyed.KeyedBy(s.boards, BoardId) ==> Keyed.KeyedBy(r.boards, BoardId)
  {
    s.(boards := Keyed.Drop(s.boards, id))
  }

  /** `boards.reduce(setBoard, state)` */
  function AddBoards(s: BoardState, bs: seq<Board>): (r: BoardState)
    decreases |bs|
  {
    if bs == [] then s else AddBoards(SetBoard(s, bs[0]), bs[1..])
  }

  /** `boardIds.reduce(removeBoard, state)` */
  function RemoveBoards(s: BoardState, ids: seq<int>): (r: BoardState)
    decreases |ids|
  {
    if ids == [] then s else RemoveBoards(RemoveBoard(s, ids[0]), ids[1..])
  }

  /** `setCurrentBoardId(currentBoardId)`: only the selection changes. */
  function SetCurrentBoardId(s: BoardState, id: Option<int>): (r: BoardState)
    ensures r.currentBoardId == id && r.boards == s.boards
  {
    s.(currentBoardId := id)
  }

  /** `getBoard(boardId)(state)`: `undefined` is `None`. */
  function GetBoard(s: BoardState, id: int): (r: Option<Board>)
    ensures r.Some? <==> id in s.boards
    ensures r.Some? ==> r.value == s.boards[id]
  {
    if id in s.boards then Some(s.boards[id]) else None
  }

  /** `getCurrentBoard()(state)`: the board selected; with no selection the
      key looked up is -1, so a board stored under -1 would be answered. */
  function GetCurrentBoard(s: BoardState): (r: Option<Board>)
    ensures s.currentBoardId.Some? ==>
      (r.Some? <==> s.currentBoardId.value in s.boards) &&
      (r.Some? ==> r.value == s.boards[s.currentBoardId.value])
    ensures s.currentBoardId.None? ==>
      (r.Some? <==> -1 in s.boards) && (r.Some? ==> r.value == s.boards[-1])
  {
    GetBoard(s, match s.currentBoardId case None => -1 case Some(b) => b)
  }

  // ---- properties of the helpers -------------------------------------------------

  /** The fold of `setBoard` over a state is the fold of the record insert
      over its boards: the selection is kept, the later of two boards with
      the same id wins, and boards absent from the list stay. */
  lemma {:induction false} AddBoardsSpec(s: BoardState, bs: seq<Board>)
    ensures var r := AddBoards(s, bs);
      && r.currentBoardId == s.currentBoardId
      && r.boards == Keyed.PutAll(s.boards, bs, BoardId)
      && (forall k :: k in r.boards <==> k in s.boards || exists i :: 0 <= i < |bs| && bs[i].id == k)
      && (forall i :: 0 <= i < |bs| && (forall j :: i < j < |bs| ==> bs[j].id != bs[i].id) ==>
            r.boards[bs[i].id] == bs[i])
      && (forall k :: k in s.boards && (forall i :: 0 <= i < |bs| ==> bs[i].id != k) ==>
            r.boards[k] == s.boards[k])
    decreases |bs|
  {
    AddBoardsFold(s, bs);
    Keyed.PutAllLatest(s.boards, bs, BoardId);
  }

  lemma {:induction false} AddBoardsFold(s: BoardState, bs: seq<Board>)
    ensures AddBoards(s, bs) == BoardState(s.currentBoardId, Keyed.PutAll(s.boards, bs, BoardId))
    decreases |bs|
  {
    if bs != [] {
      AddBoardsFold(SetBoard(s, bs[0]), bs[1..]);
    }
  }

  /** The fold of `removeBoard` removes exactly the listed ids and keeps the
      selection. */
  lemma {:induction false} RemoveBoardsSpec(s: BoardState, ids: seq<int>)
    ensures var r := RemoveBoards(s, ids);
      && r.currentBoardId == s.currentBoardId
      && r.boards == Keyed.DropAll(s.boards, ids)
      && (forall k :: k in r.boards <==> k in s.boards && k !in ids)
      && (forall k :: k in r.boards ==> r.boards[k] == s.boards[k])
    decreases |ids|
  {
    if ids != [] {
      RemoveBoardsSpec(RemoveBoard(s, ids[0]), ids[1..]);
    }
    Keyed.DropAllSpec(s.boards, ids);
  }

  lemma SetBoardIdempotent(s: BoardState, b: Board)
    ensures SetBoard(SetBoard(s, b), b) == SetBoard(s, b)
  {
    Keyed.PutIdempotent(s.boards, b.id, b);
  }

  lemma RemoveBoardIdempotent(s: BoardState, id: int)
    ensures RemoveBoard(RemoveBoard(s, id), id) == RemoveBoard(s, id)
  {
    Keyed.DropIdempotent(s.boards, id);
  }

  /** A stored board is what `getBoard` answers; a removed one is not found. */
  lemma GetAfterSetAndRemove(s: BoardState, b: Board, id: int)
    ensures GetBoard(SetBoard(s, b), b.id) == Some(b)
    ensures GetBoard(RemoveBoard(s, id), id) == None
    ensures id != b.id ==> GetBoard(SetBoard(s, b), id) == GetBoard(s, id)
  {
  }

  /** Removing the selected board leaves a dangling selection: the
      selection still names it and `getCurrentBoard` finds nothing. */
  lemma RemoveSelectedBoard(s: BoardState)
    requires s.currentBoardId.Some?
    ensures var r := RemoveBoard(s, s.currentBoardId.value);
      r.currentBoardId == s.currentBoardId && GetCurrentBoard(r) == None
  {
  }

  /** In a state whose boards are stored under their own ids, a lookup
      answers the board with the id asked for, and the current board is the
      one selected. */
  lemma LookupsHaveTheirIds(s: BoardState, id: int)
    requires Keyed.KeyedBy(s.boards, BoardId)
    ensures GetBoard(s, id).Some? ==> GetBoard(s, id).value.id == id
    ensures s.currentBoardId.Some? && GetCurrentBoard(s).Some? ==>
      GetCurrentBoard(s).value.id == s.currentBoardId.value
  {
  }

  /** Selecting a stored board makes it the current board. */
  lemma SelectStoredBoard(s: BoardState, b: Board)
    ensures GetCurrentBoard(SetCurrentBoardId(SetBoard(s, b), Some(b.id))) == Some(b)
  {
  }
}
