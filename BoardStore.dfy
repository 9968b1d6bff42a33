/** The `useBoards` store of src/store/boards.ts: its `currentBoardId` and
    `boards` fields, which each action replaces with what a helper of
    Boards returns, and the remote actions with the server's answer passed
    in. */
module BoardStore {

  import opened Wrappers
  import Keyed
  import Boards

  /** Requests that `inviteUserToBoard` and `leaveBoard` send. */
  datatype BoardRequest = InviteUser(boardId: int, userId: int) | Leave(boardId: int)

  class Store {
    var currentBoardId: Option<int>
    var boards: map<int, Boards.Board>

    function State(): Boards.BoardState
      reads this
    {
      Boards.BoardState(currentBoardId, boards)
    }

    /** Every board is stored under its own id. */
    ghost predicate Valid()
      reads this
    {
      Keyed.KeyedBy(boards, Boards.BoardId)
    }

    /** The initial state: no selection, no boards. */
    constructor()
      ensures State() == Boards.BoardState(None, map[]) && Valid()
    {
      currentBoardId := None;
      boards := map[];
    }

    /** `set(state)` with the state a helper returned. */
    method Replace(s: Boards.BoardState)
      modifies this
      ensures State() == s
    {
      currentBoardId := s.currentBoardId;
      boards := s.boards;
    }

    method SetCurrentBoardId(id: Option<int>)
      requires Valid()
      modifies this
      ensures State() == Boards.SetCurrentBoardId(old(State()), id) && Valid()
    {
      Replace(Boards.SetCurrentBoardId(State(), id));
    }

    method AddBoard(b: Boards.Board)
      requires Valid()
      modifies this
      ensures State() == Boards.SetBoard(old(State()), b) && Valid()
    {
      Replace(Boards.SetBoard(State(), b));
    }

    method AddBoards(bs: seq<Boards.Board>)
      requires Valid()
      modifies this
      ensures State() == Boards.AddBoards(old(State()), bs) && Valid()
    {
      Boards.AddBoardsFold(State(), bs);
      Keyed.PutAllKeyedBy(boards, bs, Boards.BoardId);
      Replace(Boards.AddBoards(State(), bs));
    }

    method RemoveBoard(id: int)
      requires Valid()
      modifies this
      ensures State() == Boards.RemoveBoard(old(State()), id) && Valid()
    {
      Replace(Boards.RemoveBoard(State(), id));
    }

    method RemoveBoards(ids: seq<int>)
      requires Valid()
      modifies this
      ensures State() == Boards.RemoveBoards(old(State()), ids) && Valid()
    {
      Boards.RemoveBoardsSpec(State(), ids);
      Keyed.DropAllKeyedBy(boards, ids, Boards.BoardId);
      Replace(Boards.RemoveBoards(State(), ids));
    }

    /** `fetchBoard`, `createBoard` and `updateBoard` share this handling: on
        an error nothing changes; otherwise the board the server returns is
        stored. */
    method StoreBoard(response: Result<Boards.Board>)
      requires Valid()
      modifies this
      ensures response.Err? ==> State() == old(State())
      ensures response.Ok? ==> State() == Boards.SetBoard(old(State()), response.data)
      ensures Valid()
    {
      if response.Err? {
        return;
      }
      AddBoard(response.data);
    }

    /** `fetchBoard(boardId)`, the answer of `Rest.getBoard` passed in. */
    method FetchBoard(response: Result<Boards.Board>)
      requires Valid()
      modifies this
      ensures response.Err? ==> State() == old(State())
      ensures response.Ok? ==> State() == Boards.SetBoard(old(State()), response.data)
      ensures Valid()
    {
      StoreBoard(response);
    }

    /** `createBoard(board)`, the answer of `Rest.createBoard` passed in. */
    method CreateBoard(response: Result<Boards.Board>)
      requires Valid()
      modifies this
      ensures response.Err? ==> State() == old(State())
      ensures response.Ok? ==> State() == Boards.SetBoard(old(State()), response.data)
      ensures Valid()
    {
      StoreBoard(response);
    }

    /** `updateBoard(boardId, board)`: the board stored is the one the server
        returns. */
    method UpdateBoard(response: Result<Boards.Board>)
      requires Valid()
      modifies this
      ensures response.Err? ==> State() == old(State())
      ensures response.Ok? ==> State() == Boards.SetBoard(old(State()), response.data)
      ensures Valid()
    {
      StoreBoard(response);
    }

    /** `fetchBoards()`: the returned boards are folded in. */
    method FetchBoards(response: Result<seq<Boards.Board>>)
      requires Valid()
      modifies this
      ensures response.Err? ==> State() == old(State())
      ensures response.Ok? ==> State() == Boards.AddBoards(old(State()), response.data)
      ensures Valid()
    {
      if response.Err? {
        return;
      }
      AddBoards(response.data);
    }

    /** `deleteBoard(boardId)`: the board is removed once the server has
        answered without error; the selection is not touched. */
    method DeleteBoard<S>(id: int, response: Result<S>)
      requires Valid()
      modifies this
      ensures response.Err? ==> State() == old(State())
      ensures response.Ok? ==> State() == Boards.RemoveBoard(old(State()), id)
      ensures Valid()
    {
      if response.Err? {
        return;
      }
      RemoveBoard(id);
    }

    /** `inviteUserToBoard(boardId, userId)`: sends the request and, whatever
        the answer, changes nothing (the method may modify nothing). */
    method InviteUserToBoard(boardId: int, userId: int) returns (request: BoardRequest)
      ensures request == InviteUser(boardId, userId)
      ensures State() == old(State())
    {
      request := InviteUser(boardId, userId);
    }

    /** `leaveBoard(boardId)`: sends the request and changes nothing; in
        particular the board left stays stored and may stay selected. */
    method LeaveBoard(boardId: int) returns (request: BoardRequest)
      ensures request == Leave(boardId)
      ensures State() == old(State())
    {
      request := Leave(boardId);
    }
  }
}
