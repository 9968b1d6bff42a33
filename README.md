# Task-board client stores, modelled in Dafny

This project models the client-side state of the task-board web application:
the three zustand stores of `src/store/`.

- **columns** (`useColumns`). This is the core of the model. Columns are kept in a record from id to
  column. The columns of one board are ordered by a linked list: each column's `nextId` names the
  column after it, and the last column has `null`. The store offers:
  - copy-on-write insert and remove helpers, and their `reduce` folds;
  - remote actions that store what the server answers;
  - selectors, including `sortColumns`, which rebuilds a board's order from the pointers;
  - `moveColumn`, which rewrites up to three pointers optimistically, sends the request, and writes
    the recorded old columns back if the request fails.
- **boards** (`useBoards`). A record of boards and the id of the selected board, with the same kind
  of helpers, folds, remote actions and two selectors.
- **tags** (`useTags`). A record of tags. Its `removeTag` deletes the entry *in place* and returns
  the same state object, while `setTag` builds a new object.

Structure:

- Values and pure helpers are datatypes and functions.
- Each store is a `class` whose fields its actions replace.
- The loops of the source are methods with loop invariants:
  - the walk of `sortColumns`;
  - the rollback loop of `moveColumn`;
  - the folds that the tag store runs on its heap record.
- A server answer is a `Result` parameter. A request the store sends is a returned value.

These are the main results:

- **Chain ordering.** `sortColumns` returns exactly the board's chain, head first, whenever a board's
  columns form one chain and no column of it has the id 0 (`ColumnSort.SortOfChain`). With an id 0
  on the chain the falsy test can stop the walk early (`SortExamples.ZeroIdCutsSortShort`).
- **Moves.** A move to a new place keeps the board one chain, in the order "taken out and put back
  right before the target, or last" (`MoveChain.MovePreservesChain`).
- **Rollback.** The rollback restores exactly the record from before the move
  (`ColumnMove.RollbackRestores`, `ColumnStore.Store.MoveColumn`).
- **Moving a column before its own successor.** The code handles this case as written, and it
  leaves two columns with the same pointer, so the board is no longer one chain in any order
  (`MoveChain.MoveToOwnSuccessor`, `MoveExamples.MoveTailToEndMakesTwoTails`). For the head column
  the same call changes nothing (`MoveChain.MoveHeadToOwnSuccessor`).

Modules:

| module | what it holds |
|---|---|
| `Wrappers` | `Option` and `Result` |
| `Keyed` | the shared keyed record: `Put`/`Drop`, their folds, and the `Object.values` order |
| `Columns` | the column entity, its helpers, `find`, and the unsorted selectors |
| `ColumnChain` | the chain invariant, the intended order after a move, and what `find` returns on a chain |
| `ColumnSort` | `sortColumns` and the sorted selectors |
| `ColumnMove` | the optimistic write of `moveColumn` and its record, as functions of the record |
| `MoveChain` | what the write does to a chain |
| `MoveExamples` | moves on a three-column board |
| `SortExamples` | `sortColumns` on a chain through the id 0 |
| `ColumnStore` | the `useColumns` store |
| `Boards`, `BoardStore` | the `useBoards` helpers and store |
| `Tags` | the `useTags` store |

## Model

| member | source | states |
|---|---|---|
| Keyed.Put | src/store/columns.ts:141-147 | the key maps to the new value, the key set gains that key, and every other entry is unchanged |
| Keyed.Drop | src/store/columns.ts:149-155 | the key is gone, the other entries are unchanged, and dropping an absent key changes nothing |
| Keyed.PutIdempotent | src/store/columns.ts:141-147 | storing the same entry twice is the same as storing it once |
| Keyed.DropIdempotent | src/store/columns.ts:149-155 | removing a key twice is the same as removing it once |
| Keyed.LastWithKey | src/store/columns.ts:27 | the result is missing exactly when no element has the key; otherwise it is the last element with that key |
| Keyed.LastWithKeyIsLast | src/store/columns.ts:27 | an element whose key no later element shares is the one LastWithKey gives |
| Keyed.PutAllSpec | src/store/columns.ts:27 | the `reduce` of inserts keeps every old key and adds the listed ones; for each listed key the last element wins; unlisted keys keep their value |
| Keyed.PutAllLatest | src/store/columns.ts:27 | the same fold stated by list positions: an element that no later element shares its key with is the value stored |
| Keyed.DropAllSpec | src/store/columns.ts:29 | the `reduce` of removes deletes exactly the listed keys and leaves every other entry as it was |
| Keyed.PutAllRestores | src/store/columns.ts:114-122 | writing back old entries over a record that differs only at those keys gives the old record |
| Keyed.PutAllKeyedBy | src/store/columns.ts:27 | a fold of inserts keeps every entry stored under its own id |
| Keyed.DropAllKeyedBy | src/store/columns.ts:29 | a fold of removes keeps every entry stored under its own id |
| Keyed.SortedKeys | src/store/columns.ts:79 | lists each key of the record exactly once, in strictly ascending order |
| Keyed.Values | src/store/columns.ts:79 | `Object.values` lists one value per key, in ascending key order |
| Keyed.ValuesAreValues | src/store/columns.ts:157 | a value is listed exactly when some key of the record holds it |
| Keyed.ValuesAscend | src/store/columns.ts:157 | on a record keyed by id, the listed values have strictly ascending ids |
| Columns.SetColumn | src/store/columns.ts:141-147 | the column is stored under its id, other columns are unchanged, and every column stays stored under its own id |
| Columns.RemoveColumn | src/store/columns.ts:149-155 | the id is gone and every other column is kept; removing an absent id changes nothing |
| Columns.AddColumns | src/store/columns.ts:27 | the listed ids are added, the later of two columns with the same id wins, and unlisted columns are kept |
| Columns.RemoveColumns | src/store/columns.ts:29 | exactly the listed ids are removed and every other column is kept |
| Columns.Find | src/store/columns.ts:82 | `find` answers nothing exactly when no column matches; otherwise the answer is a matching column of the list |
| Columns.FindIsFirst | src/store/columns.ts:82 | the column `find` answers comes before every other matching column |
| Columns.FindInRecord | src/store/columns.ts:79-82 | a `find` over `Object.values` answers nothing exactly when no stored column matches; otherwise it answers a stored matching column, and, on a record keyed by id, no column with a smaller id matches |
| Columns.GetColumn | src/store/columns.ts:186 | answers the column exactly when its id is in the record |
| Columns.InBoard | src/store/columns.ts:157 | the filter keeps exactly the columns of the board, never grows the list, and keeps ascending ids ascending |
| Columns.GetColumnsInBoard | src/store/columns.ts:157 | lists exactly the stored columns of the board, in ascending id order |
| Columns.GetColumnsInCurrentBoard | src/store/columns.ts:159-164 | lists no column when no board is selected, and otherwise exactly the stored columns of the selected board, in ascending id order |
| ColumnChain.MovedPlacesColumn | src/store/columns.ts:91-105 | the intended order after a move holds every id once, with the moved id right before the target, or last for a move to the end |
| ColumnChain.FindPredecessor | src/store/columns.ts:82 | on a chain, the column pointing at a column is the one before it, and nothing points at the head |
| ColumnChain.FindTail | src/store/columns.ts:91 | the first `null`-pointing column of a board is the last of its chain |
| ColumnChain.FindFalsy | src/store/columns.ts:171 | among one board's columns, whose ids are non-zero, the falsy test picks the chain's last column, or nothing for an empty board |
| ColumnSort.SortColumns | src/store/columns.ts:170-184 | the walk returns nothing when no column has a falsy pointer; otherwise it ends with that column, each column is the first one pointing at the next, nothing points at the head, and the ids are distinct columns of the input |
| ColumnSort.Reverse | src/store/columns.ts:183 | the result has the input's length, and its k-th element is the input's k-th from the end |
| ColumnSort.ReversedWalk | src/store/columns.ts:183 | reversing the finished walk gives a list whose pointers run head to tail |
| ColumnSort.DistinctLength | src/store/columns.ts:179-181 | a list of distinct-id columns drawn from the input is no longer than the input, which bounds the walk |
| ColumnSort.SortOfChain | src/store/columns.ts:170-184 | when a board's columns form a chain, the sort result is that chain's columns, head first |
| ColumnSort.SortOfBoard | src/store/columns.ts:166 | any sort result on a board's listed columns is the board's chain, head first |
| ColumnSort.GetSortedColumnsInBoard | src/store/columns.ts:166 | lists only stored columns of the board, and exactly the board's chain in order whenever one exists |
| ColumnSort.GetSortedColumnsInCurrentBoard | src/store/columns.ts:168 | the result is a sort result of `getColumnsInCurrentBoard`; every column in it is stored and on the selected board; no board selected gives nothing; otherwise gives the selected board's chain in order |
| ColumnMove.LookupsInRecord | src/store/columns.ts:79-91 | said of the record: the moved column is the entry under its id; the predecessor is the stored column with the smallest id pointing at it; the column before the target is the one with the smallest id pointing at the target, or, for a move to the end, the tail of the moved column's board with the smallest id; each is absent exactly when no stored column qualifies, and a move to the end of a missing column finds nothing |
| ColumnMove.Recorded | src/store/columns.ts:75-106 | at most three columns are recorded |
| ColumnMove.ApplyFrame | src/store/columns.ts:83-106 | the three writes keep the key set and the keying, and rewrite only the `nextId` of each column, the last write to it winning |
| ColumnMove.ApplyUndone | src/store/columns.ts:113-122 | writing the recorded columns back, in recording order, undoes the three writes |
| ColumnMove.RelinkedFrame | src/store/columns.ts:76-109 | the optimistic write adds and removes no column, changes nothing but pointers, and leaves every unrecorded column as it was |
| ColumnMove.RollbackRestores | src/store/columns.ts:113-122 | the rollback after the optimistic write gives back exactly the record before the move |
| MoveChain.TargetsOnChain | src/store/columns.ts:79-91 | on a chain, the lookups find the moved column, the column before it (none for the head), and the column before the target position |
| MoveChain.MovePointers | src/store/columns.ts:76-109 | on a chain, gives each column's pointer after the write by its position |
| MoveChain.MovePreservesChain | src/store/columns.ts:70-109 | moving a column to a new place in its board keeps the board one chain, in the order MovedPlacesColumn describes; keeps pointers within boards; leaves other boards alone |
| MoveChain.MoveToOwnSuccessor | src/store/columns.ts:82-105 | moving a column that has a predecessor before its own successor leaves the predecessor and the column with the same pointer, so the board is then no chain in any order |
| MoveChain.MoveHeadToOwnSuccessor | src/store/columns.ts:82-105 | moving the head before its own successor leaves the record unchanged |
| MoveExamples.MoveLastBeforeMiddle | src/store/columns.ts:70-109 | moving C before B turns A→B→C into A→C→B, record entry by record entry |
| MoveExamples.MoveHeadToEnd | src/store/columns.ts:70-109 | moving A to the end turns A→B→C into B→C→A |
| MoveExamples.MoveTailToEndMakesTwoTails | src/store/columns.ts:91-105 | moving the last column to the end leaves B and C both pointing at `null`, so no chain remains |
| SortExamples.ZeroIdCutsSortShort | src/store/columns.ts:170-184 | on the chain 7→0→9 of one board, every result of `sortColumns` on the board's listed columns is column 7 alone: its `nextId` 0 is falsy and nothing points at it |
| ColumnStore.Store.constructor | src/store/columns.ts:24 | the store starts with an empty record |
| ColumnStore.Store.ResetColumns | src/store/columns.ts:25 | the record becomes empty |
| ColumnStore.Store.AddColumn | src/store/columns.ts:26 | the record becomes SetColumn of the old one, keyed by id |
| ColumnStore.Store.AddColumns | src/store/columns.ts:27 | the record becomes the fold of inserts over the old one |
| ColumnStore.Store.RemoveColumn | src/store/columns.ts:28 | the record becomes RemoveColumn of the old one |
| ColumnStore.Store.RemoveColumns | src/store/columns.ts:29 | the record becomes the fold of removes over the old one |
| ColumnStore.Store.FetchColumn | src/store/columns.ts:30-39 | on an error it answers nothing and changes nothing; otherwise it stores the server's column and answers it |
| ColumnStore.Store.FetchColumns | src/store/columns.ts:40-49 | on an error it answers nothing and changes nothing; otherwise it folds the server's columns in and answers them |
| ColumnStore.Store.CreateColumn | src/store/columns.ts:50-59 | on an error it answers nothing and changes nothing; otherwise it stores the server's column and answers it |
| ColumnStore.Store.UpdateColumn | src/store/columns.ts:60-69 | on an error it answers nothing and changes nothing; otherwise it stores the server's column and answers it |
| ColumnStore.Store.DeleteColumn | src/store/columns.ts:129-138 | on an error it answers nothing and changes nothing; otherwise it removes the id and answers the server's status |
| ColumnStore.Store.BeginMove | src/store/columns.ts:75-109 | the record becomes the optimistic write of the old one, and the recorded columns are the ones the write copies |
| ColumnStore.Store.Relink | src/store/columns.ts:83-106 | the three guarded writes leave the record that Apply gives for the lookups made, and push exactly the snapshot columns that Record lists, in order |
| ColumnStore.Store.Rollback | src/store/columns.ts:114-122 | the record becomes the old record with the recorded columns written back in order |
| ColumnStore.Store.MoveColumn | src/store/columns.ts:70-128 | moving a column before itself sends nothing and changes nothing; otherwise the move request is sent; on success the optimistic record stays and the server's column is answered; on an error the record is exactly as before and nothing is answered |
| Boards.SetBoard | src/store/boards.ts:84-90 | the board is stored under its id, other boards and the selection are unchanged, and every board stays stored under its own id |
| Boards.RemoveBoard | src/store/boards.ts:92-98 | the id is gone, every other board is kept, the selection is unchanged, and removing an absent id changes nothing |
| Boards.SetCurrentBoardId | src/store/boards.ts:26 | only the selection changes |
| Boards.GetBoard | src/store/boards.ts:100 | answers the board exactly when its id is stored |
| Boards.GetCurrentBoard | src/store/boards.ts:102 | answers the selected board when it is stored; with no selection it answers whatever is stored under -1 |
| Boards.AddBoardsSpec | src/store/boards.ts:28 | the fold of `setBoard` keeps the selection, adds the listed ids with the later board winning, and keeps unlisted boards |
| Boards.RemoveBoardsSpec | src/store/boards.ts:30 | the fold of `removeBoard` keeps the selection and removes exactly the listed ids |
| Boards.SetBoardIdempotent | src/store/boards.ts:84-90 | storing the same board twice is the same as storing it once |
| Boards.RemoveBoardIdempotent | src/store/boards.ts:92-98 | removing a board twice is the same as removing it once |
| Boards.GetAfterSetAndRemove | src/store/boards.ts:100 | a stored board is found, a removed one is not, and storing one board does not change the lookup of another |
| Boards.RemoveSelectedBoard | src/store/boards.ts:92-102 | removing the selected board keeps it selected, and then there is no current board |
| Boards.LookupsHaveTheirIds | src/store/boards.ts:100-102 | in a state keyed by id, `getBoard(id)` answers a board whose id is `id`, and the current board is the one selected |
| Boards.SelectStoredBoard | src/store/boards.ts:102 | selecting a stored board makes it the current board |
| BoardStore.Store.constructor | src/store/boards.ts:24-25 | the store starts with no selection and no boards |
| BoardStore.Store.SetCurrentBoardId | src/store/boards.ts:26 | the state becomes Boards.SetCurrentBoardId of the old state |
| BoardStore.Store.AddBoard | src/store/boards.ts:27 | the state becomes SetBoard of the old state |
| BoardStore.Store.AddBoards | src/store/boards.ts:28 | the state becomes the fold of SetBoard over the old state |
| BoardStore.Store.RemoveBoard | src/store/boards.ts:29 | the state becomes RemoveBoard of the old state |
| BoardStore.Store.RemoveBoards | src/store/boards.ts:30 | the state becomes the fold of RemoveBoard over the old state |
| BoardStore.Store.FetchBoard | src/store/boards.ts:31-39 | on an error nothing changes; otherwise the server's board is stored |
| BoardStore.Store.FetchBoards | src/store/boards.ts:40-48 | on an error nothing changes; otherwise the server's boards are folded in |
| BoardStore.Store.CreateBoard | src/store/boards.ts:49-57 | on an error nothing changes; otherwise the server's board is stored |
| BoardStore.Store.UpdateBoard | src/store/boards.ts:58-66 | on an error nothing changes; otherwise the server's board is stored |
| BoardStore.Store.DeleteBoard | src/store/boards.ts:67-75 | on an error nothing changes; otherwise the board is removed and the selection is left as it was |
| BoardStore.Store.InviteUserToBoard | src/store/boards.ts:76-78 | sends the invitation and changes no state |
| BoardStore.Store.LeaveBoard | src/store/boards.ts:79-81 | sends the leave request and changes no state |
| Tags.SetTag | src/store/tags.ts:72-78 | the tag is stored under its id, other tags are unchanged, and every tag stays stored under its own id |
| Tags.TagTable.Delete | src/store/tags.ts:81 | the id is deleted from this very record, the other entries stay, and deleting an absent id changes nothing |
| Tags.TagStore.constructor | src/store/tags.ts:20 | the store starts with a new, empty record |
| Tags.TagStore.AddTag | src/store/tags.ts:21 | the store gets a new record holding SetTag of the old entries; the record held before is untouched |
| Tags.TagStore.RemoveTag | src/store/tags.ts:23 | the store keeps the same record, with the id deleted from it |
| Tags.TagStore.AddTags | src/store/tags.ts:22 | the entries become the fold of inserts; an empty list keeps the same record, any other list gives a new one; the old record is untouched |
| Tags.TagStore.RemoveTags | src/store/tags.ts:24 | the same record is kept, with exactly the listed ids deleted |
| Tags.TagStore.FetchTag | src/store/tags.ts:25-33 | on an error nothing changes; otherwise a new record holds the server's tag |
| Tags.TagStore.FetchTags | src/store/tags.ts:34-42 | on an error nothing changes; otherwise the server's tags are folded in |
| Tags.TagStore.CreateTag | src/store/tags.ts:43-51 | on an error nothing changes; otherwise a new record holds the server's tag |
| Tags.TagStore.UpdateTag | src/store/tags.ts:52-60 | on an error nothing changes; otherwise a new record holds the server's tag |
| Tags.TagStore.DeleteTag | src/store/tags.ts:61-69 | on an error nothing changes; otherwise the id is deleted in place |
| Tags.AliasedRecord | src/store/tags.ts:72-83 | a reader holding the old record sees a removal but not a later addition |

## Left out

- Subscriptions and notification in zustand, and how `set` merges state: each action is modelled as
  the state it leaves behind. `removeTag` returns the very state object it was given, so zustand's
  identity check means subscribers are not notified of that removal. This model does not capture it.
- The network: each `Rest` call is replaced by its answer, passed in as a `Result`. The arguments
  that only go to the server are not modelled. These are the payloads of `createColumn`,
  `updateColumn`, `createBoard`, `updateBoard`, `createTag` and `updateTag`. They are also the
  `columnId` of `fetchColumn` and `updateColumn`, the `boardId` of `fetchBoard` and `updateBoard`,
  the `tagId` of `fetchTag` and `updateTag`, and the `boardIds` filters of `fetchColumns` and
  `fetchTags`. The model stores whatever column, board or tag the answer holds, under that
  answer's own id.
- Concurrency: `moveColumn` awaits the server between its two `set` calls. Other actions that run
  in between are not modelled, so `ColumnStore.Store.MoveColumn` proves the exact restore only for
  a rollback that follows the optimistic write directly. `ColumnStore.Store.Rollback` itself works
  on whatever record is current.
- The `useBoards` hook that `getColumnsInCurrentBoard` calls: the selected board id is a parameter.
- Board, column and tag attributes other than the ids, the board link, the `nextId` pointer and a
  name: the store never reads them.
- JavaScript record keys are strings, and ids are numbers. Ids are modelled as integers, and
  `Object.values` lists them in ascending order. JavaScript uses that order for array-index keys,
  which are the non-negative integers below 2^32 − 1. Other ids, such as negative ones or larger
  ones, would be listed after them in insertion order instead, which the model does not capture.
- ColumnSort.SortColumns: requires distinct, non-zero ids. The source has no such precondition.
  Its falsy test `!column.nextId` also takes `nextId == 0` for a tail. With an id 0 the walk can go
  round forever, and duplicate ids can do the same. It can also stop early on a well-formed chain:
  on 7→0→9 it answers column 7 alone (`SortExamples.ZeroIdCutsSortShort`). The columns given to it
  by the selectors come from a record keyed by id, so their ids are always distinct.
- ColumnSort.SortOfChain: proved only for chains without the id 0, because with one the source's
  result can be a truncated chain, as above.
- ColumnSort.SortOfBoard: proved only for boards without a column of id 0, for the same reason.
- ColumnSort.GetSortedColumnsInBoard: requires that no column of the board has id 0, because its
  walk may not end and its result may be truncated otherwise.
- ColumnSort.GetSortedColumnsInCurrentBoard: requires that no column of the selected board has id 0,
  for the same reason.
- MoveChain.MovePreservesChain: requires three things:
  - no pointer leaves its board;
  - the target is a column of the same board, other than the moved one;
  - the target differs from the column's current successor.

  Moving a column before its own successor is covered separately, by MoveToOwnSuccessor and
  MoveHeadToOwnSuccessor.
- src/components/avatars.tsx is not part of this model.
