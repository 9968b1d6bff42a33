/** The `useTags` store of src/store/tags.ts. The record of tags is a heap
    object here, because the two helpers treat it differently: `setTag`
    builds a new record and a new state, while `removeTag` deletes the entry
    from the record the state already holds and hands back that same state.
    Whoever still holds the old record sees a removal but never an addition. */
module Tags {

  import opened Wrappers
  import Keyed

  /** A tag of a board. Its other attributes play no part in the store's logic. */
  datatype Tag = Tag(id: int, boardId: int, name: string)

  function TagId(t: Tag): int { t.id }

  /** The entries of the record `setTag` builds: `{...state.tags, [tag.id]: tag}`. */
  function SetTag(m: map<int, Tag>, t: Tag): (r: map<int, Tag>)
    ensures t.id in r && r[t.id] == t
    ensures r.Keys == m.Keys + {t.id}
    ensures forall k :: k in m && k != t.id ==> r[k] == m[k]
    ensures Keyed.KeyedBy(m, TagId) ==> Keyed.KeyedBy(r, TagId)
  {
    Keyed.Put(m, t.id, t)
  }

  /** A `Record<Tag["id"], Tag>` object. */
  class TagTable {
    var entries: map<int, Tag>

    constructor(entries: map<int, Tag>)
      ensures this.entries == entries
    {
      this.entries := entries;
    }

    /** `delete tags[tagId]`: the id is gone from this very object, every
        other entry stays, and deleting an absent id changes nothing. */
    method Delete(id: int)
      modifies this
      ensures entries == Keyed.Drop(old(entries), id)
      ensures id !in old(entries) ==> entries == old(entries)
    {
      entries := Keyed.Drop(entries, id);
    }
  }

  class TagStore {
    var tags: TagTable

    /** Every tag is stored under its own id. */
    ghost predicate Valid()
      reads this, tags
    {
      Keyed.KeyedBy(tags.entries, TagId)
    }

    constructor()
      ensures fresh(tags) && tags.entries == map[] && Valid()
    {
      tags := new TagTable(map[]);
    }

    /** `addTag(tag)`: `set(setTag(state, tag))`. The store gets a new record;
        the record it held before is left as it was. */
    method AddTag(t: Tag)
      requires Valid()
      modifies this
      ensures fresh(tags) && tags.entries == SetTag(old(tags.entries), t)
      ensures unchanged(old(tags))
      ensures Valid()
    {
      tags := new TagTable(SetTag(tags.entries, t));
    }

    /** `removeTag(tagId)`: `set(removeTag(state, tagId))`. The entry is
        deleted from the record the store already holds, which stays the
        store's record. */
    method RemoveTag(id: int)
      requires Valid()
      modifies tags
      ensures tags == old(tags)
      ensures tags.entries == Keyed.Drop(old(tags.entries), id)
      ensures Valid()
    {
      tags.Delete(id);
    }

    /** `addTags(tags)`: `tags.reduce(setTag, state)`. Each step builds a new
        record, the later of two tags with the same id winning; an empty list
        hands back the state itself and so keeps the record. */
    method AddTags(ts: seq<Tag>)
      requires Valid()
      modifies this
      ensures tags.entries == Keyed.PutAll(old(tags.entries), ts, TagId)
      ensures ts == [] ==> tags == old(tags)
      ensures ts != [] ==> fresh(tags)
      ensures unchanged(old(tags))
      ensures Valid()
    {
      ghost var m := tags.entries;
      for i := 0 to |ts|
        invariant tags.entries == Keyed.PutAll(m, ts[..i], TagId)
        invariant i == 0 ==> tags == old(tags)
        invariant i > 0 ==> fresh(tags)
        invariant unchanged(old(tags))
      {
        Keyed.PutAllSnoc(m, ts[..i], ts[i], TagId);
        assert ts[..i + 1] == ts[..i] + [ts[i]];
        tags := new TagTable(SetTag(tags.entries, ts[i]));
      }
      assert ts[..|ts|] == ts;
      Keyed.PutAllKeyedBy(m, ts, TagId);
    }

    /** `removeTags(tagIds)`: `tagIds.reduce(removeTag, state)`, every
        deletion working on the one record the store holds. */
    method RemoveTags(ids: seq<int>)
      requires Valid()
      modifies tags
      ensures tags == old(tags)
      ensures tags.entries == Keyed.DropAll(old(tags.entries), ids)
      ensures Valid()
    {
      ghost var m := tags.entries;
      for i := 0 to |ids|
        invariant tags == old(tags)
        invariant tags.entries == Keyed.DropAll(m, ids[..i])
        invariant Valid()
      {
        Keyed.DropAllSnoc(m, ids[..i], ids[i]);
        assert ids[..i + 1] == ids[..i] + [ids[i]];
        RemoveTag(ids[i]);
      }
      assert ids[..|ids|] == ids;
    }

    /** `fetchTag`, `createTag` and `updateTag` share this handling: on an
        error nothing changes; otherwise the tag the server returns is added. */
    method StoreTag(response: Result<Tag>)
      requires Valid()
      modifies this
      ensures response.Err? ==> tags == old(tags)
      ensures response.Ok? ==> fresh(tags) && tags.entries == SetTag(old(tags.entries), response.data)
      ensures unchanged(old(tags))
      ensures Valid()
    {
      if response.Err? {
        return;
      }
      AddTag(response.data);
    }

    /** `fetchTag(tagId)`, the answer of `Rest.getTag` passed in. */
    method FetchTag(response: Result<Tag>)
      requires Valid()
      modifies this
      ensures response.Err? ==> tags == old(tags)
      ensures response.Ok? ==> fresh(tags) && tags.entries == SetTag(old(tags.entries), response.data)
      ensures unchanged(old(tags))
      ensures Valid()
    {
      StoreTag(response);
    }

    /** `createTag(tag)`, the answer of `Rest.createTag` passed in. */
    method CreateTag(response: Result<Tag>)
      requires Valid()
      modifies this
      ensures response.Err? ==> tags == old(tags)
      ensures response.Ok? ==> fresh(tags) && tags.entries == SetTag(old(tags.entries), response.data)
      ensures unchanged(old(tags))
      ensures Valid()
    {
      StoreTag(response);
    }

    /** `updateTag(tagId, tag)`: the tag stored is the one the server returns. */
    method UpdateTag(response: Result<Tag>)
      requires Valid()
      modifies this
      ensures response.Err? ==> tags == old(tags)
      ensures response.Ok? ==> fresh(tags) && tags.entries == SetTag(old(tags.entries), response.data)
      ensures unchanged(old(tags))
      ensures Valid()
    {
      StoreTag(response);
    }

    /** `fetchTags(boardIds)`: the returned tags are folded in. */
    method FetchTags(response: Result<seq<Tag>>)
      requires Valid()
      modifies this
      ensures response.Err? ==> tags == old(tags)
      ensures response.Ok? ==> tags.entries == Keyed.PutAll(old(tags.entries), response.data, TagId)
      ensures unchanged(old(tags))
      ensures Valid()
    {
      if response.Err? {
        return;
      }
      AddTags(response.data);
    }

    /** `deleteTag(tagId)`: the entry is deleted in place once the server has
        answered without error. */
    method DeleteTag<S>(id: int, response: Result<S>)
      requires Valid()
      modifies tags
      ensures tags == old(tags)
      ensures response.Err? ==> tags.entries == old(tags.entries)
      ensures response.Ok? ==> tags.entries == Keyed.Drop(old(tags.entries), id)
      ensures Valid()
    {
      if response.Err? {
        return;
      }
      RemoveTag(id);
    }
  }

  /** A reader that kept the record the store held: it sees a removal, which
      works in place, but not a later addition, which stores a new record. */
  method AliasedRecord(s: TagStore, id: int, t: Tag) returns (afterRemove: map<int, Tag>, afterAdd: map<int, Tag>)
    requires s.Valid()
    modifies s, s.tags
    ensures afterRemove == Keyed.Drop(old(s.tags.entries), id)
    ensures afterAdd == afterRemove
    ensures s.tags.entries == SetTag(afterRemove, t)
  {
    var held := s.tags;
    s.RemoveTag(id);
    afterRemove := held.entries;
    s.AddTag(t);
    afterAdd := held.entries;
  }
}
