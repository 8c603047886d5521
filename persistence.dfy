/**
 The Spring Data repository behind each entity, as a keyed table: the stored
 rows by primary key, and the database's identity counter, which hands out
 the key of the next inserted row (`GenerationType.IDENTITY`).
 */
module Persistence {
  import opened Wrappers
  import opened Entities

  class Repository<D> {
    var rows: map<Key, D>
    var nextId: Key

    /** Keys start at 1 and every stored key lies below the counter, so the counter's key is free. */
    ghost predicate Valid()
      reads this
    {
      1 <= nextId && forall k :: k in rows ==> 1 <= k < nextId
    }

    constructor ()
      ensures Valid() && rows == map[] && nextId == 1
    {
      rows := map[];
      nextId := 1;
    }

    /** `findById`: the stored record under `id`, if any. */
    method FindById(id: Key) returns (r: Option<Entity<D>>)
      ensures r.Some? <==> id in rows
      ensures r.Some? ==> r.value.id == Some(id) && r.value.data == rows[id]
    {
      if id in rows {
        r := Some(Entity(Some(id), rows[id]));
      } else {
        r := None;
      }
    }

    /** `existsById`. */
    method ExistsById(id: Key) returns (b: bool)
      ensures b <==> id in rows
    {
      b := id in rows;
    }

    /**
     `save`, an upsert: a record whose id is stored replaces that row; any
     other record is inserted under a key freshly drawn from the counter.
     The saved record, with its key, is returned.
     */
    method Save(e: Entity<D>) returns (saved: Entity<D>)
      requires Valid()
      modifies this
      ensures Valid()
      ensures saved.data == e.data && saved.id.Some?
      ensures e.id.Some? && e.id.value in old(rows) ==>
        && saved == e
        && rows == old(rows)[e.id.value := e.data]
        && nextId == old(nextId)
      ensures !(e.id.Some? && e.id.value in old(rows)) ==>
        && saved.id == Some(old(nextId))
        && old(nextId) !in old(rows)
        && rows == old(rows)[old(nextId) := e.data]
        && nextId == old(nextId) + 1
    {
      if e.id.Some? && e.id.value in rows {
        rows := rows[e.id.value := e.data];
        saved := e;
      } else {
        var key := nextId;
        rows := rows[key := e.data];
        nextId := nextId + 1;
        saved := Entity(Some(key), e.data);
      }
    }

    /** `deleteById`: removes the row under `id`; a missing id changes nothing. */
    method DeleteById(id: Key)
      requires Valid()
      modifies this
      ensures Valid()
      ensures rows == old(rows) - {id} && nextId == old(nextId)
    {
      rows := rows - {id};
    }

    /**
     `delete(entity)`: removes the row under the record's id; a record
     without an id, or one that is not stored, changes nothing.
     */
    method Delete(e: Entity<D>)
      requires Valid()
      modifies this
      ensures Valid()
      ensures e.id.Some? ==> rows == old(rows) - {e.id.value}
      ensures e.id.None? ==> rows == old(rows)
      ensures nextId == old(nextId)
    {
      if e.id.Some? {
        rows := rows - {e.id.value};
      }
    }
  }

}
