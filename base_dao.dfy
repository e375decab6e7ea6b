/** BaseDAO: the id-keyed store every entity DAO extends. */
module Store {
  import opened Wrappers

  /**
   * Why a write is rolled back: the record it names is not in the store, or
   * persist was handed an entity that already has an id (a detached entity).
   */
  datatype StoreError = NoSuchRow(id: nat) | AlreadyPersisted(id: nat)

  /**
   * The rows of one entity table. Ids come from an identity column, so a saved
   * row gets an id no row has had before.
   */
  class BaseDAO<R> {
    var rows: map<nat, R>
    var nextId: nat

    ghost predicate Valid()
      reads this
    {
      forall id :: id in rows ==> id < nextId
    }

    constructor ()
      ensures Valid() && rows == map[]
    {
      rows := map[];
      nextId := 0;
    }

    /** findById: the stored record, or null for an unknown id. */
    function FindById(id: nat): (r: Option<R>)
      reads this
      ensures r.Some? <==> id in rows
      ensures r.Some? ==> r.value == rows[id]
    {
      if id in rows then Some(rows[id]) else None
    }

    /**
     * save (persist): stores the record of an entity without an id under a fresh id,
     * which the entity then carries. An entity that already has an id is refused.
     */
    method Save(entityId: Option<nat>, r: R) returns (res: Result<nat, StoreError>)
      requires Valid()
      modifies this
      ensures Valid()
      ensures res.Ok? <==> entityId.None?
      ensures res.Ok? ==> res.value !in old(rows) && rows == old(rows)[res.value := r]
      ensures res.Ok? ==> res.value == old(nextId) && nextId == old(nextId) + 1
      ensures res.Ok? ==> FindById(res.value) == Some(r)
      ensures res.Err? ==> rows == old(rows) && nextId == old(nextId)
    {
      if entityId.Some? {
        return Err(AlreadyPersisted(entityId.value));
      }
      var id := nextId;
      rows := rows[id := r];
      nextId := nextId + 1;
      res := Ok(id);
    }

    /**
     * update (merge): replaces the record with the same id. Merging a record whose
     * row is gone fails, and the rollback leaves the store unchanged.
     */
    method Update(id: nat, r: R) returns (o: Outcome<StoreError>)
      requires Valid()
      modifies this
      ensures Valid() && nextId == old(nextId)
      ensures o.Pass? <==> id in old(rows)
      ensures rows == if o.Pass? then old(rows)[id := r] else old(rows)
    {
      if id in rows {
        rows := rows[id := r];
        o := Pass;
      } else {
        o := Fail(NoSuchRow(id));
      }
    }

    /** delete (remove): removes that record only; removing a row that is gone fails and changes nothing. */
    method Delete(id: nat) returns (o: Outcome<StoreError>)
      requires Valid()
      modifies this
      ensures Valid() && nextId == old(nextId)
      ensures o.Pass? <==> id in old(rows)
      ensures rows == old(rows) - {id}
    {
      if id in rows {
        rows := rows - {id};
        o := Pass;
      } else {
        o := Fail(NoSuchRow(id));
      }
    }

    /** deleteById: deletes the record if it exists; an absent id leaves the store unchanged. */
    method DeleteById(id: nat)
      requires Valid()
      modifies this
      ensures Valid() && nextId == old(nextId)
      ensures rows == old(rows) - {id}
      ensures id !in old(rows) ==> rows == old(rows)
    {
      if FindById(id).Some? {
        var o := Delete(id);
      }
    }
  }
}
