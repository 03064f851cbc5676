/** The persisted expense collection as an object whose handlers change it
    in place; each handler is proved to perform the transition of the same
    name in module Store. */
module Service {
  import opened ExpenseModel
  import Store

  class ExpenseStore {
    var records: seq<Record>
    var nextId: nat

    ghost function State(): Store.Db
      reads this
    {
      Store.Db(records, nextId)
    }

    ghost predicate Valid()
      reads this
    {
      Store.Valid(State())
    }

    constructor ()
      ensures Valid() && records == []
    {
      records := [];
      nextId := 0;
    }

    /** Saves a freshly built document; the sparse unique index refuses it
        when some stored record already carries its key. */
    method Save(rec: Record) returns (ok: bool)
      requires Valid() && rec.id == nextId
      modifies this
      ensures Valid()
      ensures ok <==> !Store.KeyTaken(old(records), rec.idempotencyKey)
      ensures ok ==> records == old(records) + [rec] && nextId == old(nextId) + 1
      ensures !ok ==> records == old(records) && nextId == old(nextId)
    {
      if rec.idempotencyKey.Some? {
        var existing := Store.FindByKey(records, rec.idempotencyKey.value);
        if existing.Some? {
          return false;
        }
      }
      var rs := records + [rec];
      assert forall i :: 0 <= i < |records| ==> rs[i] == records[i];
      records, nextId := rs, nextId + 1;
      ok := true;
    }

    /** The creation handler: validation, lookup of a truthy key, then a
        save whose rejection by the index is reported as 409. */
    method Create(req: Request, now: nat) returns (resp: CreateResponse)
      requires Valid()
      modifies this
      ensures Valid()
      ensures Store.Outcome(resp, State()) == Store.Create(old(State()), req, now)
    {
      if !HasRequiredFields(req) {
        return MissingFields;
      }
      if TextTruthy(req.idempotencyKey) {
        var existing := Store.FindByKey(records, req.idempotencyKey.value);
        if existing.Some? {
          return Replayed(existing.value);
        }
      }
      var rec := NewRecord(nextId, req, now);
      var saved := Save(rec);
      if !saved {
        return DuplicateRequest;
      }
      resp := Created(rec);
    }

    /** The deletion handler: removes the record with this id, or reports 404. */
    method Delete(id: nat) returns (resp: DeleteResponse)
      requires Valid()
      modifies this
      ensures Valid()
      ensures Store.Outcome(resp, State()) == Store.Delete(old(State()), id)
    {
      var pos := Store.IndexOfId(records, id);
      if pos.None? {
        return NotFound;
      }
      var i := pos.value;
      Store.RemoveAtValid(State(), i);
      records := records[..i] + records[i + 1..];
      resp := Deleted(id);
    }
  }

  /** Two identical keyed requests against the object: 201, then 200 with
      the same record, and one record in the collection; a third identical
      request without a key inserts a second record with a new id. */
  method RetryScenario(req: Request, t1: nat, t2: nat, t3: nat)
    requires HasRequiredFields(req) && TextTruthy(req.idempotencyKey)
  {
    var store := new ExpenseStore();
    var first := store.Create(req, t1);
    assert first.Created?;
    var second := store.Create(req, t2);
    assert store.records[0] == first.rec;
    assert second == Replayed(first.rec);
    assert |store.records| == 1;
    var third := store.Create(req.(idempotencyKey := None), t3);
    assert third.Created? && third.rec.id != first.rec.id;
    assert |store.records| == 2;
  }
}
