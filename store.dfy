/** The expense collection as a value, and the creation and deletion
    handlers as transitions on it. The sparse unique index on the
    idempotency key is the invariant `Valid`; the lookup before the insert
    is an optimisation, the index is what keeps keys unique. */
module Store {
  import opened ExpenseModel
  import Listing

  /** The collection and the generator of fresh ids. */
  datatype Db = Db(records: seq<Record>, nextId: nat)

  /** A handler's response together with the collection it leaves behind. */
  datatype Outcome<R> = Outcome(resp: R, db: Db)

  /** The sparse unique index: records without a key are not indexed, and
      no two indexed records share a key. */
  predicate UniqueKeys(rs: seq<Record>) {
    forall i, j :: 0 <= i < j < |rs| && rs[i].idempotencyKey.Some? ==>
      rs[i].idempotencyKey != rs[j].idempotencyKey
  }

  /** Ids are distinct and all below the next fresh id. */
  predicate FreshIds(rs: seq<Record>, nextId: nat) {
    (forall i :: 0 <= i < |rs| ==> rs[i].id < nextId)
    && (forall i, j :: 0 <= i < j < |rs| ==> rs[i].id != rs[j].id)
  }

  predicate Valid(db: Db) {
    UniqueKeys(db.records) && FreshIds(db.records, db.nextId)
  }

  /** Some stored record carries exactly this key (a key of None never collides). */
  predicate KeyTaken(rs: seq<Record>, key: Option<string>) {
    key.Some? && exists i :: 0 <= i < |rs| && rs[i].idempotencyKey == key
  }

  /** The number of stored records that carry key `k`. */
  function KeyCount(rs: seq<Record>, k: string): nat {
    if rs == [] then 0
    else (if rs[0].idempotencyKey == Some(k) then 1 else 0) + KeyCount(rs[1..], k)
  }

  lemma UniqueKeysTail(rs: seq<Record>)
    requires rs != [] && UniqueKeys(rs)
    ensures UniqueKeys(rs[1..])
  {
  }

  /** Under the index, a key is carried by one record or by none. */
  lemma {:induction false} UniqueKeyCount(rs: seq<Record>, k: string)
    requires UniqueKeys(rs)
    ensures KeyCount(rs, k) == if KeyTaken(rs, Some(k)) then 1 else 0
  {
    if rs != [] {
      UniqueKeysTail(rs);
      UniqueKeyCount(rs[1..], k);
      if rs[0].idempotencyKey == Some(k) {
        forall j | 0 <= j < |rs[1..]|
          ensures rs[1..][j].idempotencyKey != Some(k)
        {
          assert rs[1..][j] == rs[j + 1];
        }
      } else if KeyTaken(rs, Some(k)) {
        var i :| 0 <= i < |rs| && rs[i].idempotencyKey == Some(k);
        assert rs[1..][i - 1] == rs[i];
      }
    }
  }

  /** Under the index, a key determines the record that carries it. */
  lemma KeyDeterminesRecord(rs: seq<Record>, x: Record, y: Record)
    requires UniqueKeys(rs) && x in rs && y in rs
    requires x.idempotencyKey.Some? && x.idempotencyKey == y.idempotencyKey
    ensures x == y
  {
  }

  /** The store's lookup of a document by idempotency key. */
  function FindByKey(rs: seq<Record>, k: string): (found: Option<Record>)
    ensures found.Some? ==> found.value in rs && found.value.idempotencyKey == Some(k)
    ensures found.None? ==> forall x :: x in rs ==> x.idempotencyKey != Some(k)
  {
    if rs == [] then None
    else if rs[0].idempotencyKey == Some(k) then Some(rs[0])
    else FindByKey(rs[1..], k)
  }

  /** The position of the first record with this id, if any. */
  function IndexOfId(rs: seq<Record>, id: nat): (pos: Option<nat>)
    ensures pos.Some? ==> pos.value < |rs| && rs[pos.value].id == id
    ensures pos.None? ==> forall x :: x in rs ==> x.id != id
  {
    if rs == [] then None
    else if rs[0].id == id then Some(0)
    else match IndexOfId(rs[1..], id)
      case None => None
      case Some(p) => Some(p + 1)
  }

  /** First phase of a creation: a truthy key is looked up; a falsy one
      (absent or "") is not. */
  function Lookup(db: Db, req: Request): (found: Option<Record>)
    ensures found.Some? ==>
      TextTruthy(req.idempotencyKey) && found.value in db.records
      && found.value.idempotencyKey == req.idempotencyKey
    ensures found.None? && TextTruthy(req.idempotencyKey) ==>
      !KeyTaken(db.records, req.idempotencyKey)
  {
    if TextTruthy(req.idempotencyKey) then FindByKey(db.records, req.idempotencyKey.value)
    else None
  }

  /** Second phase of a creation: build the document with a fresh id and
      save it; the index rejects a key that some record already carries. */
  function Persist(db: Db, req: Request, now: nat): (out: Outcome<CreateResponse>)
    requires HasRequiredFields(req)
    ensures out.resp.Created? || out.resp.DuplicateRequest?
    ensures out.resp.DuplicateRequest? <==> KeyTaken(db.records, req.idempotencyKey)
    ensures out.resp.DuplicateRequest? ==> out.db == db
    ensures out.resp.Created? ==>
      out.resp.rec == NewRecord(db.nextId, req, now)
      && out.db == Db(db.records + [out.resp.rec], db.nextId + 1)
    ensures Valid(db) ==> Valid(out.db)
  {
    var rec := NewRecord(db.nextId, req, now);
    if KeyTaken(db.records, rec.idempotencyKey) then Outcome(DuplicateRequest, db)
    else
      var rs := db.records + [rec];
      assert forall i :: 0 <= i < |db.records| ==> rs[i] == db.records[i];
      Outcome(Created(rec), Db(rs, db.nextId + 1))
  }

  /** The creation handler: 400 on a missing field, 200 with the stored
      record on a replayed key, otherwise an insert that yields 201 or 409. */
  function Create(db: Db, req: Request, now: nat): (out: Outcome<CreateResponse>)
    ensures out.resp.MissingFields? <==> !HasRequiredFields(req)
    ensures out.resp.MissingFields? ==> out.db == db
    ensures out.resp.Replayed? ==>
      out.db == db && TextTruthy(req.idempotencyKey)
      && out.resp.rec in db.records && out.resp.rec.idempotencyKey == req.idempotencyKey
    ensures forall x ::
      (Valid(db) && HasRequiredFields(req) && TextTruthy(req.idempotencyKey)
       && x in db.records && x.idempotencyKey == req.idempotencyKey) ==> out == Outcome(Replayed(x), db)
    ensures HasRequiredFields(req) && !KeyTaken(db.records, req.idempotencyKey) ==> out.resp.Created?
    ensures out.resp.Created? ==>
      out.db == Db(db.records + [out.resp.rec], db.nextId + 1)
      && out.resp.rec.id == db.nextId && out.resp.rec.createdAt == now
      && Some(out.resp.rec.amount) == req.amount && Some(out.resp.rec.category) == req.category
      && Some(out.resp.rec.description) == req.description && Some(out.resp.rec.date) == req.date
      && out.resp.rec.idempotencyKey == req.idempotencyKey
    ensures Valid(db) && out.resp.Created? ==> forall x :: x in db.records ==> x.id != out.resp.rec.id
    ensures out.resp.DuplicateRequest? ==> out.db == db && req.idempotencyKey == Some("")
    ensures Valid(db) ==> Valid(out.db)
  {
    if !HasRequiredFields(req) then Outcome(MissingFields, db)
    else match Lookup(db, req)
      case Some(existing) =>
        assert forall x :: Valid(db) && x in db.records && x.idempotencyKey == req.idempotencyKey ==> x == existing by {
          forall x | Valid(db) && x in db.records && x.idempotencyKey == req.idempotencyKey {
            KeyDeterminesRecord(db.records, x, existing);
          }
        }
        Outcome(Replayed(existing), db)
      case None => Persist(db, req, now)
  }

  /** The same request submitted once per timestamp in `times`, one after
      another, as a client that retries it. */
  function Repeat(db: Db, req: Request, times: seq<nat>): (out: Outcome<seq<CreateResponse>>)
    ensures |out.resp| == |times|
    decreases times
  {
    if times == [] then Outcome([], db)
    else
      var first := Create(db, req, times[0]);
      var rest := Repeat(first.db, req, times[1..]);
      Outcome([first.resp] + rest.resp, rest.db)
  }

  /** Once a record carries the key, every retry echoes it and nothing changes. */
  lemma {:induction false} ReplaysChangeNothing(db: Db, req: Request, times: seq<nat>, x: Record)
    requires Valid(db) && HasRequiredFields(req) && TextTruthy(req.idempotencyKey)
    requires x in db.records && x.idempotencyKey == req.idempotencyKey
    ensures Repeat(db, req, times).db == db
    ensures forall i :: 0 <= i < |times| ==> Repeat(db, req, times).resp[i] == Replayed(x)
  {
    if times != [] {
      ReplaysChangeNothing(db, req, times[1..], x);
      var out := Repeat(db, req, times);
      forall i | 0 <= i < |times|
        ensures out.resp[i] == Replayed(x)
      {
        if i > 0 {
          assert out.resp[i] == Repeat(db, req, times[1..]).resp[i - 1];
        }
      }
    }
  }

  /** Submitting one keyed request N times leaves exactly one record with
      that key: the first submission creates it (or finds it), and every
      later one echoes the same record and changes nothing. */
  lemma KeyedRetries(db: Db, req: Request, times: seq<nat>)
    requires Valid(db) && HasRequiredFields(req) && TextTruthy(req.idempotencyKey) && |times| > 0
    ensures var out := Repeat(db, req, times);
      && Valid(out.db)
      && KeyCount(out.db.records, req.idempotencyKey.value) == 1
      && (out.resp[0].Created? <==> !KeyTaken(db.records, req.idempotencyKey))
      && (out.resp[0].Created? || out.resp[0].Replayed?)
      && out.db.records == (if out.resp[0].Created? then db.records + [out.resp[0].rec] else db.records)
      && forall i :: 1 <= i < |times| ==> out.resp[i] == Replayed(out.resp[0].rec)
  {
    var first := Create(db, req, times[0]);
    var x := first.resp.rec;
    assert x in first.db.records by {
      if first.resp.Created? {
        assert first.db.records[|db.records|] == x;
      }
    }
    ReplaysChangeNothing(first.db, req, times[1..], x);
    var out := Repeat(db, req, times);
    forall i | 1 <= i < |times|
      ensures out.resp[i] == Replayed(x)
    {
      assert out.resp[i] == Repeat(first.db, req, times[1..]).resp[i - 1];
    }
    UniqueKeyCount(out.db.records, req.idempotencyKey.value);
  }

  /** Requests without a key are never deduplicated: N of them, even with
      identical fields, insert N records with N distinct fresh ids. */
  lemma {:induction false} UnkeyedCreatesAllInsert(db: Db, req: Request, times: seq<nat>)
    requires Valid(db) && HasRequiredFields(req) && req.idempotencyKey == None
    decreases times
    ensures var out := Repeat(db, req, times);
      && Valid(out.db)
      && |out.db.records| == |db.records| + |times|
      && out.db.records[..|db.records|] == db.records
      && (forall i :: 0 <= i < |times| ==>
            out.resp[i] == Created(NewRecord(db.nextId + i, req, times[i]))
            && out.db.records[|db.records| + i] == out.resp[i].rec)
  {
    if times != [] {
      var first := Create(db, req, times[0]);
      UnkeyedCreatesAllInsert(first.db, req, times[1..]);
      var rest := Repeat(first.db, req, times[1..]);
      var out := Repeat(db, req, times);
      assert out.db == rest.db;
      assert first.db.records == db.records + [first.resp.rec];
      assert rest.db.records[..|first.db.records|] == first.db.records;
      assert out.db.records[..|db.records|] == db.records by {
        assert out.db.records[..|db.records|] == rest.db.records[..|first.db.records|][..|db.records|];
      }
      forall i | 0 <= i < |times|
        ensures out.resp[i] == Created(NewRecord(db.nextId + i, req, times[i]))
        ensures out.db.records[|db.records| + i] == out.resp[i].rec
      {
        if i == 0 {
          assert out.db.records[|db.records|] == rest.db.records[..|first.db.records|][|db.records|];
        } else {
          assert out.resp[i] == rest.resp[i - 1];
          assert times[1..][i - 1] == times[i];
        }
      }
    }
  }

  /** A request with the empty key is not looked up but is stored with that
      key, so the index rejects a second such request with 409. */
  lemma EmptyKeyRepeatConflicts(db: Db, req: Request, t1: nat, t2: nat)
    requires Valid(db) && HasRequiredFields(req) && req.idempotencyKey == Some("")
    requires !KeyTaken(db.records, Some(""))
    ensures var first := Create(db, req, t1);
      var second := Create(first.db, req, t2);
      first.resp.Created? && second.resp == DuplicateRequest && second.db == first.db
  {
    var first := Create(db, req, t1);
    assert first.db.records[|db.records|] == first.resp.rec;
  }

  /** Two handlers with the same key that both looked up before either
      saved: the first save wins with 201, the index rejects the second with
      409, and exactly one record carries the key. */
  lemma InterleavedKeyedCreates(db: Db, a: Request, b: Request, ta: nat, tb: nat)
    requires Valid(db) && HasRequiredFields(a) && HasRequiredFields(b)
    requires TextTruthy(a.idempotencyKey) && b.idempotencyKey == a.idempotencyKey
    requires Lookup(db, a).None?
    ensures Lookup(db, b).None?
    ensures var first := Persist(db, a, ta);
      var second := Persist(first.db, b, tb);
      && first.resp.Created? && second.resp == DuplicateRequest && second.db == first.db
      && KeyCount(second.db.records, a.idempotencyKey.value) == 1
  {
    var first := Persist(db, a, ta);
    assert first.db.records[|db.records|] == first.resp.rec;
    UniqueKeyCount(first.db.records, a.idempotencyKey.value);
  }

  /** What removing one position leaves: everything else, in order. */
  lemma RemoveAt(rs: seq<Record>, i: nat)
    requires i < |rs|
    ensures var rest := rs[..i] + rs[i + 1..];
      && |rest| == |rs| - 1
      && multiset(rest) == multiset(rs) - multiset{rs[i]}
      && forall p :: 0 <= p < |rest| ==> rest[p] == rs[if p < i then p else p + 1]
  {
    assert rs == rs[..i] + [rs[i]] + rs[i + 1..];
    assert multiset(rs) == multiset(rs[..i]) + multiset{rs[i]} + multiset(rs[i + 1..]);
  }

  /** Removing one position keeps the index and the ids valid. */
  lemma RemoveAtValid(db: Db, i: nat)
    requires Valid(db) && i < |db.records|
    ensures Valid(Db(db.records[..i] + db.records[i + 1..], db.nextId))
  {
  }

  /** With distinct ids, removing one position removes its id and keeps
      every record with another id. */
  lemma RemoveAtId(rs: seq<Record>, i: nat, nextId: nat)
    requires FreshIds(rs, nextId) && i < |rs|
    ensures forall y :: y in rs[..i] + rs[i + 1..] ==> y.id != rs[i].id
    ensures forall y :: y in rs && y.id != rs[i].id ==> y in rs[..i] + rs[i + 1..]
  {
  }

  /** The deletion handler: 200 echoing the id when a record has it, 404 otherwise. */
  function Delete(db: Db, id: nat): (out: Outcome<DeleteResponse>)
    ensures out.resp.Deleted? <==> exists x :: x in db.records && x.id == id
    ensures out.resp.Deleted? ==> out.resp.id == id
    ensures out.resp.NotFound? ==> out.db == db
    ensures out.resp.Deleted? ==>
      exists i :: (0 <= i < |db.records| && db.records[i].id == id
                   && out.db == Db(db.records[..i] + db.records[i + 1..], db.nextId))
    ensures Valid(db) ==> Valid(out.db)
  {
    match IndexOfId(db.records, id)
    case None => Outcome(NotFound, db)
    case Some(i) =>
      Outcome(Deleted(id), Db(db.records[..i] + db.records[i + 1..], db.nextId))
  }

  /** Deleting an existing id removes exactly that record: every other
      record stays, and no record with the id is left. */
  lemma DeleteRemovesExactlyOne(db: Db, x: Record)
    requires Valid(db) && x in db.records
    ensures var out := Delete(db, x.id);
      && out.resp == Deleted(x.id)
      && multiset(out.db.records) == multiset(db.records) - multiset{x}
      && |out.db.records| == |db.records| - 1
      && (forall y :: y in out.db.records ==> y.id != x.id)
      && (forall y :: y in db.records && y.id != x.id ==> y in out.db.records)
  {
    var out := Delete(db, x.id);
    var rs := db.records;
    var k :| 0 <= k < |rs| && rs[k] == x;
    var pos := IndexOfId(rs, x.id);
    assert pos.Some?;
    var i := pos.value;
    assert k == i;
    assert out.db.records == rs[..i] + rs[i + 1..];
    RemoveAt(rs, i);
    RemoveAtId(rs, i, db.nextId);
  }

  /** After a deletion, no listing shows the deleted id. */
  lemma DeleteThenListOmits(db: Db, id: nat, category: Option<string>, sort: Option<string>)
    requires Valid(db)
    ensures forall v :: v in Listing.List(Delete(db, id).db.records, category, sort) ==> v.id != id
  {
    var out := Delete(db, id);
    forall v | v in Listing.List(out.db.records, category, sort)
      ensures v.id != id
    {
      Listing.ListMembership(out.db.records, category, sort, v);
      var y :| y in out.db.records && Listing.Matches(category, y) && Show(y) == v;
      if out.resp.Deleted? {
        var x :| x in db.records && x.id == id;
        DeleteRemovesExactlyOne(db, x);
      }
    }
  }
}
