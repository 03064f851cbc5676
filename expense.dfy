/** The entities of the expense service: the persisted record, the body of a
    creation request, the item that a listing returns, and the responses of
    the three request handlers. */
module ExpenseModel {

  datatype Option<+T> = None | Some(value: T)

  /** A persisted expense record. `id` stands for the store's `_id`;
      `amount` is kept in integral cents; `date` is the caller's string,
      stored verbatim; `idempotencyKey` is None when the document has no
      such field (the sparse index does not index it then). */
  datatype Record = Record(
    id: nat,
    amount: int,
    category: string,
    description: string,
    date: string,
    createdAt: nat,
    idempotencyKey: Option<string>)

  /** The JSON body of a creation request; a field the client left out is None. */
  datatype Request = Request(
    amount: Option<int>,
    category: Option<string>,
    description: Option<string>,
    date: Option<string>,
    idempotencyKey: Option<string>)

  /** One item of a listing: `id` in place of `_id`, and no idempotency key. */
  datatype Listed = Listed(
    id: nat,
    amount: int,
    category: string,
    description: string,
    date: string,
    createdAt: nat)

  /** Outcome of a creation request; each carries its HTTP status. */
  datatype CreateResponse =
    | MissingFields
    | Replayed(rec: Record)
    | Created(rec: Record)
    | DuplicateRequest
  {
    function Status(): int {
      match this
      case MissingFields => 400
      case Replayed(_) => 200
      case Created(_) => 201
      case DuplicateRequest => 409
    }
  }

  /** Outcome of a deletion request, with its HTTP status. */
  datatype DeleteResponse = Deleted(id: nat) | NotFound
  {
    function Status(): int {
      match this
      case Deleted(_) => 200
      case NotFound => 404
    }
  }

  /** JavaScript truthiness of a number field: absent and 0 are falsy. */
  predicate AmountTruthy(a: Option<int>) {
    a.Some? && a.value != 0
  }

  /** JavaScript truthiness of a string field: absent and "" are falsy. */
  predicate TextTruthy(s: Option<string>) {
    s.Some? && s.value != ""
  }

  /** The required-field check of a creation request. */
  predicate HasRequiredFields(req: Request) {
    AmountTruthy(req.amount) && TextTruthy(req.category)
    && TextTruthy(req.description) && TextTruthy(req.date)
  }

  /** The document a creation request builds: the given fields, the
      idempotency key exactly as sent, a fresh id and the current time. */
  function NewRecord(id: nat, req: Request, now: nat): Record
    requires HasRequiredFields(req)
  {
    Record(id, req.amount.value, req.category.value, req.description.value,
           req.date.value, now, req.idempotencyKey)
  }

  /** The projection a listing applies to each record. */
  function Show(r: Record): Listed {
    Listed(r.id, r.amount, r.category, r.description, r.date, r.createdAt)
  }
}
