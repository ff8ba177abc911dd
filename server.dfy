/**
 * The routes that touch the quote table: `POST /api/quotes` (public), and
 * `GET /api/admin/quotes` and `DELETE /api/admin/quotes/:id` behind `authMiddleware`.
 * A storage or delivery failure is a parameter: whether that call throws.
 */
module Server {
  import opened Wrappers
  import opened Config
  import opened Quotes
  import opened Store
  import opened Notify
  import opened Http
  import opened Auth

  /** Which of the awaited calls throw during one submission. */
  datatype Faults = Faults(insertThrows: bool, mailerThrows: bool, gatewayThrows: bool)

  /** `sendEmail` throws: it sends (all mail settings are set) and the transport fails. */
  predicate EmailThrows(env: Env, faults: Faults) {
    EmailConfigured(env) && faults.mailerThrows
  }

  /** `sendSms` throws: it sends (all SENS settings are set) and the request fails or is not 2xx. */
  predicate SmsThrows(env: Env, faults: Faults) {
    SmsConfigured(env) && faults.gatewayThrows
  }

  /**
   * The answer to `POST /api/quotes`. 400 names the first missing required field. The
   * insert and both sends share one `try`, so a throw from any of them is 500, even
   * when the row was already stored; only when none throws is the answer `{ ok: true }`.
   */
  function SubmitResponse(env: Env, p: Payload, faults: Faults): (r: Response)
    ensures r == Ok <==> Complete(p) && !faults.insertThrows && !EmailThrows(env, faults) && !SmsThrows(env, faults)
    ensures r.Failure? && r.status == 400 <==> !Complete(p)
    ensures !Complete(p) ==> FirstMissing(p, RequiredFields).Some? &&
                               r == Failure(400, "Missing " + FirstMissing(p, RequiredFields).value)
    ensures r != Ok && Complete(p) ==> r == Failure(500, "Failed to save quote")
  {
    ValidatedIffComplete(p);
    match FirstMissing(p, RequiredFields)
    case Some(field) => Failure(400, "Missing " + field)
    case None =>
      if faults.insertThrows || EmailThrows(env, faults) || SmsThrows(env, faults) then
        Failure(500, "Failed to save quote")
      else Ok
  }

  /** The row is kept exactly when the payload is complete and the insert itself succeeds. */
  predicate Stored(p: Payload, faults: Faults) {
    Complete(p) && !faults.insertThrows
  }

  /**
   * `POST /api/quotes` at local time `createdAt` and clock `now`: validate, insert,
   * then start both sends. `outbox` is what the sends were asked to deliver.
   */
  method Submit(store: QuoteStore, env: Env, p: Payload, createdAt: string, now: nat, faults: Faults)
    returns (r: Response, outbox: seq<Notification>)
    requires store.Valid()
    modifies store
    ensures store.Valid()
    ensures r == SubmitResponse(env, p, faults)
    ensures Stored(p, faults) ==>
              && store.rows == old(store.rows) + [QuoteOf(old(store.nextId), Row(p, createdAt))]
              && store.nextId == old(store.nextId) + 1
              && store.issued == old(store.issued) + {old(store.nextId)}
              && outbox == Dispatched(env, p, createdAt, now)
    ensures !Stored(p, faults) ==>
              && store.rows == old(store.rows) && store.nextId == old(store.nextId)
              && store.issued == old(store.issued) && outbox == []
  {
    ValidatedIffComplete(p);
    var missing := Validate(p);
    if missing.Some? {
      return Failure(400, "Missing " + missing.value), [];
    }
    var values := Row(p, createdAt);
    if faults.insertThrows {
      return Failure(500, "Failed to save quote"), [];
    }
    store.Insert(values);
    outbox := Dispatched(env, p, createdAt, now);
    if EmailThrows(env, faults) || SmsThrows(env, faults) {
      r := Failure(500, "Failed to save quote");
    } else {
      r := Ok;
    }
  }

  /** A delivery failure after the quote is stored (`Stored`) still answers 500. */
  lemma NotificationFailureAnswers500(env: Env, p: Payload, faults: Faults)
    requires Stored(p, faults) && (EmailThrows(env, faults) || SmsThrows(env, faults))
    ensures SubmitResponse(env, p, faults) == Failure(500, "Failed to save quote")
  {
  }

  /** Delivery settings left unset never fail a submission: an unconfigured channel sends nothing. */
  lemma UnconfiguredChannelsCannotFail(env: Env, p: Payload, faults: Faults)
    requires !EmailConfigured(env) && !SmsConfigured(env)
    ensures SubmitResponse(env, p, faults) == Ok <==> Stored(p, faults)
  {
  }

  /** `GET /api/admin/quotes`: 401 without a valid token, 500 on a storage error, else every row newest first. */
  method ListQuotes(store: QuoteStore, env: Env, authorization: Option<string>,
                    verify: (string, string) -> bool, storageThrows: bool)
    returns (r: Response)
    requires store.Valid()
    ensures !Authorized(env, authorization, verify) ==> r == Failure(401, "Unauthorized")
    ensures Authorized(env, authorization, verify) && storageThrows ==> r == Failure(500, "Failed to load quotes")
    ensures Authorized(env, authorization, verify) && !storageThrows ==>
              r.QuoteList? && Descending(r.quotes) && multiset(r.quotes) == multiset(store.rows)
  {
    if !Authorized(env, authorization, verify) {
      return Failure(401, "Unauthorized");
    }
    if storageThrows {
      return Failure(500, "Failed to load quotes");
    }
    var rows := store.List();
    return QuoteList(rows);
  }

  /**
   * `DELETE /api/admin/quotes/:id`: 401 without a valid token; otherwise the row with
   * that id is removed if there is one and the answer is `{ ok: true }` either way,
   * unless the storage call throws (500, nothing removed).
   */
  method DeleteQuote(store: QuoteStore, env: Env, authorization: Option<string>,
                     verify: (string, string) -> bool, id: int, storageThrows: bool)
    returns (r: Response)
    requires store.Valid()
    modifies store
    ensures store.Valid() && store.nextId == old(store.nextId) && store.issued == old(store.issued)
    ensures !Authorized(env, authorization, verify) ==>
              r == Failure(401, "Unauthorized") && store.rows == old(store.rows)
    ensures Authorized(env, authorization, verify) && storageThrows ==>
              r == Failure(500, "Failed to delete") && store.rows == old(store.rows)
    ensures Authorized(env, authorization, verify) && !storageThrows ==>
              r == Ok && store.rows == Without(old(store.rows), id)
  {
    if !Authorized(env, authorization, verify) {
      return Failure(401, "Unauthorized");
    }
    if storageThrows {
      return Failure(500, "Failed to delete");
    }
    store.Delete(id);
    return Ok;
  }
}
