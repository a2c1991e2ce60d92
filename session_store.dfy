/**
 * The `checkout_sessions` table of the tutoring site: one row per checkout
 * session id issued by the payment provider, holding the customer's e-mail,
 * the provider's payment status, the time the one-time scheduling grant was
 * claimed, and the time of the last write.
 *
 * Each SQL statement runs atomically, so each operation is one step on the
 * table, a map from session id to row. `CURRENT_TIMESTAMP` is the clock
 * value `now` handed to each operation.
 */
module SessionStore {
  import opened Options

  type SessionId = string

  /** A `CURRENT_TIMESTAMP` value ('YYYY-MM-DD HH:MM:SS'); it is never empty. */
  type Timestamp = s: string | |s| > 0 witness "0"

  /** One row. `scheduleClaimedAt` is a TEXT column: NULL, or whatever text
      was stored in it. */
  datatype SessionRecord = SessionRecord(
    customerEmail: Option<string>,
    paymentStatus: Option<string>,
    scheduleClaimedAt: Option<string>,
    updatedAt: Timestamp)

  /** The row `get_checkout_session` returns: the claim column is not selected. */
  datatype SessionView = SessionView(
    sessionId: SessionId,
    customerEmail: Option<string>,
    paymentStatus: Option<string>,
    updatedAt: Timestamp)

  /** The table; `session_id` is its primary key. */
  type Table = map<SessionId, SessionRecord>

  /** The claim guard's negation: `schedule_claimed_at IS NULL OR schedule_claimed_at = ''`
      is false. */
  predicate IsClaimed(r: SessionRecord)
  {
    r.scheduleClaimedAt.Some? && r.scheduleClaimedAt.value != ""
  }

  predicate Claimed(t: Table, id: SessionId)
  {
    id in t && IsClaimed(t[id])
  }

  /** `INSERT ... ON CONFLICT(session_id) DO UPDATE SET customer_email, payment_status,
      updated_at`: a new row has no claim and `updated_at` from the column default. */
  function UpsertRow(t: Table, id: SessionId, email: Option<string>, status: Option<string>,
                     now: Timestamp): (t': Table)
    ensures t'.Keys == t.Keys + {id}
    ensures id !in t ==> |t'| == |t| + 1
    ensures id in t ==> |t'| == |t|
    ensures t'[id].customerEmail == email && t'[id].paymentStatus == status
    ensures t'[id].updatedAt == now
    ensures id !in t ==> t'[id].scheduleClaimedAt == None
    ensures id in t ==> t'[id].scheduleClaimedAt == t[id].scheduleClaimedAt
    ensures forall k :: k in t && k != id ==> t'[k] == t[k]
  {
    var claimedAt := if id in t then t[id].scheduleClaimedAt else None;
    var t' := t[id := SessionRecord(email, status, claimedAt, now)];
    assert id !in t ==> t'.Keys == t.Keys + {id} && id !in t.Keys;
    t'
  }

  /** `SELECT session_id, customer_email, payment_status, updated_at ... WHERE session_id = ?`. */
  function View(t: Table, id: SessionId): (r: Option<SessionView>)
    ensures r.None? <==> id !in t
    ensures r.Some? ==> r.value == SessionView(id, t[id].customerEmail, t[id].paymentStatus,
                                               t[id].updatedAt)
  {
    if id in t then
      var row := t[id];
      Some(SessionView(id, row.customerEmail, row.paymentStatus, row.updatedAt))
    else None
  }

  /** `UPDATE ... SET schedule_claimed_at = CURRENT_TIMESTAMP, updated_at = CURRENT_TIMESTAMP
      WHERE session_id = ? AND (schedule_claimed_at IS NULL OR schedule_claimed_at = '')`,
      with `rowcount == 1` as the answer. */
  function ClaimRow(t: Table, id: SessionId, now: Timestamp): (r: (Table, bool))
    ensures r.1 <==> id in t && !IsClaimed(t[id])
    ensures r.0.Keys == t.Keys
    ensures r.1 ==> r.0[id] == t[id].(scheduleClaimedAt := Some(now), updatedAt := now)
    ensures !r.1 ==> r.0 == t
    ensures forall k :: k in t && k != id ==> r.0[k] == t[k]
    ensures id in t ==> IsClaimed(r.0[id])
  {
    if id in t && !IsClaimed(t[id]) then
      (t[id := t[id].(scheduleClaimedAt := Some(now), updatedAt := now)], true)
    else (t, false)
  }

  /** The store: the table, changed only through `Upsert` and `Claim`. */
  class CheckoutStore {
    var sessions: Table

    /** A freshly created `checkout_sessions` table. */
    constructor ()
      ensures sessions == map[]
    {
      sessions := map[];
    }

    /** `upsert_checkout_session`. */
    method Upsert(sessionId: SessionId, customerEmail: Option<string>,
                  paymentStatus: Option<string>, now: Timestamp)
      modifies this
      ensures sessions == UpsertRow(old(sessions), sessionId, customerEmail, paymentStatus, now)
    {
      sessions := UpsertRow(sessions, sessionId, customerEmail, paymentStatus, now);
    }

    /** `get_checkout_session`. */
    method Get(sessionId: SessionId) returns (row: Option<SessionView>)
      ensures row == View(sessions, sessionId)
    {
      row := View(sessions, sessionId);
    }

    /** `claim_schedule_access`: one conditional write; true when it changed a row. */
    method Claim(sessionId: SessionId, now: Timestamp) returns (claimed: bool)
      modifies this
      ensures (sessions, claimed) == ClaimRow(old(sessions), sessionId, now)
    {
      claimed := sessionId in sessions && !IsClaimed(sessions[sessionId]);
      if claimed {
        sessions := sessions[sessionId := sessions[sessionId].(scheduleClaimedAt := Some(now),
                                                                 updatedAt := now)];
      }
    }
  }

  // ---------------------------------------------------------------------------
  // Properties of single operations
  // ---------------------------------------------------------------------------

  /** Repeating an upsert with the same arguments leaves the same row, and still
      one row per id. */
  lemma UpsertIdempotent(t: Table, id: SessionId, email: Option<string>, status: Option<string>,
                         now1: Timestamp, now2: Timestamp)
    ensures UpsertRow(UpsertRow(t, id, email, status, now1), id, email, status, now2)
         == UpsertRow(t, id, email, status, now2)
  {
  }

  /** Two upserts in a row: the second one's e-mail and status win, and the
      claim column is whatever it was before both. */
  lemma UpsertLastWriteWins(t: Table, id: SessionId, e1: Option<string>, s1: Option<string>,
                            e2: Option<string>, s2: Option<string>, now1: Timestamp, now2: Timestamp)
    ensures var t' := UpsertRow(UpsertRow(t, id, e1, s1, now1), id, e2, s2, now2);
      t' == UpsertRow(t, id, e2, s2, now2)
  {
  }

  /** A second claim on the same id fails and changes nothing. */
  lemma SecondClaimFails(t: Table, id: SessionId, now1: Timestamp, now2: Timestamp)
    ensures var t1 := ClaimRow(t, id, now1).0;
      ClaimRow(t1, id, now2) == (t1, false)
  {
  }

  /** Upserting after a claim does not clear or change the claim. */
  lemma UpsertAfterClaimKeepsClaim(t: Table, id: SessionId, now1: Timestamp,
                                   email: Option<string>, status: Option<string>, now2: Timestamp)
    requires id in t
    ensures var t1 := ClaimRow(t, id, now1).0;
      var t2 := UpsertRow(t1, id, email, status, now2);
      Claimed(t2, id) && t2[id].scheduleClaimedAt == t1[id].scheduleClaimedAt
  {
  }

  /** Reading a row back after an upsert gives what was written. */
  lemma ViewAfterUpsert(t: Table, id: SessionId, email: Option<string>, status: Option<string>,
                        now: Timestamp, other: SessionId)
    ensures View(UpsertRow(t, id, email, status, now), id) == Some(SessionView(id, email, status, now))
    ensures other != id ==> View(UpsertRow(t, id, email, status, now), other) == View(t, other)
  {
  }

  /** A successful claim shows in a read only as a new `updated_at`; a failed
      one, and any claim on another id, leaves every read as it was. */
  lemma ViewAfterClaim(t: Table, id: SessionId, now: Timestamp, other: SessionId)
    ensures var (t', ok) := ClaimRow(t, id, now);
      && (ok ==> View(t', id) == Some(View(t, id).value.(updatedAt := now)))
      && (!ok ==> View(t', id) == View(t, id))
      && (other != id ==> View(t', other) == View(t, other))
  {
  }

  // ---------------------------------------------------------------------------
  // Every interleaving of statements, one atomic step at a time
  // ---------------------------------------------------------------------------

  /** One statement against the table, as issued by any request. */
  datatype Op =
    | UpsertOp(id: SessionId, email: Option<string>, status: Option<string>, now: Timestamp)
    | ClaimOp(id: SessionId, now: Timestamp)

  /** The table after `op`, and what the statement answered (true for an upsert). */
  function Step(t: Table, op: Op): (Table, bool)
  {
    match op
    case UpsertOp(id, e, s, now) => (UpsertRow(t, id, e, s, now), true)
    case ClaimOp(id, now) => ClaimRow(t, id, now)
  }

  /** The table after running `ops` in order. */
  function Run(t: Table, ops: seq<Op>): Table
    decreases |ops|
  {
    if ops == [] then t else Run(Step(t, ops[0]).0, ops[1..])
  }

  /** How many of the claims on `id` in `ops` answer true. */
  function Wins(t: Table, ops: seq<Op>, id: SessionId): nat
    decreases |ops|
  {
    if ops == [] then 0
    else
      var (t', ok) := Step(t, ops[0]);
      (if ops[0].ClaimOp? && ops[0].id == id && ok then 1 else 0) + Wins(t', ops[1..], id)
  }

  /** `ops` holds a claim on `id`. */
  predicate ClaimsOn(ops: seq<Op>, id: SessionId)
  {
    exists i :: 0 <= i < |ops| && ops[i].ClaimOp? && ops[i].id == id
  }

  /** No statement deletes a row or clears or rewrites a claim. */
  lemma {:induction false} RunKeepsRowsAndClaims(t: Table, ops: seq<Op>, id: SessionId)
    ensures t.Keys <= Run(t, ops).Keys
    ensures Claimed(t, id) ==> Claimed(Run(t, ops), id)
    ensures Claimed(t, id) ==> Run(t, ops)[id].scheduleClaimedAt == t[id].scheduleClaimedAt
    decreases |ops|
  {
    if ops != [] {
      RunKeepsRowsAndClaims(Step(t, ops[0]).0, ops[1..], id);
    }
  }

  /** Whatever the interleaving, at most one claim on an id succeeds, and none
      once it has been claimed. */
  lemma {:induction false} AtMostOneClaimWins(t: Table, ops: seq<Op>, id: SessionId)
    ensures Wins(t, ops, id) <= if Claimed(t, id) then 0 else 1
    decreases |ops|
  {
    if ops != [] {
      var (t', ok) := Step(t, ops[0]);
      AtMostOneClaimWins(t', ops[1..], id);
      assert Claimed(t, id) ==> Claimed(t', id);
    }
  }

  /** A statement that is not a claim on `id` keeps the row `id` in the table
      and keeps whether it is claimed. */
  lemma OtherStepKeepsClaimState(t: Table, op: Op, id: SessionId)
    requires id in t && !(op.ClaimOp? && op.id == id)
    ensures id in Step(t, op).0 && Claimed(Step(t, op).0, id) == Claimed(t, id)
  {
  }

  lemma ClaimsOnTail(ops: seq<Op>, id: SessionId)
    requires ops != [] && !(ops[0].ClaimOp? && ops[0].id == id)
    ensures ClaimsOn(ops, id) <==> ClaimsOn(ops[1..], id)
  {
    if ClaimsOn(ops, id) {
      var i :| 0 <= i < |ops| && ops[i].ClaimOp? && ops[i].id == id;
      assert ops[1..][i - 1] == ops[i];
    }
    if ClaimsOn(ops[1..], id) {
      var i :| 0 <= i < |ops[1..]| && ops[1..][i].ClaimOp? && ops[1..][i].id == id;
      assert ops[i + 1] == ops[1..][i];
    }
  }

  /** Once the row exists, the claims on it have exactly one winner if the grant
      was unclaimed, and none if it was claimed already. */
  lemma {:induction false} ExactlyOneClaimWins(t: Table, ops: seq<Op>, id: SessionId)
    requires id in t
    ensures Wins(t, ops, id) == if !Claimed(t, id) && ClaimsOn(ops, id) then 1 else 0
    decreases |ops|
  {
    if ops != [] {
      var t' := Step(t, ops[0]).0;
      if ops[0].ClaimOp? && ops[0].id == id {
        assert ClaimsOn(ops, id);
        assert id in t' && Claimed(t', id);
        ExactlyOneClaimWins(t', ops[1..], id);
      } else {
        OtherStepKeepsClaimState(t, ops[0], id);
        ClaimsOnTail(ops, id);
        ExactlyOneClaimWins(t', ops[1..], id);
      }
    }
  }

  /** Browser and webhook paths both upsert the same id: one row results and
      the later write's e-mail and status are what it holds. */
  lemma BrowserAndWebhookConverge(t: Table, id: SessionId,
                                  e1: Option<string>, s1: Option<string>, now1: Timestamp,
                                  e2: Option<string>, s2: Option<string>, now2: Timestamp)
    requires id !in t
    ensures var t' := Run(t, [UpsertOp(id, e1, s1, now1), UpsertOp(id, e2, s2, now2)]);
      |t'| == |t| + 1 && id in t' && t'[id].customerEmail == e2 && t'[id].paymentStatus == s2
      && t'[id].scheduleClaimedAt == None
  {
    var ops := [UpsertOp(id, e1, s1, now1), UpsertOp(id, e2, s2, now2)];
    var t1 := UpsertRow(t, id, e1, s1, now1);
    assert Run(t, ops) == Run(t1, ops[1..]);
    assert Run(t1, ops[1..]) == Run(UpsertRow(t1, id, e2, s2, now2), []);
  }
}
