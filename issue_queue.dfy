/**
 * The `issues` table of src/main.rs and the two queries the worker runs on it.
 *
 * A row is keyed by the issue id and holds `updated_at` (a timestamp in
 * milliseconds) and `reminded`. The webhook inserts rows, first write wins;
 * `dequeue_issue` selects the oldest unreminded row that no other transaction
 * holds; the worker reminds only when the row is older than `time_to_remind`.
 */
module IssueQueue {
  import opened Wrappers

  type IssueId = string

  /** Milliseconds since the epoch. */
  type Timestamp = int

  /** One row of the `issues` table (its key is kept as the map key). */
  datatype Row = Row(updatedAt: Timestamp, reminded: bool)

  type Table = map<IssueId, Row>

  /** The decoded webhook body; only the fields the handler reads. */
  datatype StateData = StateData(name: string)
  datatype IssueData = IssueData(id: IssueId, state: StateData)
  datatype Payload = Payload(action: string, eventType: string, createdAt: Timestamp, data: IssueData)

  /** What `dequeue_issue` hands back besides the open transaction. */
  datatype Claim = Claim(id: IssueId, updatedAt: Timestamp)

  // ------------------------------------------------------------ intake

  /**
   * `INSERT INTO issues(id, updated_at, reminded) VALUES (id, createdAt, false)
   * ON CONFLICT DO NOTHING`: a new id gets an unreminded row stamped with the
   * event time; an id already present keeps its row as it is.
   */
  function InsertIfAbsent(t: Table, id: IssueId, createdAt: Timestamp): (r: Table)
    ensures r.Keys == t.Keys + {id}
    ensures forall k :: k in t ==> r[k] == t[k]
    ensures id !in t ==> r[id] == Row(createdAt, false)
  {
    if id in t then t else t[id := Row(createdAt, false)]
  }

  /** The `issues` table, updated in place by the webhook handler. */
  class IssueTable {
    var rows: Table

    /** The table behind the connection pool, with whatever rows it already holds. */
    constructor (existing: Table)
      ensures rows == existing
    {
      rows := existing;
    }

    /** The `webhook` handler: records the issue of a decoded payload. */
    method Webhook(payload: Payload)
      modifies this
      ensures rows == InsertIfAbsent(old(rows), payload.data.id, payload.createdAt)
    {
      var id := payload.data.id;
      if id !in rows {
        rows := rows[id := Row(payload.createdAt, false)];
      }
    }
  }

  // ------------------------------------------------------------ dequeue

  /** Rows the SELECT may return: unreminded and not locked by another claim. */
  function Candidates(t: Table, claimed: set<IssueId>): (c: set<IssueId>)
    ensures c <= t.Keys && c !! claimed
    ensures forall id :: id in c ==> !t[id].reminded
    ensures forall id :: id in t && !t[id].reminded && id !in claimed ==> id in c
  {
    set id | id in t && !t[id].reminded && id !in claimed
  }

  /** A row of `s` with the smallest `updated_at` (ties: any of them). */
  ghost function OldestIn(t: Table, s: set<IssueId>): (id: IssueId)
    requires s != {} && s <= t.Keys
    ensures id in s
    ensures forall j :: j in s ==> t[id].updatedAt <= t[j].updatedAt
    decreases s
  {
    var x :| x in s;
    if s == {x} then x
    else
      var m := OldestIn(t, s - {x});
      if t[x].updatedAt < t[m].updatedAt then x else m
  }

  /**
   * `dequeue_issue`: `WHERE reminded = false ORDER BY updated_at ASC
   * FOR UPDATE SKIP LOCKED LIMIT 1`. The ids in `claimed` are the rows other
   * transactions hold locked, which the query skips.
   */
  ghost function DequeueIssue(t: Table, claimed: set<IssueId>): (r: Option<Claim>)
    ensures r.None? <==> forall id :: id in t && id !in claimed ==> t[id].reminded
    ensures r.Some? ==> r.value.id in t && r.value.id !in claimed
    ensures r.Some? ==> !t[r.value.id].reminded && r.value.updatedAt == t[r.value.id].updatedAt
    ensures r.Some? ==>
      forall j :: j in t && !t[j].reminded && j !in claimed ==> r.value.updatedAt <= t[j].updatedAt
  {
    var c := Candidates(t, claimed);
    if c == {} then None
    else
      var id := OldestIn(t, c);
      Some(Claim(id, t[id].updatedAt))
  }

  // ------------------------------------------------------------ worker

  /** The worker's test `now.signed_duration_since(updated_at) > time_to_remind`. */
  function IsDue(now: Timestamp, updatedAt: Timestamp, timeToRemind: nat): (due: bool)
    ensures due ==> updatedAt < now
    ensures due <==> updatedAt + timeToRemind + 1 <= now
  {
    now - updatedAt > timeToRemind
  }

  /**
   * One pass of the worker loop: the claimed row for which the "remind!" branch
   * is taken, or None when nothing is dequeued or the oldest row is not due.
   * The row reminded is always the one `dequeue_issue` hands out.
   */
  ghost function RemindTarget(t: Table, claimed: set<IssueId>, now: Timestamp, timeToRemind: nat): (r: Option<Claim>)
    ensures r.Some? ==> IsDue(now, r.value.updatedAt, timeToRemind)
    ensures r.Some? ==> r == DequeueIssue(t, claimed)
    // corollaries of the clause above and the contract of DequeueIssue, spelled out for readers
    ensures r.Some? ==> r.value.id in t && !t[r.value.id].reminded && r.value.id !in claimed
    ensures r.Some? ==> t[r.value.id].updatedAt == r.value.updatedAt
    ensures r.Some? ==> forall j :: j in Candidates(t, claimed) ==> r.value.updatedAt <= t[j].updatedAt
  {
    match DequeueIssue(t, claimed)
    case Some(c) => if IsDue(now, c.updatedAt, timeToRemind) then Some(c) else None
    case None => None
  }

  // ------------------------------------------------------------ lemmas

  /** A conflicting insert leaves the table exactly as it was: the first `updated_at` wins. */
  lemma InsertExistingIsNoOp(t: Table, id: IssueId, createdAt: Timestamp)
    requires id in t
    ensures InsertIfAbsent(t, id, createdAt) == t
  {
  }

  /** An insert of a new id adds exactly one row. */
  lemma InsertNewAddsOneRow(t: Table, id: IssueId, createdAt: Timestamp)
    requires id !in t
    ensures |InsertIfAbsent(t, id, createdAt)| == |t| + 1
  {
  }

  /** A second insert for the same id changes nothing, whatever its timestamp. */
  lemma InsertFirstWriteWins(t: Table, id: IssueId, first: Timestamp, second: Timestamp)
    ensures InsertIfAbsent(InsertIfAbsent(t, id, first), id, second) == InsertIfAbsent(t, id, first)
    ensures InsertIfAbsent(InsertIfAbsent(t, id, first), id, second)[id].updatedAt
         == (if id in t then t[id].updatedAt else first)
  {
  }

  /** Delivering the same webhook payload twice leaves the table as delivering it once. */
  lemma WebhookIdempotent(t: Table, payload: Payload)
    ensures var once := InsertIfAbsent(t, payload.data.id, payload.createdAt);
            InsertIfAbsent(once, payload.data.id, payload.createdAt) == once
  {
  }

  /** Inserting never removes a row the SELECT could return. */
  lemma InsertKeepsCandidates(t: Table, claimed: set<IssueId>, id: IssueId, createdAt: Timestamp)
    ensures Candidates(t, claimed) <= Candidates(InsertIfAbsent(t, id, createdAt), claimed)
    ensures id !in t && id !in claimed ==>
      Candidates(InsertIfAbsent(t, id, createdAt), claimed) == Candidates(t, claimed) + {id}
  {
  }

  /** A row already reminded is never handed out again. */
  lemma RemindedNeverDequeued(t: Table, claimed: set<IssueId>, id: IssueId)
    requires id in t && t[id].reminded
    ensures forall u :: DequeueIssue(t, claimed) != Some(Claim(id, u))
  {
  }

  /** A row claimed by another transaction is skipped. */
  lemma ClaimedNeverDequeued(t: Table, claimed: set<IssueId>, id: IssueId)
    requires id in claimed
    ensures forall u :: DequeueIssue(t, claimed) != Some(Claim(id, u))
  {
  }

  /** A fresh issue inserted into a table with nothing else to hand out is the next one dequeued. */
  lemma InsertThenDequeue(t: Table, claimed: set<IssueId>, id: IssueId, createdAt: Timestamp)
    requires Candidates(t, claimed) == {}
    requires id !in t && id !in claimed
    ensures DequeueIssue(InsertIfAbsent(t, id, createdAt), claimed) == Some(Claim(id, createdAt))
  {
  }

  /** An age exactly equal to the threshold is not due; one millisecond more is. */
  lemma ThresholdIsStrict(updatedAt: Timestamp, timeToRemind: nat)
    ensures !IsDue(updatedAt + timeToRemind, updatedAt, timeToRemind)
    ensures IsDue(updatedAt + timeToRemind + 1, updatedAt, timeToRemind)
  {
  }

  /** Once due, a row stays due as the clock advances, and so does every older row. */
  lemma DueIsMonotonic(now: Timestamp, later: Timestamp, updatedAt: Timestamp, older: Timestamp, timeToRemind: nat)
    requires now <= later && older <= updatedAt
    requires IsDue(now, updatedAt, timeToRemind)
    ensures IsDue(later, updatedAt, timeToRemind)
    ensures IsDue(now, older, timeToRemind)
  {
  }

  /**
   * Because the oldest candidate is dequeued, the worker takes the reminder branch
   * exactly when some unreminded, unclaimed row is due.
   */
  lemma RemindsIffSomeRowDue(t: Table, claimed: set<IssueId>, now: Timestamp, timeToRemind: nat)
    ensures RemindTarget(t, claimed, now, timeToRemind).Some? <==>
      exists id :: id in t && !t[id].reminded && id !in claimed && IsDue(now, t[id].updatedAt, timeToRemind)
  {
  }
}
