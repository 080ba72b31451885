# linear-reminder in Dafny

A model of the two pieces of logic in linear-reminder, a small service that is
meant to remind people about Linear issues that sit too long in one state. As
written, it records, for each issue, the `createdAt` of the first webhook event it
stores (whatever the event and the issue's state), and its worker logs "remind!" when the oldest
unreminded issue is older than the configured threshold; no reminder is sent and
no row is ever marked reminded.

- **The `issues` queue** (`src/main.rs`). The table is a map from issue id to a
  row `(updatedAt, reminded)`, with timestamps in milliseconds. The webhook
  handler inserts a row with `ON CONFLICT DO NOTHING`, so the first write wins.
  It stores the event's `createdAt`, not the wall clock, and `reminded = false`.
  This is the class `IssueQueue.IssueTable`, whose `Webhook` method updates its
  `rows` field. Its specification is the function `InsertIfAbsent`.
  `dequeue_issue` selects the unreminded row with the oldest `updated_at`, skipping
  rows that other transactions hold locked. `DequeueIssue` models it, with the
  locked rows passed in as a set `claimed`. The worker's due test
  `now - updated_at > time_to_remind` is `IsDue`. `RemindTarget` combines the two
  into one pass of the worker loop.
- **The runtime environment** (`src/config.rs`). `Environment` is printed by
  `as_str` (`Config.AsStr`) and parsed case-insensitively by `try_from`
  (`Config.TryFrom`), which has an error path. `get_config` falls back to
  `"local"` when `LR_ENVIRONMENT` is unset (`Config.SelectEnvironment`).

Files: `wrappers.dfy` (Option and Result), `config.dfy`, `issue_queue.dfy`.

## Model

| member | source | states |
|---|---|---|
| `Config.ToLower` | src/config.rs:54 | the lowercase of a string has the same length, is itself lowercase, agrees with the input character by character up to case, and a string already lowercase is its own lowercase |
| `Config.AsStr` | src/config.rs:42-47 | every printed name is non-empty and lowercase |
| `Config.TryFrom` | src/config.rs:53-62 | parsing succeeds exactly when the lowercase input is "local" or "production", and then the variant prints as that lowercase input; otherwise the error is the lowercased input followed by the fixed "is not a supported environment" message |
| `Config.SelectEnvironment` | src/config.rs:69-73 | an unset `LR_ENVIRONMENT` selects `Local`; a set one is parsed with `try_from` |
| `Config.AsStrValues` | src/config.rs:42-47 | `Local` prints as "local" and `Production` as "production" |
| `Config.AsStrInjective` | src/config.rs:42-47 | distinct variants print as distinct strings |
| `Config.ToLowerIdempotent` | src/config.rs:54 | lowercasing twice is lowercasing once |
| `Config.RoundTrip` | src/config.rs:42-62 | parsing the printed name of a variant gives back that variant |
| `Config.CaseInsensitive` | src/config.rs:54-56 | two inputs with the same lowercase parse to the same result |
| `Config.ParsesUpperCase` | src/config.rs:54-56 | "PRODUCTION" parses to `Production` and "Local" to `Local` |
| `Config.RejectsExactlyOthers` | src/config.rs:54-60 | an input is rejected exactly when its lowercase is the name of no variant |
| `Config.ErrorMessageNamesBoth` | src/config.rs:57-60 | a rejection's message contains the lowercased input and names both "`local`" and "`production`" |
| `Config.DefaultIsLocal` | src/config.rs:70-73 | with `LR_ENVIRONMENT` unset the environment is `Local`, whose name is "local" |
| `IssueQueue.InsertIfAbsent` | src/main.rs:189-198 | the insert adds the payload's id to the keys, keeps every existing row exactly as it was, and gives a new id the row `(createdAt, false)` |
| `IssueQueue.IssueTable.constructor` | src/main.rs:210-215 | the table stands for the rows of the pool the runtime hands in after the migration, and starts with exactly those rows |
| `IssueQueue.IssueTable.Webhook` | src/main.rs:179-203 | the handler's new table is `InsertIfAbsent` of the old one, keyed by `payload.data.id` with `payload.created_at` |
| `IssueQueue.Candidates` | src/main.rs:163-166 | the rows the SELECT may return: every row of the table that is unreminded and not locked by another transaction, and only those |
| `IssueQueue.OldestIn` | src/main.rs:164-167 | the chosen row belongs to the set and no row of the set has a smaller `updated_at` |
| `IssueQueue.DequeueIssue` | src/main.rs:157-177 | None exactly when every unlocked row is reminded; otherwise a row of the table that is unreminded and not locked, with its own `updated_at`, and no unreminded unlocked row is older |
| `IssueQueue.IsDue` | src/main.rs:229-232 | a row is due exactly from `updated_at + time_to_remind + 1` on, so a due row's `updated_at` lies strictly in the past |
| `IssueQueue.RemindTarget` | src/main.rs:225-236 | the reminder branch runs only for the row `dequeue_issue` returns (present, unreminded, unlocked, no candidate older), and only when its age is strictly over the threshold |
| `IssueQueue.InsertExistingIsNoOp` | src/main.rs:189-198 | inserting an id already present leaves the table unchanged |
| `IssueQueue.InsertNewAddsOneRow` | src/main.rs:191-196 | inserting a new id adds exactly one row |
| `IssueQueue.InsertFirstWriteWins` | src/main.rs:192 | a second insert for the same id changes nothing; the stored `updated_at` is the first one |
| `IssueQueue.WebhookIdempotent` | src/main.rs:191-198 | delivering the same payload twice gives the same table as delivering it once |
| `IssueQueue.InsertKeepsCandidates` | src/main.rs:191-196 | an insert never removes a row `dequeue_issue` could return, and a new unlocked id becomes one |
| `IssueQueue.RemindedNeverDequeued` | src/main.rs:163 | a reminded row is never returned by `dequeue_issue` |
| `IssueQueue.ClaimedNeverDequeued` | src/main.rs:165-166 | a row locked by another transaction is never returned |
| `IssueQueue.InsertThenDequeue` | src/main.rs:157-198 | a new issue inserted when nothing else is eligible is the next row dequeued, with the event's `createdAt` |
| `IssueQueue.ThresholdIsStrict` | src/main.rs:229-232 | an age equal to `time_to_remind` is not due; one millisecond more is |
| `IssueQueue.DueIsMonotonic` | src/main.rs:229-232 | a due row stays due as time passes, and every older row is due too |
| `IssueQueue.RemindsIffSomeRowDue` | src/main.rs:157-236 | since the oldest row is dequeued, the worker takes the "remind!" branch exactly when some unreminded, unlocked row is due |

## Left out

- Signature verification, deleting rows when an issue leaves the state, posting the reminder and setting `reminded = true`: the source has these only as TODOs and comments (src/main.rs:187, 201, 234-235), so no operation here changes `reminded`.
- Rocket routing and JSON decoding of the payload: `Payload` is the already-decoded record; its `action`, `type` and state name are carried but unused, as in the handler.
- Postgres, sqlx transactions and real row locking: `FOR UPDATE SKIP LOCKED` is modelled sequentially by the `claimed` set. The open transaction returned by `dequeue_issue` is not modelled, and neither are database errors (the worker ignores them; the handler returns them).
- Ties in `ORDER BY updated_at`: SQL may return any of the tied rows, so `DequeueIssue` is a ghost function that picks an unspecified one, and its contract says only what every choice satisfies.
- The worker's `tokio::spawn` loop and 5-second interval, `Utc::now()` (taken as the parameter `now`), and the panic of `TimeDelta::from_std` on a duration beyond its range: `time_to_remind` is an unbounded count of milliseconds.
- Timestamps are whole milliseconds; chrono's nanosecond precision is not modelled.
- `deserialize_duration` in both files: it delegates to the humantime parser, which is not part of this model.
- `get_config`'s file and environment-variable layering and its panic on a bad `LR_ENVIRONMENT`; only the selection and parsing of the environment name is modelled, the panic being the `Err` result of `SelectEnvironment`. An environment variable that is not valid Unicode makes `std::env::var` fail just as an unset one does; both are `None` here.
- `Config.ToLower`: ASCII lowercasing stands in for Rust's Unicode `to_lowercase`, so non-ASCII case mappings (including ones that change length) are not modelled.
- Startup migrations, the Shuttle bootstrap and `tracing` logging.
