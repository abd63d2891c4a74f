/** The outbox, the attempt index and the finalizer as one mutable database. */
module ActionTables {
  import opened Base
  import opened ActionRecords
  import P = ActionProtocol
  import opened ActionInvariants

  class ActionDatabase {
    var rows: map<nat, Row>
    var attempts: set<Attempt>
    var records: map<string, bool>
    var nextToken: nat

    ghost function Tables(): P.Db
      reads this
    {
      P.Db(rows, attempts, records, nextToken)
    }

    ghost predicate Valid()
      reads this
    {
      Inv(Tables())
    }

    constructor ()
      ensures Valid() && Tables() == P.EMPTY_DB
    {
      rows, attempts, records, nextToken := map[], {}, map[], 0;
    }

    method Enqueue(id: nat, identity: Identity, availableAt: Instant) returns (r: Result<Row, ActionError>)
      requires Valid()
      modifies this
      ensures Valid() && P.Step(Tables(), r) == P.Enqueue(old(Tables()), id, identity, availableAt)
    {
      EnqueueKeepsInv(Tables(), id, identity, availableAt);
      if availableAt < identity.createdAt {
        return Err(ValueError);
      }
      if exists owner | owner in rows :: P.Owns(rows, id, identity, owner) {
        if id in rows && rows[id].identity == identity {
          return Ok(rows[id]);
        }
        return Err(IdempotencyConflict);
      }
      if P.KeyTaken(rows, identity.dispatch.key) {
        return Err(IdempotencyConflict);
      }
      var row := P.FreshRow(id, identity, availableAt);
      rows := rows[id := row];
      r := Ok(row);
    }

    /** The first save of a record that is not an attempt. */
    method SaveRecord(id: string, isOutcome: bool) returns (r: Result<(), ActionError>)
      requires Valid()
      modifies this`records
      ensures Valid() && P.Step(Tables(), r) == P.SaveRecord(old(Tables()), id, isOutcome)
    {
      ApplyKeepsInv(Tables(), P.OpRecord(id, isOutcome));
      if id in records {
        return Err(DuplicateRecord);
      }
      records := records[id := isOutcome];
      r := Ok(());
    }

    /** `delete` without `force`. */
    method DeleteRecord(id: string) returns (r: Result<(), ActionError>)
      requires Valid()
      modifies this`records
      ensures Valid() && P.Step(Tables(), r) == P.DeleteRecord(old(Tables()), id)
    {
      ApplyKeepsInv(Tables(), P.OpDelete(id));
      if id !in records {
        return Err(RecordNotFound);
      }
      if P.Reported(attempts, id) || P.HeldByRow(rows, id) {
        return Err(ReferencedRecord);
      }
      records := records - {id};
      r := Ok(());
    }

    /** `SELECT id ... ORDER BY available_at, created_at, id LIMIT 1`. */
    method SelectNext(now: Instant) returns (next: Option<nat>)
      requires Valid()
      ensures next == P.NextReady(rows, now)
      ensures next.None? <==> forall id :: id in rows ==> !P.Ready(rows[id], now)
    {
      assert forall id :: id in rows ==> RowOk(Tables(), id);
      next := None;
      var unseen := rows.Keys;
      while unseen != {}
        invariant unseen <= rows.Keys
        invariant next.None? ==> forall id :: id in rows && id !in unseen ==> !P.Ready(rows[id], now)
        invariant next.Some? ==>
          && next.value in rows && next.value !in unseen && P.Ready(rows[next.value], now)
          && forall id :: id in rows && id !in unseen && id != next.value && P.Ready(rows[id], now)
               ==> P.Before(rows[next.value], rows[id])
        decreases unseen
      {
        var id :| id in unseen;
        unseen := unseen - {id};
        if P.Ready(rows[id], now) && (next.None? || P.Before(rows[id], rows[next.value])) {
          next := Some(id);
        }
      }
      if next.Some? {
        assert P.IsNext(rows, now, next.value);
      }
    }

    method Claim(worker: string, now: Instant, leaseFor: int) returns (r: Result<Option<Row>, ActionError>)
      requires Valid()
      modifies this
      ensures Valid() && P.Step(Tables(), r) == P.Claim(old(Tables()), worker, now, leaseFor)
    {
      ClaimKeepsInv(Tables(), worker, now, leaseFor);
      if worker == "" || leaseFor <= 0 {
        return Err(ValueError);
      }
      var next := SelectNext(now);
      if next.None? {
        return Ok(None);
      }
      assert RowOk(Tables(), next.value);
      rows := rows[next.value := P.LeasedRow(rows[next.value], worker, nextToken, now, leaseFor)];
      // Reloading the row validates its shape; in a valid database that cannot fail.
      assert ValidState(rows[next.value]);
      nextToken := nextToken + 1;
      r := Ok(Some(rows[next.value]));
    }

    method Start(intent: Row, worker: string, token: nat, startedAt: Instant)
      returns (r: Result<Attempt, ActionError>)
      requires Valid()
      modifies this`attempts
      ensures Valid() && P.Step(Tables(), r) == P.Start(old(Tables()), intent, worker, token, startedAt)
    {
      StartKeepsInv(Tables(), intent, worker, token, startedAt);
      var built := BuildStarted(intent, worker, token, startedAt);
      if built.Err? {
        return Err(built.error);
      }
      if built.value !in attempts {
        var error := P.InsertError(P.Db(rows, attempts, records, nextToken), built.value);
        if error.Some? {
          return Err(error.value);
        }
        attempts := attempts + {built.value};
      }
      r := Ok(built.value);
    }

    /** `complete` and `fail`. */
    method Finalize(call: P.Call) returns (r: Result<P.Finalized, ActionError>)
      requires Valid()
      modifies this`rows, this`attempts
      ensures Valid() && P.Step(Tables(), r) == P.Finalize(old(Tables()), call)
    {
      FinalizeKeepsInv(Tables(), call);
      var built := BuildTerminal(call.started, call.finishedAt, call.verdict, call.responseHash);
      if built.Err? {
        return Err(built.error);
      }
      var terminal := built.value;
      if call.verdict.Failure? && call.verdict.retryAt.Some? && call.verdict.retryAt.value < call.finishedAt {
        return Err(ValueError);
      }
      if terminal.intentId !in rows {
        return Err(MissingReference);
      }
      var row := rows[terminal.intentId];
      if terminal in attempts {
        if !P.AgreesWithCommitted(row, terminal, call) {
          return Err(FinalizationConflict);
        }
        return Ok(P.Finalized(terminal, call.verdict, true));
      }
      if !P.LiveLease(row, call) {
        return Err(FinalizationConflict);
      }
      var error := P.InsertError(P.Db(rows, attempts, records, nextToken), terminal);
      if error.Some? {
        return Err(error.value);
      }
      LastAttemptIsFree(Tables(), terminal);
      attempts := attempts + {terminal};
      // Nor can the unique index on last_attempt_id reject the update.
      assert !P.LastAttemptTaken(rows, terminal.intentId, terminal);
      rows := rows[terminal.intentId := P.Transition(row, terminal, call.verdict, call.finishedAt)];
      r := Ok(P.Finalized(terminal, call.verdict, false));
    }
  }
}
