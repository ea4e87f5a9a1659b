/** MssqlDatabase.Execute: the batches of a script run in order inside one transaction,
    which commits when all succeed and is rolled back, with the error passed on, at the
    first failure. The database is an abstract state; each statement either moves it to
    a new state or fails. */
module Execution {
  import opened BatchSplitter

  /** What the server does with one statement: a new state, or the exception it raises
      (a syntax error, a constraint violation, a command timeout, ...). */
  datatype StepResult<S> = Applied(next: S) | Failed(error: string)

  /** Running a sequence of batches: every batch applied, or the index of the first one
      that failed and its error. */
  datatype RunResult<S> = Completed(final: S) | Aborted(failedAt: nat, error: string)

  /** What Execute returns to its caller: normal completion, or the rethrown exception. */
  datatype Outcome = Ok | Err(error: string)

  /** The batches applied one after another, stopping at the first failure. */
  function RunInOrder<S>(run: (S, string) -> StepResult<S>, st: S, batches: seq<string>): (r: RunResult<S>)
    ensures r.Aborted? ==> r.failedAt < |batches|
  {
    if batches == [] then Completed(st)
    else match run(st, batches[0])
      case Failed(e) => Aborted(0, e)
      case Applied(next) =>
        match RunInOrder(run, next, batches[1..])
        case Completed(f) => Completed(f)
        case Aborted(i, e) => Aborted(i + 1, e)
  }

  /** Running `first + rest` runs `first`, then, if that completed, `rest` from the state
      it left; the index of a failure in `rest` is shifted past `first`. */
  lemma {:induction false} RunInOrderAppend<S>(run: (S, string) -> StepResult<S>, st: S, first: seq<string>, rest: seq<string>)
    ensures RunInOrder(run, st, first + rest) ==
            match RunInOrder(run, st, first)
            case Aborted(i, e) => Aborted(i, e)
            case Completed(mid) =>
              match RunInOrder(run, mid, rest)
              case Completed(f) => Completed(f)
              case Aborted(i, e) => Aborted(|first| + i, e)
  {
    if first != [] {
      assert (first + rest)[0] == first[0];
      assert (first + rest)[1..] == first[1..] + rest;
      if run(st, first[0]).Applied? {
        RunInOrderAppend(run, run(st, first[0]).next, first[1..], rest);
      }
    } else {
      assert first + rest == rest;
    }
  }

  /** A run that aborts at batch i ran the batches before i to completion, and batch i,
      run from the state they left, raised the very error reported. */
  lemma AbortedAtFirstFailure<S>(run: (S, string) -> StepResult<S>, st: S, batches: seq<string>)
    requires RunInOrder(run, st, batches).Aborted?
    ensures var i := RunInOrder(run, st, batches).failedAt;
            && RunInOrder(run, st, batches[..i]).Completed?
            && run(RunInOrder(run, st, batches[..i]).final, batches[i]) == Failed(RunInOrder(run, st, batches).error)
  {
    var i := RunInOrder(run, st, batches).failedAt;
    assert batches == batches[..i] + batches[i..];
    RunInOrderAppend(run, st, batches[..i], batches[i..]);
  }

  /** A completed run applied every batch: each prefix completes too. */
  lemma CompletedRunsEveryPrefix<S>(run: (S, string) -> StepResult<S>, st: S, batches: seq<string>, k: nat)
    requires RunInOrder(run, st, batches).Completed? && k <= |batches|
    ensures RunInOrder(run, st, batches[..k]).Completed?
  {
    assert batches == batches[..k] + batches[k..];
    RunInOrderAppend(run, st, batches[..k], batches[k..]);
  }

  /** One more successful batch extends a completed prefix run by that batch. */
  lemma RunOneMore<S>(run: (S, string) -> StepResult<S>, st: S, batches: seq<string>, k: nat, mid: S, next: S)
    requires k < |batches|
    requires RunInOrder(run, st, batches[..k]) == Completed(mid)
    requires run(mid, batches[k]) == Applied(next)
    ensures RunInOrder(run, st, batches[..k + 1]) == Completed(next)
  {
    RunInOrderAppend(run, st, batches[..k], [batches[k]]);
    assert batches[..k] + [batches[k]] == batches[..k + 1];
  }

  /** A batch that fails after a completed prefix aborts the whole run there, with its error. */
  lemma RunStopsAt<S>(run: (S, string) -> StepResult<S>, st: S, batches: seq<string>, k: nat, mid: S, e: string)
    requires k < |batches|
    requires RunInOrder(run, st, batches[..k]) == Completed(mid)
    requires run(mid, batches[k]) == Failed(e)
    ensures RunInOrder(run, st, batches) == Aborted(k, e)
  {
    RunInOrderAppend(run, st, batches[..k], batches[k..]);
    assert batches == batches[..k] + batches[k..];
    assert batches[k..][0] == batches[k];
  }

  /** The target database, as the connection and its transaction see it. */
  class Server<S> {
    /** The committed state, what other sessions see. */
    var committed: S
    /** The state inside the open transaction. */
    var working: S
    /** Every statement the server has executed, committed or not, in order. */
    ghost var received: seq<string>
    /** The server's behaviour on one statement. */
    const run: (S, string) -> StepResult<S>

    constructor (initial: S, run: (S, string) -> StepResult<S>)
      ensures committed == initial && working == initial && received == [] && this.run == run
    {
      committed, working := initial, initial;
      received := [];
      this.run := run;
    }

    /** Opening the transaction: it starts from the committed state. */
    method BeginTransaction()
      modifies this`working
      ensures working == committed
    {
      working := committed;
    }

    /** Sending one batch to the server inside the open transaction. The server runs it
        and either moves the transaction's state on or raises an error, which is
        returned here as the exception's message. */
    method ExecuteNonQuery(statement: string) returns (error: Option<string>)
      modifies this`working, this`received
      ensures received == old(received) + [statement]
      ensures match run(old(working), statement)
              case Applied(next) => error == None && working == next
              case Failed(e) => error == Some(e) && working == old(working)
    {
      received := received + [statement];
      match run(working, statement)
      case Applied(next) =>
        working := next;
        error := None;
      case Failed(e) =>
        error := Some(e);
    }

    /** Committing the transaction: its state becomes the committed state. */
    method Commit()
      modifies this`committed
      ensures committed == working
    {
      committed := working;
    }

    /** Rolling the transaction back: its changes are discarded. */
    method Rollback()
      modifies this`working
      ensures working == committed
    {
      working := committed;
    }
  }

  /** The transaction of MssqlDatabase.Execute over a given list of batches: each batch
      is sent in turn; the transaction commits when all succeed, and at the first failure
      it is rolled back and the error passed on, with no later batch sent. */
  method RunBatches<S>(server: Server<S>, scripts: seq<string>) returns (outcome: Outcome)
    modifies server
    ensures server.working == server.committed
    ensures match RunInOrder(server.run, old(server.committed), scripts)
            case Completed(f) =>
              && outcome == Ok
              && server.committed == f
              && server.received == old(server.received) + scripts
            case Aborted(i, e) =>
              && outcome == Err(e)
              && server.committed == old(server.committed)
              && server.received == old(server.received) + scripts[..i + 1]
  {
    server.BeginTransaction();
    var k := 0;
    while k < |scripts|
      invariant k <= |scripts|
      invariant server.committed == old(server.committed)
      invariant server.received == old(server.received) + scripts[..k]
      invariant RunInOrder(server.run, old(server.committed), scripts[..k]) == Completed(server.working)
    {
      var before := server.working;
      var error := server.ExecuteNonQuery(scripts[k]);
      if error.Some? {
        RunStopsAt(server.run, old(server.committed), scripts, k, before, error.value);
        assert scripts[..k] + [scripts[k]] == scripts[..k + 1];
        server.Rollback();
        outcome := Err(error.value);
        return;
      }
      RunOneMore(server.run, old(server.committed), scripts, k, before, server.working);
      assert scripts[..k] + [scripts[k]] == scripts[..k + 1];
      k := k + 1;
    }
    assert scripts[..k] == scripts;
    server.Commit();
    outcome := Ok;
  }

  /** Executing a migration script: it is split into batches, which run in one
      transaction. On success every batch was applied, in order, and the
      result committed; on failure the committed state is what it was, no batch after the
      failing one reached the server, and the failing batch's error is passed on. */
  method Execute<S>(server: Server<S>, batch: string) returns (outcome: Outcome)
    modifies server
    ensures server.working == server.committed
    ensures match RunInOrder(server.run, old(server.committed), Batches(batch))
            case Completed(f) =>
              && outcome == Ok
              && server.committed == f
              && server.received == old(server.received) + Batches(batch)
            case Aborted(i, e) =>
              && outcome == Err(e)
              && server.committed == old(server.committed)
              && server.received == old(server.received) + Batches(batch)[..i + 1]
  {
    outcome := RunBatches(server, Batches(batch));
  }
}
