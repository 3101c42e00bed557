/**
  The sample `ExceptionLoggingBehavior`
  (Dispatch.Sample.Api/Toolbox/V1/Pipeline/ExceptionLoggingBehavior.cs):
  calls its continuation, logs a fault when error logging is enabled, and
  passes the continuation's result or fault on unchanged.
 */
module ExceptionLogging {
  import opened DispatchTypes
  import opened Pipeline
  import opened Dispatcher

  /** One error-level log line: the request type's name and the fault. */
  datatype LogEntry = LogEntry(requestName: string, ex: Exception)

  /** The behaviour's outcome together with what it logged. */
  datatype LoggedOutcome<R> = LoggedOutcome(outcome: Outcome<R>, log: seq<LogEntry>)

  /**
    `Handle`, given the outcome of its continuation `next`: the outcome is
    passed on unchanged, and exactly a fault with error logging enabled
    leaves one log line naming the request and that fault.
   */
  function Handle<R>(errorEnabled: bool, requestName: string, next: Outcome<R>): (r: LoggedOutcome<R>)
    ensures r.outcome == next
    ensures |r.log| <= 1
    ensures r.log != [] <==> next.Fault? && errorEnabled
    ensures next.Fault? ==> forall i | 0 <= i < |r.log| :: r.log[i] == LogEntry(requestName, next.error)
  {
    match next
    case Ok(_) => LoggedOutcome(next, [])
    case Fault(ex) =>
      if errorEnabled then LoggedOutcome(next, [LogEntry(requestName, ex)])
      else LoggedOutcome(next, [])
  }

  /** A behaviour that always calls its continuation and completes with exactly its outcome. */
  ghost predicate Transparent<R(!new)>(b: Behavior<R>)
  {
    && (forall req: Request :: b.before(req).None?)
    && (forall req: Request, o: Outcome<R> :: b.after(req, o) == o)
  }

  /**
    The behaviour as it sits in a pipeline. Its log lines go to the logger,
    not into the dispatch, so only its outcome is kept.
   */
  function AsBehavior<R(!new)>(id: nat, errorEnabled: bool, requestName: string): (b: Behavior<R>)
    ensures b.id == id
    ensures Transparent(b)
  {
    Behavior(id,
      (req: Request) => None,
      (req: Request, o: Outcome<R>) => Handle(errorEnabled, requestName, o).outcome)
  }

  /**
    Wrapped around any chain, the behaviour runs that chain exactly once,
    between its own entry and exit, and completes with the chain's outcome.
   */
  lemma CallsNextOnce<R(!new)>(id: nat, errorEnabled: bool, requestName: string, req: Request, inner: Chain<R>, h: Handler<R>)
    ensures var b: Behavior<R> := AsBehavior(id, errorEnabled, requestName);
      var run := RunChain(req, inner, h);
      RunChain(req, Wrap(b, inner), h) == Run(run.outcome, [Enter(id)] + run.trace + [Exit(id)])
  {
    var b: Behavior<R> := AsBehavior(id, errorEnabled, requestName);
    assert b.before(req).None?;
    assert b.after(req, RunChain(req, inner, h).outcome) == RunChain(req, inner, h).outcome;
  }

  /**
    Inserting a transparent behaviour at any position of a behaviour list
    leaves the chain's outcome unchanged.
   */
  lemma {:induction false} InsertTransparentKeepsOutcome<R(!new)>(
    behaviors: seq<Behavior<R>>, k: nat, t: Behavior<R>, req: Request, h: Handler<R>)
    requires k <= |behaviors|
    requires Transparent(t)
    ensures RunChain(req, Compose(behaviors[..k] + [t] + behaviors[k..]), h).outcome
         == RunChain(req, Compose(behaviors), h).outcome
  {
    var extended := behaviors[..k] + [t] + behaviors[k..];
    if k == 0 {
      assert extended == [t] + behaviors;
      assert extended[1..] == behaviors;
      assert t.before(req).None?;
      assert t.after(req, RunChain(req, Compose(behaviors), h).outcome) == RunChain(req, Compose(behaviors), h).outcome;
    } else {
      var tail := behaviors[1..];
      InsertTransparentKeepsOutcome(tail, k - 1, t, req, h);
      assert extended[0] == behaviors[0];
      assert extended[1..] == tail[..k - 1] + [t] + tail[k - 1..];
    }
  }

  /** Recovery reads only the exception actions and handlers of a registry. */
  lemma RecoveryIgnoresBehaviors<R>(reg: Registry<R>, other: Registry<R>, req: Request, ex: Exception)
    requires reg.actions == other.actions && reg.exceptionHandlers == other.exceptionHandlers
    ensures RecoverFromFault(reg, req, ex) == RecoverFromFault(other, req, ex)
  {
    assert GetExceptionActions(reg, req) == GetExceptionActions(other, req);
    assert GetExceptionHandlers(reg, req) == GetExceptionHandlers(other, req);
    assert ProcessExceptionActions(reg, req, ex) == ProcessExceptionActions(other, req, ex);
    assert TryHandleException(reg, req, ex) == TryHandleException(other, req, ex);
  }

  /**
    Inserting the exception logging behaviour at any position of a
    registry's behaviours leaves the outcome of `Send` unchanged, whether it
    is a result, a recovered result, or a fault.
   */
  lemma InsertionKeepsDispatchOutcome<R(!new)>(
    reg: Registry<R>, k: nat, id: nat, errorEnabled: bool, requestName: string, req: Request)
    requires k <= |reg.behaviors|
    ensures var logging: Behavior<R> := AsBehavior(id, errorEnabled, requestName);
      var extended := reg.(behaviors := reg.behaviors[..k] + [logging] + reg.behaviors[k..]);
      Send(extended, req).outcome == Send(reg, req).outcome
  {
    var logging: Behavior<R> := AsBehavior(id, errorEnabled, requestName);
    var extended := reg.(behaviors := reg.behaviors[..k] + [logging] + reg.behaviors[k..]);
    if reg.handler.Some? {
      var h := reg.handler.value;
      InsertTransparentKeepsOutcome(reg.behaviors, k, logging, req, h);
      var before := RunChain(req, Compose(reg.behaviors), h);
      var after := RunChain(req, Compose(extended.behaviors), h);
      assert after.outcome == before.outcome;
      if before.outcome.Fault? {
        RecoveryIgnoresBehaviors(extended, reg, req, before.outcome.error);
      }
    }
  }
}
