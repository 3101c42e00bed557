/**
  The dispatcher façade (Dispatch/Dispatcher.cs): routing of commands,
  queries and notifications, and the fault recovery that follows a faulted
  pipeline — every exception action in priority order, then at most one
  exception handler.

  The service container is replaced by a `Registry` holding, for one
  (request type, result type) pair, the components registered in each
  category, in registration order.
 */
module Dispatcher {
  import opened DispatchTypes
  import opened Priority
  import opened Pipeline

  /** An exception action: observes a fault; `Some(e)` means the action itself raised `e`. */
  datatype ExceptionAction = ExceptionAction(
    id: nat,
    origin: Origin,
    execute: (Request, Exception) -> Option<Exception>)

  /** An exception handler: turns a fault into a substitute outcome. */
  datatype ExceptionHandler<R> = ExceptionHandler(
    id: nat,
    origin: Origin,
    handle: (Request, Exception) -> Outcome<R>)

  /** A notification handler; `Some(e)` means it raised `e`. */
  datatype NotificationHandler = NotificationHandler(id: nat, handle: Request -> Option<Exception>)

  /**
    What the service container holds for one (request type, result type)
    pair: the handler if one is registered, then the behaviours, exception
    actions and exception handlers, each in registration order.
   */
  datatype Registry<!R> = Registry(
    handler: Option<Handler<R>>,
    behaviors: seq<Behavior<R>>,
    actions: seq<ExceptionAction>,
    exceptionHandlers: seq<ExceptionHandler<R>>)

  // ---------------------------------------------------------------------
  // Sequential invocation that stops at the first fault
  // ---------------------------------------------------------------------

  /** Whether a run of sequential steps raised, and the calls it made. */
  datatype Steps = Steps(fault: Option<Exception>, trace: seq<Event>)

  /** Item `k` is the first of `items` whose step raises. */
  ghost predicate FaultsFirstAt<T>(items: seq<T>, step: T -> Option<Exception>, k: int)
  {
    && 0 <= k < |items|
    && step(items[k]).Some?
    && (forall i | 0 <= i < k :: step(items[i]).None?)
  }

  /**
    Invokes the items one at a time, each after the previous one completes;
    the first fault escapes at once and the remaining items are not invoked.
   */
  function RunInOrder<T>(items: seq<T>, step: T -> Option<Exception>, log: T -> Event): (r: Steps)
    ensures r.fault.None? <==> forall i | 0 <= i < |items| :: step(items[i]).None?
    ensures r.fault.None? ==> r.trace == Logged(items, log)
    ensures r.fault.Some? ==> exists k ::
      && FaultsFirstAt(items, step, k)
      && r.fault == step(items[k])
      && r.trace == Logged(items[..k + 1], log)
  {
    if |items| == 0 then Steps(None, [])
    else match step(items[0])
      case Some(e) =>
        assert items[..1] == [items[0]];
        assert FaultsFirstAt(items, step, 0);
        Steps(Some(e), [log(items[0])])
      case None =>
        var rest := RunInOrder(items[1..], step, log);
        RunInOrderCons(items, step, log, rest);
        Steps(rest.fault, [log(items[0])] + rest.trace)
  }

  lemma RunInOrderCons<T>(items: seq<T>, step: T -> Option<Exception>, log: T -> Event, rest: Steps)
    requires |items| > 0 && step(items[0]).None?
    requires rest.fault.Some? ==> exists k ::
      && FaultsFirstAt(items[1..], step, k)
      && rest.fault == step(items[1..][k])
      && rest.trace == Logged(items[1..][..k + 1], log)
    ensures rest.fault.Some? ==> exists k ::
      && FaultsFirstAt(items, step, k)
      && rest.fault == step(items[k])
      && [log(items[0])] + rest.trace == Logged(items[..k + 1], log)
  {
    if rest.fault.Some? {
      var k :| && FaultsFirstAt(items[1..], step, k)
               && rest.fault == step(items[1..][k])
               && rest.trace == Logged(items[1..][..k + 1], log);
      assert FaultsFirstAt(items, step, k + 1);
      assert [log(items[0])] + rest.trace == Logged(items[..k + 2], log);
    }
  }

  // ---------------------------------------------------------------------
  // Fault recovery
  // ---------------------------------------------------------------------

  function ActionOrigin(a: ExceptionAction): Origin { a.origin }

  function HandlerOrigin<R>(h: ExceptionHandler<R>): Origin { h.origin }

  /** `GetExceptionActions`: every registered exception action, by descending priority. */
  function GetExceptionActions<R>(reg: Registry<R>, req: Request): (r: seq<ExceptionAction>)
    ensures multiset(r) == multiset(reg.actions)
    ensures forall i, j | 0 <= i < j < |r| ::
      ScoreFor(req.origin, r[i].origin) >= ScoreFor(req.origin, r[j].origin)
  {
    SortByPriority(req.origin, reg.actions, ActionOrigin)
  }

  /** `GetExceptionHandlers`: every registered exception handler, by descending priority. */
  function GetExceptionHandlers<R>(reg: Registry<R>, req: Request): (r: seq<ExceptionHandler<R>>)
    ensures multiset(r) == multiset(reg.exceptionHandlers)
    ensures forall i, j | 0 <= i < j < |r| ::
      ScoreFor(req.origin, r[i].origin) >= ScoreFor(req.origin, r[j].origin)
    ensures |r| > 0 ==> exists j ::
      TopPriority(req.origin, reg.exceptionHandlers, HandlerOrigin, j) && r[0] == reg.exceptionHandlers[j]
  {
    SortByPriority(req.origin, reg.exceptionHandlers, HandlerOrigin)
  }

  /** The step an exception action takes for fault `ex` of request `req`. */
  function ActionStep(req: Request, ex: Exception): ExceptionAction -> Option<Exception>
  {
    (a: ExceptionAction) => a.execute(req, ex)
  }

  /** The trace entry of an exception action observing `ex`. */
  function ActionLog(ex: Exception): ExceptionAction -> Event
  {
    (a: ExceptionAction) => Acted(a.id, ex)
  }

  /** Every registered exception action completes when given `req` and `ex`. */
  ghost predicate ActionsComplete<R>(reg: Registry<R>, req: Request, ex: Exception)
  {
    forall i | 0 <= i < |reg.actions| :: reg.actions[i].execute(req, ex).None?
  }

  /**
    `ProcessExceptionActions`: runs every exception action in priority order,
    each given the original request and fault, stopping at the first action
    that itself raises.
   */
  function ProcessExceptionActions<R>(reg: Registry<R>, req: Request, ex: Exception): (r: Steps)
    ensures r.fault.None? <==> ActionsComplete(reg, req, ex)
    ensures r.fault.None? ==> r.trace == Logged(GetExceptionActions(reg, req), ActionLog(ex))
    ensures r.fault.Some? ==> exists k ::
      && FaultsFirstAt(GetExceptionActions(reg, req), ActionStep(req, ex), k)
      && r.fault == GetExceptionActions(reg, req)[k].execute(req, ex)
      && r.trace == Logged(GetExceptionActions(reg, req)[..k + 1], ActionLog(ex))
  {
    var acts := GetExceptionActions(reg, req);
    CompletionIgnoresOrder(reg, acts, req, ex);
    RunInOrder(acts, ActionStep(req, ex), ActionLog(ex))
  }

  /** Whether all actions complete does not depend on the order they are run in. */
  lemma CompletionIgnoresOrder<R>(reg: Registry<R>, acts: seq<ExceptionAction>, req: Request, ex: Exception)
    requires multiset(acts) == multiset(reg.actions)
    ensures (forall i | 0 <= i < |acts| :: acts[i].execute(req, ex).None?) <==> ActionsComplete(reg, req, ex)
  {
    forall i | 0 <= i < |acts| && ActionsComplete(reg, req, ex) ensures acts[i].execute(req, ex).None? {
      assert acts[i] in multiset(reg.actions);
      var p :| 0 <= p < |reg.actions| && reg.actions[p] == acts[i];
    }
    if forall i | 0 <= i < |acts| :: acts[i].execute(req, ex).None? {
      forall i | 0 <= i < |reg.actions| ensures reg.actions[i].execute(req, ex).None? {
        assert reg.actions[i] in multiset(acts);
        var p :| 0 <= p < |acts| && acts[p] == reg.actions[i];
      }
    }
  }

  /**
    `TryHandleException`: invokes only the first exception handler in
    priority order — the earliest registered among the highest scoring —
    with the original request and fault; with none registered, reports failure.
   */
  function TryHandleException<R>(reg: Registry<R>, req: Request, ex: Exception): (r: Option<Run<R>>)
    ensures r.None? <==> |reg.exceptionHandlers| == 0
    ensures r.Some? ==> exists j ::
      && TopPriority(req.origin, reg.exceptionHandlers, HandlerOrigin, j)
      && r.value == Run(reg.exceptionHandlers[j].handle(req, ex), [Recovered(reg.exceptionHandlers[j].id, ex)])
  {
    var handlers := GetExceptionHandlers(reg, req);
    if |handlers| == 0 then None
    else Some(Run(handlers[0].handle(req, ex), [Recovered(handlers[0].id, ex)]))
  }

  /**
    The catch block of `ExecutePipeline` for fault `ex`: every exception
    action observes `ex` in priority order; if none of them raises, the
    top-priority exception handler alone is given `ex` and its outcome
    replaces the fault, and with no exception handler `ex` is raised again.
    A fault raised by an action escapes at once and skips all recovery.
   */
  function RecoverFromFault<R>(reg: Registry<R>, req: Request, ex: Exception): (r: Run<R>)
    ensures Recoveries(r.trace) <= 1
    ensures ActionsComplete(reg, req, ex) && |reg.exceptionHandlers| == 0
      ==> r == Run(Fault(ex), Logged(GetExceptionActions(reg, req), ActionLog(ex)))
    ensures ActionsComplete(reg, req, ex) && |reg.exceptionHandlers| > 0
      ==> exists j ::
        && TopPriority(req.origin, reg.exceptionHandlers, HandlerOrigin, j)
        && r == Run(reg.exceptionHandlers[j].handle(req, ex),
                    Logged(GetExceptionActions(reg, req), ActionLog(ex))
                    + [Recovered(reg.exceptionHandlers[j].id, ex)])
    ensures !ActionsComplete(reg, req, ex) ==> Recoveries(r.trace) == 0
    ensures forall k | FaultsFirstAt(GetExceptionActions(reg, req), ActionStep(req, ex), k) ::
      r == Run(Fault(GetExceptionActions(reg, req)[k].execute(req, ex).value),
               Logged(GetExceptionActions(reg, req)[..k + 1], ActionLog(ex)))
  {
    var acts := ProcessExceptionActions(reg, req, ex);
    ActionTraceHasNoRecovery(reg, req, ex);
    ActionFaultPosition(reg, req, ex);
    if acts.fault.Some? then
      Run(Fault(acts.fault.value), acts.trace)
    else
      match TryHandleException(reg, req, ex)
      case Some(recovered) =>
        RecoveriesAppend(acts.trace, recovered.trace);
        assert recovered.trace[1..] == [];
        Run(recovered.outcome, acts.trace + recovered.trace)
      case None => Run(Fault(ex), acts.trace)
  }

  /** The trace of the exception actions holds no exception handler invocation. */
  lemma ActionTraceHasNoRecovery<R>(reg: Registry<R>, req: Request, ex: Exception)
    ensures Recoveries(ProcessExceptionActions(reg, req, ex).trace) == 0
  {
    var t := ProcessExceptionActions(reg, req, ex).trace;
    var acts := GetExceptionActions(reg, req);
    if ProcessExceptionActions(reg, req, ex).fault.Some? {
      var k :| && FaultsFirstAt(acts, ActionStep(req, ex), k)
               && t == Logged(acts[..k + 1], ActionLog(ex));
      ActionLogHasNoRecovery(acts[..k + 1], ex);
    } else {
      ActionLogHasNoRecovery(acts, ex);
    }
  }

  /** Logging exception actions records no exception handler invocation. */
  lemma ActionLogHasNoRecovery(acts: seq<ExceptionAction>, ex: Exception)
    ensures Recoveries(Logged(acts, ActionLog(ex))) == 0
  {
    NoRecoveries(Logged(acts, ActionLog(ex)));
  }

  /** When action `k` is the first to raise, the action run stops with its fault. */
  lemma ActionFaultPosition<R>(reg: Registry<R>, req: Request, ex: Exception)
    ensures var acts := GetExceptionActions(reg, req);
      var steps := ProcessExceptionActions(reg, req, ex);
      forall k | FaultsFirstAt(acts, ActionStep(req, ex), k) ::
        && steps.fault == acts[k].execute(req, ex)
        && steps.trace == Logged(acts[..k + 1], ActionLog(ex))
  {
    var acts := GetExceptionActions(reg, req);
    var steps := ProcessExceptionActions(reg, req, ex);
    forall k | FaultsFirstAt(acts, ActionStep(req, ex), k)
      ensures steps.fault == acts[k].execute(req, ex)
      ensures steps.trace == Logged(acts[..k + 1], ActionLog(ex))
    {
      CompletionIgnoresOrder(reg, acts, req, ex);
      assert ActionStep(req, ex)(acts[k]).Some?;
      var k' :| && FaultsFirstAt(acts, ActionStep(req, ex), k')
                && steps.fault == acts[k'].execute(req, ex)
                && steps.trace == Logged(acts[..k' + 1], ActionLog(ex));
      FirstFaultUnique(acts, ActionStep(req, ex), k);
    }
  }

  /** At most one position can be the first fault. */
  lemma FirstFaultUnique<T>(items: seq<T>, step: T -> Option<Exception>, k: int)
    requires FaultsFirstAt(items, step, k)
    ensures forall k' | FaultsFirstAt(items, step, k') :: k' == k
  {
  }

  /**
    `ExecutePipeline`: runs the composed chain once; a result is returned
    unchanged without consulting any exception action or handler, and a
    fault is handed to `RecoverFromFault` after the chain's calls.
   */
  function ExecutePipeline<R>(reg: Registry<R>, req: Request, h: Handler<R>): (r: Run<R>)
    ensures var chain := RunChain(req, Compose(reg.behaviors), h);
      chain.outcome.Ok? ==> r == chain
    ensures var chain := RunChain(req, Compose(reg.behaviors), h);
      chain.outcome.Fault? ==> |r.trace| >= |chain.trace| && r.trace[..|chain.trace|] == chain.trace
    ensures Recoveries(r.trace) <= 1
    ensures |r.trace| > 0
  {
    var chain := RunChain(req, Compose(reg.behaviors), h);
    NoRecoveries(chain.trace);
    match chain.outcome
    case Ok(_) => chain
    case Fault(ex) =>
      var recovery := RecoverFromFault(reg, req, ex);
      RecoveriesAppend(chain.trace, recovery.trace);
      Run(recovery.outcome, chain.trace + recovery.trace)
  }

  // ---------------------------------------------------------------------
  // Entry points
  // ---------------------------------------------------------------------

  /**
    `Send`: resolves the command's handler before the pipeline is built. A
    missing handler fails at once, outside the pipeline's `try`, so no
    behaviour, action or exception handler runs; otherwise at most one
    exception handler is invoked.
   */
  function Send<R>(reg: Registry<R>, command: Request): (r: Run<R>)
    ensures reg.handler.None? ==> r.outcome == Fault(MissingHandler)
    ensures r.trace == [] <==> reg.handler.None?
    ensures Recoveries(r.trace) <= 1
  {
    match reg.handler
    case None => Run(Fault(MissingHandler), [])
    case Some(h) => ExecutePipeline(reg, command, h)
  }

  /**
    `Query`: the same resolution and pipeline as `Send`. The registry passed
    here holds the query handler in `handler`, where the one passed to
    `Send` holds the command handler.
   */
  function Query<R>(reg: Registry<R>, query: Request): (r: Run<R>)
    ensures reg.handler.None? ==> r.outcome == Fault(MissingHandler)
    ensures r.trace == [] <==> reg.handler.None?
    ensures r == Send(reg, query)
  {
    match reg.handler
    case None => Run(Fault(MissingHandler), [])
    case Some(h) => ExecutePipeline(reg, query, h)
  }

  /** The chain a dispatch with a registered handler runs first. */
  function ChainRun<R>(reg: Registry<R>, req: Request): Run<R>
    requires reg.handler.Some?
  {
    RunChain(req, Compose(reg.behaviors), reg.handler.value)
  }

  /**
    When the chain succeeds, `Send` returns its result unchanged and its
    trace holds only the chain's calls: no exception action or handler runs.
   */
  lemma SuccessSkipsRecovery<R>(reg: Registry<R>, req: Request)
    requires reg.handler.Some?
    requires ChainRun(reg, req).outcome.Ok?
    ensures Send(reg, req) == ChainRun(reg, req)
    ensures forall i | 0 <= i < |Send(reg, req).trace| ::
      !Send(reg, req).trace[i].Acted? && !Send(reg, req).trace[i].Recovered?
  {
  }

  /**
    When the chain faults with `ex` and every exception action completes,
    the actions observe `ex` in priority order and then the top-priority
    exception handler alone is given `ex`; its outcome replaces the fault.
   */
  lemma FaultRecoveredByTopHandler<R>(reg: Registry<R>, req: Request)
    requires reg.handler.Some?
    requires ChainRun(reg, req).outcome.Fault?
    requires ActionsComplete(reg, req, ChainRun(reg, req).outcome.error)
    requires |reg.exceptionHandlers| > 0
    ensures var chain := ChainRun(reg, req); var ex := chain.outcome.error;
      exists j ::
        && TopPriority(req.origin, reg.exceptionHandlers, HandlerOrigin, j)
        && Send(reg, req) == Run(reg.exceptionHandlers[j].handle(req, ex),
                                 chain.trace
                                 + Logged(GetExceptionActions(reg, req), ActionLog(ex))
                                 + [Recovered(reg.exceptionHandlers[j].id, ex)])
  {
    var chain := ChainRun(reg, req);
    var ex := chain.outcome.error;
    var rec := RecoverFromFault(reg, req, ex);
    assert Send(reg, req) == Run(rec.outcome, chain.trace + rec.trace);
    var observed := Logged(GetExceptionActions(reg, req), ActionLog(ex));
    var j :| && TopPriority(req.origin, reg.exceptionHandlers, HandlerOrigin, j)
             && rec == Run(reg.exceptionHandlers[j].handle(req, ex),
                           observed + [Recovered(reg.exceptionHandlers[j].id, ex)]);
    assert chain.trace + (observed + [Recovered(reg.exceptionHandlers[j].id, ex)])
        == chain.trace + observed + [Recovered(reg.exceptionHandlers[j].id, ex)];
  }

  /**
    When the chain faults with `ex`, every exception action completes and no
    exception handler is registered, the actions observe `ex` in priority
    order and `ex` itself is raised again.
   */
  lemma FaultRethrownWhenUnhandled<R>(reg: Registry<R>, req: Request)
    requires reg.handler.Some?
    requires ChainRun(reg, req).outcome.Fault?
    requires ActionsComplete(reg, req, ChainRun(reg, req).outcome.error)
    requires |reg.exceptionHandlers| == 0
    ensures var chain := ChainRun(reg, req); var ex := chain.outcome.error;
      Send(reg, req) == Run(Fault(ex), chain.trace + Logged(GetExceptionActions(reg, req), ActionLog(ex)))
  {
  }

  /**
    When the chain faults with `ex` and action `k` (in priority order) is the
    first to raise, its fault escapes: the actions after it and every
    exception handler are skipped.
   */
  lemma ActionFaultEscapes<R>(reg: Registry<R>, req: Request, k: nat)
    requires reg.handler.Some?
    requires ChainRun(reg, req).outcome.Fault?
    requires FaultsFirstAt(GetExceptionActions(reg, req), ActionStep(req, ChainRun(reg, req).outcome.error), k)
    ensures var chain := ChainRun(reg, req); var ex := chain.outcome.error;
      var acts := GetExceptionActions(reg, req);
      Send(reg, req) == Run(Fault(acts[k].execute(req, ex).value),
                            chain.trace + Logged(acts[..k + 1], ActionLog(ex)))
    ensures Recoveries(Send(reg, req).trace) == 0
  {
    var chain := ChainRun(reg, req);
    var ex := chain.outcome.error;
    var acts := GetExceptionActions(reg, req);
    NoRecoveries(chain.trace);
    NoRecoveries(Logged(acts[..k + 1], ActionLog(ex)));
    RecoveriesAppend(chain.trace, Logged(acts[..k + 1], ActionLog(ex)));
  }

  /**
    `Publish`: invokes every notification handler in registration order,
    outside the pipeline and without fault recovery; the first fault
    escapes and the later handlers are not invoked.
   */
  function Publish(handlers: seq<NotificationHandler>, notification: Request): (r: Steps)
    ensures |handlers| == 0 ==> r == Steps(None, [])
    ensures r.fault.None? <==> forall i | 0 <= i < |handlers| :: handlers[i].handle(notification).None?
    ensures r.fault.None? ==> r.trace == Logged(handlers, NotifyLog)
    ensures r.fault.Some? ==> exists k ::
      && FaultsFirstAt(handlers, NotifyStep(notification), k)
      && r.fault == handlers[k].handle(notification)
      && r.trace == Logged(handlers[..k + 1], NotifyLog)
  {
    RunInOrder(handlers, NotifyStep(notification), NotifyLog)
  }

  function NotifyStep(notification: Request): NotificationHandler -> Option<Exception>
  {
    (n: NotificationHandler) => n.handle(notification)
  }

  function NotifyLog(n: NotificationHandler): Event { Notified(n.id) }
}
