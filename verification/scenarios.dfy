/**
  Concrete dispatches that show the priority ordering and the stopping
  rules at work on small registries.
 */
module Scenarios {
  import opened DispatchTypes
  import opened Priority
  import opened Dispatcher

  /** An origin in another assembly but the same namespace as `o`. */
  function Sibling(o: Origin, assembly: AssemblyId): Origin
  {
    Origin(assembly, o.ns)
  }

  /** A component of the request's own origin scores 7. */
  lemma OwnOriginScoresSeven(request: Origin)
    ensures ScoreFor(request, request) == 7
  {
    ScoreSevenIffSameOrigin(request.assembly, NamespaceOf(request), request);
  }

  /** A component of the request's namespace in another assembly scores 3. */
  lemma SiblingScoresThree(request: Origin, assembly: AssemblyId)
    requires assembly != request.assembly
    ensures ScoreFor(request, Sibling(request, assembly)) == 3
  {
    NamespaceBonusesIffEqual(NamespaceOf(request), NamespaceOf(Sibling(request, assembly)));
  }

  /**
    Two exception actions registered as [A2, A1], where A1 shares the
    request's origin (score 7) and A2 only its namespace (score 3): both
    observe the original fault, A1 first.
   */
  lemma ActionsRunByPriority<R>(reg: Registry<R>, req: Request, ex: Exception, a1: ExceptionAction, a2: ExceptionAction)
    requires a1.origin == req.origin
    requires a2.origin.ns == req.origin.ns && a2.origin.assembly != req.origin.assembly
    requires reg.actions == [a2, a1]
    requires a1.execute(req, ex).None? && a2.execute(req, ex).None?
    ensures ProcessExceptionActions(reg, req, ex) == Steps(None, [Acted(a1.id, ex), Acted(a2.id, ex)])
  {
    OwnOriginScoresSeven(req.origin);
    SiblingScoresThree(req.origin, a2.origin.assembly);
    assert a2.origin == Sibling(req.origin, a2.origin.assembly);
    PrioritySwapsTwo(req.origin, a1, a2, ActionOrigin);
    assert GetExceptionActions(reg, req) == [a1, a2];
    TwoActionsComplete(req, ex, a1, a2);
  }

  /** Two actions that both complete, run in the given order. */
  lemma TwoActionsComplete(req: Request, ex: Exception, a1: ExceptionAction, a2: ExceptionAction)
    requires a1.execute(req, ex).None? && a2.execute(req, ex).None?
    ensures RunInOrder([a1, a2], ActionStep(req, ex), ActionLog(ex)) == Steps(None, [Acted(a1.id, ex), Acted(a2.id, ex)])
  {
    var step := ActionStep(req, ex);
    var log := ActionLog(ex);
    assert [a1, a2][1..] == [a2];
    assert RunInOrder([a2], step, log) == Steps(None, [Acted(a2.id, ex)]);
  }

  /** Of two items registered as [x2, x1], the higher-scoring x1 is ordered first. */
  lemma PrioritySwapsTwo<T>(request: Origin, x1: T, x2: T, originOf: T -> Origin)
    requires ScoreFor(request, originOf(x2)) < ScoreFor(request, originOf(x1))
    ensures SortByPriority(request, [x2, x1], originOf) == [x1, x2]
  {
    var score := (x: T) => ScoreFor(request, originOf(x));
    assert SortDescending([x1], score) == [x1];
    assert [x2, x1][1..] == [x1];
    assert SortDescending([x2, x1], score) == Insert(x2, [x1], score);
  }

  /**
    Two exception handlers registered as [R2, R1], where R1 shares the
    request's origin (score 7) and R2 only its namespace (score 3): only R1
    is invoked, and its outcome is the result.
   */
  lemma TopHandlerAloneRecovers<R>(reg: Registry<R>, req: Request, ex: Exception, r1: ExceptionHandler<R>, r2: ExceptionHandler<R>)
    requires r1.origin == req.origin
    requires r2.origin.ns == req.origin.ns && r2.origin.assembly != req.origin.assembly
    requires reg.exceptionHandlers == [r2, r1]
    ensures TryHandleException(reg, req, ex) == Some(Run(r1.handle(req, ex), [Recovered(r1.id, ex)]))
  {
    OwnOriginScoresSeven(req.origin);
    SiblingScoresThree(req.origin, r2.origin.assembly);
    assert r2.origin == Sibling(req.origin, r2.origin.assembly);
    PrioritySwapsTwo(req.origin, r1, r2, HandlerOrigin);
    assert GetExceptionHandlers(reg, req) == [r1, r2];
  }

  /**
    Publishing to three notification handlers of which the second raises:
    exactly the first two run, and the second's fault propagates.
   */
  lemma PublishStopsAtSecondFault(n: Request, h1: NotificationHandler, h2: NotificationHandler, h3: NotificationHandler, e: Exception)
    requires h1.handle(n).None?
    requires h2.handle(n) == Some(e)
    ensures Publish([h1, h2, h3], n) == Steps(Some(e), [Notified(h1.id), Notified(h2.id)])
  {
    var hs := [h1, h2, h3];
    assert hs[1..] == [h2, h3];
    assert RunInOrder([h2, h3], NotifyStep(n), NotifyLog) == Steps(Some(e), [Notified(h2.id)]);
  }
}
