/**
  Pipeline composition (Dispatch/Dispatcher.cs, `ExecutePipeline` up to the
  first `await`): the registered behaviours are folded around the terminal
  handler call, last behaviour innermost, and the resulting chain is run once.
 */
module Pipeline {
  import opened DispatchTypes

  /** The terminal handler of a command or query. */
  datatype Handler<R> = Handler(respond: Request -> Outcome<R>)

  /**
    A pipeline behaviour. When it is invoked it first consults `before`:
    `Some(o)` means it completes with `o` without calling its continuation
    (a short-circuit); `None` means it calls the continuation once and then
    completes with `after` applied to the continuation's outcome, which may
    pass that outcome on, replace a result, raise, or swallow a fault.
   */
  datatype Behavior<!R> = Behavior(
    id: nat,
    before: Request -> Option<Outcome<R>>,
    after: (Request, Outcome<R>) -> Outcome<R>)

  /** A composed chain: the handler call, wrapped by behaviours from the inside out. */
  datatype Chain<!R> = Terminal | Wrap(behavior: Behavior<R>, next: Chain<R>)

  /** The behaviours of a chain, outermost first. */
  function Layers<R>(c: Chain<R>): seq<Behavior<R>>
  {
    match c
    case Terminal => []
    case Wrap(b, next) => [b] + Layers(next)
  }

  /**
    The chain built from `behaviors` in registration order: the first
    registered behaviour is outermost, the last is wrapped directly around
    the handler, and with no behaviours the chain is the handler alone.
   */
  function Compose<R>(behaviors: seq<Behavior<R>>): (c: Chain<R>)
    ensures Layers(c) == behaviors
    ensures |behaviors| == 0 <==> c.Terminal?
  {
    if |behaviors| == 0 then Terminal
    else Wrap(behaviors[0], Compose(behaviors[1..]))
  }

  /** A chain is determined by its layers, so `Compose` inverts `Layers`. */
  lemma {:induction false} ComposeLayers<R>(c: Chain<R>)
    ensures Compose(Layers(c)) == c
  {
    match c
    case Terminal =>
    case Wrap(b, next) =>
      ComposeLayers(next);
      assert Layers(c)[1..] == Layers(next);
  }

  /**
    The loop of `ExecutePipeline`: starting from the handler call, wrap the
    current chain in behaviour `i` for `i` from the last index down to 0.
   */
  method BuildChain<R>(behaviors: seq<Behavior<R>>) returns (c: Chain<R>)
    ensures Layers(c) == behaviors
    ensures c == Compose(behaviors)
  {
    c := Terminal;
    var i := |behaviors|;
    while i > 0
      invariant 0 <= i <= |behaviors|
      invariant Layers(c) == behaviors[i..]
    {
      i := i - 1;
      c := Wrap(behaviors[i], c);
      assert behaviors[i..] == [behaviors[i]] + behaviors[i + 1..];
    }
    ComposeLayers(c);
  }

  /** Runs a chain once for `req`, recording every behaviour and handler invocation. */
  function RunChain<R>(req: Request, c: Chain<R>, h: Handler<R>): (r: Run<R>)
    ensures |r.trace| > 0
    ensures forall i | 0 <= i < |r.trace| :: r.trace[i].Enter? || r.trace[i].Exit? || r.trace[i].Handled?
  {
    match c
    case Terminal => Run(h.respond(req), [Handled])
    case Wrap(b, next) =>
      match b.before(req)
      case Some(o) => Run(o, [Enter(b.id), Exit(b.id)])
      case None =>
        var inner := RunChain(req, next, h);
        Run(b.after(req, inner.outcome), [Enter(b.id)] + inner.trace + [Exit(b.id)])
  }

  /** Every behaviour in `behaviors` calls its continuation for `req`. */
  ghost predicate AllProceed<R>(behaviors: seq<Behavior<R>>, req: Request)
  {
    forall i | 0 <= i < |behaviors| :: behaviors[i].before(req).None?
  }

  function EnterOf<R>(b: Behavior<R>): Event { Enter(b.id) }

  function ExitOf<R>(b: Behavior<R>): Event { Exit(b.id) }

  /** `behaviors` last first. */
  function Reversed<R>(behaviors: seq<Behavior<R>>): seq<Behavior<R>>
  {
    seq(|behaviors|, i requires 0 <= i < |behaviors| => behaviors[|behaviors| - 1 - i])
  }

  /** The entry events of `behaviors`, in order. */
  function Entries<R>(behaviors: seq<Behavior<R>>): seq<Event>
  {
    Logged(behaviors, EnterOf)
  }

  /** The exit events of `behaviors`, last behaviour first. */
  function Exits<R>(behaviors: seq<Behavior<R>>): seq<Event>
  {
    Logged(Reversed(behaviors), ExitOf)
  }

  /** The outcome `o` as the behaviours' `after` steps transform it, innermost first. */
  function Unwind<R>(behaviors: seq<Behavior<R>>, req: Request, o: Outcome<R>): Outcome<R>
  {
    if |behaviors| == 0 then o
    else behaviors[0].after(req, Unwind(behaviors[1..], req, o))
  }

  lemma EntriesExitsCons<R>(behaviors: seq<Behavior<R>>)
    requires |behaviors| > 0
    ensures Entries(behaviors) == [Enter(behaviors[0].id)] + Entries(behaviors[1..])
    ensures Exits(behaviors) == Exits(behaviors[1..]) + [Exit(behaviors[0].id)]
  {
    assert behaviors == [behaviors[0]] + behaviors[1..];
    LoggedAppend([behaviors[0]], behaviors[1..], EnterOf);
    assert Logged([behaviors[0]], EnterOf) == [Enter(behaviors[0].id)];
    assert Reversed(behaviors) == Reversed(behaviors[1..]) + [behaviors[0]];
    LoggedAppend(Reversed(behaviors[1..]), [behaviors[0]], ExitOf);
    assert Logged([behaviors[0]], ExitOf) == [Exit(behaviors[0].id)];
  }

  /**
    When every behaviour calls its continuation, the behaviours are entered
    in registration order, then the handler runs, then they exit in reverse
    order; the outcome is the handler's, transformed from the innermost
    behaviour outwards.
   */
  lemma {:induction false} NestingOrder<R>(behaviors: seq<Behavior<R>>, req: Request, h: Handler<R>)
    requires AllProceed(behaviors, req)
    ensures RunChain(req, Compose(behaviors), h).trace
         == Entries(behaviors) + [Handled] + Exits(behaviors)
    ensures RunChain(req, Compose(behaviors), h).outcome
         == Unwind(behaviors, req, h.respond(req))
  {
    if |behaviors| > 0 {
      NestingOrder(behaviors[1..], req, h);
      EntriesExitsCons(behaviors);
    }
  }

  /** Two proceeding behaviours give the trace B1-enter, B2-enter, H, B2-exit, B1-exit. */
  lemma TwoBehaviors<R>(b1: Behavior<R>, b2: Behavior<R>, req: Request, h: Handler<R>)
    requires b1.before(req).None? && b2.before(req).None?
    ensures RunChain(req, Compose([b1, b2]), h).trace
         == [Enter(b1.id), Enter(b2.id), Handled, Exit(b2.id), Exit(b1.id)]
  {
    NestingOrder([b1, b2], req, h);
  }

  /** With no behaviours the chain is the handler call alone. */
  lemma NoBehaviors<R>(req: Request, h: Handler<R>)
    ensures RunChain(req, Compose([]), h) == Run(h.respond(req), [Handled])
  {
  }

  /**
    When behaviour `k` does not call its continuation and the ones before it
    do, only behaviours 0..k are entered, the handler is never invoked, and
    the outcome is the short-circuit value transformed by the outer behaviours.
   */
  lemma {:induction false} ShortCircuit<R>(behaviors: seq<Behavior<R>>, k: nat, req: Request, h: Handler<R>)
    requires k < |behaviors|
    requires AllProceed(behaviors[..k], req)
    requires behaviors[k].before(req).Some?
    ensures RunChain(req, Compose(behaviors), h).trace
         == Entries(behaviors[..k + 1]) + Exits(behaviors[..k + 1])
    ensures Handled !in RunChain(req, Compose(behaviors), h).trace
    ensures RunChain(req, Compose(behaviors), h).outcome
         == Unwind(behaviors[..k], req, behaviors[k].before(req).value)
  {
    if k == 0 {
      assert behaviors[..1] == [behaviors[0]];
      EntriesExitsCons(behaviors[..1]);
    } else {
      var tail := behaviors[1..];
      assert tail[..k - 1] == behaviors[1..k];
      ShortCircuit(tail, k - 1, req, h);
      assert behaviors[..k + 1][1..] == tail[..k];
      assert behaviors[..k][1..] == tail[..k - 1];
      EntriesExitsCons(behaviors[..k + 1]);
      var inner := RunChain(req, Compose(tail), h);
      assert RunChain(req, Compose(behaviors), h).trace == [Enter(behaviors[0].id)] + inner.trace + [Exit(behaviors[0].id)];
    }
  }
}
