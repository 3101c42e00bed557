/**
  Values shared by every part of the dispatch engine: request origins, faults,
  outcomes and the trace of observable calls that one dispatch produces.

  The engine's asynchronous `Task`s are modelled as synchronous values, and
  exceptions as the `Fault` arm of `Outcome`.
 */
module DispatchTypes {

  /** A value that may be absent; stands for a nullable reference. */
  datatype Option<+T> = None | Some(value: T)

  /** Identifies the compiled unit (assembly) a type was declared in. */
  type AssemblyId = nat

  /**
    Where a request type or a registered component type comes from: its
    assembly and its namespace, which may be missing (a type in the global
    namespace has a null `Namespace`).
   */
  datatype Origin = Origin(assembly: AssemblyId, ns: Option<string>)

  /** The namespace of an origin, with a missing namespace read as the empty string. */
  function NamespaceOf(o: Origin): string
  {
    match o.ns
    case Some(n) => n
    case None => ""
  }

  /**
    A command, query or notification. Its payload is opaque to the engine;
    only the origin of its type takes part in dispatch decisions.
   */
  datatype Request = Request(origin: Origin, payload: string)

  /**
    A fault. `MissingHandler` is what the service container raises when no
    handler is registered for a command or query; every other fault is
    `Raised` by a handler, behaviour, action or exception handler.
   */
  datatype Exception = MissingHandler | Raised(kind: string, message: string)

  /** The completion of an invocation: a result, or a fault. */
  datatype Outcome<+R> = Ok(value: R) | Fault(error: Exception)

  /** One observable call made during a dispatch. */
  datatype Event =
    | Enter(behavior: nat)                  // a pipeline behaviour is invoked
    | Exit(behavior: nat)                   // that behaviour completes
    | Handled                               // the terminal handler is invoked
    | Acted(action: nat, ex: Exception)     // an exception action observes `ex`
    | Recovered(handler: nat, ex: Exception) // an exception handler is given `ex`
    | Notified(handler: nat)                // a notification handler is invoked

  /** The outcome of a dispatch together with the calls it made, in order. */
  datatype Run<+R> = Run(outcome: Outcome<R>, trace: seq<Event>)

  /** The events `log` records for each of `items`, in order. */
  function Logged<T>(items: seq<T>, log: T -> Event): seq<Event>
  {
    seq(|items|, i requires 0 <= i < |items| => log(items[i]))
  }

  /** Logging a concatenation logs each part in turn. */
  lemma LoggedAppend<T>(a: seq<T>, b: seq<T>, log: T -> Event)
    ensures Logged(a + b, log) == Logged(a, log) + Logged(b, log)
  {
    assert forall i | 0 <= i < |a + b| :: Logged(a + b, log)[i] == (Logged(a, log) + Logged(b, log))[i];
  }

  /** True of the events an exception handler invocation leaves in a trace. */
  predicate IsRecovery(e: Event)
  {
    e.Recovered?
  }

  /** The number of exception handler invocations recorded in a trace. */
  function Recoveries(trace: seq<Event>): nat
  {
    if |trace| == 0 then 0
    else (if IsRecovery(trace[0]) then 1 else 0) + Recoveries(trace[1..])
  }

  lemma {:induction false} RecoveriesAppend(a: seq<Event>, b: seq<Event>)
    ensures Recoveries(a + b) == Recoveries(a) + Recoveries(b)
  {
    if |a| == 0 {
      assert a + b == b;
    } else {
      assert (a + b)[1..] == a[1..] + b;
      RecoveriesAppend(a[1..], b);
    }
  }

  lemma {:induction false} NoRecoveries(trace: seq<Event>)
    requires forall i | 0 <= i < |trace| :: !IsRecovery(trace[i])
    ensures Recoveries(trace) == 0
  {
    if |trace| > 0 {
      NoRecoveries(trace[1..]);
    }
  }
}
