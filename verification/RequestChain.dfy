/**
 What a chain of middlewares means (request.go:226-255, webserver_internal.go:11-33).

 A handler is a finite script that may do anything the chain can observe: leave a trace in
 the response, set its status, look at it, call `Next` any number of times, look at the
 error `Next` gave back, and return an error of its own. The meaning of a chain is plain
 composition: each middleware is run with the meaning of everything after it as `Next`.
 There is no index here; RequestContext proves that the index machine computes this.
 */
module RequestChain {
  import opened Wrappers

  datatype Error = PathNotHandled | InvalidCallToNext | Custom(code: int)

  datatype Reply = Nil | FromNext | Fail(code: int)

  datatype Script =
    | Return(reply: Reply)
    | Emit(event: int, rest: Script)
    | SetStatus(status: nat, rest: Script)
    | IfStatusOk(yes: Script, no: Script)
    | CallNext(onOk: Script, onError: Script)

  datatype Response = Response(status: nat, trace: seq<int>)

  const FRESH := Response(200, [])

  /** An endpoint: its own middlewares and its handler. */
  datatype Route = Route(middlewares: seq<Script>, handler: Script)

  /** The router either selects an endpoint or answers by itself (not found, a redirect). */
  datatype RouterStep = Select(route: Route) | Answer(status: nat, event: int)

  type Router = Response -> RouterStep

  /** The response so far, and the endpoint selected so far. */
  datatype Progress = Progress(response: Response, route: Option<Route>)

  type Outcome = (Progress, Option<Error>)

  type Computation = Progress -> Outcome

  function Emitted(p: Progress, event: int): Progress {
    p.(response := p.response.(trace := p.response.trace + [event]))
  }

  function StatusSet(p: Progress, status: nat): Progress {
    p.(response := p.response.(status := status))
  }

  function Replied(reply: Reply, last: Option<Error>): Option<Error> {
    match reply
    case Nil => None
    case FromNext => last
    case Fail(code) => Some(Custom(code))
  }

  /** Runs a script; `last` is what the latest call of `Next` returned. */
  function Exec(s: Script, next: Computation, p: Progress, last: Option<Error>): Outcome {
    match s
    case Return(reply) => (p, Replied(reply, last))
    case Emit(event, rest) => Exec(rest, next, Emitted(p, event), last)
    case SetStatus(status, rest) => Exec(rest, next, StatusSet(p, status), last)
    case IfStatusOk(yes, no) => Exec(if p.response.status == 200 then yes else no, next, p, last)
    case CallNext(onOk, onError) =>
      var (p', err) := next(p);
      Exec(if err == None then onOk else onError, next, p', err)
  }

  function Run(s: Script, next: Computation): Computation {
    p => Exec(s, next, p, None)
  }

  function Chain(middlewares: seq<Script>, last: Computation): Computation {
    if middlewares == [] then last else Run(middlewares[0], Chain(middlewares[1..], last))
  }

  /** `Next` called by the endpoint's handler, after which nothing comes. */
  function Invalid(): Computation {
    p => (p, Some(InvalidCallToNext))
  }

  function Endpoint(route: Route): Computation {
    Chain(route.middlewares, Run(route.handler, Invalid()))
  }

  function Routed(router: Router, p: Progress): Progress {
    match router(p.response)
    case Select(route) => p.(route := Some(route))
    case Answer(status, event) => StatusSet(Emitted(p, event), status)
  }

  /** The endpoint runs only if the status is still 200 after routing. */
  function Dispatch(router: Router): Computation {
    p =>
      var p' := Routed(router, p);
      if p'.response.status != 200 then (p', None)
      else if p'.route.None? then (p', Some(PathNotHandled))
      else Endpoint(p'.route.value)(p')
  }

  function Server(middlewares: seq<Script>, router: Router): Computation {
    Chain(middlewares, Dispatch(router))
  }

  // ----- what composition gives

  /** A computation that only ever adds to the trace. */
  ghost predicate Appends(f: Computation) {
    forall p: Progress :: p.response.trace <= f(p).0.response.trace
  }

  lemma {:induction false} ExecAppends(s: Script, next: Computation, p: Progress, last: Option<Error>)
    requires Appends(next)
    ensures p.response.trace <= Exec(s, next, p, last).0.response.trace
  {
    match s
    case Return(_) =>
    case Emit(event, rest) => ExecAppends(rest, next, Emitted(p, event), last);
    case SetStatus(status, rest) => ExecAppends(rest, next, StatusSet(p, status), last);
    case IfStatusOk(yes, no) => ExecAppends(if p.response.status == 200 then yes else no, next, p, last);
    case CallNext(onOk, onError) =>
      var (p', err) := next(p);
      ExecAppends(if err == None then onOk else onError, next, p', err);
  }

  lemma {:induction false} ChainAppends(middlewares: seq<Script>, last: Computation)
    requires Appends(last)
    ensures Appends(Chain(middlewares, last))
  {
    if middlewares == [] {
    } else {
      ChainAppends(middlewares[1..], last);
      forall p: Progress ensures p.response.trace <= Chain(middlewares, last)(p).0.response.trace {
        ExecAppends(middlewares[0], Chain(middlewares[1..], last), p, None);
      }
    }
  }

  lemma RunAppends(s: Script, next: Computation)
    requires Appends(next)
    ensures Appends(Run(s, next))
  {
    forall p: Progress ensures p.response.trace <= Run(s, next)(p).0.response.trace {
      ExecAppends(s, next, p, None);
    }
  }

  /** No later handler, route or router can take back what an earlier one put in the trace. */
  lemma ServerAppends(middlewares: seq<Script>, router: Router)
    ensures Appends(Server(middlewares, router))
  {
    forall p: Progress ensures p.response.trace <= Dispatch(router)(p).0.response.trace {
      var p' := Routed(router, p);
      assert p.response.trace <= p'.response.trace;
      if p'.response.status == 200 && p'.route.Some? {
        var route := p'.route.value;
        assert Appends(Invalid());
        RunAppends(route.handler, Invalid());
        ChainAppends(route.middlewares, Run(route.handler, Invalid()));
        assert p'.response.trace <= Endpoint(route)(p').0.response.trace;
      }
    }
    ChainAppends(middlewares, Dispatch(router));
  }

  predicate CallsNext(s: Script) {
    match s
    case Return(_) => false
    case Emit(_, rest) => CallsNext(rest)
    case SetStatus(_, rest) => CallsNext(rest)
    case IfStatusOk(yes, no) => CallsNext(yes) || CallsNext(no)
    case CallNext(_, _) => true
  }

  lemma {:induction false} ExecIgnoresNext(s: Script, next: Computation, next': Computation, p: Progress,
                                           last: Option<Error>)
    requires !CallsNext(s)
    ensures Exec(s, next, p, last) == Exec(s, next', p, last)
  {
    match s
    case Return(_) =>
    case Emit(event, rest) => ExecIgnoresNext(rest, next, next', Emitted(p, event), last);
    case SetStatus(status, rest) => ExecIgnoresNext(rest, next, next', StatusSet(p, status), last);
    case IfStatusOk(yes, no) => ExecIgnoresNext(if p.response.status == 200 then yes else no, next, next', p, last);
  }

  /** A middleware that does not call `Next` cuts off everything after it. */
  lemma {:induction false} CutOff(before: seq<Script>, s: Script, after: seq<Script>, last: Computation,
                                  after': seq<Script>, last': Computation, p: Progress)
    requires !CallsNext(s)
    ensures Chain(before + [s] + after, last)(p) == Chain(before + [s] + after', last')(p)
  {
    if before == [] {
      assert ([s] + after)[1..] == after && ([s] + after')[1..] == after';
      assert before + [s] + after == [s] + after && before + [s] + after' == [s] + after';
      ExecIgnoresNext(s, Chain(after, last), Chain(after', last'), p, None);
    } else {
      var b := before[1..];
      assert (before + [s] + after)[1..] == b + [s] + after;
      assert (before + [s] + after')[1..] == b + [s] + after';
      forall q ensures Chain(b + [s] + after, last)(q) == Chain(b + [s] + after', last')(q) {
        CutOff(b, s, after, last, after', last', q);
      }
      ExecSameNext(before[0], Chain(b + [s] + after, last), Chain(b + [s] + after', last'), p, None);
    }
  }

  lemma {:induction false} ExecSameNext(s: Script, next: Computation, next': Computation, p: Progress,
                                        last: Option<Error>)
    requires forall q :: next(q) == next'(q)
    ensures Exec(s, next, p, last) == Exec(s, next', p, last)
  {
    match s
    case Return(_) =>
    case Emit(event, rest) => ExecSameNext(rest, next, next', Emitted(p, event), last);
    case SetStatus(status, rest) => ExecSameNext(rest, next, next', StatusSet(p, status), last);
    case IfStatusOk(yes, no) => ExecSameNext(if p.response.status == 200 then yes else no, next, next', p, last);
    case CallNext(onOk, onError) =>
      var (p', err) := next(p);
      ExecSameNext(if err == None then onOk else onError, next, next', p', err);
  }

  // ----- middlewares that call Next once

  /** On every path through the script `Next` is called exactly once. */
  predicate Once(s: Script) {
    match s
    case Return(_) => false
    case Emit(_, rest) => Once(rest)
    case SetStatus(_, rest) => Once(rest)
    case IfStatusOk(yes, no) => Once(yes) && Once(no)
    case CallNext(onOk, onError) => !CallsNext(onOk) && !CallsNext(onError)
  }

  predicate AllOnce(middlewares: seq<Script>) {
    forall i :: 0 <= i < |middlewares| ==> Once(middlewares[i])
  }

  /** What a script has written when it first calls `Next` or returns. */
  function Events(s: Script, p: Progress): seq<int> {
    match s
    case Return(_) => []
    case Emit(event, rest) => [event] + Events(rest, Emitted(p, event))
    case SetStatus(status, rest) => Events(rest, StatusSet(p, status))
    case IfStatusOk(yes, no) => Events(if p.response.status == 200 then yes else no, p)
    case CallNext(_, _) => []
  }

  /** The progress it has made by then. */
  function Entered(s: Script, p: Progress): Progress {
    match s
    case Return(_) => p
    case Emit(event, rest) => Entered(rest, Emitted(p, event))
    case SetStatus(status, rest) => Entered(rest, StatusSet(p, status))
    case IfStatusOk(yes, no) => Entered(if p.response.status == 200 then yes else no, p)
    case CallNext(_, _) => p
  }

  /** What is left of it once `Next` has returned `err`. */
  function Rest(s: Script, p: Progress, err: Option<Error>): Script {
    match s
    case Return(_) => s
    case Emit(event, rest) => Rest(rest, Emitted(p, event), err)
    case SetStatus(status, rest) => Rest(rest, StatusSet(p, status), err)
    case IfStatusOk(yes, no) => Rest(if p.response.status == 200 then yes else no, p, err)
    case CallNext(onOk, onError) => if err == None then onOk else onError
  }

  /** The rest of a script run to its end, which no longer depends on any `Next`. */
  function Left(rest: Script, p: Progress, err: Option<Error>): Outcome {
    Exec(rest, Invalid(), p, err)
  }

  /** Such a script is its first half, then `Next`, then its second half. */
  lemma {:induction false} ExecOnce(s: Script, next: Computation, p: Progress, last: Option<Error>)
    requires Once(s)
    ensures var (p', err) := next(Entered(s, p));
            Exec(s, next, p, last) == Left(Rest(s, p, err), p', err)
    ensures forall err :: !CallsNext(Rest(s, p, err))
  {
    match s
    case Emit(event, rest) => ExecOnce(rest, next, Emitted(p, event), last);
    case SetStatus(status, rest) => ExecOnce(rest, next, StatusSet(p, status), last);
    case IfStatusOk(yes, no) => ExecOnce(if p.response.status == 200 then yes else no, next, p, last);
    case CallNext(onOk, onError) =>
      var (p', err) := next(p);
      ExecIgnoresNext(if err == None then onOk else onError, next, Invalid(), p', err);
  }

  /** What both halves do to the trace; the selected endpoint is not theirs to change. */
  lemma {:induction false} EnteredTrace(s: Script, p: Progress)
    ensures Entered(s, p).response.trace == p.response.trace + Events(s, p)
    ensures Entered(s, p).route == p.route
  {
    match s
    case Return(_) => assert p.response.trace + [] == p.response.trace;
    case Emit(event, rest) =>
      EnteredTrace(rest, Emitted(p, event));
      assert p.response.trace + [event] + Events(rest, Emitted(p, event))
          == p.response.trace + ([event] + Events(rest, Emitted(p, event)));
    case SetStatus(status, rest) => EnteredTrace(rest, StatusSet(p, status));
    case IfStatusOk(yes, no) => EnteredTrace(if p.response.status == 200 then yes else no, p);
    case CallNext(_, _) => assert p.response.trace + [] == p.response.trace;
  }

  lemma {:induction false} LeftIsEntered(rest: Script, p: Progress, err: Option<Error>)
    requires !CallsNext(rest)
    ensures Left(rest, p, err).0 == Entered(rest, p)
  {
    match rest
    case Return(_) =>
    case Emit(event, more) => LeftIsEntered(more, Emitted(p, event), err);
    case SetStatus(status, more) => LeftIsEntered(more, StatusSet(p, status), err);
    case IfStatusOk(yes, no) => LeftIsEntered(if p.response.status == 200 then yes else no, p, err);
  }

  /** Progress after the first halves, outermost first. */
  function AllEntered(middlewares: seq<Script>, p: Progress): Progress {
    if middlewares == [] then p else AllEntered(middlewares[1..], Entered(middlewares[0], p))
  }

  function EntryEvents(middlewares: seq<Script>, p: Progress): seq<int> {
    if middlewares == [] then []
    else Events(middlewares[0], p) + EntryEvents(middlewares[1..], Entered(middlewares[0], p))
  }

  /** The outcome after the second halves, innermost first, each given the error of the one before. */
  function AllLeft(middlewares: seq<Script>, p: Progress, inner: Outcome): Outcome {
    if middlewares == [] then inner
    else
      var (p', err) := AllLeft(middlewares[1..], Entered(middlewares[0], p), inner);
      Left(Rest(middlewares[0], p, err), p', err)
  }

  function ExitEvents(middlewares: seq<Script>, p: Progress, inner: Outcome): seq<int> {
    if middlewares == [] then []
    else
      var deeper := Entered(middlewares[0], p);
      var (p', err) := AllLeft(middlewares[1..], deeper, inner);
      ExitEvents(middlewares[1..], deeper, inner) + Events(Rest(middlewares[0], p, err), p')
  }

  /** Middlewares that call `Next` once, and do anything else they like before and after, are
      entered once each, in order, and left in reverse, around whatever the rest of the chain does. */
  lemma {:induction false} Onion(middlewares: seq<Script>, last: Computation, p: Progress)
    requires AllOnce(middlewares)
    ensures Chain(middlewares, last)(p) == AllLeft(middlewares, p, last(AllEntered(middlewares, p)))
  {
    if middlewares == [] {
    } else {
      Onion(middlewares[1..], last, Entered(middlewares[0], p));
      ExecOnce(middlewares[0], Chain(middlewares[1..], last), p, None);
    }
  }

  /** The trace on the way in: the first halves in order. */
  lemma {:induction false} EntryTrace(middlewares: seq<Script>, p: Progress)
    ensures AllEntered(middlewares, p).response.trace == p.response.trace + EntryEvents(middlewares, p)
    ensures AllEntered(middlewares, p).route == p.route
  {
    if middlewares == [] {
      assert p.response.trace + [] == p.response.trace;
    } else {
      var first, deeper := Events(middlewares[0], p), Entered(middlewares[0], p);
      EnteredTrace(middlewares[0], p);
      EntryTrace(middlewares[1..], deeper);
      assert p.response.trace + first + EntryEvents(middlewares[1..], deeper)
          == p.response.trace + (first + EntryEvents(middlewares[1..], deeper));
    }
  }

  /** The trace on the way out: the second halves in reverse. */
  lemma {:induction false} ExitTrace(middlewares: seq<Script>, p: Progress, inner: Outcome)
    requires AllOnce(middlewares)
    ensures AllLeft(middlewares, p, inner).0.response.trace ==
            inner.0.response.trace + ExitEvents(middlewares, p, inner)
    ensures AllLeft(middlewares, p, inner).0.route == inner.0.route
  {
    if middlewares == [] {
      assert inner.0.response.trace + [] == inner.0.response.trace;
    } else {
      var deeper := Entered(middlewares[0], p);
      ExitTrace(middlewares[1..], deeper, inner);
      var (p', err) := AllLeft(middlewares[1..], deeper, inner);
      var rest := Rest(middlewares[0], p, err);
      ExecOnce(middlewares[0], Invalid(), p, None);
      LeftIsEntered(rest, p', err);
      EnteredTrace(rest, p');
      assert inner.0.response.trace + ExitEvents(middlewares[1..], deeper, inner) + Events(rest, p')
          == inner.0.response.trace + (ExitEvents(middlewares[1..], deeper, inner) + Events(rest, p'));
    }
  }

  /** A whole request through such middlewares whose status is still 200 after the router selected
      an endpoint: into the server middlewares, then those of the route, then its handler, then
      back out in exactly the opposite order. */
  lemma OnionRequest(server: seq<Script>, router: Router, p: Progress, route: Route)
    requires AllOnce(server) && AllOnce(route.middlewares)
    requires router(AllEntered(server, p).response) == Select(route)
    requires AllEntered(server, p).response.status == 200
    ensures var selected := AllEntered(server, p).(route := Some(route));
            var arrived := AllEntered(route.middlewares, selected);
            var handled := Exec(route.handler, Invalid(), arrived, None);
            var inner := AllLeft(route.middlewares, selected, handled);
            var (end, err) := Server(server, router)(p);
            && (end, err) == AllLeft(server, p, inner)
            && arrived.response.trace ==
               p.response.trace + EntryEvents(server, p) + EntryEvents(route.middlewares, selected)
            && end.response.trace == handled.0.response.trace + ExitEvents(route.middlewares, selected, handled)
                                     + ExitEvents(server, p, inner)
  {
    var selected := AllEntered(server, p).(route := Some(route));
    var handler := Run(route.handler, Invalid());
    Onion(server, Dispatch(router), p);
    assert Routed(router, AllEntered(server, p)) == selected;
    assert Dispatch(router)(AllEntered(server, p)) == Endpoint(route)(selected);
    Onion(route.middlewares, handler, selected);
    EntryTrace(server, p);
    EntryTrace(route.middlewares, selected);
    var handled := handler(AllEntered(route.middlewares, selected));
    ExitTrace(route.middlewares, selected, handled);
    ExitTrace(server, p, AllLeft(route.middlewares, selected, handled));
  }

  /** If the status is not 200 once the router is done, whether it answered by itself or an
      earlier middleware had set the status, no endpoint runs: the response as it is then is carried
      back out through the server middlewares, with no error from the router stage. */
  lemma RouterAnswers(server: seq<Script>, router: Router, p: Progress)
    requires AllOnce(server)
    ensures var inside := AllEntered(server, p);
            match router(inside.response)
            case Answer(status, event) =>
              var answer := Progress(Response(status, inside.response.trace + [event]), inside.route);
              status != 200 ==> Server(server, router)(p) == AllLeft(server, p, (answer, None))
            case Select(route) =>
              inside.response.status != 200 ==>
                Server(server, router)(p) == AllLeft(server, p, (Progress(inside.response, Some(route)), None))
  {
    var inside := AllEntered(server, p);
    Onion(server, Dispatch(router), p);
    assert Routed(router, inside).response.status != 200 ==> Dispatch(router)(inside) == (Routed(router, inside), None);
  }

  /** If it is 200 and no endpoint was selected, the path is not handled. */
  lemma NothingSelected(server: seq<Script>, router: Router, p: Progress, event: int)
    requires AllOnce(server) && p.route == None
    requires router(AllEntered(server, p).response) == Answer(200, event)
    ensures var inside := AllEntered(server, p);
            var answer := Progress(Response(200, inside.response.trace + [event]), None);
            Server(server, router)(p) == AllLeft(server, p, (answer, Some(PathNotHandled)))
  {
    var inside := AllEntered(server, p);
    EntryTrace(server, p);
    Onion(server, Dispatch(router), p);
    assert Dispatch(router)(inside) == (Routed(router, inside), Some(PathNotHandled));
  }

  /** A handler that calls `Next` finds nothing there: an error, and the response unchanged. */
  lemma {:induction false} NextInHandler(s: Script, p: Progress, last: Option<Error>)
    ensures Exec(s, Invalid(), p, last) == ExecRefused(s, p, last)
  {
    match s
    case Return(_) =>
    case Emit(event, rest) => NextInHandler(rest, Emitted(p, event), last);
    case SetStatus(status, rest) => NextInHandler(rest, StatusSet(p, status), last);
    case IfStatusOk(yes, no) => NextInHandler(if p.response.status == 200 then yes else no, p, last);
    case CallNext(_, onError) => NextInHandler(onError, p, Some(InvalidCallToNext));
  }

  /** A script every call of which is refused: it goes on as after an error, from where it was. */
  function ExecRefused(s: Script, p: Progress, last: Option<Error>): Outcome {
    match s
    case Return(reply) => (p, Replied(reply, last))
    case Emit(event, rest) => ExecRefused(rest, Emitted(p, event), last)
    case SetStatus(status, rest) => ExecRefused(rest, StatusSet(p, status), last)
    case IfStatusOk(yes, no) => ExecRefused(if p.response.status == 200 then yes else no, p, last)
    case CallNext(_, onError) => ExecRefused(onError, p, Some(InvalidCallToNext))
  }

  // ----- the usual case: enter, call Next once, leave with its error

  function Around(i: int): Script {
    var leave := Emit(-i, Return(FromNext));
    Emit(i, CallNext(leave, leave))
  }

  function Arounds(names: seq<int>): (scripts: seq<Script>)
    ensures |scripts| == |names|
  {
    if names == [] then [] else [Around(names[0])] + Arounds(names[1..])
  }

  /** The names left in reverse order, as negative numbers. */
  function Leaving(names: seq<int>): seq<int> {
    if names == [] then [] else Leaving(names[1..]) + [-names[0]]
  }

  /** Then the general events are the names in order and back, and the inner error comes back unchanged. */
  lemma {:induction false} OnionOfArounds(names: seq<int>, p: Progress, inner: Outcome)
    ensures AllOnce(Arounds(names))
    ensures EntryEvents(Arounds(names), p) == names
    ensures ExitEvents(Arounds(names), p, inner) == Leaving(names)
    ensures AllLeft(Arounds(names), p, inner).1 == inner.1
  {
    if names == [] {
    } else {
      var s, deeper := Around(names[0]), Emitted(p, names[0]);
      assert Arounds(names)[1..] == Arounds(names[1..]);
      OnionOfArounds(names[1..], deeper, inner);
      AroundHalves(names[0], p);
      var (p', err) := AllLeft(Arounds(names[1..]), deeper, inner);
      AroundLeft(names[0], p', err);
      assert [names[0]] + names[1..] == names;
    }
  }

  lemma AroundHalves(i: int, p: Progress)
    ensures Once(Around(i)) && Events(Around(i), p) == [i] && Entered(Around(i), p) == Emitted(p, i)
    ensures forall err :: Rest(Around(i), p, err) == Emit(-i, Return(FromNext))
  {
    var leave := Emit(-i, Return(FromNext));
    assert Events(CallNext(leave, leave), Emitted(p, i)) == [];
    assert Entered(CallNext(leave, leave), Emitted(p, i)) == Emitted(p, i);
    assert !CallsNext(leave) by { assert !CallsNext(Return(FromNext)); }
    assert Once(CallNext(leave, leave));
    assert forall err :: Rest(CallNext(leave, leave), Emitted(p, i), err) == leave;
  }

  lemma AroundLeft(i: int, p: Progress, err: Option<Error>)
    ensures Left(Emit(-i, Return(FromNext)), p, err).1 == err
    ensures Events(Emit(-i, Return(FromNext)), p) == [-i]
  {
    assert Exec(Return(FromNext), Invalid(), Emitted(p, -i), err) == (Emitted(p, -i), err);
    assert Events(Return(FromNext), Emitted(p, -i)) == [];
  }
}
