/**
 The request context, its index-driven `Next`, and its pool (request.go:34-46 and 226-255,
 request_pool.go, request_internal.go:38-42, webserver_internal.go).

 A context keeps one integer, `middlewareIndex`, for both middleware lists, and goes back to
 the pool without that index or `middlewaresLen` being reset. What makes this work is the
 invariant proved here: the index is the number of live `Next` calls.
 */
module RequestContext {
  import opened Wrappers
  import opened RequestChain

  function Max(a: nat, b: nat): nat {
    if a < b then b else a
  }

  class Context {
    var response: Response
    var middlewareIndex: int
    var srvRouterHandler: Option<Router>
    var srvMiddlewares: seq<Script>
    var srvMiddlewaresLen: int
    var middlewares: seq<Script>
    var middlewaresLen: int
    var handler: Option<Script>

    /** `Next` calls that have begun and not returned, and the most there ever were at once. */
    ghost var liveFrames: nat
    ghost var deepest: nat

    constructor ()
      ensures Idle() && deepest == 0
    {
      response := FRESH;
      middlewareIndex := 0;
      srvRouterHandler := None;
      srvMiddlewares, srvMiddlewaresLen := [], 0;
      middlewares, middlewaresLen := [], 0;
      handler := None;
      liveFrames, deepest := 0, 0;
    }

    /** A context in the pool: nothing is said of `middlewaresLen` or `srvMiddlewaresLen`. */
    ghost predicate Idle()
      reads this
    {
      middlewareIndex == 0 && liveFrames == 0 && handler == None
    }

    function SelectedRoute(): Option<Route>
      reads this
    {
      if handler.Some? then Some(Route(middlewares, handler.value)) else None
    }

    /** What the meaning of a chain speaks about. `middlewaresLen` is not part of it. */
    function Here(): Progress
      reads this
    {
      Progress(response, SelectedRoute())
    }

    /** The invariant while a request is served. */
    ghost predicate Serving()
      reads this
    {
      && middlewareIndex == liveFrames
      && srvRouterHandler.Some?
      && srvMiddlewaresLen == |srvMiddlewares|
      && (handler.Some? ==> middlewaresLen == |middlewares|)
      && (middlewareIndex <= srvMiddlewaresLen || handler.Some?)
      && (middlewareIndex > srvMiddlewaresLen ==> middlewareIndex <= srvMiddlewaresLen + 2 + middlewaresLen)
    }

    /** No route, selected or to be selected, has more than `longest` middlewares. */
    ghost predicate RoutesAtMost(longest: nat)
      reads this
    {
      && (handler.Some? ==> |middlewares| <= longest)
      && (srvRouterHandler.Some? ==>
            forall r: Response :: srvRouterHandler.value(r).Select? ==>
                |srvRouterHandler.value(r).route.middlewares| <= longest)
    }

    /** The meaning of what is left to run from the current index on. */
    ghost function Remaining(): Computation
      requires Serving()
      reads this
    {
      if middlewareIndex <= srvMiddlewaresLen then
        Server(srvMiddlewares[middlewareIndex..], srvRouterHandler.value)
      else if middlewareIndex < srvMiddlewaresLen + 2 + middlewaresLen then
        Chain(middlewares[middlewareIndex - srvMiddlewaresLen - 1..], Run(handler.value, Invalid()))
      else
        Invalid()
    }

    /** How far the index is from the router, then from the end of the route. */
    ghost function ToRouter(): nat
      reads this
    {
      if middlewareIndex <= srvMiddlewaresLen then srvMiddlewaresLen + 1 - middlewareIndex else 0
    }

    ghost function ToEnd(): nat
      reads this
    {
      if middlewareIndex <= srvMiddlewaresLen then 0
      else if middlewareIndex <= srvMiddlewaresLen + 2 + middlewaresLen then
        srvMiddlewaresLen + 3 + middlewaresLen - middlewareIndex
      else 0
    }

    /** What one call leaves as it found it: the index, and once the endpoint is selected, the endpoint. */
    twostate predicate Returned(longest: nat)
      reads this
    {
      && Serving() && RoutesAtMost(longest)
      && middlewareIndex == old(middlewareIndex)
      && srvRouterHandler == old(srvRouterHandler)
      && srvMiddlewares == old(srvMiddlewares)
      && (old(middlewareIndex) > srvMiddlewaresLen ==> SelectedRoute() == old(SelectedRoute()))
      && old(deepest) <= deepest <= Max(old(deepest), |srvMiddlewares| + longest + 3)
    }

    method SetHandlerParams(h: Script, mws: seq<Script>)
      modifies this`handler, this`middlewares, this`middlewaresLen
      ensures SelectedRoute() == Some(Route(mws, h)) && middlewaresLen == |mws|
    {
      handler := Some(h);
      middlewares := mws;
      middlewaresLen := |mws|;
    }

    method RouterHandler()
      requires srvRouterHandler.Some?
      requires handler.Some? ==> middlewaresLen == |middlewares|
      modifies this`response, this`handler, this`middlewares, this`middlewaresLen
      ensures Here() == Routed(srvRouterHandler.value, old(Here()))
      ensures handler.Some? ==> middlewaresLen == |middlewares|
    {
      match srvRouterHandler.value(response)
      case Select(route) =>
        SetHandlerParams(route.handler, route.middlewares);
      case Answer(status, event) =>
        response := Response(status, response.trace + [event]);
    }

    /** The index machine computes the composed chain from any point on, whatever the handlers do. */
    method Next(ghost longest: nat) returns (err: Option<Error>)
      requires Serving() && RoutesAtMost(longest)
      modifies this
      ensures Returned(longest)
      ensures (Here(), err) == old(Remaining())(old(Here()))
      ensures old(handler.Some? && middlewareIndex == srvMiddlewaresLen + 2 + |middlewares|) ==>
                err == Some(InvalidCallToNext) && response == old(response)
      decreases ToRouter(), ToEnd(), 0
    {
      ghost var remaining := Remaining();
      err := None;
      middlewareIndex := middlewareIndex + 1;
      liveFrames := liveFrames + 1;
      deepest := Max(deepest, liveFrames);
      if middlewareIndex <= srvMiddlewaresLen {
        assert srvMiddlewares[middlewareIndex - 1..][1..] == srvMiddlewares[middlewareIndex..];
        assert remaining == Run(srvMiddlewares[middlewareIndex - 1], Remaining());
        err := Call(srvMiddlewares[middlewareIndex - 1], longest);
      } else if middlewareIndex == srvMiddlewaresLen + 1 {
        assert remaining == Dispatch(srvRouterHandler.value);
        err := RouteAndContinue(longest);
      } else if middlewareIndex <= srvMiddlewaresLen + 1 + middlewaresLen {
        assert middlewares[middlewareIndex - srvMiddlewaresLen - 2..][1..]
            == middlewares[middlewareIndex - srvMiddlewaresLen - 1..];
        assert remaining == Run(middlewares[middlewareIndex - srvMiddlewaresLen - 2], Remaining());
        err := Call(middlewares[middlewareIndex - srvMiddlewaresLen - 2], longest);
      } else if middlewareIndex == srvMiddlewaresLen + 2 + middlewaresLen {
        assert remaining == Run(handler.value, Remaining());
        err := Call(handler.value, longest);
      } else {
        err := Some(InvalidCallToNext);
      }
      middlewareIndex := middlewareIndex - 1;
      liveFrames := liveFrames - 1;
    }

    /** The router's turn: the one point where the index is past the server's middlewares and
        no endpoint need be selected yet. */
    method RouteAndContinue(ghost longest: nat) returns (err: Option<Error>)
      requires middlewareIndex == liveFrames == |srvMiddlewares| + 1 && srvMiddlewaresLen == |srvMiddlewares|
      requires srvRouterHandler.Some? && (handler.Some? ==> middlewaresLen == |middlewares|) && RoutesAtMost(longest)
      modifies this
      ensures middlewareIndex == old(middlewareIndex) == liveFrames
      ensures srvRouterHandler == old(srvRouterHandler)
      ensures srvMiddlewares == old(srvMiddlewares) && srvMiddlewaresLen == |srvMiddlewares|
      ensures (handler.Some? ==> middlewaresLen == |middlewares|) && RoutesAtMost(longest)
      ensures old(deepest) <= deepest <= Max(old(deepest), |srvMiddlewares| + longest + 3)
      ensures (Here(), err) == Dispatch(srvRouterHandler.value)(old(Here()))
      ensures match srvRouterHandler.value(old(response))
              case Select(route) => old(response).status != 200 ==> response == old(response) && err == None
              case Answer(status, event) =>
                && (status != 200 ==> response == Response(status, old(response).trace + [event]) && err == None)
                && (status == 200 && old(handler) == None ==>
                      response == Response(200, old(response).trace + [event]) && err == Some(PathNotHandled))
      decreases 0, |srvMiddlewares| + 4 + longest, 1
    {
      err := None;
      RouterHandler();
      assert handler.Some? ==> middlewares[0..] == middlewares && Remaining() == Endpoint(SelectedRoute().value);
      if response.status == 200 {
        if handler.Some? {
          err := Next(longest);
        } else {
          err := Some(PathNotHandled);
        }
      }
    }

    /** Runs one handler, which may call `Next` on this context at will. */
    method Call(script: Script, ghost longest: nat) returns (err: Option<Error>)
      requires Serving() && RoutesAtMost(longest)
      modifies this
      ensures Returned(longest)
      ensures (Here(), err) == Run(script, old(Remaining()))(old(Here()))
      decreases ToRouter(), ToEnd(), 1, script
    {
      err := Continue(script, None, longest);
    }

    method Continue(script: Script, last: Option<Error>, ghost longest: nat) returns (err: Option<Error>)
      requires Serving() && RoutesAtMost(longest)
      modifies this
      ensures Returned(longest)
      ensures (Here(), err) == Exec(script, old(Remaining()), old(Here()), last)
      decreases ToRouter(), ToEnd(), 1, script, 0
    {
      match script
      case Return(reply) =>
        err := Replied(reply, last);
      case Emit(event, rest) =>
        response := response.(trace := response.trace + [event]);
        err := Continue(rest, last, longest);
      case SetStatus(status, rest) =>
        response := response.(status := status);
        err := Continue(rest, last, longest);
      case IfStatusOk(yes, no) =>
        err := Continue(if response.status == 200 then yes else no, last, longest);
      case CallNext(onOk, onError) =>
        var e := Next(longest);
        err := Continue(if e == None then onOk else onError, e, longest);
    }
  }

  /** One incoming request: how the router answers it, and which free context the pool hands
      out (a new one if there are fewer). */
  datatype Request = Request(router: Router, pick: nat)

  /** The meaning of a request, with no context and no pool in sight. */
  function Answered(middlewares: seq<Script>, router: Router, onError: (Response, Error) -> Response): Response {
    var (p, err) := Server(middlewares, router)(Progress(FRESH, None));
    if err.Some? then onError(p.response, err.value) else p.response
  }

  class Pool {
    var free: seq<Context>

    constructor ()
      ensures Valid() && free == []
    {
      free := [];
    }

    ghost predicate Valid()
      reads this, free
    {
      && (forall i :: 0 <= i < |free| ==> free[i].Idle())
      && (forall i, j :: 0 <= i < j < |free| ==> free[i] != free[j])
    }

    method NewRequestContext(router: Router, middlewares: seq<Script>, pick: nat) returns (req: Context)
      requires Valid()
      modifies this, free
      ensures Valid() && req !in free && req.deepest == 0
      ensures req in old(free) || fresh(req)
      ensures forall r <- free :: r in old(free)
      ensures req.Serving() && req.middlewareIndex == 0
      ensures req.Here() == Progress(FRESH, None)
      ensures req.srvMiddlewares == middlewares && req.srvRouterHandler == Some(router)
    {
      if pick < |free| {
        req := free[pick];
        free := free[..pick] + free[pick + 1..];
      } else {
        req := new Context();
      }
      req.response := FRESH;
      req.srvRouterHandler := Some(router);
      req.srvMiddlewares := middlewares;
      req.srvMiddlewaresLen := |middlewares|;
      req.deepest := 0;
    }

    /** The index and both lengths stay as they are. */
    method FreeRequestContext(req: Context)
      requires Valid() && req !in free
      requires req.middlewareIndex == req.liveFrames == 0
      modifies this, req
      ensures Valid() && free == old(free) + [req]
      ensures req.middlewareIndex == old(req.middlewareIndex)
      ensures req.middlewaresLen == old(req.middlewaresLen) && req.srvMiddlewaresLen == old(req.srvMiddlewaresLen)
    {
      req.response := FRESH;
      req.handler := None;
      req.srvRouterHandler := None;
      req.srvMiddlewares := [];
      req.middlewares := [];
      free := free + [req];
    }

    method Handle(r: Request, middlewares: seq<Script>, onError: (Response, Error) -> Response, ghost longest: nat)
      returns (response: Response, ghost depth: nat)
      requires Valid()
      requires forall q: Response :: r.router(q).Select? ==> |r.router(q).route.middlewares| <= longest
      modifies this, free
      ensures Valid() && fresh(set c | c in free && c !in old(free))
      ensures response == Answered(middlewares, r.router, onError)
      ensures var (p, err) := Server(middlewares, r.router)(Progress(FRESH, None));
              response == match err
                          case None => p.response
                          case Some(e) => onError(p.response, e)
      ensures depth <= |middlewares| + longest + 3
    {
      var req := NewRequestContext(r.router, middlewares, r.pick);
      label checkedOut:
      assert req.Remaining() == Server(middlewares, r.router) by {
        assert middlewares[0..] == middlewares;
      }
      var err := req.Next(longest);
      if err.Some? {
        req.response := onError(req.response, err.value);
      }
      response, depth := req.response, req.deepest;
      FreeRequestContext(req);
    }
  }

  /** However contexts are recycled, every request of a sequence is answered as if it were the
      first one, with a context of its own, and no `Next` nests deeper than the chain is long. */
  method HandleAll(pool: Pool, requests: seq<Request>, middlewares: seq<Script>,
                   onError: (Response, Error) -> Response, ghost longest: nat)
    returns (responses: seq<Response>, ghost deepest: nat)
    requires pool.Valid()
    requires forall r <- requests :: forall q: Response :: r.router(q).Select? ==>
             |r.router(q).route.middlewares| <= longest
    modifies pool, pool.free
    ensures pool.Valid()
    ensures |responses| == |requests| && deepest <= |middlewares| + longest + 3
    ensures forall i :: 0 <= i < |requests| ==> responses[i] == Answered(middlewares, requests[i].router, onError)
  {
    responses, deepest := [], 0;
    for i := 0 to |requests|
      invariant pool.Valid() && |responses| == i && deepest <= |middlewares| + longest + 3
      invariant fresh(set c | c in pool.free && c !in old(pool.free))
      invariant forall j :: 0 <= j < i ==> responses[j] == Answered(middlewares, requests[j].router, onError)
    {
      var response, depth := pool.Handle(requests[i], middlewares, onError, longest);
      deepest := Max(deepest, depth);
      responses := responses + [response];
    }
  }

  // ----- requests that overlap

  /** What happens to requests that are in the server at the same time, in any order: one comes in
      and checks a context out, one is run through the chain, one leaves and gives its context back. */
  datatype Event = Enter(router: Router, pick: nat) | Work(i: nat) | Leave(i: nat)

  /** A request in the server, and whether it has been answered. */
  datatype Ticket = Ticket(router: Router, done: bool)

  function Moved(live: seq<Ticket>, e: Event): seq<Ticket> {
    match e
    case Enter(router, _) => live + [Ticket(router, false)]
    case Work(i) => if i < |live| then live[i := live[i].(done := true)] else live
    case Leave(i) => if i < |live| && live[i].done then live[..i] + live[i + 1..] else live
  }

  /** The router of the request that is answered by an event, if one is. */
  function AnsweredBy(live: seq<Ticket>, e: Event): seq<Router> {
    if e.Work? && e.i < |live| && !live[e.i].done then [live[e.i].router] else []
  }

  function Inside(events: seq<Event>): seq<Ticket> {
    if events == [] then [] else Moved(Inside(events[..|events| - 1]), events[|events| - 1])
  }

  /** The routers of the requests answered, in the order of their answers. */
  function AnsweredOnes(events: seq<Event>): seq<Router> {
    if events == [] then []
    else AnsweredOnes(events[..|events| - 1]) + AnsweredBy(Inside(events[..|events| - 1]), events[|events| - 1])
  }

  ghost predicate RoutesBounded(router: Router, longest: nat) {
    forall q: Response :: router(q).Select? ==> |router(q).route.middlewares| <= longest
  }

  ghost predicate Ready(c: Context, ticket: Ticket, middlewares: seq<Script>)
    reads c
  {
    && c.middlewareIndex == 0 && c.liveFrames == 0
    && (!ticket.done ==>
          && c.Serving() && c.Here() == Progress(FRESH, None) && c.deepest == 0
          && c.srvMiddlewares == middlewares && c.srvRouterHandler == Some(ticket.router))
  }

  /** The contexts checked out are different from each other and from all in the pool. */
  ghost predicate Apart(pool: Pool, contexts: seq<Context>)
    reads pool
  {
    && (forall i, j :: 0 <= i < j < |contexts| ==> contexts[i] != contexts[j])
    && (forall i :: 0 <= i < |contexts| ==> contexts[i] !in pool.free)
  }

  ghost predicate AtWork(pool: Pool, contexts: seq<Context>, live: seq<Ticket>, middlewares: seq<Script>)
    reads pool, pool.free, contexts
  {
    && pool.Valid() && Apart(pool, contexts) && |contexts| == |live|
    && (forall i :: 0 <= i < |contexts| ==> Ready(contexts[i], live[i], middlewares))
  }

  method CheckOut(pool: Pool, contexts: seq<Context>, router: Router, pick: nat,
                  live: seq<Ticket>, middlewares: seq<Script>)
    returns (contexts': seq<Context>)
    requires AtWork(pool, contexts, live, middlewares)
    modifies pool, pool.free
    ensures AtWork(pool, contexts', live + [Ticket(router, false)], middlewares)
    ensures forall c <- contexts' :: c in contexts || c in old(pool.free) || fresh(c)
    ensures forall c <- pool.free :: c in old(pool.free)
  {
    var req := pool.NewRequestContext(router, middlewares, pick);
    contexts' := contexts + [req];
  }

  /** Runs one request; the contexts of all others stay as they are. */
  method RunOne(pool: Pool, contexts: seq<Context>, i: nat, live: seq<Ticket>, middlewares: seq<Script>,
                onError: (Response, Error) -> Response, ghost longest: nat)
    returns (response: Response, ghost depth: nat)
    requires AtWork(pool, contexts, live, middlewares) && i < |live| && !live[i].done
    requires RoutesBounded(live[i].router, longest)
    modifies contexts[i]
    ensures AtWork(pool, contexts, live[i := live[i].(done := true)], middlewares)
    ensures response == Answered(middlewares, live[i].router, onError) && depth <= |middlewares| + longest + 3
  {
    var req := contexts[i];
    assert Ready(req, live[i], middlewares);
    assert req.Remaining() == Server(middlewares, live[i].router) by {
      assert middlewares[0..] == middlewares;
    }
    assert req.RoutesAtMost(longest);
    var err := req.Next(longest);
    if err.Some? {
      req.response := onError(req.response, err.value);
    }
    response, depth := req.response, req.deepest;
    ghost var live' := live[i := live[i].(done := true)];
    forall j | 0 <= j < |contexts| ensures Ready(contexts[j], live'[j], middlewares) {
      if j != i { assert contexts[j] != req; }
    }
  }

  method GiveBack(pool: Pool, contexts: seq<Context>, i: nat, live: seq<Ticket>, middlewares: seq<Script>)
    returns (contexts': seq<Context>)
    requires AtWork(pool, contexts, live, middlewares) && i < |live| && live[i].done
    modifies pool, contexts[i]
    ensures AtWork(pool, contexts', live[..i] + live[i + 1..], middlewares)
    ensures forall c <- contexts' :: c in contexts
    ensures forall c <- pool.free :: c in old(pool.free) || c in contexts
  {
    var req := contexts[i];
    assert Ready(req, live[i], middlewares);
    pool.FreeRequestContext(req);
    contexts' := contexts[..i] + contexts[i + 1..];
    ghost var live' := live[..i] + live[i + 1..];
    forall j | 0 <= j < |contexts'| ensures Ready(contexts'[j], live'[j], middlewares) && contexts'[j] !in pool.free {
      var k := if j < i then j else j + 1;
      assert contexts'[j] == contexts[k] && contexts[k] != req;
    }
  }

  /** Each response is the one its request would get alone. */
  ghost predicate AllAnswered(responses: seq<Response>, routers: seq<Router>, middlewares: seq<Script>,
                              onError: (Response, Error) -> Response)
  {
    && |responses| == |routers|
    && forall i :: 0 <= i < |responses| ==> responses[i] == Answered(middlewares, routers[i], onError)
  }

  lemma AnsweredAppend(a: seq<Response>, r: seq<Router>, a': seq<Response>, r': seq<Router>, middlewares: seq<Script>,
                       onError: (Response, Error) -> Response)
    requires AllAnswered(a, r, middlewares, onError) && AllAnswered(a', r', middlewares, onError)
    ensures AllAnswered(a + a', r + r', middlewares, onError)
  {
  }

  ghost predicate AllBounded(live: seq<Ticket>, longest: nat) {
    forall i :: 0 <= i < |live| ==> RoutesBounded(live[i].router, longest)
  }

  lemma MovedBounded(live: seq<Ticket>, e: Event, longest: nat)
    requires AllBounded(live, longest) && (e.Enter? ==> RoutesBounded(e.router, longest))
    ensures AllBounded(Moved(live, e), longest)
  {
  }

  /** One event. What is checked out or free afterwards was so before, or is new. */
  method Happen(pool: Pool, e: Event, contexts: seq<Context>, live: seq<Ticket>, middlewares: seq<Script>,
                onError: (Response, Error) -> Response, ghost longest: nat)
    returns (contexts': seq<Context>, answers: seq<Response>, ghost depth: nat)
    requires AtWork(pool, contexts, live, middlewares)
    requires AllBounded(live, longest)
    modifies pool, pool.free, contexts
    ensures AtWork(pool, contexts', Moved(live, e), middlewares)
    ensures forall c <- contexts' :: c in contexts || c in old(pool.free) || fresh(c)
    ensures forall c <- pool.free :: c in contexts || c in old(pool.free)
    ensures AllAnswered(answers, AnsweredBy(live, e), middlewares, onError) && depth <= |middlewares| + longest + 3
  {
    contexts', answers, depth := contexts, [], 0;
    if e.Enter? {
      contexts' := CheckOut(pool, contexts, e.router, e.pick, live, middlewares);
    } else if e.i < |live| && e.Work? && !live[e.i].done {
      var response;
      response, depth := RunOne(pool, contexts, e.i, live, middlewares, onError, longest);
      answers := [response];
    } else if e.i < |live| && e.Leave? && live[e.i].done {
      contexts' := GiveBack(pool, contexts, e.i, live, middlewares);
    } else {
      assert Moved(live, e) == live;
    }
  }

  /** However requests overlap and contexts are recycled, every request is answered as if it were
      alone, with a context of its own. */
  method ServeOverlapping(pool: Pool, events: seq<Event>, middlewares: seq<Script>,
                          onError: (Response, Error) -> Response, ghost longest: nat)
    returns (responses: seq<Response>, ghost deepest: nat)
    requires pool.Valid()
    requires forall e <- events :: e.Enter? ==> RoutesBounded(e.router, longest)
    modifies pool, pool.free
    ensures pool.Valid()
    ensures deepest <= |middlewares| + longest + 3
    ensures AllAnswered(responses, AnsweredOnes(events), middlewares, onError)
  {
    responses, deepest := [], 0;
    var contexts: seq<Context> := [];
    var live: seq<Ticket> := [];
    for n := 0 to |events|
      invariant AtWork(pool, contexts, live, middlewares) && live == Inside(events[..n])
      invariant AllBounded(live, longest)
      invariant fresh(set c | c in contexts && c !in old(pool.free))
      invariant fresh(set c | c in pool.free && c !in old(pool.free))
      invariant deepest <= |middlewares| + longest + 3
      invariant AllAnswered(responses, AnsweredOnes(events[..n]), middlewares, onError)
    {
      assert events[..n + 1][..n] == events[..n];
      ghost var depth;
      var answers;
      contexts, answers, depth := Happen(pool, events[n], contexts, live, middlewares, onError, longest);
      AnsweredAppend(responses, AnsweredOnes(events[..n]), answers, AnsweredBy(live, events[n]), middlewares, onError);
      MovedBounded(live, events[n], longest);
      responses := responses + answers;
      deepest := Max(deepest, depth);
      live := Moved(live, events[n]);
    }
    assert events[..|events|] == events;
  }
}
