/**
 The life of a server under any number of concurrent `Start` and `Stop` calls
 (webserver.go:271-317, webserver_serve.go:28-67).

 Each call, each listener goroutine and each `serveLoop` advances one atomic step at a time,
 in any order. The state word is written both by compare-and-swap and by plain stores.
 */
module ServerLifecycle {
  import opened Wrappers

  const NOT_STARTED := 1
  const STARTING := 2
  const RUNNING := 3
  const STOPPING := 4
  const STOPPED := 5

  type Tid = nat

  datatype StartPc =
    | Called              // before the compare-and-swap
    | Won                 // before the listener is created
    | ListenFailed        // before the state is put back
    | Listening           // listener goroutine begun; before the store of RUNNING
    | Announced           // before serveLoop is begun
    | Returned(ok: bool)

  datatype Listener = NotBegun | Serving | Gone

  datatype LoopPc =
    | Absent
    | Waiting             // in the select
    | TookError(failed: bool)
    | ErrorStored         // after the store of STOPPING
    | InErrorHandler
    | TookSignal
    | ShuttingDown        // after the store of STOPPING
    | Finishing           // before the store of STOPPED
    | Done

  /** One `Start` call with the goroutines it begins and its one-slot error channel. */
  datatype StartCall = StartCall(pc: StartPc, listener: Listener, channel: Option<bool>, loop: LoopPc)

  datatype StopPc = Asked | Sending | Spinning | Left(won: bool)

  /** `signals` is the content of the one-slot shutdown channel. `owner` and `winner` only
      record which `Start` moved the state off NOT_STARTED and which `Stop` won its swap. */
  datatype State = State(
    word: int,
    starts: map<Tid, StartCall>,
    stops: map<Tid, StopPc>,
    signals: nat,
    owner: Option<Tid>,
    winner: Option<Tid>)

  const INITIAL := State(NOT_STARTED, map[], map[], 0, None, None)

  datatype Action =
    | CallStart(t: Tid)
    | CallStop(t: Tid)
    | StepStart(t: Tid, listens: bool)
    | ServeReturns(t: Tid, failed: bool)
    | StepLoop(t: Tid, takeError: bool, hasHandler: bool)
    | StepStop(t: Tid)

  function Put(s: State, t: Tid, c: StartCall): State {
    s.(starts := s.starts[t := c])
  }

  function StartStep(s: State, t: Tid, listens: bool): State
    requires t in s.starts
  {
    var c := s.starts[t];
    match c.pc
    case Called =>
      if s.word == NOT_STARTED then Put(s, t, c.(pc := Won)).(word := STARTING, owner := Some(t))
      else Put(s, t, c.(pc := Returned(false)))
    case Won => Put(s, t, if listens then c.(pc := Listening, listener := Serving) else c.(pc := ListenFailed))
    case ListenFailed => Put(s, t, c.(pc := Returned(false))).(word := NOT_STARTED, owner := None)
    case Listening => Put(s, t, c.(pc := Announced)).(word := RUNNING)
    case Announced => Put(s, t, c.(pc := Returned(true), loop := Waiting))
    case Returned(_) => s
  }

  /** `Serve` comes back, with an error or after a shutdown, and its result goes into the channel. */
  function ServeStep(s: State, t: Tid, failed: bool): State
    requires t in s.starts
  {
    var c := s.starts[t];
    if c.listener == Serving && c.channel == None then Put(s, t, c.(listener := Gone, channel := Some(failed))) else s
  }

  function LoopStep(s: State, t: Tid, takeError: bool, hasHandler: bool): State
    requires t in s.starts
  {
    var c := s.starts[t];
    match c.loop
    case Absent => s
    case Waiting =>
      if c.channel.Some? && (takeError || s.signals == 0) then
        Put(s, t, c.(loop := TookError(c.channel.value), channel := None))
      else if s.signals > 0 then
        Put(s, t, c.(loop := TookSignal)).(signals := s.signals - 1)
      else s
    case TookError(failed) =>
      Put(s, t, c.(loop := if hasHandler && failed then InErrorHandler else ErrorStored)).(word := STOPPING)
    case InErrorHandler => Put(s, t, c.(loop := Finishing))
    case ErrorStored => Put(s, t, c.(loop := Finishing))
    case TookSignal => Put(s, t, c.(loop := ShuttingDown)).(word := STOPPING)
    case ShuttingDown => Put(s, t, c.(loop := Finishing))
    case Finishing => Put(s, t, c.(loop := Done)).(word := STOPPED)
    case Done => s
  }

  function StopStep(s: State, t: Tid): State
    requires t in s.stops
  {
    match s.stops[t]
    case Asked =>
      if s.word == RUNNING then s.(stops := s.stops[t := Sending], word := STOPPING, winner := Some(t))
      else s.(stops := s.stops[t := Left(false)])
    case Sending =>
      if s.signals == 0 then s.(stops := s.stops[t := Spinning], signals := 1) else s
    case Spinning => if s.word == STOPPING then s else s.(stops := s.stops[t := Left(true)])
    case Left(_) => s
  }

  function Perform(s: State, a: Action): State {
    match a
    case CallStart(t) => if t in s.starts then s else Put(s, t, StartCall(Called, NotBegun, None, Absent))
    case CallStop(t) => if t in s.stops then s else s.(stops := s.stops[t := Asked])
    case StepStart(t, listens) => if t in s.starts then StartStep(s, t, listens) else s
    case ServeReturns(t, failed) => if t in s.starts then ServeStep(s, t, failed) else s
    case StepLoop(t, takeError, hasHandler) => if t in s.starts then LoopStep(s, t, takeError, hasHandler) else s
    case StepStop(t) => if t in s.stops then StopStep(s, t) else s
  }

  function Execute(actions: seq<Action>): State {
    if actions == [] then INITIAL
    else Perform(Execute(actions[..|actions| - 1]), actions[|actions| - 1])
  }

  // ----- the invariant

  /** A `Start` call that has won its swap and not put the state back. */
  predicate Active(pc: StartPc) {
    pc.Won? || pc.ListenFailed? || pc.Listening? || pc.Announced? || pc == Returned(true)
  }

  predicate CallInv(s: State, t: Tid)
    requires t in s.starts
  {
    var c := s.starts[t];
    && (Active(c.pc) <==> s.owner == Some(t))
    && (c.pc.Won? || c.pc.ListenFailed? || c.pc.Listening? ==> s.word == STARTING)
    && (c.pc.Announced? ==> s.word == RUNNING || s.word == STOPPING)
    && (c.pc == Returned(true) <==> c.loop != Absent)
    && (c.loop.Waiting? || c.loop.TookError? ==> s.word == RUNNING || s.word == STOPPING)
    && (c.loop.ErrorStored? || c.loop.InErrorHandler? || c.loop.TookSignal? || c.loop.ShuttingDown? || c.loop.Finishing?
        ==> s.word == STOPPING)
    && (c.loop.Done? ==> s.word == STOPPED)
    && (c.loop.TookError? && s.word == STOPPING ==> s.winner.Some?)
    && (c.loop.TookSignal? || c.loop.ShuttingDown? ==> s.winner.Some?)
    && (c.loop.TookError? || c.loop.ErrorStored? || c.loop.InErrorHandler? ==> c.listener == Gone)
    && (c.loop.Finishing? || c.loop.Done? ==> c.listener == Gone || s.winner.Some?)
    && (c.listener != Gone ==> c.channel == None)
    && (c.pc.Called? || c.pc.Won? || c.pc.ListenFailed? ==> c.listener == NotBegun)
    && (c.pc.Announced? || c.loop.Waiting? ==>
          && (s.word == STOPPING ==> s.winner.Some?)
          && (s.winner.Some? && s.winner.value in s.stops && s.stops[s.winner.value] != Sending ==> s.signals == 1))
  }

  predicate StopInv(s: State, t: Tid)
    requires t in s.stops
  {
    && (s.stops[t] in {Sending, Spinning, Left(true)} <==> s.winner == Some(t))
    && (s.stops[t] == Sending ==> s.signals == 0)
    && (s.stops[t] in {Sending, Spinning} ==> s.word == STOPPING || s.word == STOPPED)
    && (s.stops[t] == Left(true) ==> s.word == STOPPED)
  }

  ghost predicate Inv(s: State) {
    && NOT_STARTED <= s.word <= STOPPED
    && (s.owner == None <==> s.word == NOT_STARTED)
    && (s.owner.Some? ==> s.owner.value in s.starts)
    && (s.winner.Some? ==> s.winner.value in s.stops && (s.word == STOPPING || s.word == STOPPED))
    && s.signals <= 1
    && (s.winner == None ==> s.signals == 0)
    && (forall t :: t in s.starts ==> CallInv(s, t))
    && (forall t :: t in s.stops ==> StopInv(s, t))
  }

  lemma StartStepKeepsInv(s: State, t: Tid, listens: bool)
    requires Inv(s) && t in s.starts
    ensures Inv(StartStep(s, t, listens))
  {
    var s' := StartStep(s, t, listens);
    assert CallInv(s, t);
    forall u | u in s'.starts ensures CallInv(s', u) { assert CallInv(s, u); }
    forall u | u in s'.stops ensures StopInv(s', u) { assert StopInv(s, u); }
  }

  lemma ServeStepKeepsInv(s: State, t: Tid, failed: bool)
    requires Inv(s) && t in s.starts
    ensures Inv(ServeStep(s, t, failed))
  {
    var s' := ServeStep(s, t, failed);
    forall u | u in s'.starts ensures CallInv(s', u) { assert CallInv(s, u); }
    forall u | u in s'.stops ensures StopInv(s', u) { assert StopInv(s, u); }
  }

  lemma LoopStepKeepsInv(s: State, t: Tid, takeError: bool, hasHandler: bool)
    requires Inv(s) && t in s.starts
    ensures Inv(LoopStep(s, t, takeError, hasHandler))
  {
    var s' := LoopStep(s, t, takeError, hasHandler);
    assert CallInv(s, t);
    forall u | u in s'.starts ensures CallInv(s', u) { assert CallInv(s, u); }
    forall u | u in s'.stops ensures StopInv(s', u) { assert StopInv(s, u); }
  }

  lemma StopStepKeepsInv(s: State, t: Tid)
    requires Inv(s) && t in s.stops
    ensures Inv(StopStep(s, t))
  {
    var s' := StopStep(s, t);
    assert StopInv(s, t);
    if s.owner.Some? { assert CallInv(s, s.owner.value); }
    forall u | u in s'.starts ensures CallInv(s', u) { assert CallInv(s, u); }
    forall u | u in s'.stops ensures StopInv(s', u) { assert StopInv(s, u); }
  }

  lemma PerformKeepsInv(s: State, a: Action)
    requires Inv(s)
    ensures Inv(Perform(s, a))
  {
    match a
    case StepStart(t, listens) => if t in s.starts { StartStepKeepsInv(s, t, listens); }
    case ServeReturns(t, failed) => if t in s.starts { ServeStepKeepsInv(s, t, failed); }
    case StepLoop(t, takeError, hasHandler) => if t in s.starts { LoopStepKeepsInv(s, t, takeError, hasHandler); }
    case StepStop(t) => if t in s.stops { StopStepKeepsInv(s, t); }
    case _ =>
      var s' := Perform(s, a);
      forall u | u in s'.starts ensures CallInv(s', u) { if u in s.starts { assert CallInv(s, u); } }
      forall u | u in s'.stops ensures StopInv(s', u) { if u in s.stops { assert StopInv(s, u); } }
  }

  lemma {:induction false} AlwaysInv(actions: seq<Action>)
    ensures Inv(Execute(actions))
  {
    if actions == [] {
    } else {
      AlwaysInv(actions[..|actions| - 1]);
      PerformKeepsInv(Execute(actions[..|actions| - 1]), actions[|actions| - 1]);
    }
  }

  // ----- what it means

  /** The steps the state word may take. */
  predicate Legal(from: int, to: int) {
    from == to || (from, to) in {(NOT_STARTED, STARTING), (STARTING, NOT_STARTED), (STARTING, RUNNING),
                                 (RUNNING, STOPPING), (STOPPING, STOPPED)}
  }

  lemma StepIsLegal(s: State, a: Action)
    requires Inv(s)
    ensures Legal(s.word, Perform(s, a).word)
  {
    match a
    case StepStart(t, _) => if t in s.starts { assert CallInv(s, t); }
    case StepLoop(t, _, _) => if t in s.starts { assert CallInv(s, t); }
    case _ =>
  }

  /** Although most writes are plain stores, every step of every run is a legal one; nothing leaves STOPPED. */
  lemma StepsAreLegal(actions: seq<Action>, a: Action)
    ensures Legal(Execute(actions).word, Execute(actions + [a]).word)
  {
    assert (actions + [a])[..|actions|] == actions;
    AlwaysInv(actions);
    StepIsLegal(Execute(actions), a);
  }

  // ----- who wins, and what the winner does

  /** The next step of a `Start` that has been called: it wins if and only if the server was not
      started, and else gives up and changes nothing. */
  lemma StartWins(actions: seq<Action>, t: Tid, listens: bool)
    requires t in Execute(actions).starts && Execute(actions).starts[t].pc == Called
    ensures var s, s' := Execute(actions), Execute(actions + [StepStart(t, listens)]);
            if s.word == NOT_STARTED then
              s'.word == STARTING && s'.owner == Some(t) && t in s'.starts && s'.starts[t].pc == Won
            else
              s'.word == s.word && s'.owner == s.owner && t in s'.starts && s'.starts[t].pc == Returned(false)
  {
    assert (actions + [StepStart(t, listens)])[..|actions|] == actions;
  }

  /** The next step of a `Stop` that has been called: it wins if and only if the server is running,
      and else gives up and changes nothing. */
  lemma StopWins(actions: seq<Action>, t: Tid)
    requires t in Execute(actions).stops && Execute(actions).stops[t] == Asked
    ensures var s, s' := Execute(actions), Execute(actions + [StepStop(t)]);
            if s.word == RUNNING then
              s'.word == STOPPING && s'.winner == Some(t) && s'.stops == s.stops[t := Sending]
            else
              s' == s.(stops := s.stops[t := Left(false)])
  {
    assert (actions + [StepStop(t)])[..|actions|] == actions;
  }

  /** What `serveLoop` does with an error: the handler runs exactly if there is one and `Serve`
      did return an error. */
  lemma HandlerRunsExactly(actions: seq<Action>, t: Tid, takeError: bool, hasHandler: bool)
    requires t in Execute(actions).starts && Execute(actions).starts[t].loop.TookError?
    ensures var s, s' := Execute(actions), Execute(actions + [StepLoop(t, takeError, hasHandler)]);
            && s'.word == STOPPING && t in s'.starts
            && (s'.starts[t].loop == InErrorHandler <==> hasHandler && s.starts[t].loop.failed)
            && (s'.starts[t].loop == ErrorStored <==> !(hasHandler && s.starts[t].loop.failed))
  {
    assert (actions + [StepLoop(t, takeError, hasHandler)])[..|actions|] == actions;
  }

  /** What is in the channel, and what the loop took from it, is what `Serve` returned. */
  predicate FromServe(c: StartCall, t: Tid, actions: seq<Action>) {
    && (c.channel.Some? ==> ServeReturns(t, c.channel.value) in actions)
    && (c.loop.TookError? ==> ServeReturns(t, c.loop.failed) in actions)
    && (c.loop.InErrorHandler? ==> ServeReturns(t, true) in actions)
    && (c.listener == Gone ==> ServeReturns(t, true) in actions || ServeReturns(t, false) in actions)
  }

  lemma {:induction false} ErrorsComeFromServe(actions: seq<Action>, t: Tid)
    requires t in Execute(actions).starts
    ensures FromServe(Execute(actions).starts[t], t, actions)
  {
    if actions == [] {
    } else {
      var n := |actions| - 1;
      if t in Execute(actions[..n]).starts {
        ErrorsComeFromServe(actions[..n], t);
      }
      assert actions == actions[..n] + [actions[n]];
      StepFromServe(Execute(actions[..n]), actions[n], t, actions[..n]);
    }
  }

  lemma StepFromServe(s: State, a: Action, t: Tid, actions: seq<Action>)
    requires t in s.starts ==> FromServe(s.starts[t], t, actions)
    requires t in Perform(s, a).starts
    ensures FromServe(Perform(s, a).starts[t], t, actions + [a])
  {
    if t in s.starts {
      if a.StepLoop? && a.t == t {
        LoopFromServe(s, a, t, actions);
      } else if a.StepLoop? || a.StepStop? || a.CallStop? {
        assert Perform(s, a).starts[t] == s.starts[t];
      }
    }
  }

  lemma LoopFromServe(s: State, a: Action, t: Tid, actions: seq<Action>)
    requires t in s.starts && a.StepLoop? && a.t == t && FromServe(s.starts[t], t, actions)
    ensures FromServe(LoopStep(s, t, a.takeError, a.hasHandler).starts[t], t, actions + [a])
  {
  }

  predicate SeenShutdown(actions: seq<Action>, t: Tid, n: nat)
    requires n <= |actions|
  {
    t in Execute(actions[..n]).starts && Execute(actions[..n]).starts[t].loop == ShuttingDown
  }

  lemma CameFromShutdown(s: State, a: Action, t: Tid)
    requires Inv(s) && t in Perform(s, a).starts && Perform(s, a).starts[t].listener != Gone
    requires Perform(s, a).starts[t].loop in {Finishing, Done}
    ensures t in s.starts && s.starts[t].loop in {ShuttingDown, Finishing, Done}
  {
    if t in s.starts {
      assert CallInv(s, t);
      if ActorOf(a) != Looper(t) {
        LoopUntouched(s, a, t);
      }
    }
  }

  lemma LoopUntouched(s: State, a: Action, t: Tid)
    requires t in s.starts && ActorOf(a) != Looper(t)
    ensures t in Perform(s, a).starts
    ensures var pc' := Perform(s, a).starts[t].loop; pc' == s.starts[t].loop || pc' == Waiting
  {
  }

  /** A server that stopped although `Serve` never returned was shut down on the way. */
  lemma {:induction false} ShutsDown(actions: seq<Action>, t: Tid)
    requires t in Execute(actions).starts && Execute(actions).starts[t].loop in {ShuttingDown, Finishing, Done}
    requires ServeReturns(t, true) !in actions && ServeReturns(t, false) !in actions
    ensures exists n :: 0 <= n <= |actions| && SeenShutdown(actions, t, n)
  {
    ErrorsComeFromServe(actions, t);
    if Execute(actions).starts[t].loop == ShuttingDown {
      assert actions[..|actions|] == actions;
      assert SeenShutdown(actions, t, |actions|);
    } else {
      var m := |actions| - 1;
      AlwaysInv(actions[..m]);
      CameFromShutdown(Execute(actions[..m]), actions[m], t);
      assert actions == actions[..m] + [actions[m]];
      ShutsDown(actions[..m], t);
      var n :| 0 <= n <= m && SeenShutdown(actions[..m], t, n);
      assert actions[..m][..n] == actions[..n];
      assert SeenShutdown(actions, t, n);
    }
  }

  /** At most one `Start` call ever succeeds, and at most one `serveLoop` ever exists; it belongs
      to the `Start` that succeeded. */
  lemma OneServer(actions: seq<Action>, t: Tid, u: Tid)
    requires t in Execute(actions).starts && u in Execute(actions).starts
    ensures var s := Execute(actions);
            && (s.starts[t].pc == Returned(true) <==> s.starts[t].loop != Absent)
            && (Active(s.starts[t].pc) && Active(s.starts[u].pc) ==> t == u)
            && (s.starts[t].loop != Absent && s.starts[u].loop != Absent ==> t == u)
  {
    AlwaysInv(actions);
    assert CallInv(Execute(actions), t) && CallInv(Execute(actions), u);
  }

  /** At most one `Stop` call wins its swap. Its send finds the one slot empty whenever it comes
      to it, so it never blocks, and it comes back only once the server has stopped. */
  lemma OneStopper(actions: seq<Action>, t: Tid, u: Tid)
    requires t in Execute(actions).stops && u in Execute(actions).stops
    ensures var s := Execute(actions);
            var winning := {Sending, Spinning, Left(true)};
            && (s.stops[t] in winning && s.stops[u] in winning ==> t == u)
            && (s.stops[t] == Sending ==> Perform(s, StepStop(t)).stops[t] == Spinning)
            && (s.stops[t] == Left(true) ==> s.word == STOPPED)
  {
    AlwaysInv(actions);
    assert StopInv(Execute(actions), t) && StopInv(Execute(actions), u);
  }

  /** The listener goroutine's send never blocks either. */
  lemma ListenerNeverBlocks(actions: seq<Action>, t: Tid, failed: bool)
    requires t in Execute(actions).starts && Execute(actions).starts[t].listener == Serving
    ensures Perform(Execute(actions), ServeReturns(t, failed)).starts[t].channel == Some(failed)
  {
    AlwaysInv(actions);
    assert CallInv(Execute(actions), t);
  }

  /** `Stop` called while the listen-error handler runs, by the handler for one, loses its swap
      and comes back at once. */
  lemma StopInErrorHandler(actions: seq<Action>, t: Tid, u: Tid)
    requires t in Execute(actions).starts && Execute(actions).starts[t].loop == InErrorHandler
    requires u in Execute(actions).stops && Execute(actions).stops[u] == Asked
    ensures Perform(Execute(actions), StepStop(u)).stops[u] == Left(false)
  {
    AlwaysInv(actions);
    assert CallInv(Execute(actions), t);
  }

  // ----- a winning Stop gets there

  function LoopRank(pc: LoopPc): nat {
    match pc
    case Absent => 5
    case Waiting => 4
    case TookError(_) => 3
    case TookSignal => 3
    case ErrorStored => 2
    case InErrorHandler => 2
    case ShuttingDown => 2
    case Finishing => 1
    case Done => 0
  }

  predicate Ending(s: State) {
    && s.owner.Some? && s.owner.value in s.starts
    && s.winner.Some? && s.winner.value in s.stops
  }

  /** Steps left until the server has stopped and the winning `Stop` has come back. */
  function StepsLeft(s: State): nat
    requires Ending(s)
  {
    LoopRank(s.starts[s.owner.value].loop)
    + match s.stops[s.winner.value] case Asked => 3 case Sending => 2 case Spinning => 1 case Left(_) => 0
  }

  /** The steps that bring the end closer: of the winning `Stop`, of the `Start` that has yet to
      begin its `serveLoop`, or of that loop, whichever channel its select takes and whether or
      not there is a listen-error handler. */
  predicate Useful(s: State, a: Action)
    requires Ending(s)
  {
    if s.stops[s.winner.value] == Sending || s.word == STOPPED then a == StepStop(s.winner.value)
    else if s.starts[s.owner.value].pc == Announced then a.StepStart? && a.t == s.owner.value
    else a.StepLoop? && a.t == s.owner.value
  }

  /** Once a `Stop` has won, and until it has come back, every useful step takes the server closer
      to STOPPED and no step takes it further away. */
  lemma StopGetsThere(actions: seq<Action>, a: Action)
    requires Execute(actions).winner.Some?
    ensures var s := Execute(actions);
            && Ending(s)
            && (s.stops[s.winner.value] != Left(true) && Useful(s, a) ==> StepsLeft(Perform(s, a)) < StepsLeft(s))
            && Perform(s, a).owner == s.owner && Perform(s, a).winner == s.winner
            && Ending(Perform(s, a))
            && StepsLeft(Perform(s, a)) <= StepsLeft(s)
  {
    AlwaysInv(actions);
    UsefulStep(Execute(actions), a);
    NoStepBack(Execute(actions), a);
  }

  /** Every step that a `serveLoop` takes lowers its rank, so it has at most four of them. */
  lemma LoopStepsLower(s: State, t: Tid, takeError: bool, hasHandler: bool)
    requires t in s.starts && s.starts[t].loop != Absent
    ensures var pc, pc' := s.starts[t].loop, LoopStep(s, t, takeError, hasHandler).starts[t].loop;
            && LoopRank(pc) <= 4
            && (pc' != pc ==> LoopRank(pc') < LoopRank(pc))
            && (pc' == pc ==> pc == Done || (pc == Waiting && s.starts[t].channel == None && s.signals == 0))
  {
  }

  lemma NoStepBack(s: State, a: Action)
    requires Inv(s) && s.winner.Some?
    requires Ending(s)
    ensures var s' := Perform(s, a);
            && s'.owner == s.owner && s'.winner == s.winner && Ending(s')
            && StepsLeft(s') <= StepsLeft(s)
  {
    assert CallInv(s, s.owner.value) && StopInv(s, s.winner.value);
    match a
    case StepStart(t, _) => if t in s.starts { assert CallInv(s, t); }
    case StepLoop(t, takeError, hasHandler) => if t in s.starts { LoopNoStepBack(s, t, takeError, hasHandler); }
    case StepStop(t) => if t in s.stops { assert StopInv(s, t); }
    case _ =>
  }

  lemma LoopNoStepBack(s: State, t: Tid, takeError: bool, hasHandler: bool)
    requires Inv(s) && Ending(s) && t in s.starts
    ensures var s' := LoopStep(s, t, takeError, hasHandler);
            s'.owner == s.owner && s'.winner == s.winner && Ending(s') && StepsLeft(s') <= StepsLeft(s)
  {
    assert CallInv(s, t);
  }

  lemma UsefulStep(s: State, a: Action)
    requires Inv(s) && s.winner.Some?
    ensures Ending(s)
    ensures Useful(s, a) && s.stops[s.winner.value] != Left(true) ==>
              Ending(Perform(s, a)) && StepsLeft(Perform(s, a)) < StepsLeft(s)
  {
    assert s.owner.Some? && s.owner.value in s.starts && s.winner.value in s.stops;
    assert CallInv(s, s.owner.value) && StopInv(s, s.winner.value);
  }

  /** A step that is useful stays so until one is taken or the end has come closer anyway. */
  lemma UsefulStays(s: State, a: Action, b: Action)
    requires Inv(s) && s.winner.Some? && Ending(s) && s.stops[s.winner.value] != Left(true)
    ensures Ending(Perform(s, b)) && StepsLeft(Perform(s, b)) <= StepsLeft(s)
    ensures Useful(s, a) && StepsLeft(Perform(s, b)) == StepsLeft(s) ==> Useful(Perform(s, b), a)
  {
    NoStepBack(s, b);
    if StepsLeft(Perform(s, b)) == StepsLeft(s) { StagesStay(s, b); }
  }

  /** What decides which steps are useful. */
  predicate SameStage(s: State, s': State)
    requires Ending(s) && Ending(s')
  {
    && s'.owner == s.owner && s'.winner == s.winner
    && s'.stops[s'.winner.value] == s.stops[s.winner.value]
    && (s'.word == STOPPED <==> s.word == STOPPED)
    && (s'.starts[s'.owner.value].pc == Announced <==> s.starts[s.owner.value].pc == Announced)
  }

  lemma StagesStay(s: State, b: Action)
    requires Inv(s) && Ending(s) && s.stops[s.winner.value] != Left(true)
    requires Ending(Perform(s, b)) && StepsLeft(Perform(s, b)) == StepsLeft(s)
    ensures SameStage(s, Perform(s, b))
  {
  }

  /** So from any moment on at which a `Stop` has won, the run can be continued so that this `Stop`
      comes back, with the server stopped. */
  lemma {:induction false} StopCanReturn(actions: seq<Action>, takeError: bool, hasHandler: bool)
    returns (more: seq<Action>)
    requires Execute(actions).winner.Some?
    ensures var s, s' := Execute(actions), Execute(actions + more);
            && s.winner.value in s'.stops && s'.stops[s.winner.value] == Left(true)
            && s'.word == STOPPED
    decreases if Ending(Execute(actions)) then StepsLeft(Execute(actions)) else 0
  {
    var s := Execute(actions);
    AlwaysInv(actions);
    UsefulStep(s, StepStop(s.winner.value));
    if s.stops[s.winner.value] == Left(true) {
      more := [];
      assert actions + more == actions;
      assert StopInv(s, s.winner.value);
    } else {
      var a := if s.stops[s.winner.value] == Sending || s.word == STOPPED then StepStop(s.winner.value)
      else if s.starts[s.owner.value].pc == Announced then StepStart(s.owner.value, true)
      else StepLoop(s.owner.value, takeError, hasHandler);
      UsefulStep(s, a);
      NoStepBack(s, a);
      assert (actions + [a])[..|actions|] == actions;
      var after := StopCanReturn(actions + [a], takeError, hasHandler);
      more := [a] + after;
      assert actions + more == actions + [a] + after;
    }
  }

  // ----- every fair run

  /** The state after the first `n` steps of an endless run. */
  function After(run: nat -> Action, n: nat): State {
    if n == 0 then INITIAL else Perform(After(run, n - 1), run(n - 1))
  }

  lemma {:induction false} AfterInv(run: nat -> Action, n: nat)
    ensures Inv(After(run, n))
  {
    if n == 0 {
      AlwaysInv([]);
    } else {
      AfterInv(run, n - 1);
      PerformKeepsInv(After(run, n - 1), run(n - 1));
    }
  }

  /** Whose step it is. */
  datatype Actor = Starter(t: Tid) | Looper(t: Tid) | Stopper(t: Tid) | Other

  function ActorOf(a: Action): Actor {
    match a
    case StepStart(t, _) => Starter(t)
    case StepLoop(t, _, _) => Looper(t)
    case StepStop(t) => Stopper(t)
    case _ => Other
  }

  /** The actor gets its turn again and again; what it meets then, and what others do, is left open. */
  ghost predicate Fair(run: nat -> Action, actor: Actor) {
    forall n: nat :: TurnFrom(run, n, actor)
  }

  ghost predicate TurnFrom(run: nat -> Action, n: nat, actor: Actor) {
    exists m: nat :: n <= m && ActorOf(run(m)) == actor
  }

  /** The winning `Stop`, the `Start` that succeeds and its `serveLoop` do. */
  ghost predicate FairTo(run: nat -> Action, s: State) {
    s.owner.Some? && s.winner.Some? ==>
      && Fair(run, Starter(s.owner.value)) && Fair(run, Looper(s.owner.value)) && Fair(run, Stopper(s.winner.value))
  }

  function UsefulActor(s: State): Actor
    requires Ending(s)
  {
    if s.stops[s.winner.value] == Sending || s.word == STOPPED then Stopper(s.winner.value)
    else if s.starts[s.owner.value].pc == Announced then Starter(s.owner.value)
    else Looper(s.owner.value)
  }

  predicate SameCalls(s: State, s': State) {
    Ending(s) && Ending(s') && s'.owner == s.owner && s'.winner == s.winner
  }

  /** In a sequence of such states the rank falls by the time the useful actor next has its turn, at `m`. */
  lemma {:induction false} RankFalls(states: nat -> State, run: nat -> Action, n: nat, m: nat) returns (later: nat)
    requires forall k: nat :: Moves(states, run, k)
    requires n <= m && Unfinished(states(n)) && ActorOf(run(m)) == UsefulActor(states(n))
    ensures n < later && Lower(states(n), states(later))
    decreases m - n
  {
    assert Moves(states, run, n);
    if Lower(states(n), states(n + 1)) {
      later := n + 1;
    } else {
      later := RankFalls(states, run, n + 1, m);
      LowerStill(states(n), run(n), states(n + 1), states(later));
    }
  }

  predicate Unfinished(s: State) {
    Ending(s) && s.stops[s.winner.value] != Left(true)
  }

  ghost predicate Moves(states: nat -> State, run: nat -> Action, k: nat) {
    var s, s' := states(k), states(k + 1);
    Unfinished(s) ==> Lower(s, s') || (SameCalls(s, s') && KeepsTurn(s, run(k), s'))
  }

  predicate Lower(s: State, s': State) {
    SameCalls(s, s') && StepsLeft(s') < StepsLeft(s)
  }

  lemma LowerStill(s: State, a: Action, s': State, s'': State)
    requires SameCalls(s, s') && KeepsTurn(s, a, s') && Lower(s', s'')
    ensures Lower(s, s'')
  {
  }

  function States(run: nat -> Action): nat -> State {
    (n: nat) => After(run, n)
  }

  lemma RunMoves(run: nat -> Action)
    ensures forall k: nat :: Moves(States(run), run, k)
  {
    forall k: nat ensures Moves(States(run), run, k) {
      MovesAt(run, k);
    }
  }

  lemma MovesAt(run: nat -> Action, k: nat)
    ensures Moves(States(run), run, k)
  {
    AfterInv(run, k);
    var s, s' := States(run)(k), States(run)(k + 1);
    assert s == After(run, k) && s' == Perform(s, run(k));
    if Unfinished(s) { NextRank(s, run(k)); }
  }

  predicate KeepsTurn(s: State, a: Action, s': State)
    requires Ending(s) && Ending(s')
  {
    && StepsLeft(s') == StepsLeft(s) && ActorOf(a) != UsefulActor(s)
    && UsefulActor(s') == UsefulActor(s) && s'.stops[s'.winner.value] != Left(true)
  }

  /** One step lowers the rank, or it is not the useful actor's and leaves the turn to it. */
  lemma NextRank(s: State, a: Action)
    requires Inv(s) && Unfinished(s)
    ensures var s' := Perform(s, a);
            SameCalls(s, s') && (StepsLeft(s') < StepsLeft(s) || KeepsTurn(s, a, s'))
  {
    UsefulStep(s, a);
    NoStepBack(s, a);
    assert ActorOf(a) == UsefulActor(s) ==> Useful(s, a);
    if StepsLeft(Perform(s, a)) == StepsLeft(s) { StagesStay(s, a); }
  }

  /** In every run in which these three keep getting their turns, whatever else happens, a `Stop`
      that has won comes back, with the server stopped. */
  lemma {:induction false} StopReturns(run: nat -> Action, n: nat) returns (m: nat)
    requires After(run, n).winner.Some? && FairTo(run, After(run, n))
    ensures n <= m && After(run, m).word == STOPPED && Ending(After(run, m))
    ensures After(run, m).stops[After(run, m).winner.value] == Left(true)
    ensures After(run, m).winner == After(run, n).winner
    decreases if Ending(After(run, n)) then StepsLeft(After(run, n)) else 0
  {
    var s := After(run, n);
    AfterInv(run, n);
    UsefulStep(s, run(n));
    if s.stops[s.winner.value] == Left(true) {
      assert StopInv(s, s.winner.value);
      m := n;
    } else {
      assert Fair(run, UsefulActor(s)) && TurnFrom(run, n, UsefulActor(s));
      var turn: nat :| n <= turn && ActorOf(run(turn)) == UsefulActor(s);
      RunMoves(run);
      var later := RankFalls(States(run), run, n, turn);
      m := StopReturns(run, later);
    }
  }

  // ----- every fair run from a running server

  /** Once running, a server keeps its owner and never goes back. */
  lemma KeepsOwner(s: State, a: Action)
    requires Inv(s) && s.word >= RUNNING
    ensures Perform(s, a).owner == s.owner && Perform(s, a).word >= s.word
    ensures s.owner.Some? && s.owner.value in s.starts && s.owner.value in Perform(s, a).starts
  {
    StepIsLegal(s, a);
    assert CallInv(s, s.owner.value);
    match a
    case StepStart(t, _) => if t in s.starts { assert CallInv(s, t); }
    case _ =>
  }

  lemma {:induction false} OwnerStays(run: nat -> Action, n: nat, m: nat)
    requires n <= m && After(run, n).word >= RUNNING
    ensures After(run, m).owner == After(run, n).owner && After(run, m).word >= After(run, n).word
    decreases m - n
  {
    if n == m {
    } else {
      OwnerStays(run, n, m - 1);
      OwnerStaysNext(run, m - 1);
    }
  }

  lemma OwnerStaysNext(run: nat -> Action, n: nat)
    requires After(run, n).word >= RUNNING
    ensures After(run, n + 1).owner == After(run, n).owner && After(run, n + 1).word >= After(run, n).word
  {
    AfterInv(run, n);
    KeepsOwner(After(run, n), run(n));
  }

  /** A `Stop` that waits for its turn still does, unless it was its turn. */
  lemma WaitsForTurn(s: State, a: Action, t: Tid)
    requires t in s.stops && s.stops[t] == Asked && a != StepStop(t)
    ensures t in Perform(s, a).stops && Perform(s, a).stops[t] == Asked
  {
  }

  /** By the time an asked `Stop` has its turn, at `turn`, the server is no longer running. */
  lemma {:induction false} NoLongerRunning(run: nat -> Action, n: nat, turn: nat, t: Tid) returns (k: nat)
    requires n <= turn && run(turn) == StepStop(t) && After(run, n).word == RUNNING
    requires t in After(run, n).stops && After(run, n).stops[t] == Asked
    ensures n < k && After(run, k).word == STOPPING
    decreases turn - n
  {
    RunningNext(run, n, t);
    if After(run, n + 1).word == STOPPING {
      k := n + 1;
    } else {
      k := NoLongerRunning(run, n + 1, turn, t);
    }
  }

  lemma RunningNext(run: nat -> Action, n: nat, t: Tid)
    requires After(run, n).word == RUNNING && t in After(run, n).stops && After(run, n).stops[t] == Asked
    ensures After(run, n + 1).word == STOPPING
            || (&& After(run, n + 1).word == RUNNING && run(n) != StepStop(t)
                && t in After(run, n + 1).stops && After(run, n + 1).stops[t] == Asked)
  {
    var s := After(run, n);
    AfterInv(run, n);
    StepIsLegal(s, run(n));
    if run(n) != StepStop(t) { WaitsForTurn(s, run(n), t); }
  }

  /** A loop on its way to the end without a `Stop`, or past the shutdown. */
  predicate Closing(pc: LoopPc) {
    pc.ErrorStored? || pc.InErrorHandler? || pc.ShuttingDown? || pc.Finishing?
  }

  /** If the server is stopping and no `Stop` has won, the loop is on its way to the end. */
  lemma ClosingByItself(s: State)
    requires Inv(s) && s.word == STOPPING && s.winner == None
    ensures s.owner.Some? && s.owner.value in s.starts && Closing(s.starts[s.owner.value].loop)
  {
    assert CallInv(s, s.owner.value);
  }

  lemma ClosingStep(s: State, a: Action, o: Tid)
    requires Inv(s) && o in s.starts && Closing(s.starts[o].loop)
    ensures o in Perform(s, a).starts
    ensures var pc, pc' := s.starts[o].loop, Perform(s, a).starts[o].loop;
            if ActorOf(a) == Looper(o) then
              LoopRank(pc') < LoopRank(pc) && (Closing(pc') || Perform(s, a).word == STOPPED)
            else pc' == pc
  {
    assert CallInv(s, o);
  }

  lemma ClosingNext(run: nat -> Action, n: nat, o: Tid)
    requires o in After(run, n).starts && Closing(After(run, n).starts[o].loop)
    ensures o in After(run, n + 1).starts
    ensures var pc, pc' := After(run, n).starts[o].loop, After(run, n + 1).starts[o].loop;
            if ActorOf(run(n)) == Looper(o) then
              LoopRank(pc') < LoopRank(pc) && (Closing(pc') || After(run, n + 1).word == STOPPED)
            else pc' == pc
  {
    AfterInv(run, n);
    ClosingStep(After(run, n), run(n), o);
  }

  lemma {:induction false} ClosingWaits(run: nat -> Action, n: nat, turn: nat, o: Tid) returns (k: nat)
    requires n <= turn && ActorOf(run(turn)) == Looper(o)
    requires o in After(run, n).starts && Closing(After(run, n).starts[o].loop)
    ensures n < k && o in After(run, k).starts
    ensures LoopRank(After(run, k).starts[o].loop) < LoopRank(After(run, n).starts[o].loop)
    ensures Closing(After(run, k).starts[o].loop) || After(run, k).word == STOPPED
    decreases turn - n
  {
    ClosingNext(run, n, o);
    if ActorOf(run(n)) == Looper(o) {
      k := n + 1;
    } else {
      k := ClosingWaits(run, n + 1, turn, o);
    }
  }

  /** Such a loop gets there. */
  lemma {:induction false} LoopEnds(run: nat -> Action, n: nat, o: Tid) returns (m: nat)
    requires o in After(run, n).starts && Closing(After(run, n).starts[o].loop) && Fair(run, Looper(o))
    ensures n <= m && After(run, m).word == STOPPED
    decreases LoopRank(After(run, n).starts[o].loop)
  {
    assert TurnFrom(run, n, Looper(o));
    var turn: nat :| n <= turn && ActorOf(run(turn)) == Looper(o);
    var k := ClosingWaits(run, n, turn, o);
    if After(run, k).word == STOPPED {
      m := k;
    } else {
      m := LoopEnds(run, k, o);
    }
  }

  /** Every `Stop` keeps getting its turn, and so do the `Start` that succeeded and its loop. */
  ghost predicate FairToAll(run: nat -> Action, s: State) {
    && (s.owner.Some? ==> Fair(run, Starter(s.owner.value)) && Fair(run, Looper(s.owner.value)))
    && (forall u: Tid :: Fair(run, Stopper(u)))
  }

  /** From a server that is stopping, STOPPED is reached. */
  lemma StoppingEnds(run: nat -> Action, n: nat) returns (m: nat)
    requires After(run, n).word == STOPPING && FairToAll(run, After(run, n))
    ensures n <= m && After(run, m).word == STOPPED
  {
    AfterInv(run, n);
    if After(run, n).winner.Some? {
      assert Fair(run, Stopper(After(run, n).winner.value));
      m := StopReturns(run, n);
    } else {
      ClosingByItself(After(run, n));
      m := LoopEnds(run, n, After(run, n).owner.value);
    }
  }

  /** In a stopped server a `Stop` comes back at its turn. */
  lemma {:induction false} LeavesAtTurn(run: nat -> Action, n: nat, turn: nat, t: Tid) returns (m: nat)
    requires n <= turn && run(turn) == StepStop(t) && After(run, n).word == STOPPED
    requires t in After(run, n).stops && After(run, n).stops[t] == Asked
    ensures n <= m && After(run, m).word == STOPPED && t in After(run, m).stops && After(run, m).stops[t].Left?
    decreases turn - n
  {
    AskedThen(run, n, t);
    if run(n) == StepStop(t) {
      m := n + 1;
    } else {
      m := LeavesAtTurn(run, n + 1, turn, t);
    }
  }

  lemma AskedThen(run: nat -> Action, n: nat, t: Tid)
    requires After(run, n).word == STOPPED && t in After(run, n).stops && After(run, n).stops[t] == Asked
    ensures After(run, n + 1).word == STOPPED && t in After(run, n + 1).stops
    ensures if run(n) == StepStop(t) then After(run, n + 1).stops[t].Left? else After(run, n + 1).stops[t] == Asked
  {
    AfterInv(run, n);
    StepIsLegal(After(run, n), run(n));
    if run(n) != StepStop(t) { WaitsForTurn(After(run, n), run(n), t); }
  }

  lemma StaysAsked(s: State, a: Action, t: Tid)
    requires t in s.stops
    ensures t in Perform(s, a).stops && (s.stops[t].Left? ==> Perform(s, a).stops[t].Left?)
  {
  }

  lemma {:induction false} StopKnown(run: nat -> Action, n: nat, m: nat, t: Tid)
    requires n <= m && t in After(run, n).stops
    ensures t in After(run, m).stops && (After(run, n).stops[t].Left? ==> After(run, m).stops[t].Left?)
    decreases m - n
  {
    if n == m {
    } else {
      StopKnown(run, n, m - 1, t);
      StaysAsked(After(run, m - 1), run(m - 1), t);
    }
  }

  /** In a stopped server every `Stop` comes back. */
  lemma StoppedLeaves(run: nat -> Action, n: nat, t: Tid) returns (m: nat)
    requires After(run, n).word == STOPPED && FairToAll(run, After(run, n)) && t in After(run, n).stops
    ensures n <= m && After(run, m).word == STOPPED && t in After(run, m).stops && After(run, m).stops[t].Left?
  {
    AfterInv(run, n);
    assert StopInv(After(run, n), t);
    if After(run, n).stops[t].Left? {
      m := n;
    } else if After(run, n).stops[t] == Asked {
      assert Fair(run, Stopper(t)) && TurnFrom(run, n, Stopper(t));
      var turn: nat :| n <= turn && ActorOf(run(turn)) == Stopper(t);
      m := LeavesAtTurn(run, n, turn, t);
    } else {
      m := StopReturns(run, n);
    }
  }

  /** In every run that is fair to the calls, a `Stop` asked of a running server comes back, and the
      server is stopped then: because some `Stop` won, or because `Serve` returned by itself. */
  lemma RunningStops(run: nat -> Action, n: nat, t: Tid) returns (m: nat)
    requires After(run, n).word == RUNNING && t in After(run, n).stops && After(run, n).stops[t] == Asked
    requires FairToAll(run, After(run, n))
    ensures n <= m && After(run, m).word == STOPPED && t in After(run, m).stops && After(run, m).stops[t].Left?
    ensures var s := After(run, m);
            s.winner.Some? || (s.owner.Some? && s.owner.value in s.starts && s.starts[s.owner.value].listener == Gone)
  {
    assert Fair(run, Stopper(t)) && TurnFrom(run, n, Stopper(t));
    var turn: nat :| n <= turn && ActorOf(run(turn)) == Stopper(t);
    var k := NoLongerRunning(run, n, turn, t);
    OwnerStays(run, n, k);
    var j := StoppingEnds(run, k);
    OwnerStays(run, k, j);
    StopKnown(run, n, j, t);
    m := StoppedLeaves(run, j, t);
    AfterInv(run, m);
    assert CallInv(After(run, m), After(run, m).owner.value);
  }

  // ----- every fair run of a Start

  lemma StartWaits(s: State, a: Action, t: Tid)
    requires t in s.starts && ActorOf(a) != Starter(t)
    ensures t in Perform(s, a).starts && Perform(s, a).starts[t].pc == s.starts[t].pc
  {
  }

  /** The next turn of a `Start`, at which it still stands where it stood. */
  lemma {:induction false} StartTurn(run: nat -> Action, n: nat, turn: nat, t: Tid) returns (k: nat)
    requires n <= turn && ActorOf(run(turn)) == Starter(t) && t in After(run, n).starts
    ensures n <= k <= turn && ActorOf(run(k)) == Starter(t)
    ensures t in After(run, k).starts && After(run, k).starts[t].pc == After(run, n).starts[t].pc
    decreases turn - n
  {
    if ActorOf(run(n)) == Starter(t) {
      k := n;
    } else {
      StartWaits(After(run, n), run(n), t);
      k := StartTurn(run, n + 1, turn, t);
    }
  }

  lemma NextStartTurn(run: nat -> Action, n: nat, t: Tid) returns (k: nat)
    requires Fair(run, Starter(t)) && t in After(run, n).starts
    ensures n <= k && ActorOf(run(k)) == Starter(t)
    ensures t in After(run, k).starts && After(run, k).starts[t].pc == After(run, n).starts[t].pc
  {
    assert TurnFrom(run, n, Starter(t));
    var turn: nat :| n <= turn && ActorOf(run(turn)) == Starter(t);
    k := StartTurn(run, n, turn, t);
  }

  /** In every run that is fair to it, a `Start` that has won comes back: at `k` it tries to create
      the listener; if that works the server is running at `j` and the call succeeds with its
      loop begun; if not the state has been put back at `j`, so that a later `Start` can win, and
      the call fails. */
  lemma StartReturns(run: nat -> Action, n: nat, t: Tid) returns (k: nat, j: nat, m: nat)
    requires t in After(run, n).starts && After(run, n).starts[t].pc == Won && Fair(run, Starter(t))
    ensures n <= k < j <= m && run(k).StepStart? && run(k).t == t && t in After(run, m).starts
    ensures var ok := run(k).listens;
            && After(run, j).word == (if ok then RUNNING else NOT_STARTED)
            && After(run, m).starts[t].pc == Returned(ok)
            && (After(run, m).starts[t].loop != Absent <==> ok)
  {
    k := NextStartMove(run, n, t);
    var i := NextStartMove(run, k + 1, t);
    j := i + 1;
    if run(k).listens {
      var h := NextStartMove(run, j, t);
      m := h + 1;
    } else {
      m := j;
    }
    ReturnedLoop(run, m, t);
  }

  /** What a `Start` that has won does at its turns. */
  lemma StartMoves(s: State, a: Action, t: Tid)
    requires t in s.starts && ActorOf(a) == Starter(t)
    ensures var s' := Perform(s, a);
            t in s'.starts && StartMoved(s.starts[t].pc, a, s'.starts[t].pc, s'.word)
  {
  }

  predicate StartMoved(pc: StartPc, a: Action, pc': StartPc, word: int)
    requires a.StepStart?
  {
    match pc
    case Won => pc' == if a.listens then Listening else ListenFailed
    case ListenFailed => pc' == Returned(false) && word == NOT_STARTED
    case Listening => pc' == Announced && word == RUNNING
    case Announced => pc' == Returned(true)
    case _ => true
  }

  lemma NextStartMove(run: nat -> Action, n: nat, t: Tid) returns (k: nat)
    requires Fair(run, Starter(t)) && t in After(run, n).starts
    ensures n <= k && run(k).StepStart? && run(k).t == t && t in After(run, k + 1).starts
    ensures StartMoved(After(run, n).starts[t].pc, run(k), After(run, k + 1).starts[t].pc, After(run, k + 1).word)
  {
    k := NextStartTurn(run, n, t);
    StartMoves(After(run, k), run(k), t);
  }

  lemma ReturnedLoop(run: nat -> Action, m: nat, t: Tid)
    requires t in After(run, m).starts
    ensures After(run, m).starts[t].pc == Returned(true) <==> After(run, m).starts[t].loop != Absent
  {
    AfterInv(run, m);
    assert CallInv(After(run, m), t);
  }
}
