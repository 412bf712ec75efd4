/** The race on a flow's socket: one dialler that may hand over a connection, and any number of
    concurrent callers of close. Each critical section is one step; between steps anything
    may interleave. */
module FlowSocket {

  /** Where the dialling goroutine is. `Refused` holds a socket the flow did not take. */
  datatype Dialler = Dialing | Dialled | Failed | Adopted | Refused | Disposed

  /** One caller of `close`: `Inside` runs the body, `Waiting` waits for the one that does. */
  datatype Caller = Idle | Inside | Waiting | Returned

  /** The body of `close`, run once: mark the flow closed and read the socket under the lock,
      close the done channel, close the socket that was read. */
  datatype Stage = Entered | Marked(conn: bool) | Signalled(conn: bool)
  datatype Once = Free | Running(runner: nat, stage: Stage) | Finished

  datatype State = State(closed: bool, conn: bool, once: Once, dialler: Dialler, callers: seq<Caller>,
                         doneCloses: nat, socketCloses: nat)

  datatype Action =
    | DialSucceeds | DialFails | Adopt | Dispose
    | CallClose(i: nat) | Mark | CloseDone | CloseSocket | Return(i: nat)

  predicate Enabled(s: State, a: Action) {
    match a
    case DialSucceeds => s.dialler == Dialing
    case DialFails => s.dialler == Dialing
    case Adopt => s.dialler == Dialled
    case Dispose => s.dialler == Refused
    case CallClose(i) => i < |s.callers| && s.callers[i] == Idle
    case Mark => s.once.Running? && s.once.stage == Entered
    case CloseDone => s.once.Running? && s.once.stage.Marked?
    case CloseSocket => s.once.Running? && s.once.stage.Signalled? && s.once.runner < |s.callers|
    case Return(i) => i < |s.callers| && s.callers[i] == Waiting && s.once == Finished
  }

  function Next(s: State, a: Action): State
    requires Enabled(s, a)
  {
    match a
    case DialSucceeds => s.(dialler := Dialled)
    case DialFails => s.(dialler := Failed)
    case Adopt =>
      if s.closed then s.(dialler := Refused) else s.(dialler := Adopted, conn := true)
    case Dispose => s.(dialler := Disposed, socketCloses := s.socketCloses + 1)
    case CallClose(i) =>
      if s.once == Free then s.(once := Running(i, Entered), callers := s.callers[i := Inside])
      else if s.once == Finished then s.(callers := s.callers[i := Returned])
      else s.(callers := s.callers[i := Waiting])
    case Mark => s.(closed := true, once := Running(s.once.runner, Marked(s.conn)))
    case CloseDone => s.(doneCloses := s.doneCloses + 1, once := Running(s.once.runner, Signalled(s.once.stage.conn)))
    case CloseSocket =>
      s.(socketCloses := s.socketCloses + (if s.once.stage.conn then 1 else 0),
         once := Finished, callers := s.callers[s.once.runner := Returned])
    case Return(i) => s.(callers := s.callers[i := Returned])
  }

  function Start(callers: nat): State {
    State(false, false, Free, Dialing, seq(callers, _ => Idle), 0, 0)
  }

  function Run(callers: nat, acts: seq<Action>): (s: State)
    requires Possible(callers, acts)
    decreases |acts|, 1
  {
    if acts == [] then Start(callers)
    else Next(Run(callers, acts[..|acts| - 1]), acts[|acts| - 1])
  }

  predicate Possible(callers: nat, acts: seq<Action>)
    decreases |acts|, 0
  {
    acts == [] ||
    (Possible(callers, acts[..|acts| - 1]) && Enabled(Run(callers, acts[..|acts| - 1]), acts[|acts| - 1]))
  }

  // ---------------------------------------------------------------- invariant

  ghost predicate Inv(s: State) {
    && (s.closed <==> s.once == Finished || (s.once.Running? && s.once.stage != Entered))
    && s.doneCloses == (if s.once == Finished || (s.once.Running? && s.once.stage.Signalled?) then 1 else 0)
    && (s.once.Running? && s.once.stage != Entered ==> s.once.stage.conn == s.conn)
    && (s.conn <==> s.dialler == Adopted)
    && (s.dialler in {Refused, Disposed} ==> s.closed)
    && s.socketCloses == (if s.dialler == Disposed then 1 else 0) + (if s.once == Finished && s.conn then 1 else 0)
    && (s.once.Running? ==> s.once.runner < |s.callers| && s.callers[s.once.runner] == Inside)
    && (forall i :: 0 <= i < |s.callers| && s.callers[i] == Inside ==> s.once.Running? && s.once.runner == i)
    && (forall i :: 0 <= i < |s.callers| && s.callers[i] == Returned ==> s.once == Finished)
    && (forall i :: 0 <= i < |s.callers| && s.callers[i] == Waiting ==> s.once != Free)
  }

  lemma StepKeepsInv(s: State, a: Action)
    requires Inv(s) && Enabled(s, a)
    ensures Inv(Next(s, a))
  {
  }

  lemma {:induction false} RunKeepsInv(callers: nat, acts: seq<Action>)
    requires Possible(callers, acts)
    ensures Inv(Run(callers, acts))
  {
    if acts != [] {
      var init := acts[..|acts| - 1];
      RunKeepsInv(callers, init);
      StepKeepsInv(Run(callers, init), acts[|acts| - 1]);
    }
  }

  /** Under every interleaving the done channel is closed at most once and the socket at most
      once; and once any close has returned and the dialler's attempt to hand over a dialled
      socket is over, that socket has been closed exactly once. A failed dial leaves none to close. */
  lemma NoLeakNoDoubleClose(callers: nat, acts: seq<Action>)
    requires Possible(callers, acts)
    ensures var s := Run(callers, acts);
      && s.doneCloses <= 1 && s.socketCloses <= 1
      && ((exists i :: 0 <= i < |s.callers| && s.callers[i] == Returned) ==>
            && s.closed && s.doneCloses == 1
            && (s.dialler in {Adopted, Disposed} ==> s.socketCloses == 1)
            && (s.dialler == Failed ==> s.socketCloses == 0))
  {
    RunKeepsInv(callers, acts);
  }

  /** Nothing gets stuck: while a call of close has not returned, some step other than dialling is
      possible, and a refused socket can always be disposed of. */
  lemma CloseNeverDeadlocks(callers: nat, acts: seq<Action>)
    requires Possible(callers, acts)
    ensures var s := Run(callers, acts);
      && ((exists i :: 0 <= i < |s.callers| && s.callers[i] in {Inside, Waiting}) ==>
            Enabled(s, Mark) || Enabled(s, CloseDone) || Enabled(s, CloseSocket) || exists i: nat :: Enabled(s, Return(i)))
      && (s.dialler == Refused ==> Enabled(s, Dispose))
  {
    RunKeepsInv(callers, acts);
    var s := Run(callers, acts);
    if i :| 0 <= i < |s.callers| && s.callers[i] in {Inside, Waiting} {
      if s.once == Finished {
        assert Enabled(s, Return(i));
      }
    }
  }
}
