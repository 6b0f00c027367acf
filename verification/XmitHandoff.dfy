/**
  The RDS_IN_XMIT hand-off (net/rds/send.c, net/rds/threads.c).

  Any number of threads append messages to c_send_queue and then try to become
  the single feeder of the connection.  A thread that finds RDS_IN_XMIT set
  backs off and leaves its message to the holder; the holder must therefore
  look at the queue once more after clearing the bit.  Every read or write of
  shared state is one step here, and steps of different threads interleave
  freely (sequential consistency, which the barriers in the source provide).
 */
module XmitHandoff {

  /** Where a thread is inside, or just outside, rds_send_xmit. */
  datatype Pc =
    | Idle
    | Queued                 // has appended a message, has not yet looked at RDS_LL_SEND_FULL
    | Enter                  // at `restart`, about to test and set RDS_IN_XMIT
    | Acquired               // owns the bit, about to look at the connection state
    | DownExit               // owns the bit, saw the connection not up
    | Holding                // owns the bit, inside the while(1) loop
    | Releasing(ok: bool)    // owns the bit, left the loop; ok is `ret == 0`
    | Recheck(ok: bool)      // has cleared the bit, about to look at the queue again

  /** The worker that retries sends is thread 0; every other id is a caller of sendmsg. */
  const WORKER: nat := 0

  datatype State = State(
    up: bool,                // c_state == RDS_CONN_UP
    inXmit: bool,            // RDS_IN_XMIT
    llFull: bool,            // RDS_LL_SEND_FULL, set by the transport under back-pressure
    queued: nat,             // length of c_send_queue
    pending: bool,           // c_send_w is queued
    lastFailed: bool,        // the last attempt to feed the connection ended with ret != 0
    owner: nat,              // the thread that set RDS_IN_XMIT last
    pc: map<nat, Pc>)

  predicate Owner(p: Pc) {
    p.Acquired? || p.DownExit? || p.Holding? || p.Releasing?
  }

  function At(s: State, t: nat): Pc {
    if t in s.pc then s.pc[t] else Idle
  }

  function Move(s: State, t: nat, p: Pc): State {
    s.(pc := s.pc[t := p])
  }

  ghost predicate Init(s: State) {
    && !s.inXmit && !s.llFull && s.queued == 0 && !s.pending && !s.up && !s.lastFailed
    && forall t: nat :: At(s, t) == Idle
  }

  /** The atomic actions of the connection and its threads. */
  datatype Action =
    | Enqueue(t: nat)              // rds_send_queue_rm or rds_send_pong appended a message
    | TestFull(t: nat)             // if (!test_bit(RDS_LL_SEND_FULL)) rds_send_xmit(conn)
    | Acquire(t: nat)              // acquire_in_xmit
    | TestUp(t: nat)               // if (!rds_conn_up(conn))
    | Pop(t: nat)                  // move the head of c_send_queue to c_retrans, send it
    | SeeEmpty(t: nat)             // c_send_queue empty: leave the loop with ret == 0
    | Stop(t: nat)                 // leave the loop with ret != 0
    | Release(t: nat)              // release_in_xmit
    | LookAgain(t: nat, retry: bool) // the test after release_in_xmit
    | StartWorker                  // rds_send_worker begins
    | SetFull                      // the transport reports back-pressure
    | ClearFull                    // completion handler: test_and_clear_bit, queue c_send_w
    | GoUp                         // rds_connect_complete
    | GoDown                       // any transition out of RDS_CONN_UP
    | Requeue(n: nat)              // rds_conn_reset: n messages go back onto c_send_queue, c_flags = 0

  /** A thread that leaves rds_send_xmit with ret != 0; the worker may ask to be run again. */
  function Leave(s: State, t: nat, retry: bool): State {
    var s1 := Move(s, t, Idle);
    if t == WORKER && retry then s1.(pending := true) else s1
  }

  predicate Enabled(s: State, a: Action) {
    match a
    case Enqueue(t) => t != WORKER && At(s, t) == Idle
    case TestFull(t) => At(s, t) == Queued
    case Acquire(t) => At(s, t) == Enter
    case TestUp(t) => At(s, t) == Acquired
    case Pop(t) => At(s, t) == Holding && s.queued > 0
    case SeeEmpty(t) => At(s, t) == Holding && s.queued == 0
    case Stop(t) => At(s, t) == Holding
    case Release(t) => At(s, t).Releasing? || At(s, t) == DownExit
    case LookAgain(t, retry) => At(s, t).Recheck?
    case StartWorker => s.pending && At(s, WORKER) == Idle
    case SetFull => true
    case ClearFull => s.llFull
    case GoUp => !s.up
    case GoDown => s.up
    case Requeue(n) => !s.up && !s.inXmit
  }

  function Apply(s: State, a: Action): State
    requires Enabled(s, a)
  {
    match a
    case Enqueue(t) => Move(s, t, Queued).(queued := s.queued + 1)
    case TestFull(t) => if s.llFull then Move(s, t, Idle) else Move(s, t, Enter)
    // A caller that backs off gives up; the worker sees -ENOMEM and is queued again.
    case Acquire(t) =>
      if s.inXmit then Leave(s, t, true)
      else Move(s, t, Acquired).(inXmit := true, owner := t, lastFailed := false)
    case TestUp(t) => if s.up then Move(s, t, Holding) else Move(s, t, DownExit)
    case Pop(t) => s.(queued := s.queued - 1)
    case SeeEmpty(t) => Move(s, t, Releasing(true))
    case Stop(t) => Move(s, t, Releasing(false)).(lastFailed := true)
    case Release(t) =>
      var s1 := s.(inXmit := false);
      if At(s, t) == DownExit then Move(s1, t, Idle)
      else Move(s1, t, Recheck(At(s, t).ok))
    case LookAgain(t, retry) =>
      if At(s, t).ok then (if s.queued > 0 then Move(s, t, Enter) else Move(s, t, Idle))
      else Leave(s, t, retry)
    case StartWorker =>
      if s.up then Move(s, WORKER, Enter).(pending := false) else s.(pending := false)
    case SetFull => s.(llFull := true)
    case ClearFull => s.(llFull := false, pending := true)
    case GoUp => s.(up := true, pending := true)
    case GoDown => s.(up := false)
    case Requeue(n) => s.(queued := s.queued + n, llFull := false)
  }

  /** A run: any finite schedule of enabled actions from an initial state. */
  ghost predicate Run(tr: seq<State>, acts: seq<Action>) {
    && |tr| == |acts| + 1
    && Init(tr[0])
    && forall i :: 0 <= i < |acts| ==> Enabled(tr[i], acts[i]) && tr[i + 1] == Apply(tr[i], acts[i])
  }

  /** A thread that is going to look at c_send_queue before it stops. */
  predicate WillLook(p: Pc) {
    p == Queued || p == Enter || p == Acquired || p == Holding || p == Releasing(true) || p == Recheck(true)
  }

  ghost predicate Attended(s: State) {
    s.pending || exists t: nat :: WillLook(At(s, t))
  }

  /** RDS_IN_XMIT is a lock: it is set exactly while one thread, the one that set it, is inside. */
  ghost predicate UniqueOwner(s: State) {
    forall t: nat :: OwnerKnown(s, t)
  }

  predicate OwnerKnown(s: State, t: nat) {
    Owner(At(s, t)) <==> s.inXmit && t == s.owner
  }

  /** If the holder saw the connection down and it has come up since, the worker is still to come. */
  ghost predicate DownCovered(s: State) {
    s.up && s.inXmit && At(s, s.owner) == DownExit ==> s.pending || At(s, WORKER) == Enter
  }

  /** A failed attempt is remembered as long as the thread that made it owns the bit. */
  ghost predicate FailureRemembered(s: State) {
    s.inXmit && At(s, s.owner) == Releasing(false) ==> s.lastFailed
  }

  /** With the connection up and no back-pressure, a waiting message has someone coming for it. */
  ghost predicate NotStranded(s: State) {
    s.up && s.queued > 0 && !s.llFull && !s.lastFailed ==> Attended(s)
  }

  ghost predicate Inv(s: State) {
    UniqueOwner(s) && DownCovered(s) && FailureRemembered(s) && NotStranded(s)
  }

  /** The thread an action moves, if any. */
  function Mover(a: Action): nat {
    match a
    case Enqueue(t) => t
    case TestFull(t) => t
    case Acquire(t) => t
    case TestUp(t) => t
    case Pop(t) => t
    case SeeEmpty(t) => t
    case Stop(t) => t
    case Release(t) => t
    case LookAgain(t, _) => t
    case _ => WORKER
  }

  /** Steps up to the end of the loop inside the critical section. */
  predicate Entering(a: Action) {
    a.Enqueue? || a.TestFull? || a.Acquire? || a.TestUp? || a.Pop? || a.SeeEmpty? || a.Stop?
  }

  lemma OthersUnmovedEntering(s: State, a: Action, u: nat)
    requires Enabled(s, a) && Entering(a) && u != Mover(a)
    ensures At(Apply(s, a), u) == At(s, u)
  {
  }

  lemma OthersUnmoved(s: State, a: Action, u: nat)
    requires Enabled(s, a) && u != Mover(a)
    ensures At(Apply(s, a), u) == At(s, u)
  {
    if Entering(a) {
      OthersUnmovedEntering(s, a, u);
    }
  }

  lemma BitUntouchedEntering(s: State, a: Action)
    requires Enabled(s, a) && !a.Acquire? && Entering(a)
    ensures Apply(s, a).inXmit == s.inXmit && Apply(s, a).owner == s.owner
  {
  }

  /** Only taking and releasing the bit touch it. */
  lemma BitUntouched(s: State, a: Action)
    requires Enabled(s, a) && !a.Acquire? && !a.Release?
    ensures Apply(s, a).inXmit == s.inXmit && Apply(s, a).owner == s.owner
  {
    if Entering(a) {
      BitUntouchedEntering(s, a);
    }
  }

  /** No other step moves a thread into or out of the critical section. */
  lemma InsideKept(s: State, a: Action)
    requires Enabled(s, a) && !a.Acquire? && !a.Release?
    ensures Owner(At(Apply(s, a), Mover(a))) == Owner(At(s, Mover(a)))
  {
    if Entering(a) {
      InsideKeptEntering(s, a);
    }
  }

  lemma InsideKeptEntering(s: State, a: Action)
    requires Enabled(s, a) && !a.Acquire? && Entering(a)
    ensures Owner(At(Apply(s, a), Mover(a))) == Owner(At(s, Mover(a)))
  {
  }

  lemma OwnerStep(s: State, a: Action, t: nat)
    requires Enabled(s, a)
    requires OwnerKnown(s, t)
    requires OwnerKnown(s, Mover(a))
    ensures OwnerKnown(Apply(s, a), t)
  {
    if t != Mover(a) {
      OthersUnmoved(s, a, t);
    }
    if !a.Acquire? && !a.Release? {
      BitUntouched(s, a);
      InsideKept(s, a);
    }
  }

  /** Mutual exclusion is kept by every action of every thread. */
  lemma UniqueOwnerStep(s: State, a: Action)
    requires UniqueOwner(s) && Enabled(s, a)
    ensures UniqueOwner(Apply(s, a))
  {
    forall t: nat ensures OwnerKnown(Apply(s, a), t) {
      OwnerStep(s, a, t);
    }
  }

  lemma DownCoveredStep(s: State, a: Action)
    requires OwnerKnown(s, Mover(a)) && DownCovered(s) && Enabled(s, a)
    ensures DownCovered(Apply(s, a))
  {
    var s' := Apply(s, a);
    if s'.up && s'.inXmit && At(s', s'.owner) == DownExit {
      if s.owner != Mover(a) { OthersUnmoved(s, a, s.owner); }
      if WORKER != Mover(a) { OthersUnmoved(s, a, WORKER); }
    }
  }

  lemma FailureRememberedStep(s: State, a: Action)
    requires OwnerKnown(s, Mover(a)) && FailureRemembered(s) && Enabled(s, a)
    ensures FailureRemembered(Apply(s, a))
  {
    var s' := Apply(s, a);
    if s'.inXmit && At(s', s'.owner) == Releasing(false) && s.owner != Mover(a) { OthersUnmoved(s, a, s.owner); }
  }

  /**
    The heart of the hand-off.  When a thread backs off, the bit's owner is named as the one
    who will look; when the owner leaves, it has seen the queue empty after clearing the bit.
   */
  lemma NotStrandedStep(s: State, a: Action)
    requires Inv(s) && Enabled(s, a)
    ensures NotStranded(Apply(s, a))
  {
    var s' := Apply(s, a);
    var m := Mover(a);
    assert OwnerKnown(s, m) && OwnerKnown(s, s.owner);
    if s'.up && s'.queued > 0 && !s'.llFull && !s'.lastFailed && !s'.pending {
      if WillLook(At(s', m)) {
        assert Attended(s');
      } else if a.Acquire? {
        // The mover backed off, so the owner is somebody else and still inside.
        assert s.inXmit && Owner(At(s, s.owner)) && m != s.owner;
        OthersUnmoved(s, a, s.owner);
        if At(s, s.owner) == DownExit {
          OthersUnmoved(s, a, WORKER);
          assert WillLook(At(s', WORKER));
        } else {
          assert WillLook(At(s', s.owner));
        }
      } else {
        assert s.pending || exists t: nat :: WillLook(At(s, t));
        if s.pending { assert false; }  // only StartWorker takes c_send_w off the queue, and it moves to Enter
        var t: nat :| WillLook(At(s, t));
        if t != m { OthersUnmoved(s, a, t); assert WillLook(At(s', t)); }
      }
    }
  }

  lemma InvStep(s: State, a: Action)
    requires Inv(s) && Enabled(s, a)
    ensures Inv(Apply(s, a))
  {
    UniqueOwnerStep(s, a);
    DownCoveredStep(s, a);
    FailureRememberedStep(s, a);
    NotStrandedStep(s, a);
  }

  lemma {:induction false} InvRun(tr: seq<State>, acts: seq<Action>, i: nat)
    requires Run(tr, acts) && i < |tr|
    ensures Inv(tr[i])
  {
    if i == 0 {
    } else {
      InvRun(tr, acts, i - 1);
      InvStep(tr[i - 1], acts[i - 1]);
    }
  }

  /** At most one thread is ever inside rds_send_xmit's critical section. */
  lemma OneFeeder(tr: seq<State>, acts: seq<Action>, i: nat, t: nat, u: nat)
    requires Run(tr, acts) && i < |tr|
    requires Owner(At(tr[i], t)) && Owner(At(tr[i], u))
    ensures t == u
  {
    InvRun(tr, acts, i);
    assert OwnerKnown(tr[i], t) && OwnerKnown(tr[i], u);
  }

  /** The connection is up, nobody is at the queue or on the way to it, and no back-pressure is reported. */
  ghost predicate AtRest(s: State) {
    s.up && !s.pending && !s.llFull && forall t: nat :: At(s, t) == Idle
  }

  /**
    No stranded message.  In every run and at every moment: if the connection is up, no thread
    is inside or about to enter rds_send_xmit, the worker is not queued, the transport has not
    pushed back and the last attempt did not fail, then c_send_queue is empty.
   */
  lemma NoStrandedMessage(tr: seq<State>, acts: seq<Action>, i: nat)
    requires Run(tr, acts) && i < |tr| && AtRest(tr[i]) && !tr[i].lastFailed
    ensures tr[i].queued == 0
  {
    InvRun(tr, acts, i);
  }

  // ------------------------------------------------------------------ when messages are stranded

  /**
    What the last attempt left behind: the length of the queue at the moment it let go of the bit, if
    it had failed; -1 while an attempt is under way and after one that did not fail.
   */
  function LeftAfter(s: State, a: Action, left: int): int
    requires Enabled(s, a)
  {
    match a
    case Acquire(_) => if s.inXmit then left else -1
    case Release(t) => if At(s, t) == Releasing(false) then s.queued else left
    case _ => left
  }

  ghost function Left(tr: seq<State>, acts: seq<Action>, i: nat): int
    requires Run(tr, acts) && i < |tr|
  {
    if i == 0 then -1 else LeftAfter(tr[i - 1], acts[i - 1], Left(tr, acts, i - 1))
  }

  /** Past a failed attempt the queue only grows, and whoever makes it grow will look at it. */
  ghost predicate LeftBehind(s: State, left: int) {
    && (left >= 0 ==> !s.inXmit && s.lastFailed && s.queued >= left)
    && (left >= 0 && s.up && !s.llFull && s.queued != left ==> Attended(s))
    && (s.lastFailed && !s.inXmit ==> left >= 0)
    && (s.lastFailed && s.inXmit ==> At(s, s.owner) == Releasing(false))
  }

  /** Someone who will look goes on to look, unless the queue turns out empty or the bit is taken. */
  lemma AttendedStep(s: State, a: Action)
    requires Inv(s) && Enabled(s, a) && !s.inXmit && !a.Acquire? && Attended(s)
    requires Apply(s, a).up && !Apply(s, a).llFull && Apply(s, a).queued > 0
    ensures Attended(Apply(s, a))
  {
    var s', m := Apply(s, a), Mover(a);
    assert OwnerKnown(s, m);
    if !s'.pending && !WillLook(At(s', m)) {
      assert !s.pending;
      var t: nat :| WillLook(At(s, t));
      assert t != m;
      OthersUnmoved(s, a, t);
      assert WillLook(At(s', t));
    }
  }

  /** While an attempt is under way or the bit is being released. */
  lemma LeftInside(s: State, a: Action, left: int)
    requires OwnerKnown(s, Mover(a)) && FailureRemembered(s) && Enabled(s, a) && LeftBehind(s, left) && s.inXmit
    ensures LeftBehind(Apply(s, a), LeftAfter(s, a, left))
  {
    if a.Release? || a.Stop? {
    } else {
      if s.owner != Mover(a) { OthersUnmoved(s, a, s.owner); }
      if !a.Acquire? { BitUntouched(s, a); }
    }
  }

  /** Between attempts: the queue grows only through threads that will look. */
  lemma LeftOutside(s: State, a: Action, left: int)
    requires Inv(s) && Enabled(s, a) && LeftBehind(s, left) && !s.inXmit && !a.Acquire?
    ensures LeftBehind(Apply(s, a), LeftAfter(s, a, left))
  {
    var s', m := Apply(s, a), Mover(a);
    assert OwnerKnown(s, m);
    BitUntouched(s, a);
    if left >= 0 && s'.up && !s'.llFull && s'.queued != left && !s'.pending && !WillLook(At(s', m)) {
      AttendedStep(s, a);
    }
  }

  lemma LeftBehindStep(s: State, a: Action, left: int)
    requires Inv(s) && Enabled(s, a) && LeftBehind(s, left)
    ensures LeftBehind(Apply(s, a), LeftAfter(s, a, left))
  {
    assert OwnerKnown(s, Mover(a));
    if s.inXmit {
      LeftInside(s, a, left);
    } else if !a.Acquire? {
      LeftOutside(s, a, left);
    }
  }

  lemma {:induction false} LeftBehindRun(tr: seq<State>, acts: seq<Action>, i: nat)
    requires Run(tr, acts) && i < |tr|
    ensures LeftBehind(tr[i], Left(tr, acts, i))
  {
    if i == 0 {
    } else {
      LeftBehindRun(tr, acts, i - 1);
      InvRun(tr, acts, i - 1);
      LeftBehindStep(tr[i - 1], acts[i - 1], Left(tr, acts, i - 1));
    }
  }

  /**
    Stranded messages, exactly.  In every run, whenever the connection is at rest, messages are on the
    queue if and only if the last attempt failed and let go of the bit with messages there; and they are
    as many as it left.
   */
  lemma StrandedExactly(tr: seq<State>, acts: seq<Action>, i: nat)
    requires Run(tr, acts) && i < |tr| && AtRest(tr[i])
    ensures tr[i].queued > 0 <==> Left(tr, acts, i) > 0
    ensures tr[i].queued > 0 ==> tr[i].queued == Left(tr, acts, i)
  {
    InvRun(tr, acts, i);
    LeftBehindRun(tr, acts, i);
    assert OwnerKnown(tr[i], tr[i].owner);
  }

  // ------------------------------------------------------------------ attempts that fail quietly

  lemma Then(tr: seq<State>, acts: seq<Action>, a: Action) returns (tr': seq<State>, acts': seq<Action>)
    requires Run(tr, acts) && Enabled(tr[|tr| - 1], a)
    ensures Run(tr', acts') && tr'[|tr'| - 1] == Apply(tr[|tr| - 1], a)
    ensures tr' == tr + [Apply(tr[|tr| - 1], a)] && acts' == acts + [a]
  {
    tr', acts' := tr + [Apply(tr[|tr| - 1], a)], acts + [a];
  }

  /** One thread is feeding the connection, all others are idle, and nothing else is pending. */
  ghost predicate Alone(s: State, t: nat) {
    && s.up && !s.pending && !s.llFull && At(s, t) == Holding
    && forall u: nat :: u != t ==> At(s, u) == Idle
  }

  lemma GivesUp(s: State, t: nat)
    requires Alone(s, t)
    ensures Enabled(s, Stop(t)) && Enabled(Apply(s, Stop(t)), Release(t))
    ensures var s2 := Apply(Apply(s, Stop(t)), Release(t));
            && Enabled(s2, LookAgain(t, false))
            && AtRest(Apply(s2, LookAgain(t, false))) && Apply(s2, LookAgain(t, false)).queued == s.queued
  {
    var s1 := Apply(s, Stop(t));
    var s2 := Apply(s1, Release(t));
    var s3 := Apply(s2, LookAgain(t, false));
    forall u: nat ensures At(s3, u) == Idle {
      if u != t {
        assert At(s3, u) == At(s2, u) == At(s1, u) == At(s, u);
      }
    }
  }

  /**
    How such runs come about: an attempt that fails without raising RDS_LL_SEND_FULL, made by a caller of
    sendmsg or by a worker that is not to retry while nobody else is active, leaves the queue as it is.
   */
  lemma QuietFailureStrands(tr: seq<State>, acts: seq<Action>, t: nat) returns (tr': seq<State>, acts': seq<Action>)
    requires Run(tr, acts) && Alone(tr[|tr| - 1], t)
    ensures Run(tr', acts') && |tr'| == |tr| + 3 && tr'[..|tr|] == tr
    ensures AtRest(tr'[|tr'| - 1]) && tr'[|tr'| - 1].queued == tr[|tr| - 1].queued
  {
    GivesUp(tr[|tr| - 1], t);
    tr', acts' := Then(tr, acts, Stop(t));
    tr', acts' := Then(tr', acts', Release(t));
    tr', acts' := Then(tr', acts', LookAgain(t, false));
  }

  lemma WorkerEnters() returns (tr: seq<State>, acts: seq<Action>)
    ensures Run(tr, acts) && tr[|tr| - 1] == State(true, true, false, 0, false, false, 0, map[0 := Holding])
  {
    tr, acts := [State(false, false, false, 0, false, false, 0, map[])], [];
    tr, acts := Then(tr, acts, GoUp);
    tr, acts := Then(tr, acts, StartWorker);
    tr, acts := Then(tr, acts, Acquire(0));
    tr, acts := Then(tr, acts, TestUp(0));
  }

  /** The connection comes up and the worker finds nothing to do. */
  lemma ComeUp() returns (tr: seq<State>, acts: seq<Action>)
    ensures Run(tr, acts) && tr[|tr| - 1] == State(true, false, false, 0, false, false, 0, map[0 := Idle])
  {
    tr, acts := WorkerEnters();
    tr, acts := Then(tr, acts, SeeEmpty(0));
    tr, acts := Then(tr, acts, Release(0));
    tr, acts := Then(tr, acts, LookAgain(0, false));
  }

  lemma OneSends() returns (tr: seq<State>, acts: seq<Action>)
    ensures Run(tr, acts)
    ensures tr[|tr| - 1] == State(true, true, false, 0, false, false, 1, map[0 := Idle, 1 := Holding])
  {
    tr, acts := ComeUp();
    tr, acts := Then(tr, acts, Enqueue(1));
    tr, acts := Then(tr, acts, TestFull(1));
    tr, acts := Then(tr, acts, Acquire(1));
    tr, acts := Then(tr, acts, TestUp(1));
    tr, acts := Then(tr, acts, Pop(1));
  }

  /** One caller has its message in hand; a second one has queued another and backed off. */
  lemma OneBacksOff() returns (tr: seq<State>, acts: seq<Action>)
    ensures Run(tr, acts) && Alone(tr[|tr| - 1], 1) && tr[|tr| - 1].queued == 1
  {
    tr, acts := OneSends();
    tr, acts := Then(tr, acts, Enqueue(2));
    tr, acts := Then(tr, acts, TestFull(2));
    tr, acts := Then(tr, acts, Acquire(2));
  }

  /** The second caller's message is stranded when the first one's cannot be mapped. */
  lemma MappingFailureStrands() returns (tr: seq<State>, acts: seq<Action>)
    ensures Run(tr, acts) && AtRest(tr[|tr| - 1]) && tr[|tr| - 1].queued == 1
  {
    tr, acts := OneBacksOff();
    tr, acts := QuietFailureStrands(tr, acts, 1);
  }
}
