/**
 * Recovery of an SRP remote port: the four-state machine driven by transport failures, reconnect
 * attempts, two failure timers, the periodic reconnect work, sysfs writes to the three timeouts and
 * teardown. Everything done under the port's mutex is one step; between steps a work item may be
 * queued, or entered and waiting for the mutex. Timeouts are in seconds, time is counted in clock ticks.
 */
module SrpRport {
  import opened Common

  datatype PortState = Running | Blocked | FailFast | Lost

  /** A delayed work item: the deadline it is queued for, and that of a handler which has started. */
  datatype Timer = Timer(armed: Option<nat>, entered: Option<nat>)

  /** The reconnect work's handler: not running, before its attempt, or after a failed attempt. */
  datatype Phase = Idle | Entered | Failed

  /** `due` is when the reconnect work is queued for, `since` the moment the port last became blocked. */
  datatype State = State(
    st: PortState,
    delay: int, fast: int, loss: int,
    failed: nat,
    queued: bool, due: nat, phase: Phase,
    fastT: Timer, lossT: Timer,
    devicesBlocked: bool,
    clock: nat, since: nat)

  const INT_MAX: int := 0x7fff_ffff
  const BLOCK_MAX: int := 600

  /** Ticks per second. */
  const HZ: nat := 1000

  /** LONG_MAX / HZ on a 64-bit machine. */
  const LOSS_LIMIT: int := 0x7fff_ffff_ffff_ffff / HZ

  /** The longest a port may stay blocked, in ticks. */
  const BLOCK_TICKS: nat := 600 * HZ

  predicate Int32(x: int) {
    -0x8000_0000 <= x <= INT_MAX
  }

  /** Which triples of reconnect delay, fast I/O fail timeout and device loss timeout are accepted. */
  predicate TmoValid(delay: int, fast: int, loss: int) {
    && !(delay < 0 && fast < 0 && loss < 0)
    && delay != 0
    && fast <= BLOCK_MAX
    && !(fast < 0 && loss > BLOCK_MAX)
    && loss < LOSS_LIMIT
    && !(fast >= 0 && loss >= 0 && fast >= loss)
  }

  // ---- what each operation does under the mutex --------------------------------------------

  predicate MayEnter(from: PortState, to: PortState) {
    match to
    case Running => from != Lost
    case Blocked => from == Running
    case FailFast => from != Lost
    case Lost => true
  }

  /** Queueing a work item that is already queued changes nothing. */
  function Arm(t: Timer, at: nat): Timer {
    if t.armed.Some? then t else t.(armed := Some(at))
  }

  function QueueWork(s: State, at: nat): State {
    if s.queued then s else s.(queued := true, due := at)
  }

  /** Two's complement wrap-around of a 32-bit signed product. */
  function Wrap32(x: int): int {
    (x + 0x8000_0000) % 0x1_0000_0000 - 0x8000_0000
  }

  /**
   * Seconds turned into ticks by a 32-bit product. A negative one becomes, as an unsigned delay, a
   * deadline in the past, and the work runs at once.
   */
  function IntTicks(seconds: int): nat {
    var t := Wrap32(seconds * HZ);
    if t >= 0 then t else 0
  }

  function FailIo(s: State): State {
    if MayEnter(s.st, FailFast) then s.(st := FailFast, devicesBlocked := false) else s
  }

  /** Starts the reconnect work and, from the running state, blocks the port and arms the timers. */
  function StartTimers(s: State): State {
    if s.st == Lost then s else
      var s1 := if s.delay > 0 then QueueWork(s, s.clock + s.delay * HZ) else s;
      if (s.fast >= 0 || s.loss >= 0) && MayEnter(s.st, Blocked) then
        s1.(st := Blocked, devicesBlocked := true, since := s.clock,
            fastT := if s.fast >= 0 then Arm(s.fastT, s.clock + s.fast * HZ) else s.fastT,
            lossT := if s.loss >= 0 then Arm(s.lossT, s.clock + s.loss * HZ) else s.lossT)
      else s1
  }

  /** A reconnect attempt; `ok` is what the driver's own reconnect reports, not asked of a lost port. */
  function Reconnect(s: State, ok: bool): State {
    if ok && s.st != Lost then
      s.(st := Running, failed := 0, devicesBlocked := false,
         fastT := s.fastT.(armed := None), lossT := s.lossT.(armed := None))
    else if s.st == Running then
      StartTimers(FailIo(s))
    else
      s.(devicesBlocked := s.st == Blocked)
  }

  /** The back-off multiplier after `failed` consecutive failures. */
  function Factor(failed: nat): int {
    var n := if failed - 10 > 1 then failed - 10 else 1;
    if n < 100 then n else 100
  }

  /** The reconnect work queues itself again when the backed-off delay is positive. */
  function Requeue(s: State): State {
    var back := Wrap32(s.delay * Factor(s.failed + 1));
    var s1 := s.(failed := s.failed + 1, phase := Idle);
    if back > 0 then QueueWork(s1, s.clock + IntTicks(back)) else s1
  }

  /** A write of the reconnect delay that decides on what it saw in `seen` and takes effect in `s`. */
  function CommitDelay(seen: State, s: State, d: int): State {
    if !TmoValid(d, seen.fast, seen.loss) then s
    else if seen.delay <= 0 && d > 0 && seen.st != Running then QueueWork(s, s.clock + IntTicks(d)).(delay := d)
    else if d <= 0 then s.(queued := false, delay := d)
    else s.(delay := d)
  }

  /** A write that nothing overlaps. */
  function StoreDelay(s: State, d: int): State {
    CommitDelay(s, s, d)
  }

  function StopPort(s: State): State {
    var s1 := if s.st == Blocked then FailIo(s) else s;
    s1.(st := Lost)
  }

  // ---- the machine -------------------------------------------------------------------------

  datatype Action =
    | SetDelay(d: int) | SetFast(f: int) | SetLoss(l: int)
    | TransportError
    | OutsideReconnect(ok: bool)
    | WorkFires | WorkAttempt(ok: bool) | WorkInterrupted | WorkRequeues
    | FastFires | FastHandler
    | LossFires | LossHandler
    | Stop | CancelAll
    | Tick

  function Fired(t: Timer): Timer
    requires t.armed.Some?
  {
    Timer(None, t.armed)
  }

  /** A due timer has been taken up by the work queue, unless its handler is still busy. */
  predicate Prompt(t: Timer, clock: nat) {
    t.armed.Some? ==> t.armed.value > clock || t.entered.Some?
  }

  predicate WorkPrompt(s: State) {
    s.queued ==> s.due > s.clock || s.phase != Idle
  }

  predicate Enabled(s: State, a: Action) {
    match a
    case SetDelay(d) => Int32(d)
    case SetFast(f) => Int32(f)
    case SetLoss(l) => Int32(l)
    case TransportError => true
    case OutsideReconnect(_) => true
    case WorkFires => s.queued && s.due <= s.clock && s.phase == Idle
    case WorkAttempt(_) => s.phase == Entered
    case WorkInterrupted => s.phase == Entered
    case WorkRequeues => s.phase == Failed
    case FastFires => s.fastT.armed.Some? && s.fastT.armed.value <= s.clock && s.fastT.entered.None?
    case FastHandler => s.fastT.entered.Some?
    case LossFires => s.lossT.armed.Some? && s.lossT.armed.value <= s.clock && s.lossT.entered.None?
    case LossHandler => s.lossT.entered.Some?
    case Stop => true
    case CancelAll => s.st == Lost && s.phase == Idle && s.fastT.entered.None? && s.lossT.entered.None?
    case Tick => Prompt(s.fastT, s.clock) && Prompt(s.lossT, s.clock) && WorkPrompt(s)
  }

  function Apply(s: State, a: Action): State
    requires Enabled(s, a)
  {
    match a
    case SetDelay(d) => StoreDelay(s, d)
    case SetFast(f) => if TmoValid(s.delay, f, s.loss) then s.(fast := f) else s
    case SetLoss(l) => if TmoValid(s.delay, s.fast, l) then s.(loss := l) else s
    case TransportError => StartTimers(s)
    case OutsideReconnect(ok) => Reconnect(s, ok)
    case WorkFires => s.(queued := false, phase := Entered)
    case WorkAttempt(ok) => Reconnect(s, ok).(phase := if ok && s.st != Lost then Idle else Failed)
    case WorkInterrupted => s.(phase := Failed)
    case WorkRequeues => Requeue(s)
    case FastFires => s.(fastT := Fired(s.fastT))
    case FastHandler => (if s.st == Blocked then FailIo(s) else s).(fastT := s.fastT.(entered := None))
    case LossFires => s.(lossT := Fired(s.lossT))
    case LossHandler => s.(st := Lost, devicesBlocked := false, lossT := s.lossT.(entered := None))
    case Stop => StopPort(s)
    case CancelAll => s.(queued := false, fastT := Timer(None, None), lossT := Timer(None, None))
    case Tick => s.(clock := s.clock + 1)
  }

  predicate Init(s: State) {
    && s.st == Running && TmoValid(s.delay, s.fast, s.loss) && Int32(s.delay)
    && s.failed == 0 && !s.queued && s.phase == Idle && !s.devicesBlocked
    && s.fastT == Timer(None, None) && s.lossT == Timer(None, None)
  }

  predicate Run(tr: seq<State>, acts: seq<Action>) {
    && |tr| == |acts| + 1 && Init(tr[0])
    && forall i :: 0 <= i < |acts| ==> Enabled(tr[i], acts[i]) && tr[i + 1] == Apply(tr[i], acts[i])
  }

  // ---- timeouts, timers and device blocking ------------------------------------------------

  /** The timer is queued, or its handler started, for a deadline no later than `limit`. */
  predicate DueBy(t: Timer, limit: int) {
    (t.armed.Some? && t.armed.value <= limit) || (t.entered.Some? && t.entered.value <= limit)
  }

  /** A queued timer's deadline has not passed, unless its handler is still busy. */
  predicate NotOverdue(t: Timer, clock: nat) {
    t.armed.Some? ==> t.armed.value >= clock || t.entered.Some?
  }

  predicate TimersAgree(s: State) {
    && (s.st == Running ==> s.fastT.armed.None? && s.lossT.armed.None?)
    && (s.st == Blocked ==>
          && (DueBy(s.fastT, s.since + BLOCK_TICKS) || DueBy(s.lossT, s.since + BLOCK_TICKS))
          && NotOverdue(s.fastT, s.clock) && NotOverdue(s.lossT, s.clock))
  }

  predicate Inv(s: State) {
    && TmoValid(s.delay, s.fast, s.loss) && Int32(s.delay)
    && TimersAgree(s)
    && (s.devicesBlocked <==> s.st == Blocked)
  }

  /** Entering the blocked state always arms a failure timer within the limit. */
  lemma StartBounds(s: State)
    requires TmoValid(s.delay, s.fast, s.loss) && TimersAgree(s)
    ensures TimersAgree(StartTimers(s))
  {
    if s.st == Running && s.fast >= 0 {
      assert DueBy(StartTimers(s).fastT, s.clock + BLOCK_TICKS);
    } else if s.st == Running && s.loss >= 0 {
      assert DueBy(StartTimers(s).lossT, s.clock + BLOCK_TICKS);
    }
  }

  lemma ReconnectKeeps(s: State, ok: bool)
    requires Inv(s)
    ensures Inv(Reconnect(s, ok))
  {
    if !ok && s.st == Running {
      StartBounds(FailIo(s));
    }
  }

  /** A handler that has started, a timer that fires and the clock keep the invariant. */
  lemma TimerKeeps(s: State, a: Action)
    requires Inv(s) && Enabled(s, a)
    requires a.FastFires? || a.FastHandler? || a.LossFires? || a.LossHandler? || a.Tick?
    ensures Inv(Apply(s, a))
  {
  }

  lemma InvStep(s: State, a: Action)
    requires Inv(s) && Enabled(s, a)
    ensures Inv(Apply(s, a))
  {
    match a
    case TransportError => StartBounds(s);
    case OutsideReconnect(ok) => ReconnectKeeps(s, ok);
    case WorkAttempt(ok) => ReconnectKeeps(s, ok);
    case FastFires => TimerKeeps(s, a);
    case FastHandler => TimerKeeps(s, a);
    case LossFires => TimerKeeps(s, a);
    case LossHandler => TimerKeeps(s, a);
    case Tick => TimerKeeps(s, a);
    case _ =>
  }

  lemma {:induction false} InvRun(tr: seq<State>, acts: seq<Action>, i: nat)
    requires Run(tr, acts) && i < |tr|
    ensures Inv(tr[i])
  {
    if i == 0 {
    } else {
      InvRun(tr, acts, i - 1);
      InvStep(tr[i - 1], acts[i - 1]);
    }
  }

  /** In every run the accepted timeouts form a valid triple. */
  lemma TimeoutsStayValid(tr: seq<State>, acts: seq<Action>, i: nat)
    requires Run(tr, acts) && i < |tr|
    ensures TmoValid(tr[i].delay, tr[i].fast, tr[i].loss)
  {
    InvRun(tr, acts, i);
  }

  /** In every run a running port has no failure timer queued. */
  lemma RunningUnarmed(tr: seq<State>, acts: seq<Action>, i: nat)
    requires Run(tr, acts) && i < |tr| && tr[i].st == Running
    ensures tr[i].fastT.armed.None? && tr[i].lossT.armed.None?
  {
    InvRun(tr, acts, i);
  }

  /**
   * A port blocked at moment `since` has, as long as it stays blocked, a failure timer queued or
   * entered with a deadline at most 600 s later; once that time has passed a handler has started.
   */
  lemma BlockedIsBounded(tr: seq<State>, acts: seq<Action>, i: nat)
    requires Run(tr, acts) && i < |tr| && tr[i].st == Blocked
    ensures DueBy(tr[i].fastT, tr[i].since + BLOCK_TICKS) || DueBy(tr[i].lossT, tr[i].since + BLOCK_TICKS)
    ensures tr[i].clock > tr[i].since + BLOCK_TICKS ==> tr[i].fastT.entered.Some? || tr[i].lossT.entered.Some?
  {
    InvRun(tr, acts, i);
  }

  /** In every run the SCSI devices are blocked exactly while the port is. */
  lemma DevicesFollowPort(tr: seq<State>, acts: seq<Action>, i: nat)
    requires Run(tr, acts) && i < |tr|
    ensures tr[i].devicesBlocked <==> tr[i].st == Blocked
  {
    InvRun(tr, acts, i);
  }

  /** In every run a lost port stays lost. */
  lemma {:induction false} LostIsFinal(tr: seq<State>, acts: seq<Action>, i: nat, j: nat)
    requires Run(tr, acts) && i <= j < |tr| && tr[i].st == Lost
    ensures tr[j].st == Lost
  {
    if i == j {
    } else {
      LostIsFinal(tr, acts, i, j - 1);
      assert tr[j] == Apply(tr[j - 1], acts[j - 1]);
    }
  }

  // ---- the reconnect work ------------------------------------------------------------------

  /** The largest delay whose hundredfold still fits 32 bits. */
  const SAFE_DELAY: int := 21474836

  /** A failed port with a positive delay has its reconnect work queued or running. */
  predicate Trying(s: State) {
    s.delay > 0 && (s.st == Blocked || s.st == FailFast) ==> s.queued || s.phase != Idle
  }

  lemma FactorRange(f: nat)
    ensures 1 <= Factor(f) <= 100
    ensures 10 < f <= 110 ==> Factor(f) == f - 10
  {
  }

  /** The number of failures after which a delay no longer fits: the first overflowing multiple. */
  function Overflowing(d: int): (k: nat)
    requires SAFE_DELAY < d <= INT_MAX
    ensures 1 < k <= 100 && d * k > INT_MAX && d * (k - 1) <= INT_MAX
  {
    INT_MAX / d + 1
  }

  lemma FitsUnwrapped(x: int)
    requires 0 < x <= INT_MAX
    ensures Wrap32(x) == x
  {
  }

  lemma MulMonotone(d: int, j: int, k: int)
    requires d > 0 && 0 < j <= k
    ensures 0 < d * j <= d * k
  {
  }

  /** Every backed-off delay is positive exactly when the delay is at most SAFE_DELAY. */
  lemma BackoffExact(d: int)
    requires 0 < d <= INT_MAX
    ensures (forall f: nat :: Wrap32(d * Factor(f)) > 0) <==> d <= SAFE_DELAY
  {
    if d <= SAFE_DELAY {
      forall f: nat ensures Wrap32(d * Factor(f)) > 0 {
        FactorRange(f);
        MulMonotone(d, Factor(f), 100);
        FitsUnwrapped(d * Factor(f));
      }
    } else {
      OverflowStops(d);
    }
  }

  /** Past it, the back-off goes negative after a definite number of failures and not before. */
  lemma OverflowStops(d: int)
    requires SAFE_DELAY < d <= INT_MAX
    ensures Wrap32(d * Factor(Overflowing(d) + 10)) <= 0
    ensures forall f: nat :: f < Overflowing(d) + 10 ==> Wrap32(d * Factor(f)) > 0
  {
    var k := Overflowing(d);
    FactorRange(k + 10);
    assert d * k == d * (k - 1) + d;
    forall f: nat | f < k + 10 ensures Wrap32(d * Factor(f)) > 0 {
      FactorRange(f);
      MulMonotone(d, Factor(f), k - 1);
      FitsUnwrapped(d * Factor(f));
    }
  }

  lemma TryingStep(s: State, a: Action)
    requires Inv(s) && Enabled(s, a) && Trying(s) && s.delay <= SAFE_DELAY
    ensures Trying(Apply(s, a))
  {
    if a.WorkRequeues? && s.delay > 0 {
      BackoffExact(s.delay);
    }
  }

  /** A failed attempt within the safe delay leaves the port trying and the timers alone. */
  lemma RequeueTries(s: State)
    ensures 0 < s.delay <= SAFE_DELAY ==> Requeue(s).queued
    ensures Inv(s) ==> Inv(Requeue(s))
  {
    if 0 < s.delay <= SAFE_DELAY {
      BackoffExact(s.delay);
    }
  }

  predicate SafeDelays(tr: seq<State>) {
    forall i :: 0 <= i < |tr| ==> tr[i].delay <= SAFE_DELAY
  }

  /** With delays up to SAFE_DELAY, in every run a failed port keeps trying to reconnect. */
  lemma {:induction false} KeepsTrying(tr: seq<State>, acts: seq<Action>, i: nat)
    requires Run(tr, acts) && i < |tr| && SafeDelays(tr)
    ensures Trying(tr[i])
  {
    if i == 0 {
    } else {
      KeepsTrying(tr, acts, i - 1);
      InvRun(tr, acts, i - 1);
      TryingStep(tr[i - 1], acts[i - 1]);
    }
  }

  lemma Then(tr: seq<State>, acts: seq<Action>, a: Action) returns (tr': seq<State>, acts': seq<Action>)
    requires Run(tr, acts) && Enabled(tr[|tr| - 1], a)
    ensures Run(tr', acts') && tr'[|tr'| - 1] == Apply(tr[|tr| - 1], a)
    ensures tr' == tr + [Apply(tr[|tr| - 1], a)]
  {
    tr', acts' := tr + [Apply(tr[|tr| - 1], a)], acts + [a];
  }

  predicate SteadyDelay(tr: seq<State>, d: int) {
    forall i :: 0 <= i < |tr| ==> tr[i].delay == d
  }

  /** With no failure timer pending the clock runs up to the moment the reconnect work is due. */
  lemma {:induction false} WaitUntilDue(tr: seq<State>, acts: seq<Action>, d: int)
    returns (tr': seq<State>, acts': seq<Action>)
    requires Run(tr, acts) && SteadyDelay(tr, d)
    requires var s := tr[|tr| - 1];
             s.queued && s.clock <= s.due && s.fastT == s.lossT == Timer(None, None)
    ensures Run(tr', acts') && SteadyDelay(tr', d)
    ensures tr'[|tr'| - 1] == tr[|tr| - 1].(clock := tr[|tr| - 1].due)
    decreases tr[|tr| - 1].due - tr[|tr| - 1].clock
  {
    if tr[|tr| - 1].clock == tr[|tr| - 1].due {
      tr', acts' := tr, acts;
    } else {
      tr', acts' := Then(tr, acts, Tick);
      tr', acts' := WaitUntilDue(tr', acts', d);
    }
  }

  /**
   * A port failed fast, with no device loss timeout, whose reconnect work has failed for the
   * (n + 1)-st time in a row.
   */
  predicate FailedAgain(s: State, d: int, n: nat) {
    && s.st == FailFast && s.delay == d && s.fast == 0 && s.loss == -1 && s.failed == n
    && !s.queued && s.phase == Failed && s.fastT == s.lossT == Timer(None, None)
  }

  /** A queued attempt of such a port comes due and fails. */
  lemma FailOnceMore(tr: seq<State>, acts: seq<Action>, d: int, n: nat)
    returns (tr': seq<State>, acts': seq<Action>)
    requires Run(tr, acts) && SteadyDelay(tr, d)
    requires var s := tr[|tr| - 1];
             s.queued && s.clock <= s.due && FailedAgain(s.(queued := false, phase := Failed), d, n) && s.phase == Idle
    ensures Run(tr', acts') && SteadyDelay(tr', d) && FailedAgain(tr'[|tr'| - 1], d, n)
  {
    tr', acts' := WaitUntilDue(tr, acts, d);
    tr', acts' := Then(tr', acts', WorkFires);
    tr', acts' := Then(tr', acts', WorkAttempt(false));
  }

  /** A transport error with a fast I/O fail timeout of 0: the port is failed, the first attempt queued. */
  lemma FailedFast(d: int) returns (tr: seq<State>, acts: seq<Action>)
    requires 0 < d <= INT_MAX
    ensures Run(tr, acts) && SteadyDelay(tr, d)
    ensures var s := tr[|tr| - 1];
            && s.queued && s.clock <= s.due && s.phase == Idle
            && FailedAgain(s.(queued := false, phase := Failed), d, 0)
  {
    var none := Timer(None, None);
    tr, acts := [State(Running, d, 0, -1, 0, false, 0, Idle, none, none, false, 0, 0)], [];
    tr, acts := Then(tr, acts, TransportError);
    tr, acts := Then(tr, acts, FastFires);
    tr, acts := Then(tr, acts, FastHandler);
  }

  /** A run of n + 1 failed attempts, each made when it is due, as long as each of them queues the next. */
  lemma {:induction false} FailingRun(d: int, n: nat) returns (tr: seq<State>, acts: seq<Action>)
    requires 0 < d <= INT_MAX
    requires forall f: nat :: f <= n ==> Wrap32(d * Factor(f)) > 0
    ensures Run(tr, acts) && SteadyDelay(tr, d) && FailedAgain(tr[|tr| - 1], d, n)
  {
    if n == 0 {
      tr, acts := FailedFast(d);
    } else {
      tr, acts := FailingRun(d, n - 1);
      assert Wrap32(d * Factor(n)) > 0;
      tr, acts := Then(tr, acts, WorkRequeues);
    }
    tr, acts := FailOnceMore(tr, acts, d, n);
  }

  /**
   * For every larger delay there is a run, with no other timeout change, that ends in a failed port
   * whose reconnect work is neither queued nor running.
   */
  lemma LargeDelayStrands(d: int) returns (tr: seq<State>, acts: seq<Action>)
    requires SAFE_DELAY < d <= INT_MAX
    ensures Run(tr, acts) && SteadyDelay(tr, d)
    ensures tr[|tr| - 1].st == FailFast && !Trying(tr[|tr| - 1])
  {
    OverflowStops(d);
    tr, acts := FailingRun(d, Overflowing(d) + 9);
    tr, acts := Then(tr, acts, WorkRequeues);
  }

  // ---- the deadlines of the reconnect work -------------------------------------------------

  /** The longest time in seconds whose ticks fit 32 bits, and the longest delay that backs off to it. */
  const SAFE_SECONDS: int := 2147483
  const PUNCTUAL_DELAY: int := 21474

  /** A positive time is turned into the right number of ticks exactly up to SAFE_SECONDS. */
  lemma TicksExact(x: int)
    requires 0 < x <= INT_MAX
    ensures IntTicks(x) == x * HZ <==> x <= SAFE_SECONDS
  {
  }

  /** The deadline of the next attempt that the back-off is meant to set. */
  function IntendedDue(s: State): int {
    s.clock + s.delay * Factor(s.failed + 1) * HZ
  }

  /** After a failure the work is queued for the intended moment exactly when the backed-off delay is short enough. */
  lemma RequeueDueExact(s: State)
    requires 0 < s.delay <= SAFE_DELAY && !s.queued
    ensures Requeue(s).queued
    ensures Requeue(s).due == IntendedDue(s) <==> s.delay * Factor(s.failed + 1) <= SAFE_SECONDS
  {
    var x := s.delay * Factor(s.failed + 1);
    FactorRange(s.failed + 1);
    MulMonotone(s.delay, Factor(s.failed + 1), 100);
    FitsUnwrapped(x);
    TicksExact(x);
  }

  /** A write that starts reconnecting queues it for the intended moment under the same bound. */
  lemma StoreDueExact(s: State, d: int)
    requires TmoValid(d, s.fast, s.loss) && Int32(d) && d > 0 && s.delay <= 0 && s.st != Running && !s.queued
    ensures StoreDelay(s, d).queued
    ensures StoreDelay(s, d).due == s.clock + d * HZ <==> d <= SAFE_SECONDS
  {
    TicksExact(d);
  }

  /** So every attempt of a series is punctual exactly when the delay is at most PUNCTUAL_DELAY. */
  lemma PunctualExactly(d: int)
    requires 0 < d <= SAFE_DELAY
    ensures (forall f: nat :: d * Factor(f) <= SAFE_SECONDS) <==> d <= PUNCTUAL_DELAY
  {
    if d <= PUNCTUAL_DELAY {
      forall f: nat ensures d * Factor(f) <= SAFE_SECONDS {
        FactorRange(f);
        MulMonotone(d, Factor(f), 100);
      }
    } else {
      FactorRange(110);
      assert d * Factor(110) > SAFE_SECONDS;
    }
  }

  /** In every run with such delays, each failed attempt queues the next for the intended moment. */
  lemma RetriesOnTime(tr: seq<State>, acts: seq<Action>, i: nat)
    requires Run(tr, acts) && i < |acts| && acts[i] == WorkRequeues
    requires 0 < tr[i].delay <= PUNCTUAL_DELAY && !tr[i].queued
    ensures tr[i + 1].queued && tr[i + 1].due == IntendedDue(tr[i])
  {
    PunctualExactly(tr[i].delay);
    RequeueDueExact(tr[i]);
  }

  // ---- sysfs writes that overlap -----------------------------------------------------------

  /** Writes of two attributes that both check before either takes effect can disable all three. */
  lemma OverlappingWritesBreak()
    ensures TmoValid(10, 15, -1) && TmoValid(-1, 15, -1) && TmoValid(10, -1, -1) && !TmoValid(-1, -1, -1)
  {
  }

  /**
   * When two overlapping writes, each accepted against the old values, still leave a valid triple: a
   * write of the delay conflicts with another only by disabling everything, while the two timeouts
   * can also exceed the blocking limit or end up in the wrong order.
   */
  lemma OverlapExact(delay: int, fast: int, loss: int, d: int, f: int, l: int)
    requires TmoValid(d, fast, loss) && TmoValid(delay, f, loss) && TmoValid(delay, fast, l)
    ensures TmoValid(d, f, loss) <==> d > 0 || f >= 0 || loss >= 0
    ensures TmoValid(d, fast, l) <==> d > 0 || fast >= 0 || l >= 0
    ensures TmoValid(delay, f, l) <==>
            if f < 0 then l <= BLOCK_MAX && (delay > 0 || l >= 0) else l < 0 || f < l
  {
  }

  /**
   * A write that enables reconnecting, decided while the port was running and overtaken by a
   * transport error, leaves a blocked port with a positive delay and no reconnect work.
   */
  lemma OvertakenWriteStrands(s: State, d: int)
    requires Inv(s) && s.st == Running && s.delay <= 0 && !s.queued && s.phase == Idle
    requires d > 0 && TmoValid(d, s.fast, s.loss)
    ensures Trying(StartTimers(StoreDelay(s, d)))
    ensures StartTimers(s).st == Blocked && !Trying(CommitDelay(s, StartTimers(s), d))
  {
  }

  /** A write that enables reconnecting late keeps a failed port trying exactly in these cases. */
  lemma LateWriteExact(seen: State, s: State, d: int)
    requires TmoValid(d, seen.fast, seen.loss) && d > 0 && (s.st == Blocked || s.st == FailFast)
    ensures Trying(CommitDelay(seen, s, d)) <==>
            s.queued || s.phase != Idle || (seen.delay <= 0 && seen.st != Running)
  {
  }

  // ---- the port object ---------------------------------------------------------------------

  /** struct srp_rport with its works, its view of the devices and of the clock. */
  class Rport {
    var st: PortState
    var delay: int
    var fast: int
    var loss: int
    var failed: nat
    var queued: bool
    var due: nat
    var phase: Phase
    var fastT: Timer
    var lossT: Timer
    var devicesBlocked: bool
    var clock: nat
    ghost var since: nat

    ghost function View(): State
      reads this
    {
      State(st, delay, fast, loss, failed, queued, due, phase, fastT, lossT, devicesBlocked, clock, since)
    }

    /** A new port; the driver's defaults are expected to form a valid triple. */
    constructor (d: int, f: int, l: int)
      requires TmoValid(d, f, l) && Int32(d)
      ensures Init(View()) && Inv(View()) && delay == d && fast == f && loss == l
    {
      st, delay, fast, loss, failed := Running, d, f, l, 0;
      queued, due, phase, devicesBlocked, clock, since := false, 0, Idle, false, 0, 0;
      fastT, lossT := Timer(None, None), Timer(None, None);
    }

    method SetState(to: PortState) returns (ok: bool)
      modifies this`st
      ensures ok <==> MayEnter(old(st), to)
      ensures st == if ok then to else old(st)
      ensures old(st) == Lost ==> st == Lost
    {
      ok := true;
      match to {
        case Running => ok := st != Lost;
        case Blocked => ok := st == Running;
        case FailFast => ok := st != Lost;
        case Lost =>
      }
      if ok {
        st := to;
      }
    }

    /** queue_delayed_work on the reconnect work. */
    method QueueReconnect(ticks: nat)
      modifies this`queued, this`due
      ensures View() == QueueWork(old(View()), clock + ticks)
    {
      if !queued {
        queued, due := true, clock + ticks;
      }
    }

    method FailIoFast()
      modifies this
      ensures View() == FailIo(old(View()))
    {
      var ok := SetState(FailFast);
      if !ok {
        return;
      }
      devicesBlocked := false;
    }

    method StartFailTimers()
      requires Inv(View())
      modifies this
      ensures View() == StartTimers(old(View())) && Inv(View())
    {
      StartBounds(View());
      StartFailTimersLocked();
    }

    /** The part shared with a failed reconnect, which calls it half way through its own update. */
    method StartFailTimersLocked()
      modifies this
      ensures View() == StartTimers(old(View()))
    {
      if st == Lost {
        return;
      }
      if delay > 0 {
        QueueReconnect(delay * HZ);
      }
      if fast >= 0 || loss >= 0 {
        var ok := SetState(Blocked);
        if ok {
          devicesBlocked := true;
          since := clock;
          if fast >= 0 && fastT.armed.None? {
            fastT := fastT.(armed := Some(clock + fast * HZ));
          }
          if loss >= 0 && lossT.armed.None? {
            lossT := lossT.(armed := Some(clock + loss * HZ));
          }
        }
      }
    }

    /** `lldOk` is the outcome of the driver's reconnect, `interrupted` that of taking the mutex. */
    method ReconnectPort(lldOk: bool, interrupted: bool) returns (ok: bool)
      requires Inv(View())
      modifies this
      ensures ok <==> !interrupted && lldOk && old(st) != Lost
      ensures View() == if interrupted then old(View()) else Reconnect(old(View()), lldOk)
      ensures Inv(View())
    {
      ReconnectKeeps(View(), lldOk);
      if interrupted {
        return false;
      }
      devicesBlocked := true;
      ok := st != Lost && lldOk;
      if ok {
        fastT := fastT.(armed := None);
        lossT := lossT.(armed := None);
        failed := 0;
        var _ := SetState(Running);
        devicesBlocked := false;
      } else if st == Running {
        FailIoFast();
        devicesBlocked := false;
        StartFailTimersLocked();
      } else if st != Blocked {
        devicesBlocked := false;
      }
    }

    /** The reconnect work's handler, run from its start to its end. */
    method ReconnectWork(lldOk: bool, interrupted: bool)
      requires Inv(View()) && phase == Entered
      modifies this
      ensures Inv(View())
      ensures var s1 := if interrupted then old(View()) else Reconnect(old(View()), lldOk);
              View() == if !interrupted && lldOk && old(st) != Lost then s1.(phase := Idle) else Requeue(s1)
      ensures Trying(old(View())) && delay <= SAFE_DELAY ==> Trying(View())
    {
      var ok := ReconnectPort(lldOk, interrupted);
      if ok {
        phase := Idle;
      } else {
        RequeueTries(View());
        Backoff();
      }
    }

    /** The end of a failed attempt: count it and queue the next one. */
    method Backoff()
      modifies this
      ensures View() == Requeue(old(View()))
    {
      failed := failed + 1;
      var n := if failed - 10 > 1 then failed - 10 else 1;
      var back := Wrap32(delay * (if n < 100 then n else 100));
      phase := Idle;
      if back > 0 {
        QueueReconnect(IntTicks(back));
      }
    }

    method FastIoFailTimedOut()
      requires Inv(View()) && fastT.entered.Some?
      modifies this
      ensures View() == Apply(old(View()), FastHandler) && Inv(View()) && st != Blocked
    {
      InvStep(View(), FastHandler);
      if st == Blocked {
        FailIoFast();
      }
      fastT := fastT.(entered := None);
    }

    method DevLossTimedOut()
      requires Inv(View()) && lossT.entered.Some?
      modifies this
      ensures View() == Apply(old(View()), LossHandler) && Inv(View()) && st == Lost
    {
      InvStep(View(), LossHandler);
      var _ := SetState(Lost);
      devicesBlocked := false;
      lossT := lossT.(entered := None);
    }

    method StoreReconnectDelay(d: int) returns (ok: bool)
      requires Inv(View()) && Int32(d)
      modifies this
      ensures ok <==> TmoValid(d, fast, loss)
      ensures View() == StoreDelay(old(View()), d) && Inv(View())
      ensures Trying(old(View())) ==> Trying(View())
    {
      InvStep(View(), SetDelay(d));
      ok := TmoValid(d, fast, loss);
      if ok {
        if delay <= 0 && d > 0 && st != Running {
          QueueReconnect(IntTicks(d));
        } else if d <= 0 {
          queued := false;
        }
        delay := d;
      }
    }

    method StopTimers()
      requires Inv(View())
      modifies this
      ensures View() == StopPort(old(View())) && Inv(View()) && st == Lost && !devicesBlocked
    {
      InvStep(View(), Stop);
      if st == Blocked {
        FailIoFast();
      }
      var _ := SetState(Lost);
    }
  }
}
