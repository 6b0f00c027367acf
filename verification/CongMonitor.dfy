/**
 * Lost wake-ups of the congestion monitor. Bitmap updates copy a map word by word, first folding the
 * freed ports into their mask and then storing the word, and at the end offer the mask to the
 * socket. Meanwhile senders on that socket test their port, register in the socket's mask, test again
 * and give up with -ENOBUFS. Every load, store and locked section is a step of its own, and any number
 * of updates and senders may be under way.
 */
module CongMonitor {
  import opened Congestion

  /** An update before and after it has read the word at `next`, and with its mask complete. */
  datatype Update =
    | Copying(src: set<nat>, next: nat, acc: set<nat>)
    | MidWord(src: set<nat>, next: nat, acc: set<nat>)
    | Offering(acc: set<nat>)

  /** A sender that saw its port congested, then one that registered and whether it was notified since. */
  datatype Sender = Seen(port: nat) | Registered(port: nat, notified: bool)

  /**
   * `congested` is the map as a set of ports. `waiting` collects the ports for which -ENOBUFS was
   * returned and whose notify bit has not been raised since the mask bit was set.
   */
  datatype State = State(
    congested: set<nat>, mask: set<nat>, notify: set<nat>,
    updates: map<nat, Update>, senders: map<nat, Sender>,
    waiting: set<nat>)

  datatype Action =
    | BeginUpdate(u: nat, src: set<nat>)
    | ReadWord(u: nat) | StoreWord(u: nat) | Offer(u: nat)
    | Test(t: nat, port: nat) | Register(t: nat) | TestAgain(t: nat)
    | Collect(bits: set<nat>)

  predicate Enabled(s: State, a: Action) {
    match a
    case BeginUpdate(u, _) => u !in s.updates
    case ReadWord(u) => u in s.updates && s.updates[u].Copying?
    case StoreWord(u) => u in s.updates && s.updates[u].MidWord?
    case Offer(u) => u in s.updates && s.updates[u].Offering?
    case Test(t, port) => t !in s.senders && port in s.congested
    case Register(t) => t in s.senders && s.senders[t].Seen?
    case TestAgain(t) => t in s.senders && s.senders[t].Registered?
    case Collect(bits) => bits <= s.notify
  }

  /** The mask bits of the ports of word w that are congested now and not in the bitmap received. */
  function FreedIn(now: set<nat>, src: set<nat>, w: nat): set<nat> {
    set p | p in now && p !in src && WordOf(p) == w :: BitOf(p)
  }

  /** The map with word w taken from the bitmap received. */
  function Stored(now: set<nat>, src: set<nat>, w: nat): set<nat> {
    (set p | p in now && WordOf(p) != w) + (set p | p in src && WordOf(p) == w)
  }

  /** A registered sender notices a raise of its bit. */
  function Told(x: Sender, acc: set<nat>): Sender {
    if x.Registered? && BitOf(x.port) in acc then x.(notified := true) else x
  }

  function Apply(s: State, a: Action): State
    requires Enabled(s, a)
  {
    match a
    case BeginUpdate(u, src) => s.(updates := s.updates[u := Copying(src, 0, {})])
    case ReadWord(u) =>
      var x := s.updates[u];
      s.(updates := s.updates[u := MidWord(x.src, x.next, x.acc + FreedIn(s.congested, x.src, x.next))])
    case StoreWord(u) =>
      var x := s.updates[u];
      s.(congested := Stored(s.congested, x.src, x.next),
         updates := s.updates[u := if x.next + 1 < WORDS then Copying(x.src, x.next + 1, x.acc)
                                   else Offering(x.acc)])
    case Offer(u) =>
      var acc := s.updates[u].acc;
      s.(notify := s.notify + s.mask * acc, mask := s.mask - acc,
         updates := s.updates - {u},
         senders := map t | t in s.senders :: Told(s.senders[t], acc),
         waiting := set p | p in s.waiting && BitOf(p) !in acc)
    case Test(t, port) => s.(senders := s.senders[t := Seen(port)])
    case Register(t) =>
      var p := s.senders[t].port;
      s.(mask := s.mask + {BitOf(p)}, senders := s.senders[t := Registered(p, false)])
    case TestAgain(t) =>
      var x := s.senders[t];
      s.(senders := s.senders - {t},
         waiting := if x.port in s.congested && !x.notified then s.waiting + {x.port} else s.waiting)
    case Collect(bits) => s.(notify := s.notify - bits)
  }

  predicate Init(s: State) {
    s.updates == map[] && s.senders == map[] && s.waiting == {}
  }

  predicate Run(tr: seq<State>, acts: seq<Action>) {
    && |tr| == |acts| + 1 && Init(tr[0])
    && forall i :: 0 <= i < |acts| ==> Enabled(tr[i], acts[i]) && tr[i + 1] == Apply(tr[i], acts[i])
  }

  // ---- what holds in every run -------------------------------------------------------------

  /** Whoever still counts on a notification has its bit in the socket's mask. */
  predicate Registrations(s: State) {
    && (forall p :: p in s.waiting ==> BitOf(p) in s.mask)
    && (forall t :: t in s.senders && s.senders[t] == Registered(s.senders[t].port, false) ==>
          BitOf(s.senders[t].port) in s.mask)
  }

  lemma RegistrationsStep(s: State, a: Action)
    requires Registrations(s) && Enabled(s, a)
    ensures Registrations(Apply(s, a))
  {
  }

  lemma {:induction false} RegistrationsRun(tr: seq<State>, acts: seq<Action>, i: nat)
    requires Run(tr, acts) && i < |tr|
    ensures Registrations(tr[i])
  {
    if i == 0 {
    } else {
      RegistrationsRun(tr, acts, i - 1);
      RegistrationsStep(tr[i - 1], acts[i - 1]);
    }
  }

  /** In every run a port stops waiting only by having its notify bit raised. */
  lemma LeavesByNotification(tr: seq<State>, acts: seq<Action>, i: nat, p: nat)
    requires Run(tr, acts) && i < |acts| && p in tr[i].waiting && p !in tr[i + 1].waiting
    ensures BitOf(p) in tr[i + 1].notify
  {
    RegistrationsRun(tr, acts, i);
  }

  /** An update that still owes the socket a monitor bit. */
  predicate Owes(s: State, u: nat, k: nat)
    requires u in s.updates
  {
    k in s.updates[u].acc
  }

  /** A port whose sender gave up is still congested, or an update under way will notify it. */
  predicate Covered(s: State, p: nat) {
    p in s.congested || exists u :: u in s.updates && Owes(s, u, BitOf(p))
  }

  // ---- which stores lose a wake-up ----------------------------------------------------------

  /** The store pending in update u frees port p, and no update under way is going to notify it. */
  predicate FreesSilently(s: State, u: nat, p: nat) {
    && u in s.updates && s.updates[u].MidWord?
    && p in s.congested && p !in s.updates[u].src && WordOf(p) == s.updates[u].next
    && forall v :: v in s.updates ==> !Owes(s, v, BitOf(p))
  }

  /** A step that frees some port silently. */
  ghost predicate Silent(s: State, a: Action) {
    a.StoreWord? && exists p :: FreesSilently(s, a.u, p)
  }

  /**
   * Exactly which steps uncover a port: one that counts on a notification stays covered through any
   * step but a store that frees it silently, and never survives that one.
   */
  lemma CoveredExactly(s: State, a: Action, p: nat)
    requires Enabled(s, a) && (p in s.waiting ==> Covered(s, p)) && p in Apply(s, a).waiting
    ensures Covered(Apply(s, a), p) <==> !(a.StoreWord? && FreesSilently(s, a.u, p))
  {
    var s' := Apply(s, a);
    if p in s.congested && p !in s'.congested {
      assert a.StoreWord? && s'.updates.Keys == s.updates.Keys;
      assert forall v :: v in s.updates ==> (Owes(s', v, BitOf(p)) <==> Owes(s, v, BitOf(p)));
    } else if p !in s.congested {
      var u :| u in s.updates && Owes(s, u, BitOf(p));
      assert Owes(s', u, BitOf(p));
    }
  }

  /** No step of the run so far has freed a port silently. */
  ghost predicate NoneSilent(tr: seq<State>, acts: seq<Action>, i: nat)
    requires i <= |acts| < |tr|
  {
    forall j :: 0 <= j < i ==> !Silent(tr[j], acts[j])
  }

  /** In every run without a silent store, a port whose sender gave up is congested still or about to be notified. */
  lemma {:induction false} WaitingIsCovered(tr: seq<State>, acts: seq<Action>, i: nat, p: nat)
    requires Run(tr, acts) && i < |tr| && NoneSilent(tr, acts, i)
    requires p in tr[i].waiting
    ensures Covered(tr[i], p)
  {
    if i == 0 {
      assert false;
    } else {
      if p in tr[i - 1].waiting {
        WaitingIsCovered(tr, acts, i - 1, p);
      }
      assert !Silent(tr[i - 1], acts[i - 1]);
      CoveredExactly(tr[i - 1], acts[i - 1], p);
    }
  }

  /**
   * No wake-up is lost: with no update under way, a port for which a sender got -ENOBUFS and which
   * has become uncongested has had its notify bit raised after the mask bit was set.
   */
  lemma NoLostWakeup(tr: seq<State>, acts: seq<Action>, i: nat, p: nat)
    requires Run(tr, acts) && i < |tr| && NoneSilent(tr, acts, i)
    requires tr[i].updates == map[] && p !in tr[i].congested
    ensures p !in tr[i].waiting
  {
    if p in tr[i].waiting {
      WaitingIsCovered(tr, acts, i, p);
    }
  }

  lemma Then(tr: seq<State>, acts: seq<Action>, a: Action) returns (tr': seq<State>, acts': seq<Action>)
    requires Run(tr, acts) && Enabled(tr[|tr| - 1], a)
    ensures Run(tr', acts') && tr'[|tr'| - 1] == Apply(tr[|tr| - 1], a)
    ensures tr' == tr + [Apply(tr[|tr| - 1], a)] && acts' == acts + [a]
  {
    tr', acts' := tr + [Apply(tr[|tr| - 1], a)], acts + [a];
  }

  /** A number no sender uses. */
  lemma {:induction false} SpareNumber(used: set<nat>) returns (t: nat)
    ensures forall x :: x in used ==> x < t
  {
    if used == {} {
      t := 0;
    } else {
      var y :| y in used;
      t := SpareNumber(used - {y});
      t := if t <= y then y + 1 else t;
      assert forall x :: x in used ==> x == y || x in used - {y};
    }
  }

  /** A sender that tests, registers and tests again before the pending store gives up for good. */
  lemma GivesUp(s: State, u: nat, p: nat, t: nat)
    requires FreesSilently(s, u, p) && t !in s.senders
    ensures Enabled(s, Test(t, p)) && Enabled(Apply(s, Test(t, p)), Register(t))
    ensures var s2 := Apply(Apply(s, Test(t, p)), Register(t));
            && Enabled(s2, TestAgain(t)) && Enabled(Apply(s2, TestAgain(t)), StoreWord(u))
            && var s4 := Apply(Apply(s2, TestAgain(t)), StoreWord(u));
               p in s4.waiting && !Covered(s4, p)
  {
    var s2 := Apply(Apply(s, Test(t, p)), Register(t));
    var s3 := Apply(s2, TestAgain(t));
    assert s3.updates == s.updates && s3.congested == s.congested && p in s3.waiting;
    assert FreesSilently(s3, u, p);
    CoveredExactly(s3, StoreWord(u), p);
  }

  /**
   * The condition is needed: every run that reaches a silent store pending goes on, with one sender
   * and the store, to a port that waits uncongested with nobody to notify it.
   */
  lemma SilentStoreLoses(tr: seq<State>, acts: seq<Action>, u: nat, p: nat)
    returns (tr': seq<State>, acts': seq<Action>)
    requires Run(tr, acts) && FreesSilently(tr[|tr| - 1], u, p)
    ensures Run(tr', acts') && |tr'| == |tr| + 4 && tr'[..|tr|] == tr
    ensures p in tr'[|tr'| - 1].waiting && !Covered(tr'[|tr'| - 1], p)
  {
    var t := SpareNumber(tr[|tr| - 1].senders.Keys);
    GivesUp(tr[|tr| - 1], u, p, t);
    tr', acts' := Then(tr, acts, Test(t, p));
    tr', acts' := Then(tr', acts', Register(t));
    tr', acts' := Then(tr', acts', TestAgain(t));
    tr', acts' := Then(tr', acts', StoreWord(u));
  }

  // ---- updates that agree where they overlap ------------------------------------------------

  /** An update about to store a word has accounted for every port the store frees. */
  predicate Accounted(s: State, u: nat)
    requires u in s.updates
  {
    s.updates[u].MidWord? ==>
      FreedIn(s.congested, s.updates[u].src, s.updates[u].next) <= s.updates[u].acc
  }

  /** Two bitmaps have the same ports in word w. */
  predicate SameWord(a: set<nat>, b: set<nat>, w: nat) {
    && (forall p :: p in a && WordOf(p) == w ==> p in b)
    && (forall p :: p in b && WordOf(p) == w ==> p in a)
  }

  predicate InSameWord(x: Update, y: Update) {
    x.MidWord? && y.MidWord? && x.next == y.next
  }

  /** Updates that are between reading and storing the same word bring the same bits for it. */
  predicate WordsAgree(s: State) {
    forall u, v :: u in s.updates && v in s.updates && InSameWord(s.updates[u], s.updates[v]) ==>
      SameWord(s.updates[u].src, s.updates[v].src, s.updates[u].next)
  }

  /** No two updates are between reading and storing the same word. */
  predicate WordExclusive(s: State) {
    forall u, v :: u in s.updates && v in s.updates && u != v && s.updates[u].MidWord? && s.updates[v].MidWord? ==>
      s.updates[u].next != s.updates[v].next
  }

  lemma StoreElsewhere(now: set<nat>, src: set<nat>, w: nat, other: set<nat>, v: nat)
    requires v != w
    ensures FreedIn(Stored(now, src, w), other, v) == FreedIn(now, other, v)
  {
    forall k | k in FreedIn(Stored(now, src, w), other, v) ensures k in FreedIn(now, other, v) {
      var p :| p in Stored(now, src, w) && p !in other && WordOf(p) == v && BitOf(p) == k;
      assert p in now;
    }
    forall k | k in FreedIn(now, other, v) ensures k in FreedIn(Stored(now, src, w), other, v) {
      var p :| p in now && p !in other && WordOf(p) == v && BitOf(p) == k;
      assert p in Stored(now, src, w);
    }
  }

  /** Once a word is stored, an update with the same bits has nothing left to free in it. */
  lemma StoreSame(now: set<nat>, src: set<nat>, w: nat, other: set<nat>)
    requires SameWord(src, other, w)
    ensures FreedIn(Stored(now, src, w), other, w) == {}
  {
  }

  lemma AccountedStep(s: State, a: Action, u: nat)
    requires Enabled(s, a) && WordsAgree(s) && u in Apply(s, a).updates
    requires u in s.updates ==> Accounted(s, u)
    ensures Accounted(Apply(s, a), u)
  {
    if a.StoreWord? && u != a.u && s.updates[u].MidWord? {
      var x, y := s.updates[a.u], s.updates[u];
      if x.next == y.next {
        StoreSame(s.congested, x.src, x.next, y.src);
      } else {
        StoreElsewhere(s.congested, x.src, x.next, y.src, y.next);
      }
    }
  }

  lemma {:induction false} AccountedRun(tr: seq<State>, acts: seq<Action>, i: nat, u: nat)
    requires Run(tr, acts) && i < |tr| && (forall j :: 0 <= j < i ==> WordsAgree(tr[j]))
    requires u in tr[i].updates
    ensures Accounted(tr[i], u)
  {
    if i == 0 {
      assert false;
    } else {
      if u in tr[i - 1].updates {
        AccountedRun(tr, acts, i - 1, u);
      }
      AccountedStep(tr[i - 1], acts[i - 1], u);
    }
  }

  /** A run in which updates agree on every word they are in together has no silent store, so it loses nothing. */
  lemma AgreeingNeverSilent(tr: seq<State>, acts: seq<Action>, i: nat)
    requires Run(tr, acts) && i < |tr| && (forall j :: 0 <= j < i ==> WordsAgree(tr[j]))
    ensures NoneSilent(tr, acts, i)
  {
    forall j | 0 <= j < i ensures !Silent(tr[j], acts[j]) {
      if Silent(tr[j], acts[j]) {
        var u := acts[j].u;
        var p :| FreesSilently(tr[j], u, p);
        AccountedRun(tr, acts, j, u);
        assert BitOf(p) in FreedIn(tr[j].congested, tr[j].updates[u].src, tr[j].updates[u].next);
        assert Owes(tr[j], u, BitOf(p));
      }
    }
  }

  /** In particular one in which no two updates are ever in the same word. */
  lemma ExclusiveNeverSilent(tr: seq<State>, acts: seq<Action>, i: nat)
    requires Run(tr, acts) && i < |tr| && (forall j :: 0 <= j < i ==> WordExclusive(tr[j]))
    ensures NoneSilent(tr, acts, i)
  {
    forall j | 0 <= j < i ensures WordsAgree(tr[j]) {
      assert WordExclusive(tr[j]);
    }
    AgreeingNeverSilent(tr, acts, i);
  }

  // ---- two updates that do ------------------------------------------------------------------

  lemma NothingFreed(src: set<nat>, w: nat)
    ensures FreedIn({}, src, w) == {}
  {
  }

  lemma StoreZero()
    ensures Stored({}, {0}, 0) == {0}
  {
    assert WordOf(0) == 0;
  }

  /** Two updates read word 0 while no port is marked; the second then stores port 0 in it. */
  lemma ReachOverlap() returns (tr: seq<State>, acts: seq<Action>)
    ensures Run(tr, acts) && FreesSilently(tr[|tr| - 1], 0, 0)
  {
    NothingFreed({}, 0);
    NothingFreed({0}, 0);
    StoreZero();
    tr, acts := [State({}, {}, {}, map[], map[], {})], [];
    tr, acts := Then(tr, acts, BeginUpdate(0, {}));
    tr, acts := Then(tr, acts, BeginUpdate(1, {0}));
    tr, acts := Then(tr, acts, ReadWord(0));
    tr, acts := Then(tr, acts, ReadWord(1));
    tr, acts := Then(tr, acts, StoreWord(1));
    assert tr[|tr| - 1].updates[0] == MidWord({}, 0, {}) && tr[|tr| - 1].updates[1] == Copying({0}, 1, {});
  }

  /**
   * Overlap can lose a wake-up: one update reads the word before the other marks port 0 in it, and
   * stores it after a sender has given up.
   */
  lemma OverlapLosesWakeup() returns (tr: seq<State>, acts: seq<Action>)
    ensures Run(tr, acts)
    ensures 0 in tr[|tr| - 1].waiting && !Covered(tr[|tr| - 1], 0)
  {
    tr, acts := ReachOverlap();
    tr, acts := SilentStoreLoses(tr, acts, 0, 0);
  }
}
