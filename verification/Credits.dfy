/**
  Two-party credit flow control over iWARP (net/rds/iw_send.c, net/rds/iw_recv.c, net/rds/iw_cm.c).

  Each side may post a SEND only against a receive buffer the other side has told it about.  The
  state keeps both sides, both wires and everything in between: credits a thread has grabbed but
  not yet used, credits taken out of the word to be advertised, packets the adapter has delivered
  but the tasklet has not processed, and buffers posted but not yet advertised.
 */
module Credits {
  import opened Common
  import opened CreditWord

  datatype Side = Side(
    nr: nat,          // w_nr of the receive ring
    word: int,        // i_credits
    wrs: int,         // receive work requests the adapter holds
    pend: nat,        // posted by the running refill, not yet passed to advertise_credits
    hand: nat,        // credits rds_iw_xmit has grabbed and not used
    adv: nat,         // adv_credits of rds_iw_xmit
    ackHand: nat,     // the same for the ACK frame
    ackAdv: nat,
    cq: seq<nat>)     // h_credit of received packets the tasklet has not processed

  /** One side called me, the other called peer; out and inn carry h_credit of each SEND in flight. */
  datatype Sys = Sys(me: Side, peer: Side, out: seq<nat>, inn: seq<nat>, failed: bool)

  function Flip(s: Sys): Sys {
    Sys(s.peer, s.me, s.inn, s.out, s.failed)
  }

  /** What one side does; the other side's actions are these on the flipped state. */
  datatype Action =
    | XmitGrab(wanted: nat)     // rds_iw_xmit: credits for the granted ring entries
    | XmitGrabPosted            // rds_iw_xmit: whatever else can be advertised in this header
    | XmitMapFails              // the message cannot be mapped: what was grabbed is lost
    | XmitReturn(unused: nat)   // rds_iw_send_add_credits of credits not needed, before posting
    | XmitSend                  // one fragment posted; the first carries adv_credits
    | XmitPostFails             // ib_post_send failed: what was grabbed is lost
    | AckGrab                   // rds_iw_attempt_ack
    | AckSend                   // rds_iw_send_ack
    | AckFail
    | PostRecv                  // one turn of the refill loop
    | Advertise                 // rds_iw_advertise_credits after the loop
    | Arrive                    // the adapter puts a SEND into the oldest posted buffer
    | Process                   // rds_iw_process_recv, then rds_iw_ring_free

  /** A mapping failure at this point reaches BUG_ON(adv_credits). */
  predicate BugOnAdvertised(s: Sys) {
    s.me.adv > 0
  }

  predicate Enabled(s: Sys, a: Action) {
    var m := s.me;
    match a
    case XmitGrab(w) => m.hand == 0 && m.adv == 0 && w > 0
    case XmitGrabPosted => m.hand > 0 && m.adv <= MAX_ADV
    // With credits already taken to be advertised, BUG_ON(adv_credits) ends the run here.
    case XmitMapFails => m.hand > 0 && !BugOnAdvertised(s)
    case XmitReturn(unused) => 0 < unused < m.hand
    case XmitSend => m.hand > 0
    case XmitPostFails => m.hand > 0
    case AckGrab => m.ackHand == 0 && m.ackAdv == 0
    case AckSend => m.ackHand > 0
    case AckFail => m.ackHand > 0
    case PostRecv => m.wrs + |m.cq| < m.nr
    case Advertise => m.pend > 0
    case Arrive => s.inn != []
    case Process => m.cq != []
  }

  function Apply(s: Sys, a: Action): Sys
    requires Enabled(s, a)
  {
    var m := s.me;
    match a
    case XmitGrab(w) =>
      var g := TakeWord(m.word, w, false, MAX_ADV);
      s.(me := m.(word := Billed(m.word, g), hand := g.got, adv := g.adv))
    case XmitGrabPosted =>
      var g := TakeWord(m.word, 0, true, MAX_ADV - m.adv);
      s.(me := m.(word := Billed(m.word, g), adv := m.adv + g.adv))
    case XmitSend =>
      s.(me := m.(hand := m.hand - 1, adv := 0), out := s.out + [m.adv])
    case XmitMapFails =>
      s.(me := m.(hand := 0, adv := 0), failed := true)
    case XmitReturn(unused) =>
      s.(me := m.(word := AddSend(m.word, unused), hand := m.hand - unused))
    case XmitPostFails =>
      s.(me := m.(hand := 0, adv := 0), failed := true)
    case AckGrab =>
      var g := TakeWord(m.word, 1, false, MAX_ADV);
      s.(me := m.(word := Billed(m.word, g), ackHand := g.got, ackAdv := g.adv))
    case AckSend =>
      s.(me := m.(ackHand := 0, ackAdv := 0), out := s.out + [m.ackAdv])
    case AckFail =>
      s.(me := m.(ackHand := 0, ackAdv := 0), failed := true)
    case PostRecv =>
      s.(me := m.(wrs := m.wrs + 1, pend := m.pend + 1))
    case Advertise =>
      s.(me := m.(word := AddPost(m.word, m.pend), pend := 0))
    case Arrive =>
      s.(me := m.(wrs := m.wrs - 1, cq := m.cq + [s.inn[0]]), inn := s.inn[1..])
    case Process =>
      s.(me := m.(word := AddSend(m.word, m.cq[0]), cq := m.cq[1..]))
  }

  ghost predicate Step(s: Sys, s': Sys, a: Action, mine: bool) {
    if mine then Enabled(s, a) && s' == Apply(s, a)
    else Enabled(Flip(s), a) && s' == Flip(Apply(Flip(s), a))
  }

  /**
    rds_iw_cm_fill_conn_param moves everything posted so far out of the word and into dp_credit,
    and rds_iw_set_flow_control adds it at the other end.  Both sides do so; flow control needs
    both values to be non-zero.
   */
  function FreshSide(nr: nat, posted: nat, dpCredit: nat): Side {
    var filled := AddPost(0, posted);
    var emptied := S32(filled - U32(GetPost(filled) * LOW));
    Side(nr, AddSend(emptied, dpCredit), posted, 0, 0, 0, 0, 0, [])
  }

  ghost predicate Init(s: Sys) {
    exists p: nat, q: nat :: Connected(s, p, q)
  }

  /** The connection has just come up with p and q buffers posted; rings are below 32768. */
  ghost predicate Connected(s: Sys, p: nat, q: nat) {
    && 0 < p <= s.me.nr < 0x8000 && 0 < q <= s.peer.nr < 0x8000
    && s.me == FreshSide(s.me.nr, p, GetPost(AddPost(0, q)))
    && s.peer == FreshSide(s.peer.nr, q, GetPost(AddPost(0, p)))
    && s.out == [] && s.inn == [] && !s.failed
  }

  ghost predicate Run(tr: seq<Sys>, acts: seq<(Action, bool)>) {
    && |tr| == |acts| + 1
    && Init(tr[0])
    && forall i :: 0 <= i < |acts| ==> Step(tr[i], tr[i + 1], acts[i].0, acts[i].1)
  }

  // ------------------------------------------------------------------ conservation

  /**
    Everything that is, or may still become, a SEND into one of m's buffers: the peer's credits and
    SENDs, and the credits on their way to the peer.
   */
  function Claims(m: Side, p: Side, out: seq<nat>, inn: seq<nat>): nat {
    GetSend(p.word) + p.hand + p.ackHand + |inn|
    + Sum(out) + Sum(p.cq) + m.adv + m.ackAdv + GetPost(m.word) + m.pend
  }

  ghost predicate WordFits(v: int) {
    Pair(GetSend(v), GetPost(v)).Fits() && v == Pack(Pair(GetSend(v), GetPost(v)))
  }

  /** One direction of the invariant. */
  ghost predicate Covered(m: Side, p: Side, out: seq<nat>, inn: seq<nat>, failed: bool) {
    && WordFits(m.word)
    && m.nr < 0x8000
    && m.wrs + |m.cq| <= m.nr
    && Claims(m, p, out, inn) <= m.wrs
    && (!failed ==> Claims(m, p, out, inn) == m.wrs)
    && m.adv <= MAX_ADV && m.ackAdv <= MAX_ADV && m.ackHand <= 1
    && (forall i :: 0 <= i < |out| ==> out[i] <= MAX_ADV)
    && (m.hand == 0 ==> m.adv == 0) && (m.ackHand == 0 ==> m.ackAdv == 0)
  }

  ghost predicate Conserved(s: Sys) {
    Covered(s.me, s.peer, s.out, s.inn, s.failed) && Covered(s.peer, s.me, s.inn, s.out, s.failed)
  }

  lemma Packed(p: Pair)
    requires p.Fits()
    ensures WordFits(Pack(p)) && GetSend(Pack(p)) == p.send && GetPost(Pack(p)) == p.post
  {
    PackReads(p);
  }

  /** A grab moves credits out of the word and nowhere else. */
  lemma GrabMoves(v: int, wanted: nat, need: bool, max: nat)
    requires WordFits(v)
    ensures var g := TakeWord(v, wanted, need, max);
            WordFits(Billed(v, g)) && GetSend(Billed(v, g)) == GetSend(v) - g.got
            && GetPost(Billed(v, g)) == GetPost(v) - g.adv
  {
    var p := Pair(GetSend(v), GetPost(v));
    GrabRefines(p, wanted, need, max);
    var g := Take(p, wanted, need, max);
    Packed(Pair(p.send - g.got, p.post - g.adv));
  }

  lemma AddSendMoves(v: int, c: nat)
    requires WordFits(v) && GetSend(v) + c < 0x8000
    ensures WordFits(AddSend(v, c)) && GetSend(AddSend(v, c)) == GetSend(v) + c && GetPost(AddSend(v, c)) == GetPost(v)
  {
    var p := Pair(GetSend(v), GetPost(v));
    AddSendExact(p, c);
    Packed(Pair(p.send + c, p.post));
  }

  lemma AddPostMoves(v: int, c: nat)
    requires WordFits(v) && GetPost(v) + c < 0x8000
    ensures WordFits(AddPost(v, c)) && GetPost(AddPost(v, c)) == GetPost(v) + c && GetSend(AddPost(v, c)) == GetSend(v)
  {
    var p := Pair(GetSend(v), GetPost(v));
    AddPostExact(p, c);
    Packed(Pair(p.send, p.post + c));
  }

  lemma GrabConserves(s: Sys, a: Action)
    requires Conserved(s) && Enabled(s, a) && (a.XmitGrab? || a.XmitGrabPosted? || a.AckGrab?)
    ensures Conserved(Apply(s, a))
  {
    var m := s.me;
    match a
    case XmitGrab(w) => GrabMoves(m.word, w, false, MAX_ADV); GrabAdvertises(m.word, w);
    case XmitGrabPosted => GrabMoves(m.word, 0, true, MAX_ADV - m.adv);
    case AckGrab => GrabMoves(m.word, 1, false, MAX_ADV); GrabAdvertises(m.word, 1);
  }

  /** Nothing is advertised by a packet that is not going to be sent. */
  lemma GrabAdvertises(v: int, wanted: nat)
    ensures TakeWord(v, wanted, false, MAX_ADV).got == 0 ==> TakeWord(v, wanted, false, MAX_ADV).adv == 0
  {
  }

  lemma SendConserves(s: Sys, a: Action)
    requires Conserved(s) && Enabled(s, a) && (a.XmitSend? || a.AckSend?)
    ensures Conserved(Apply(s, a))
  {
    SumSnoc(s.out, s.me.adv);
    SumSnoc(s.out, s.me.ackAdv);
  }

  lemma ArriveConserves(s: Sys)
    requires Conserved(s) && Enabled(s, Arrive)
    ensures Conserved(Apply(s, Arrive))
  {
    SumSnoc(s.me.cq, s.inn[0]);
  }

  lemma ProcessConserves(s: Sys)
    requires Conserved(s) && Enabled(s, Process)
    ensures Conserved(Apply(s, Process))
  {
    AddSendMoves(s.me.word, s.me.cq[0]);
  }

  lemma RestConserves(s: Sys, a: Action)
    requires Conserved(s) && Enabled(s, a)
    requires a.XmitReturn? || a.Advertise? || a.PostRecv? || a.XmitMapFails? || a.XmitPostFails? || a.AckFail?
    ensures Conserved(Apply(s, a))
  {
    if a.XmitReturn? { AddSendMoves(s.me.word, a.unused); }
    if a.Advertise? { AddPostMoves(s.me.word, s.me.pend); }
  }

  lemma ActionConserves(s: Sys, a: Action)
    requires Conserved(s) && Enabled(s, a)
    ensures Conserved(Apply(s, a))
  {
    match a
    case XmitGrab(_) => GrabConserves(s, a);
    case XmitGrabPosted => GrabConserves(s, a);
    case AckGrab => GrabConserves(s, a);
    case XmitSend => SendConserves(s, a);
    case AckSend => SendConserves(s, a);
    case Arrive => ArriveConserves(s);
    case Process => ProcessConserves(s);
    case _ => RestConserves(s, a);
  }

  lemma ConservedStep(s: Sys, s': Sys, a: Action, mine: bool)
    requires Conserved(s) && Step(s, s', a, mine)
    ensures Conserved(s')
  {
    if mine {
      ActionConserves(s, a);
    } else {
      ActionConserves(Flip(s), a);
    }
  }

  /** A side that has just come up, against a peer that has just come up. */
  lemma FreshCovered(s: Sys, p: nat, q: nat)
    requires Connected(s, p, q)
    ensures Covered(s.me, s.peer, s.out, s.inn, false) && GetSend(s.me.word) == q
  {
    HandshakeWord(p, q);
    HandshakeWord(q, p);
  }

  lemma InitConserved(s: Sys)
    requires Init(s)
    ensures Conserved(s) && Purse(s) > 0
  {
    var p: nat, q: nat :| Connected(s, p, q);
    FreshCovered(s, p, q);
    assert Connected(Flip(s), q, p);
    FreshCovered(Flip(s), q, p);
  }

  /** After the exchange a side holds the peer's buffers as send credits and has nothing left to advertise. */
  lemma HandshakeWord(mine: nat, theirs: nat)
    requires mine < 0x8000 && theirs < 0x8000
    ensures GetPost(AddPost(0, theirs)) == theirs
    ensures FreshSide(0, mine, theirs).word == Pack(Pair(theirs, 0)) && WordFits(Pack(Pair(theirs, 0)))
    ensures GetSend(Pack(Pair(theirs, 0))) == theirs && GetPost(Pack(Pair(theirs, 0))) == 0
  {
    AddPostExact(Pair(0, 0), mine);
    AddPostExact(Pair(0, 0), theirs);
    AddSendExact(Pair(0, 0), theirs);
    Packed(Pair(theirs, 0));
    Packed(Pair(0, mine));
  }

  // ------------------------------------------------------------------ deadlock freedom

  /** Credits that are, or will become, send credits of one side or the other. */
  function Purse(s: Sys): nat {
    GetSend(s.me.word) + s.me.adv + s.me.ackAdv + Sum(s.me.cq) + Sum(s.out)
    + GetSend(s.peer.word) + s.peer.adv + s.peer.ackAdv + Sum(s.peer.cq) + Sum(s.inn)
  }

  /** The reserved last credit: a grab that takes something leaves a credit behind or sends one along. */
  lemma GrabLeaves(v: int, wanted: nat)
    requires WordFits(v)
    ensures var g := TakeWord(v, wanted, false, MAX_ADV);
            g.got > 0 ==> GetSend(Billed(v, g)) + g.adv > 0
  {
    GrabMoves(v, wanted, false, MAX_ADV);
  }

  lemma PurseStep(s: Sys, a: Action)
    requires Conserved(s) && Enabled(s, a) && Purse(s) > 0
    ensures Apply(s, a).failed || Purse(Apply(s, a)) > 0
  {
    var m := s.me;
    match a
    case XmitGrab(w) => GrabMoves(m.word, w, false, MAX_ADV); GrabLeaves(m.word, w);
    case XmitGrabPosted => GrabMoves(m.word, 0, true, MAX_ADV - m.adv);
    case AckGrab => GrabMoves(m.word, 1, false, MAX_ADV); GrabLeaves(m.word, 1);
    case XmitSend => SumSnoc(s.out, m.adv);
    case AckSend => SumSnoc(s.out, m.ackAdv);
    case XmitReturn(unused) => AddSendMoves(m.word, unused);
    case Advertise => AddPostMoves(m.word, m.pend);
    case Arrive => SumSnoc(m.cq, s.inn[0]);
    case Process => AddSendMoves(m.word, m.cq[0]);
    case _ =>
  }

  ghost predicate Inv(s: Sys) {
    Conserved(s) && (s.failed || Purse(s) > 0)
  }

  lemma PurseEitherSide(s: Sys, s': Sys, a: Action, mine: bool)
    requires Conserved(s) && Step(s, s', a, mine) && Purse(s) > 0
    ensures s'.failed || Purse(s') > 0
  {
    if mine {
      PurseStep(s, a);
    } else {
      assert Purse(Flip(s)) == Purse(s);
      PurseStep(Flip(s), a);
      assert Purse(Flip(s')) == Purse(s');
    }
  }

  lemma FailedStays(s: Sys, s': Sys, a: Action, mine: bool)
    requires Step(s, s', a, mine) && s.failed
    ensures s'.failed
  {
  }

  lemma {:induction false} InvRun(tr: seq<Sys>, acts: seq<(Action, bool)>, i: nat)
    requires Run(tr, acts) && i < |tr|
    ensures Inv(tr[i])
  {
    if i == 0 {
      InitConserved(tr[0]);
    } else {
      InvRun(tr, acts, i - 1);
      var a, mine := acts[i - 1].0, acts[i - 1].1;
      ConservedStep(tr[i - 1], tr[i], a, mine);
      if tr[i - 1].failed {
        FailedStays(tr[i - 1], tr[i], a, mine);
      } else {
        PurseEitherSide(tr[i - 1], tr[i], a, mine);
      }
    }
  }

  // ------------------------------------------------------------------ the guarantees

  /** Conservation, in both directions, at every moment of every run. */
  lemma CreditsConserved(tr: seq<Sys>, acts: seq<(Action, bool)>, i: nat)
    requires Run(tr, acts) && i < |tr|
    ensures Claims(tr[i].me, tr[i].peer, tr[i].out, tr[i].inn) <= tr[i].me.wrs
    ensures Claims(tr[i].peer, tr[i].me, tr[i].inn, tr[i].out) <= tr[i].peer.wrs
    ensures !tr[i].failed ==> Claims(tr[i].me, tr[i].peer, tr[i].out, tr[i].inn) == tr[i].me.wrs
    ensures !tr[i].failed ==> Claims(tr[i].peer, tr[i].me, tr[i].inn, tr[i].out) == tr[i].peer.wrs
  {
    InvRun(tr, acts, i);
  }

  /** A SEND never arrives at a side that has no buffer posted for it. */
  lemma NoReceiverNotReady(tr: seq<Sys>, acts: seq<(Action, bool)>, i: nat)
    requires Run(tr, acts) && i < |tr|
    ensures tr[i].inn != [] ==> tr[i].me.wrs >= |tr[i].inn|
    ensures tr[i].out != [] ==> tr[i].peer.wrs >= |tr[i].out|
  {
    InvRun(tr, acts, i);
  }

  /** Without failures the credits in circulation, as send credits or on their way to become some, never run out. */
  lemma CreditsCirculate(tr: seq<Sys>, acts: seq<(Action, bool)>, i: nat)
    requires Run(tr, acts) && i < |tr| && !tr[i].failed
    ensures Purse(tr[i]) > 0
  {
    InvRun(tr, acts, i);
  }

  /**
    When a mapping failure stops the machine: the grab that preceded it got something, and buffers
    had been posted since the last advertisement.
   */
  lemma BugOnExact(s: Sys, wanted: nat)
    requires Enabled(s, XmitGrab(wanted))
    ensures BugOnAdvertised(Apply(s, XmitGrab(wanted))) <==>
            GetPost(s.me.word) > 0 && GetSend(s.me.word) > 0
  {
  }

  lemma Then(tr: seq<Sys>, acts: seq<(Action, bool)>, a: Action)
    returns (tr': seq<Sys>, acts': seq<(Action, bool)>)
    requires Run(tr, acts) && Enabled(tr[|tr| - 1], a)
    ensures Run(tr', acts') && tr'[|tr'| - 1] == Apply(tr[|tr| - 1], a)
    ensures tr' == tr + [Apply(tr[|tr| - 1], a)]
  {
    tr', acts' := tr + [Apply(tr[|tr| - 1], a)], acts + [(a, true)];
  }

  /** It does happen: any connection with room for one more buffer gets there in three steps. */
  lemma BugOnReachable(s: Sys, p: nat, q: nat) returns (tr: seq<Sys>, acts: seq<(Action, bool)>)
    requires Connected(s, p, q) && p < s.me.nr
    ensures Run(tr, acts) && tr[0] == s && |tr| == 4
    ensures tr[3].me.hand > 0 && BugOnAdvertised(tr[3])
  {
    HandshakeWord(p, q);
    AddPostMoves(s.me.word, 1);
    tr, acts := [s], [];
    tr, acts := Then(tr, acts, PostRecv);
    tr, acts := Then(tr, acts, Advertise);
    BugOnExact(tr[|tr| - 1], 1);
    tr, acts := Then(tr, acts, XmitGrab(1));
  }

  /** The two halves of each word never run into each other, and no header carries more than 255 credits. */
  lemma HalvesIndependent(tr: seq<Sys>, acts: seq<(Action, bool)>, i: nat)
    requires Run(tr, acts) && i < |tr|
    ensures WordFits(tr[i].me.word) && WordFits(tr[i].peer.word)
    ensures forall k :: 0 <= k < |tr[i].out| ==> tr[i].out[k] <= MAX_ADV
    ensures forall k :: 0 <= k < |tr[i].inn| ==> tr[i].inn[k] <= MAX_ADV
  {
    InvRun(tr, acts, i);
  }

  /** Nothing is in motion and nothing is about to be posted. */
  ghost predicate Quiescent(s: Sys) {
    && !s.failed && s.out == [] && s.inn == []
    && Resting(s.me) && Resting(s.peer)
  }

  predicate Resting(m: Side) {
    m.cq == [] && m.pend == 0 && m.hand == 0 && m.ackHand == 0 && m.adv == 0 && m.ackAdv == 0
  }

  predicate CanSend(m: Side) {
    TakeWord(m.word, 1, false, MAX_ADV).got == 1
  }

  /**
    Deadlock freedom, exactly: at rest with buffers posted on both sides, neither side can send if
    and only if each side has a single buffer out and holds the single credit for the other's.
   */
  lemma StuckExactly(tr: seq<Sys>, acts: seq<(Action, bool)>, i: nat)
    requires Run(tr, acts) && i < |tr| && Quiescent(tr[i])
    requires tr[i].me.wrs > 0 && tr[i].peer.wrs > 0
    ensures var s := tr[i];
            !CanSend(s.me) && !CanSend(s.peer) <==>
            s.me.wrs == 1 && s.peer.wrs == 1 && GetSend(s.me.word) == 1 && GetSend(s.peer.word) == 1
  {
    InvRun(tr, acts, i);
    var s := tr[i];
    assert s.me.wrs == GetSend(s.peer.word) + GetPost(s.me.word);
    assert s.peer.wrs == GetSend(s.me.word) + GetPost(s.peer.word);
  }

  /** Receive rings of two or more slots, refilled whenever at most half is in use, never get stuck. */
  lemma NoDeadlock(tr: seq<Sys>, acts: seq<(Action, bool)>, i: nat)
    requires Run(tr, acts) && i < |tr| && Quiescent(tr[i])
    requires tr[i].me.nr >= 2 && 2 * tr[i].me.wrs > tr[i].me.nr
    requires tr[i].peer.nr >= 2 && 2 * tr[i].peer.wrs > tr[i].peer.nr
    ensures CanSend(tr[i].me) || CanSend(tr[i].peer)
  {
    StuckExactly(tr, acts, i);
  }

  /** The bound of two is sharp: with one-slot rings neither side can ever send its first message. */
  lemma OneSlotRingsStuck(s: Sys)
    requires Connected(s, 1, 1)
    ensures Quiescent(s) && !CanSend(s.me) && !CanSend(s.peer)
  {
    HandshakeWord(1, 1);
  }
}
