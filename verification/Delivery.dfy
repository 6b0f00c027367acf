/**
  Reliable delivery over an IB or iWARP connection that may be reset any number of times
  (net/rds/send.c, net/rds/recv.c, net/rds/connection.c, net/rds/ib_send.c, net/rds/ib_recv.c).

  One sender, one receiver.  Each end has its own idea of the current connection instance
  ("epoch"): the two ends are torn down at different moments, and packets of an instance are
  seen only by a receiver that is still on it.  Within an instance the wire is FIFO and loses
  nothing but a suffix.  Packets are whole messages here; module Fragments shows that fragments
  of a message stream are put back together into exactly that stream.
 */
module Delivery {
  import opened SendQueue

  /** A message as it arrives: RDS_FLAG_RETRANSMITTED is stamped from the message's flag. */
  datatype Packet = Packet(epoch: nat, seqno: nat, retrans: bool)

  datatype State = State(
    snd: Sender,
    txEpoch: nat,
    ackRecv: nat,          // i_ack_recv
    wire: seq<Packet>,
    rxEpoch: nat,
    nextRx: nat,           // c_next_rx_seq: survives every reset
    ackState: nat,         // ack_next of the receive tasklet's local state
    ackNext: nat,          // i_ack_next
    acks: set<nat>,        // every h_ack value that ever left the receiver
    maxSent: nat,          // history: largest number ever put on the wire
    accepted: seq<nat>,    // history: numbers that passed the filter, in order
    gone: set<nat>,        // history: cancelled, or dropped as a retransmitted RDMA op
    silents: set<nat>)     // history: queued with silent ops only

  ghost predicate Init(s: State) {
    && s.snd == Sender(1, [], [], Nothing)
    && s.wire == [] && s.nextRx == 0 && s.ackState == 0 && s.ackNext == 0 && s.ackRecv == 0
    && s.acks == {0} && s.maxSent == 0 && s.accepted == [] && s.gone == {} && s.silents == {}
  }

  datatype Action =
    | Queue(rdma: bool, silent: bool, ackReq: bool)  // rds_send_queue_rm, rds_send_pong
    | TakeHead                                       // first c_lock section of rds_send_xmit
    | SettleHead                                     // the never-retransmit-RDMA rule
    | Transmit                                       // last fragment posted, c_xmit_rm = NULL
    | CancelOne(n: nat)                              // rds_send_drop_to
    | ResetSender(epoch: nat)                        // transport shutdown, then rds_send_reset
    | TakeAck(a: nat)                                // tasklet: rds_send_drop_acked
    | Receive                                        // rds_recv_incoming on the head of the wire
    | Discard                                        // a packet of a dead connection instance
    | ResetReceiver(epoch: nat)                      // transport shutdown at the other end
    | PublishAck                                     // rds_ib_set_ack
    | EmitAck                                        // piggybacked, or in an ACK-only frame

  ghost predicate Enabled(s: State, a: Action) {
    match a
    case Queue(_, _, _) => true
    case TakeHead => s.snd.pick.Nothing? && s.snd.queue != []
    case SettleHead => s.snd.pick.Grabbed?
    case Transmit => s.snd.pick.Sending?
    case CancelOne(n) => Has(s.snd.Live(), n)
    // rds_send_reset never overlaps rds_send_xmit
    case ResetSender(e) => e > s.txEpoch && !s.snd.pick.Grabbed?
    case TakeAck(a) => a in s.acks && a > s.ackRecv
    case Receive => s.wire != [] && s.wire[0].epoch == s.rxEpoch
    case Discard => s.wire != [] && s.wire[0].epoch < s.rxEpoch
    case ResetReceiver(e) => e > s.rxEpoch
    case PublishAck => true
    case EmitAck => true
  }

  /** The receiver's duplicate filter. */
  predicate OldDuplicate(nextRx: nat, p: Packet) {
    p.seqno < nextRx && p.retrans
  }

  function Transmitted(s: State): State
    requires s.snd.pick.Sending?
  {
    var m := s.snd.pick.m;
    if m.silent then s.(snd := Finish(s.snd))
    else s.(snd := Finish(s.snd),
            wire := s.wire + [Packet(s.txEpoch, m.seqno, m.retrans)],
            maxSent := if m.seqno > s.maxSent then m.seqno else s.maxSent)
  }

  function Received(s: State): State
    requires s.wire != []
  {
    var p := s.wire[0];
    var s1 := s.(wire := s.wire[1..], ackState := p.seqno);
    if OldDuplicate(s.nextRx, p) then s1
    else s1.(nextRx := p.seqno + 1, accepted := s.accepted + [p.seqno])
  }

  ghost function Apply(s: State, a: Action): State
    requires Enabled(s, a)
  {
    match a
    case Queue(rdma, silent, ackReq) =>
      s.(snd := Enqueue(s.snd, rdma, silent, ackReq),
         silents := if silent then s.silents + {s.snd.nextTx} else s.silents)
    case TakeHead => s.(snd := Grab(s.snd))
    case SettleHead =>
      var m := s.snd.pick.m;
      s.(snd := Settle(s.snd),
         gone := if NeverRetransmit(m) && Has(s.snd.retrans, m.seqno) then s.gone + {m.seqno} else s.gone)
    case Transmit => Transmitted(s)
    case CancelOne(n) => s.(snd := Cancel(s.snd, n), gone := s.gone + {n})
    case ResetSender(e) => s.(snd := Reset(s.snd), txEpoch := e, ackRecv := 0)
    case TakeAck(a) => s.(snd := DropAcked(s.snd, a), ackRecv := a)
    case Receive => Received(s)
    case Discard => s.(wire := s.wire[1..])
    case ResetReceiver(e) => s.(rxEpoch := e, ackNext := 0)
    case PublishAck => s.(ackNext := s.ackState)
    case EmitAck => s.(acks := s.acks + {s.ackNext})
  }

  ghost predicate Run(tr: seq<State>, acts: seq<Action>) {
    && |tr| == |acts| + 1
    && Init(tr[0])
    && forall i :: 0 <= i < |acts| ==> Enabled(tr[i], acts[i]) && tr[i + 1] == Apply(tr[i], acts[i])
  }

  // ------------------------------------------------------------------ invariants of the sender

  /** c_retrans ++ c_send_queue is strictly sorted and below the next number. */
  ghost predicate SenderSorted(q: Sender) {
    && q.nextTx > 0
    && Sorted(q.Live())
    && (forall m :: m in q.Live() ==> 0 < m.seqno < q.nextTx)
  }

  /** The message in hand came off the queue's head: it separates the two lists. */
  ghost predicate PickBetween(q: Sender) {
    q.pick.Nothing? || (
      && 0 < q.pick.m.seqno < q.nextTx
      && (forall m :: m in q.retrans ==> m.seqno <= q.pick.m.seqno)
      && (forall m :: m in q.retrans && m.seqno == q.pick.m.seqno ==> m == q.pick.m)
      && (forall m :: m in q.queue ==> m.seqno > q.pick.m.seqno))
  }

  ghost predicate SenderInv(q: Sender) {
    SenderSorted(q) && PickBetween(q)
  }

  lemma SenderStep(s: State, a: Action)
    requires SenderInv(s.snd) && Enabled(s, a)
    ensures SenderInv(Apply(s, a).snd)
  {
    var q := s.snd;
    SortedParts(q.retrans, q.queue);
    match a
    case Queue(rdma, silent, ackReq) => EnqueueKeeps(q, rdma, silent, ackReq);
    case TakeHead => GrabKeeps(q);
    case SettleHead => SettleKeeps(q);
    case CancelOne(n) => CancelKeeps(q, n);
    case ResetSender(e) => ResetKeeps(q);
    case TakeAck(k) => DropKeeps(q, k);
    case _ =>
  }

  lemma EnqueueKeeps(q: Sender, rdma: bool, silent: bool, ackReq: bool)
    requires SenderInv(q)
    ensures SenderInv(Enqueue(q, rdma, silent, ackReq))
  {
    var m := Msg(q.nextTx, rdma, silent, ackReq, false);
    var q' := Enqueue(q, rdma, silent, ackReq);
    assert q'.Live() == q.Live() + [m];
    SortedJoin(q.Live(), [m]);
  }

  lemma GrabKeeps(q: Sender)
    requires SenderInv(q) && q.pick.Nothing? && q.queue != []
    ensures SenderInv(Grab(q))
  {
    assert Grab(q).Live() == q.Live();
    SortedParts(Grab(q).retrans, Grab(q).queue);
    assert q.queue[0] in q.Live();
    SortedParts(q.retrans, q.queue);
  }

  lemma SettleKeeps(q: Sender)
    requires SenderInv(q) && q.pick.Grabbed?
    ensures SenderInv(Settle(q))
  {
    SortedParts(q.retrans, q.queue);
    WithoutExact(q.retrans, q.pick.m.seqno);
    SortedJoin(Settle(q).retrans, q.queue);
  }

  lemma CancelKeeps(q: Sender, n: nat)
    requires SenderInv(q)
    ensures SenderInv(Cancel(q, n))
  {
    SortedParts(q.retrans, q.queue);
    WithoutExact(q.retrans, n);
    WithoutExact(q.queue, n);
    SortedJoin(Cancel(q, n).retrans, Cancel(q, n).queue);
  }

  lemma ResetKeeps(q: Sender)
    requires SenderInv(q)
    ensures SenderInv(Reset(q))
  {
    var l := q.Live();
    var l' := Reset(q).Live();
    assert |l'| == |l|;
    assert forall i :: 0 <= i < |l| ==> l'[i].seqno == l[i].seqno;
    forall m | m in l' ensures 0 < m.seqno < q.nextTx {
      var i :| 0 <= i < |l'| && l'[i] == m;
      assert l[i] in l;
    }
  }

  lemma DropKeeps(q: Sender, a: nat)
    requires SenderInv(q)
    ensures SenderInv(DropAcked(q, a))
  {
    SortedParts(q.retrans, q.queue);
    TrimExact(q.retrans, a);
    SortedJoin(DropAcked(q, a).retrans, q.queue);
  }

  // ------------------------------------------------------------------ nothing twice, nothing out of order

  /** An unmarked message still to be sent is above everything ever put on the wire. */
  ghost predicate Fresh(s: State) {
    && s.maxSent < s.snd.nextTx
    && (forall m :: m in s.snd.queue && !m.retrans ==> m.seqno > s.maxSent)
    && (!s.snd.pick.Nothing? && !s.snd.pick.m.retrans ==> s.snd.pick.m.seqno > s.maxSent)
  }

  /** An unmarked packet is above the packets before it and above everything accepted so far. */
  ghost predicate WireFresh(s: State) {
    && s.nextRx <= s.maxSent + 1
    && (forall i :: 0 <= i < |s.wire| ==> s.wire[i].seqno <= s.maxSent)
    && (forall i, j :: 0 <= j < i < |s.wire| && !s.wire[i].retrans ==> s.wire[j].seqno < s.wire[i].seqno)
    && (forall i :: 0 <= i < |s.wire| && !s.wire[i].retrans ==> s.wire[i].seqno >= s.nextRx)
  }

  ghost predicate Increasing(q: seq<nat>) {
    forall i, j :: 0 <= i < j < |q| ==> q[i] < q[j]
  }

  ghost predicate AcceptedBelow(s: State) {
    && Increasing(s.accepted)
    && (forall i :: 0 <= i < |s.accepted| ==> s.accepted[i] < s.nextRx)
  }

  lemma FreshStep(s: State, a: Action)
    requires SenderInv(s.snd) && Fresh(s) && Enabled(s, a)
    ensures Fresh(Apply(s, a))
  {
    match a
    case CancelOne(n) => WithoutExact(s.snd.queue, n);
    case ResetSender(e) =>
      forall m | m in Reset(s.snd).queue && !m.retrans ensures m in s.snd.queue {
        UnmarkedWasQueued(s.snd, m);
      }
    case _ =>
  }

  /** A reset marks everything it puts back, so what is unmarked was on the queue before. */
  lemma UnmarkedWasQueued(snd: Sender, m: Msg)
    requires m in Reset(snd).queue && !m.retrans
    ensures m in snd.queue
  {
    var i :| 0 <= i < |Reset(snd).queue| && Reset(snd).queue[i] == m;
    assert i >= |snd.retrans| && m == snd.queue[i - |snd.retrans|];
  }

  lemma WireFreshStep(s: State, a: Action)
    requires SenderInv(s.snd) && Fresh(s) && WireFresh(s) && Enabled(s, a)
    ensures WireFresh(Apply(s, a))
  {
    var s' := Apply(s, a);
    if a.Receive? || a.Discard? {
      assert forall i :: 0 <= i < |s'.wire| ==> s'.wire[i] == s.wire[i + 1];
    }
  }

  lemma AcceptedStep(s: State, a: Action)
    requires WireFresh(s) && AcceptedBelow(s) && Enabled(s, a)
    ensures AcceptedBelow(Apply(s, a))
  {
  }

  // ------------------------------------------------------------------ nothing lost

  /** Number n is on the connection and the peer is owed it. */
  ghost predicate Owed(s: State, n: nat) {
    exists m :: m in s.snd.Live() && m.seqno == n && !m.silent
  }

  ghost predicate SentOwed(s: State, n: nat) {
    exists m :: m in s.snd.retrans && m.seqno == n && !m.silent
  }

  predicate InHand(s: State, n: nat) {
    !s.snd.pick.Nothing? && s.snd.pick.m.seqno == n
  }

  /** Packet n of instance e is among the first i on the wire. */
  ghost predicate OnWire(s: State, e: nat, n: nat, i: nat)
    requires i <= |s.wire|
  {
    exists j :: 0 <= j < i && s.wire[j].epoch == e && s.wire[j].seqno == n
  }

  /** An acknowledgement of a is harmless: everything owed up to a has been accepted. */
  ghost predicate Settled(s: State, a: nat) {
    a < s.snd.nextTx && forall n: nat :: Owed(s, n) && n <= a ==> n in s.accepted
  }

  /** What the receiver's next expected number already covers has been accepted. */
  ghost predicate BelowNextAccepted(s: State) {
    forall n: nat :: Owed(s, n) && n < s.nextRx ==> n in s.accepted
  }

  /** A packet the receiver can still see has every smaller owed message accepted or ahead of it. */
  ghost predicate NoGap(s: State) {
    forall i: nat, n: nat :: i < |s.wire| && s.wire[i].epoch >= s.rxEpoch && Owed(s, n) && n < s.wire[i].seqno
      ==> n in s.accepted || OnWire(s, s.wire[i].epoch, n, i)
  }

  /** A message on c_retrans was sent on this instance, unless it is the one in hand. */
  ghost predicate RetransSent(s: State) {
    s.txEpoch >= s.rxEpoch ==>
      forall n: nat :: SentOwed(s, n) && !InHand(s, n) ==> n in s.accepted || OnWire(s, s.txEpoch, n, |s.wire|)
  }

  /** Any acknowledgement that exists anywhere, however old, covers accepted messages only. */
  ghost predicate AcksSound(s: State) {
    && Settled(s, s.ackState)
    && Settled(s, s.ackNext)
    && forall a :: a in s.acks ==> Settled(s, a)
  }

  ghost predicate Accounted(s: State, n: nat) {
    n in s.accepted || n in s.gone || n in s.silents || Owed(s, n)
  }

  ghost predicate NothingLost(s: State) {
    forall n: nat :: 0 < n < s.snd.nextTx ==> Accounted(s, n)
  }

  /** Everything accepted was queued, and not as a silent op. */
  ghost predicate NothingInvented(s: State) {
    && (forall i :: 0 <= i < |s.wire| ==> 0 < s.wire[i].seqno < s.snd.nextTx && s.wire[i].seqno !in s.silents)
    && (forall n :: n in s.accepted ==> 0 < n < s.snd.nextTx && n !in s.silents)
    && (!s.snd.pick.Nothing? && !s.snd.pick.m.silent ==> s.snd.pick.m.seqno !in s.silents)
    && (forall m :: m in s.snd.Live() ==> (m.silent <==> m.seqno in s.silents))
    && (forall n :: n in s.silents ==> n < s.snd.nextTx)
  }

  ghost predicate Inv(s: State) {
    && SenderInv(s.snd) && Fresh(s) && WireFresh(s) && AcceptedBelow(s)
    && BelowNextAccepted(s) && NoGap(s) && RetransSent(s) && AcksSound(s)
    && NothingInvented(s) && NothingLost(s)
  }

  /** No action but queueing makes the sender owe a number it did not owe before. */
  lemma OwedStep(s: State, a: Action, n: nat)
    requires Enabled(s, a) && Owed(Apply(s, a), n)
    ensures Owed(s, n) || (a.Queue? && n == s.snd.nextTx)
  {
    var s' := Apply(s, a);
    var m :| m in s'.snd.Live() && m.seqno == n && !m.silent;
    match a
    case Queue(rdma, silent, ackReq) => assert m in s.snd.Live() || m.seqno == s.snd.nextTx;
    case TakeHead => assert s'.snd.Live() == s.snd.Live();
    case SettleHead => WithoutExact(s.snd.retrans, s.snd.pick.m.seqno);
    case CancelOne(k) => WithoutExact(s.snd.retrans, k); WithoutExact(s.snd.queue, k);
    case ResetSender(e) =>
      var i :| 0 <= i < |s'.snd.Live()| && s'.snd.Live()[i] == m;
      var m0 := s.snd.Live()[i];
      assert m0 in s.snd.Live() && m0.seqno == n && m0.silent == m.silent;
    case _ => assert m in s.snd.Live();
  }

  /** Once settled, a number stays settled. */
  lemma SettledStep(s: State, a: Action, k: nat)
    requires Enabled(s, a) && Settled(s, k)
    ensures Settled(Apply(s, a), k)
  {
    var s' := Apply(s, a);
    forall n: nat | Owed(s', n) && n <= k ensures n in s'.accepted { OwedStep(s, a, n); }
  }

  /** Receiving the head of the wire settles its number: nothing smaller was skipped. */
  lemma ReceiveSettles(s: State)
    requires Inv(s) && Enabled(s, Receive)
    ensures Settled(Received(s), s.wire[0].seqno)
  {
    var s' := Received(s);
    assert s' == Apply(s, Receive);
    forall n: nat | Owed(s', n) && n <= s.wire[0].seqno ensures n in s'.accepted {
      OwedStep(s, Receive, n);
      if n < s.wire[0].seqno { assert !OnWire(s, s.wire[0].epoch, n, 0); }
    }
  }

  lemma AcksStep(s: State, a: Action)
    requires Inv(s) && Enabled(s, a)
    ensures AcksSound(Apply(s, a))
  {
    var s' := Apply(s, a);
    if a.Receive? { ReceiveSettles(s); } else { SettledStep(s, a, s.ackState); }
    SettledStep(s, a, s.ackNext);
    SettledStep(s, a, 0);
    assert s.snd.nextTx > 0;
    forall k | k in s'.acks ensures Settled(s', k) {
      if k in s.acks { SettledStep(s, a, k); }
    }
  }

  lemma BelowNextStep(s: State, a: Action)
    requires Inv(s) && Enabled(s, a)
    ensures BelowNextAccepted(Apply(s, a))
  {
    var s' := Apply(s, a);
    forall n: nat | Owed(s', n) && n < s'.nextRx ensures n in s'.accepted {
      OwedStep(s, a, n);
      if a.Receive? { ReceiveSettles(s); }
    }
  }

  /** A witness on the wire survives the removal of the head unless it is the head. */
  lemma WireShift(s: State, s': State, e: nat, n: nat, i: nat)
    requires s.wire != [] && s'.wire == s.wire[1..]
    requires 0 < i <= |s.wire| && OnWire(s, e, n, i)
    ensures (s.wire[0].epoch == e && s.wire[0].seqno == n) || OnWire(s', e, n, i - 1)
  {
    var j :| 0 <= j < i && s.wire[j].epoch == e && s.wire[j].seqno == n;
    if j > 0 { assert s'.wire[j - 1] == s.wire[j]; }
  }

  lemma NoGapShift(s: State, a: Action, i: nat, n: nat)
    requires Inv(s) && Enabled(s, a) && (a.Receive? || a.Discard?)
    requires i < |s.wire| - 1 && s.wire[i + 1].epoch >= s.rxEpoch && Owed(s, n) && n < s.wire[i + 1].seqno
    ensures n in Apply(s, a).accepted || OnWire(Apply(s, a), s.wire[i + 1].epoch, n, i)
  {
    if n !in s.accepted {
      WireShift(s, Apply(s, a), s.wire[i + 1].epoch, n, i + 1);
      if a.Receive? && s.wire[0].seqno == n { assert n in Apply(s, a).accepted; }
    }
  }

  lemma NoGapSend(s: State, n: nat)
    requires Inv(s) && s.snd.pick.Sending? && !s.snd.pick.m.silent
    requires s.txEpoch >= s.rxEpoch && Owed(s, n) && n < s.snd.pick.m.seqno
    ensures n in s.accepted || OnWire(s, s.txEpoch, n, |s.wire|)
  {
    var m :| m in s.snd.Live() && m.seqno == n && !m.silent;
    assert m in s.snd.retrans;
  }

  lemma NoGapStep(s: State, a: Action)
    requires Inv(s) && Enabled(s, a)
    ensures NoGap(Apply(s, a))
  {
    var s' := Apply(s, a);
    forall i: nat, n: nat | i < |s'.wire| && s'.wire[i].epoch >= s'.rxEpoch && Owed(s', n) && n < s'.wire[i].seqno
      ensures n in s'.accepted || OnWire(s', s'.wire[i].epoch, n, i)
    {
      OwedStep(s, a, n);
      if a.Receive? || a.Discard? {
        assert s'.wire[i] == s.wire[i + 1];
        NoGapShift(s, a, i, n);
      } else if a.Transmit? && i == |s.wire| {
        NoGapSend(s, n);
        if n !in s.accepted {
          var j :| 0 <= j < |s.wire| && s.wire[j].epoch == s.txEpoch && s.wire[j].seqno == n;
          assert s'.wire[j] == s.wire[j];
        }
      } else {
        assert s'.wire[i] == s.wire[i];
        assert n in s.accepted || OnWire(s, s.wire[i].epoch, n, i);
        if n !in s.accepted {
          var j :| 0 <= j < i && s.wire[j].epoch == s.wire[i].epoch && s.wire[j].seqno == n;
          assert s'.wire[j] == s.wire[j];
        }
      }
    }
  }

  /** A number on c_retrans after a step was there before, or has just been taken in hand. */
  lemma SentOwedStep(s: State, a: Action, n: nat)
    requires SenderInv(s.snd) && Enabled(s, a) && SentOwed(Apply(s, a), n) && !InHand(Apply(s, a), n)
    ensures SentOwed(s, n) && !a.ResetSender?
    ensures InHand(s, n) ==> a.Transmit? && !s.snd.pick.m.silent
  {
    var s' := Apply(s, a);
    var m :| m in s'.snd.retrans && m.seqno == n && !m.silent;
    match a
    case SettleHead => WithoutExact(s.snd.retrans, s.snd.pick.m.seqno);
    case CancelOne(k) => WithoutExact(s.snd.retrans, k);
    case _ => assert m in s.snd.retrans;
  }

  lemma RetransSentStep(s: State, a: Action)
    requires Inv(s) && Enabled(s, a)
    ensures RetransSent(Apply(s, a))
  {
    var s' := Apply(s, a);
    if s'.txEpoch >= s'.rxEpoch {
      forall n: nat | SentOwed(s', n) && !InHand(s', n)
        ensures n in s'.accepted || OnWire(s', s'.txEpoch, n, |s'.wire|)
      {
        SentOwedStep(s, a, n);
        RetransSentNumber(s, a, n);
      }
    }
  }

  lemma RetransSentNumber(s: State, a: Action, n: nat)
    requires Inv(s) && Enabled(s, a) && !a.ResetSender? && s.txEpoch >= Apply(s, a).rxEpoch
    requires SentOwed(s, n) && (InHand(s, n) ==> a.Transmit? && !s.snd.pick.m.silent)
    ensures n in Apply(s, a).accepted || OnWire(Apply(s, a), s.txEpoch, n, |Apply(s, a).wire|)
  {
    var s' := Apply(s, a);
    if InHand(s, n) {
      assert s'.wire[|s.wire|] == Packet(s.txEpoch, n, s.snd.pick.m.retrans);
    } else if n !in s.accepted {
      assert OnWire(s, s.txEpoch, n, |s.wire|);
      if a.Receive? || a.Discard? {
        WireShift(s, s', s.txEpoch, n, |s.wire|);
        if a.Receive? && s.wire[0].seqno == n {
          var m :| m in s.snd.retrans && m.seqno == n && !m.silent;
          assert m in s.snd.Live();
          assert Owed(s, n);
        }
      } else {
        var j :| 0 <= j < |s.wire| && s.wire[j].epoch == s.txEpoch && s.wire[j].seqno == n;
        assert s'.wire[j] == s.wire[j];
      }
    }
  }

  lemma LiveKept(s: State, a: Action, m: Msg)
    requires Enabled(s, a) && m in Apply(s, a).snd.Live() && !a.Queue?
    ensures exists m0 :: m0 in s.snd.Live() && m0.seqno == m.seqno && m0.silent == m.silent
  {
    var s' := Apply(s, a);
    match a
    case TakeHead => assert s'.snd.Live() == s.snd.Live();
    case SettleHead => WithoutExact(s.snd.retrans, s.snd.pick.m.seqno);
    case CancelOne(k) => WithoutExact(s.snd.retrans, k); WithoutExact(s.snd.queue, k);
    case ResetSender(e) =>
      var i :| 0 <= i < |s'.snd.Live()| && s'.snd.Live()[i] == m;
      assert s.snd.Live()[i] in s.snd.Live();
    case Queue(_, _, _) =>
    case _ => assert m in s.snd.Live();
  }

  lemma NothingInventedStep(s: State, a: Action)
    requires SenderInv(s.snd) && NothingInvented(s) && Enabled(s, a)
    ensures NothingInvented(Apply(s, a))
  {
    var s' := Apply(s, a);
    forall m | m in s'.snd.Live() ensures m.silent <==> m.seqno in s'.silents {
      if a.Queue? {
        assert m in s.snd.Live() || m == s'.snd.queue[|s.snd.queue|];
      } else {
        LiveKept(s, a, m);
      }
    }
    if a.Receive? || a.Discard? {
      assert forall i :: 0 <= i < |s'.wire| ==> s'.wire[i] == s.wire[i + 1];
    }
    if a.TakeHead? { assert s.snd.queue[0] in s.snd.Live(); }
  }

  lemma ResetOwes(snd: Sender, m: Msg)
    requires m in snd.Live()
    ensures exists m1 :: m1 in Reset(snd).Live() && m1.seqno == m.seqno && m1.silent == m.silent
  {
    var i :| 0 <= i < |snd.Live()| && snd.Live()[i] == m;
    var m1 := Reset(snd).Live()[i];
    assert m1 in Reset(snd).Live() && m1.seqno == m.seqno && m1.silent == m.silent;
  }

  /** A number the sender stops owing has been accepted, cancelled, or dropped as an RDMA retransmission. */
  lemma OwedLeaves(s: State, a: Action, n: nat)
    requires SenderInv(s.snd) && AcksSound(s) && Enabled(s, a) && Owed(s, n)
    ensures Owed(Apply(s, a), n) || n in s.accepted || n in Apply(s, a).gone
  {
    var s' := Apply(s, a);
    var m :| m in s.snd.Live() && m.seqno == n && !m.silent;
    match a
    case Queue(rdma, silent, ackReq) => assert m in s'.snd.Live();
    case TakeHead => assert s'.snd.Live() == s.snd.Live();
    case SettleHead =>
      WithoutExact(s.snd.retrans, s.snd.pick.m.seqno);
      if m !in s'.snd.Live() { assert m in s.snd.retrans; }
    case CancelOne(k) => WithoutExact(s.snd.retrans, k); WithoutExact(s.snd.queue, k);
    case ResetSender(e) => ResetOwes(s.snd, m);
    case TakeAck(k) =>
      SortedParts(s.snd.retrans, s.snd.queue);
      TrimExact(s.snd.retrans, k);
      assert Settled(s, k);
    case _ => assert m in s'.snd.Live();
  }

  lemma NothingLostStep(s: State, a: Action)
    requires Inv(s) && Enabled(s, a)
    ensures NothingLost(Apply(s, a))
  {
    var s' := Apply(s, a);
    forall n: nat | 0 < n < s'.snd.nextTx ensures Accounted(s', n) {
      if n < s.snd.nextTx {
        assert Accounted(s, n);
        if Owed(s, n) { OwedLeaves(s, a, n); }
      } else {
        var m := s'.snd.queue[|s.snd.queue|];
        assert m in s'.snd.Live() && m.seqno == n;
      }
    }
  }

  lemma InvStep(s: State, a: Action)
    requires Inv(s) && Enabled(s, a)
    ensures Inv(Apply(s, a))
  {
    SenderStep(s, a);
    FreshStep(s, a);
    WireFreshStep(s, a);
    AcceptedStep(s, a);
    BelowNextStep(s, a);
    NoGapStep(s, a);
    RetransSentStep(s, a);
    AcksStep(s, a);
    NothingInventedStep(s, a);
    NothingLostStep(s, a);
  }

  lemma InvInit(s: State)
    requires Init(s)
    ensures Inv(s)
  {
    assert s.snd.Live() == [];
  }

  lemma {:induction false} InvRun(tr: seq<State>, acts: seq<Action>, i: nat)
    requires Run(tr, acts) && i < |tr|
    ensures Inv(tr[i])
  {
    if i == 0 {
      InvInit(tr[0]);
    } else {
      InvRun(tr, acts, i - 1);
      InvStep(tr[i - 1], acts[i - 1]);
    }
  }

  // ------------------------------------------------------------------ the guarantees

  /** At most once and in order: over any number of resets, accepted numbers strictly increase. */
  lemma AcceptedInOrder(tr: seq<State>, acts: seq<Action>, i: nat)
    requires Run(tr, acts) && i < |tr|
    ensures Increasing(tr[i].accepted)
    ensures forall n :: n in tr[i].accepted ==> 0 < n < tr[i].snd.nextTx && n !in tr[i].silents
  {
    InvRun(tr, acts, i);
  }

  /** No loss: every number ever queued is accepted, deliberately removed, silent, or still held. */
  lemma NoLoss(tr: seq<State>, acts: seq<Action>, i: nat, n: nat)
    requires Run(tr, acts) && i < |tr| && 0 < n < tr[i].snd.nextTx
    ensures n in tr[i].accepted || n in tr[i].gone || n in tr[i].silents || Has(tr[i].snd.Live(), n)
  {
    InvRun(tr, acts, i);
    var s := tr[i];
    assert Accounted(s, n);
    if Owed(s, n) {
      var m :| m in s.snd.Live() && m.seqno == n && !m.silent;
      var k :| 0 <= k < |s.snd.Live()| && s.snd.Live()[k] == m;
    }
  }

  /**
    Ack soundness: whichever acknowledgement reaches the sender, current or stale or regressed,
    the trim takes exactly the messages up to it, and each of them the peer has accepted or never needed.
   */
  lemma AckTrimsAccepted(tr: seq<State>, acts: seq<Action>, i: nat, a: nat)
    requires Run(tr, acts) && i < |tr| && a in tr[i].acks
    ensures forall m :: m in DropAcked(tr[i].snd, a).retrans <==> m in tr[i].snd.retrans && m.seqno > a
    ensures forall m :: m in tr[i].snd.retrans && m.seqno <= a ==> m.silent || m.seqno in tr[i].accepted
  {
    InvRun(tr, acts, i);
    var s := tr[i];
    SortedParts(s.snd.retrans, s.snd.queue);
    TrimExact(s.snd.retrans, a);
    assert Settled(s, a);
    forall m | m in s.snd.retrans && m.seqno <= a && !m.silent ensures m.seqno in s.accepted {
      assert m in s.snd.Live();
      assert Owed(s, m.seqno);
    }
  }
}
