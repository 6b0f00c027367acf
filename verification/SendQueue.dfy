/**
  The transmit side of one RDS connection (net/rds/send.c): c_send_queue, c_retrans and the
  message rds_send_xmit is working on.  The functions on Sender say what each operation does
  to the two lists; class Connection performs the operations in place, as the source does.
 */
module SendQueue {

  /** One struct rds_message as the queues see it. */
  datatype Msg = Msg(
    seqno: nat,      // h_sequence
    rdma: bool,      // rdma.op_active
    silent: bool,    // only silent ops attached: no header and no data go on the wire
    ackReq: bool,    // RDS_MSG_ACK_REQUIRED
    retrans: bool)   // RDS_MSG_RETRANSMITTED

  /** What rds_send_xmit holds: nothing, a message between its two c_lock sections, or c_xmit_rm. */
  datatype Pick = Nothing | Grabbed(m: Msg) | Sending(m: Msg)

  datatype Sender = Sender(nextTx: nat, queue: seq<Msg>, retrans: seq<Msg>, pick: Pick) {
    /** Every message on the connection, in list order. */
    function Live(): seq<Msg> { retrans + queue }
  }

  predicate Sorted(q: seq<Msg>) {
    forall i, j :: 0 <= i < j < |q| ==> q[i].seqno < q[j].seqno
  }

  ghost predicate Has(q: seq<Msg>, n: nat) {
    exists i :: 0 <= i < |q| && q[i].seqno == n
  }

  // ------------------------------------------------------------------ operations on values

  /** rds_send_queue_rm and rds_send_pong: the next sequence number, at the tail. */
  function Enqueue(s: Sender, rdma: bool, silent: bool, ackReq: bool): Sender {
    s.(nextTx := s.nextTx + 1, queue := s.queue + [Msg(s.nextTx, rdma, silent, ackReq, false)])
  }

  /** rds_send_xmit takes the head of the queue and moves it to the tail of c_retrans. */
  function Grab(s: Sender): Sender
    requires s.pick.Nothing? && s.queue != []
  {
    s.(queue := s.queue[1..], retrans := s.retrans + [s.queue[0]], pick := Grabbed(s.queue[0]))
  }

  function Without(q: seq<Msg>, n: nat): seq<Msg> {
    if q == [] then []
    else if q[0].seqno == n then Without(q[1..], n)
    else [q[0]] + Without(q[1..], n)
  }

  predicate NeverRetransmit(m: Msg) {
    m.rdma && m.retrans
  }

  /** A retransmitted RDMA op is taken off the connection; anything else becomes c_xmit_rm. */
  function Settle(s: Sender): Sender
    requires s.pick.Grabbed?
  {
    if NeverRetransmit(s.pick.m) then
      s.(pick := Nothing, retrans := Without(s.retrans, s.pick.m.seqno))
    else
      s.(pick := Sending(s.pick.m))
  }

  /** The message has gone to the transport completely. */
  function Finish(s: Sender): Sender
    requires s.pick.Sending?
  {
    s.(pick := Nothing)
  }

  function Mark(q: seq<Msg>): (r: seq<Msg>)
    ensures |r| == |q|
    ensures forall i :: 0 <= i < |q| ==> r[i] == q[i].(ackReq := true, retrans := true)
  {
    seq(|q|, i requires 0 <= i < |q| => q[i].(ackReq := true, retrans := true))
  }

  /** rds_send_reset: everything unacknowledged goes back to the front, marked. */
  function Reset(s: Sender): Sender {
    s.(queue := Mark(s.retrans) + s.queue, retrans := [], pick := Nothing)
  }

  /** How far rds_send_drop_acked scans before its early break. */
  function AckedPrefix(q: seq<Msg>, ack: nat): (k: nat)
    ensures k <= |q|
    ensures forall i :: 0 <= i < k ==> q[i].seqno <= ack
    ensures k < |q| ==> q[k].seqno > ack
  {
    if q == [] || q[0].seqno > ack then 0 else 1 + AckedPrefix(q[1..], ack)
  }

  function DropAcked(s: Sender, ack: nat): Sender {
    s.(retrans := s.retrans[AckedPrefix(s.retrans, ack)..])
  }

  /** rds_send_drop_to takes one message off whichever list it is on. */
  function Cancel(s: Sender, n: nat): Sender {
    s.(queue := Without(s.queue, n), retrans := Without(s.retrans, n))
  }

  // ------------------------------------------------------------------ facts about the lists

  /** Without removes exactly the messages with that number and keeps the order of the rest. */
  lemma {:induction false} WithoutExact(q: seq<Msg>, n: nat)
    ensures forall m :: m in Without(q, n) <==> m in q && m.seqno != n
    ensures Sorted(q) ==> Sorted(Without(q, n))
  {
    if q == [] {
    } else {
      WithoutExact(q[1..], n);
      assert q == [q[0]] + q[1..];
      var w := Without(q[1..], n);
      if Sorted(q) && q[0].seqno != n {
        forall j | 0 <= j < |w| ensures q[0].seqno < w[j].seqno {
          assert w[j] in q[1..];
        }
      }
    }
  }

  lemma InTail(q: seq<Msg>, k: nat, m: Msg)
    requires k <= |q|
    ensures m in q[k..] <==> exists i :: k <= i < |q| && q[i] == m
  {
    if m in q[k..] {
      var j :| 0 <= j < |q[k..]| && q[k..][j] == m;
      assert q[k + j] == m;
    }
    if i :| k <= i < |q| && q[i] == m {
      assert q[k..][i - k] == m;
    }
  }

  /** On a sorted list the early break loses nothing: what goes is exactly what is acknowledged. */
  lemma TrimExact(q: seq<Msg>, ack: nat)
    requires Sorted(q)
    ensures forall m :: m in q[AckedPrefix(q, ack)..] <==> m in q && m.seqno > ack
  {
    var k := AckedPrefix(q, ack);
    forall m ensures m in q[k..] <==> m in q && m.seqno > ack {
      InTail(q, k, m);
      if m in q[k..] {
        var i :| k <= i < |q| && q[i] == m;
        assert k < i ==> q[k].seqno < q[i].seqno;
      }
    }
  }

  lemma TrimmedExact(q: seq<Msg>, ack: nat)
    requires Sorted(q)
    ensures forall m :: m in q[..AckedPrefix(q, ack)] <==> m in q && m.seqno <= ack
  {
    var k := AckedPrefix(q, ack);
    forall m | m in q && m.seqno <= ack ensures m in q[..k] {
      var i :| 0 <= i < |q| && q[i] == m;
      assert i < k;
      assert q[..k][i] == m;
    }
  }

  lemma SortedParts(a: seq<Msg>, b: seq<Msg>)
    requires Sorted(a + b)
    ensures Sorted(a) && Sorted(b)
    ensures forall x, y :: x in a && y in b ==> x.seqno < y.seqno
  {
    var c := a + b;
    forall i, j | 0 <= i < j < |a| ensures a[i].seqno < a[j].seqno { assert a[i] == c[i] && a[j] == c[j]; }
    forall i, j | 0 <= i < j < |b| ensures b[i].seqno < b[j].seqno {
      assert b[i] == c[|a| + i] && b[j] == c[|a| + j];
    }
    forall x, y | x in a && y in b ensures x.seqno < y.seqno {
      var i :| 0 <= i < |a| && a[i] == x;
      var j :| 0 <= j < |b| && b[j] == y;
      assert c[i] == x && c[|a| + j] == y;
    }
  }

  lemma SortedJoin(a: seq<Msg>, b: seq<Msg>)
    requires Sorted(a) && Sorted(b)
    requires forall x, y :: x in a && y in b ==> x.seqno < y.seqno
    ensures Sorted(a + b)
  {
  }

  /** rds_send_drop_to on a whole list of victims. */
  function CancelMany(s: Sender, victims: seq<nat>): Sender {
    if victims == [] then s
    else Cancel(CancelMany(s, victims[..|victims| - 1]), victims[|victims| - 1])
  }

  /** Cancelling takes exactly the victims off both lists and keeps the order of the rest. */
  lemma {:induction false} CancelManyExact(s: Sender, victims: seq<nat>)
    ensures forall m :: m in CancelMany(s, victims).queue <==> m in s.queue && m.seqno !in victims
    ensures forall m :: m in CancelMany(s, victims).retrans <==> m in s.retrans && m.seqno !in victims
    ensures Sorted(s.queue) ==> Sorted(CancelMany(s, victims).queue)
    ensures Sorted(s.retrans) ==> Sorted(CancelMany(s, victims).retrans)
    ensures CancelMany(s, victims).nextTx == s.nextTx && CancelMany(s, victims).pick == s.pick
    decreases |victims|
  {
    if victims == [] {
    } else {
      var init, v := victims[..|victims| - 1], victims[|victims| - 1];
      CancelManyExact(s, init);
      WithoutExact(CancelMany(s, init).queue, v);
      WithoutExact(CancelMany(s, init).retrans, v);
      assert forall n :: n in victims <==> n in init || n == v;
    }
  }

  lemma {:induction false} WithoutSnoc(q: seq<Msg>, m: Msg, n: nat)
    ensures Without(q + [m], n) == Without(q, n) + (if m.seqno == n then [] else [m])
  {
    if q == [] {
      assert q + [m] == [m];
      assert [m][1..] == [];
    } else {
      assert (q + [m])[1..] == q[1..] + [m];
      WithoutSnoc(q[1..], m, n);
    }
  }

  lemma PrefixGrows(q: seq<Msg>, ack: nat, i: nat)
    requires i <= AckedPrefix(q, ack) && i < |q| && q[i].seqno <= ack
    ensures i < AckedPrefix(q, ack)
  {
  }

  // ------------------------------------------------------------------ the operations in place

  class Connection {
    var nextTx: nat
    var sendQueue: seq<Msg>
    var retrans: seq<Msg>
    var pick: Pick

    function View(): Sender
      reads this
    {
      Sender(nextTx, sendQueue, retrans, pick)
    }

    /** __rds_conn_create */
    constructor ()
      ensures View() == Sender(1, [], [], Nothing)
    {
      nextTx, sendQueue, retrans, pick := 1, [], [], Nothing;
    }

    /**
      rds_send_queue_rm, the part under both locks.  The old value of rs_snd_bytes decides, so the
      last message may exceed the buffer; past half of the buffer the message asks for an ack.
     */
    method QueueRm(sndBytes: nat, sndBuf: nat, len: nat, rdma: bool, silent: bool, ackReq: bool)
      returns (queued: bool, sndBytes': nat)
      modifies this
      ensures queued <==> sndBytes < sndBuf
      ensures !queued ==> View() == old(View()) && sndBytes' == sndBytes
      ensures queued ==> sndBytes' == sndBytes + len
      ensures queued ==> View() == Enqueue(old(View()), rdma, silent, ackReq || sndBytes + len >= sndBuf / 2)
    {
      queued, sndBytes' := false, sndBytes;
      if sndBytes < sndBuf {
        sndBytes' := sndBytes + len;
        var ack := ackReq;
        if sndBytes' >= sndBuf / 2 {
          ack := true;
        }
        var rm := Msg(nextTx, rdma, silent, ack, false);
        nextTx := nextTx + 1;
        sendQueue := sendQueue + [rm];
        queued := true;
      }
    }

    /** The first c_lock section of rds_send_xmit. */
    method TakeNext() returns (found: bool)
      requires pick.Nothing?
      modifies this
      ensures found <==> old(sendQueue) != []
      ensures View() == if found then Grab(old(View())) else old(View())
    {
      found := false;
      if sendQueue != [] {
        var rm := sendQueue[0];
        sendQueue := sendQueue[1..];
        retrans := retrans + [rm];
        pick := Grabbed(rm);
        found := true;
      }
    }

    /** The check after it; the result says whether the message was dropped. */
    method SettlePick() returns (dropped: bool)
      requires pick.Grabbed?
      modifies this
      ensures View() == Settle(old(View()))
      ensures dropped <==> NeverRetransmit(old(pick).m) && Has(old(retrans), old(pick).m.seqno)
    {
      dropped := false;
      if pick.m.rdma && pick.m.retrans {
        dropped := Delete(pick.m.seqno, true);
        pick := Nothing;
      } else {
        pick := Sending(pick.m);
      }
    }

    /** list_del of the message with number n from one of the two lists, if it is there. */
    method Delete(n: nat, fromRetrans: bool) returns (present: bool)
      modifies this
      ensures View() == if fromRetrans then old(View()).(retrans := Without(old(retrans), n))
                        else old(View()).(queue := Without(old(sendQueue), n))
      ensures present <==> Has(if fromRetrans then old(retrans) else old(sendQueue), n)
    {
      var list := if fromRetrans then retrans else sendQueue;
      var kept := [];
      present := false;
      var i := 0;
      while i < |list|
        invariant 0 <= i <= |list|
        invariant kept == Without(list[..i], n)
        invariant present <==> Has(list[..i], n)
        invariant View() == old(View())
      {
        WithoutSnoc(list[..i], list[i], n);
        assert list[..i + 1] == list[..i] + [list[i]];
        if list[i].seqno == n {
          assert list[..i + 1][i].seqno == n;
          present := true;
        } else {
          kept := kept + [list[i]];
          assert forall k :: 0 <= k < i ==> list[..i + 1][k] == list[..i][k];
        }
        i := i + 1;
      }
      assert list[..i] == list;
      assert kept == Without(list, n);
      if fromRetrans { retrans := kept; } else { sendQueue := kept; }
    }

    /** rds_send_reset: mark every message on c_retrans, then splice the list onto the queue's head. */
    method ResetSend()
      modifies this
      ensures View() == Reset(old(View()))
    {
      pick := Nothing;
      var marked: seq<Msg> := [];
      var i := 0;
      while i < |retrans|
        invariant 0 <= i <= |retrans| && |marked| == i
        invariant retrans == old(retrans) && sendQueue == old(sendQueue)
        invariant pick == Nothing && nextTx == old(nextTx)
        invariant forall k :: 0 <= k < i ==> marked[k] == retrans[k].(ackReq := true, retrans := true)
      {
        marked := marked + [retrans[i].(ackReq := true, retrans := true)];
        i := i + 1;
      }
      assert marked == Mark(retrans);
      sendQueue := marked + sendQueue;
      retrans := [];
    }

    /** rds_send_drop_acked: scan c_retrans from the front and stop at the first unacknowledged one. */
    method DropAckedMessages(ack: nat) returns (dropped: seq<Msg>)
      modifies this
      ensures View() == DropAcked(old(View()), ack)
      ensures dropped + retrans == old(retrans)
      ensures Sorted(old(retrans)) ==> forall m :: m in dropped <==> m in old(retrans) && m.seqno <= ack
    {
      dropped := [];
      var i := 0;
      while i < |retrans| && retrans[i].seqno <= ack
        invariant 0 <= i <= |retrans|
        invariant dropped == retrans[..i]
        invariant i <= AckedPrefix(retrans, ack)
        invariant View() == old(View())
      {
        PrefixGrows(retrans, ack, i);
        dropped := dropped + [retrans[i]];
        i := i + 1;
      }
      assert i == AckedPrefix(retrans, ack);
      assert retrans == dropped + retrans[i..];
      if Sorted(retrans) { TrimmedExact(retrans, ack); }
      retrans := retrans[i..];
    }

    /** rds_send_drop_to, the walk over the connection: each victim leaves the list it is on. */
    method CancelAll(victims: seq<nat>)
      modifies this
      ensures View() == CancelMany(old(View()), victims)
      ensures forall m :: m in sendQueue <==> m in old(sendQueue) && m.seqno !in victims
      ensures forall m :: m in retrans <==> m in old(retrans) && m.seqno !in victims
    {
      var i := 0;
      assert victims[..0] == [];
      while i < |victims|
        invariant 0 <= i <= |victims|
        invariant View() == CancelMany(old(View()), victims[..i])
      {
        var q := Delete(victims[i], false);
        var r := Delete(victims[i], true);
        assert victims[..i + 1] == victims[..i] + [victims[i]];
        i := i + 1;
      }
      assert victims[..i] == victims;
      CancelManyExact(old(View()), victims);
    }
  }
}
