/**
  Selective signalling and batched completion on the send ring (net/rds/ib_send.c).

  Only some work requests ask for a completion.  One completion retires every entry up to and
  including its own, so the ring drains only if a signalled entry is never far away, and
  i_signaled_sends must count exactly the signalled entries that are outstanding.
 */
module SendEngine {
  import opened WorkRing

  /** A posted work request: its number in posting order and whether it is signalled. */
  datatype Wr = Wr(id: nat, signaled: bool)

  function Count(q: seq<Wr>): nat {
    if q == [] then 0 else (if q[0].signaled then 1 else 0) + Count(q[1..])
  }

  lemma {:induction false} CountSplit(a: seq<Wr>, b: seq<Wr>)
    ensures Count(a + b) == Count(a) + Count(b)
  {
    if a == [] {
      assert a + b == b;
    } else {
      assert (a + b)[1..] == a[1..] + b;
      CountSplit(a[1..], b);
    }
  }

  lemma CountSnoc(q: seq<Wr>, w: Wr)
    ensures Count(q + [w]) == Count(q) + if w.signaled then 1 else 0
  {
    CountSplit(q, [w]);
    assert [w][1..] == [];
  }

  lemma {:induction false} CountPositive(q: seq<Wr>, k: nat)
    requires k < |q| && q[k].signaled
    ensures Count(q) > 0
  {
    if k == 0 {
    } else {
      CountPositive(q[1..], k - 1);
    }
  }

  // ------------------------------------------------------------------ choosing what to signal

  /** rds_ib_set_wr_signal_state: signal when the countdown is at zero, or when asked to. */
  function Signal(unsig: nat, max: nat, notify: bool): (r: (bool, nat)) {
    if unsig == 0 || notify then (true, max) else (false, unsig - 1)
  }

  /** A batch of work requests; forceLast is the stop-due-to-flow-control case, which leaves the countdown alone. */
  function Batch(id: nat, unsig: nat, max: nat, notify: seq<bool>, forceLast: bool): (r: (seq<Wr>, nat))
    ensures |r.0| == |notify|
    ensures forall i :: 0 <= i < |notify| ==> r.0[i].id == id + i
    decreases |notify|
  {
    if notify == [] then ([], unsig)
    else
      var (sig, unsig1) := Signal(unsig, max, notify[0]);
      var (rest, unsig2) := Batch(id + 1, unsig1, max, notify[1..], forceLast);
      ([Wr(id, sig || (forceLast && |notify| == 1))] + rest, unsig2)
  }

  /** The number of unsignalled requests since the last signalled one. */
  function Trailing(q: seq<Wr>): nat {
    if q == [] || q[|q| - 1].signaled then 0 else 1 + Trailing(q[..|q| - 1])
  }

  ghost predicate SignaledWithin(q: seq<Wr>, i: nat, max: nat)
    requires i + max < |q|
  {
    exists j :: i <= j <= i + max && q[j].signaled
  }

  /** Any max + 1 requests in a row include a signalled one. */
  ghost predicate Windowed(q: seq<Wr>, max: nat) {
    forall i: nat :: i + max < |q| ==> SignaledWithin(q, i, max)
  }

  /** What the countdown guarantees about everything posted so far. */
  ghost predicate Paced(q: seq<Wr>, unsig: nat, max: nat) {
    Windowed(q, max) && Trailing(q) + unsig <= max
  }

  lemma {:induction false} TrailingBound(q: seq<Wr>)
    ensures Trailing(q) <= |q|
    ensures Trailing(q) < |q| ==> q[|q| - 1 - Trailing(q)].signaled
  {
    if q == [] || q[|q| - 1].signaled {
    } else {
      TrailingBound(q[..|q| - 1]);
    }
  }

  /** Appending one request chosen by the countdown keeps the pace. */
  lemma PacedSnoc(q: seq<Wr>, w: Wr, unsig: nat, unsig': nat, max: nat)
    requires Paced(q, unsig, max)
    requires w.signaled ==> unsig' <= max
    requires !w.signaled ==> unsig == unsig' + 1
    ensures Paced(q + [w], unsig', max)
  {
    var q' := q + [w];
    assert q'[..|q'| - 1] == q;
    forall i: nat | i + max < |q'| ensures SignaledWithin(q', i, max) {
      if i + max < |q| {
        assert SignaledWithin(q, i, max);
        var j :| i <= j <= i + max && q[j].signaled;
        assert q'[j].signaled;
      } else if w.signaled {
        assert q'[|q|].signaled;
      } else {
        TrailingBound(q);
        var j := |q| - 1 - Trailing(q);
        assert q[j].signaled;
        assert q'[j].signaled;
      }
    }
  }

  lemma {:induction false} PacedBatch(q: seq<Wr>, id: nat, unsig: nat, max: nat, notify: seq<bool>, forceLast: bool)
    requires Paced(q, unsig, max)
    ensures Paced(q + Batch(id, unsig, max, notify, forceLast).0, Batch(id, unsig, max, notify, forceLast).1, max)
    decreases |notify|
  {
    if notify == [] {
      assert q + [] == q;
    } else {
      var (sig, unsig1) := Signal(unsig, max, notify[0]);
      var w := Wr(id, sig || (forceLast && |notify| == 1));
      PacedSnoc(q, w, unsig, unsig1, max);
      PacedBatch(q + [w], id + 1, unsig1, max, notify[1..], forceLast);
      var rest := Batch(id + 1, unsig1, max, notify[1..], forceLast).0;
      assert q + ([w] + rest) == q + [w] + rest;
    }
  }

  // ------------------------------------------------------------------ the engine as a state machine

  datatype Engine = Engine(
    nr: nat,               // w_nr of the send ring
    max: nat,              // rds_ib_sysctl_max_unsig_wrs
    unsig: nat,            // i_unsignaled_wrs
    sigSends: int,         // i_signaled_sends
    out: seq<Wr>,          // allocated ring entries, oldest first
    done: nat,             // how many of them the adapter has finished
    cq: seq<nat>,          // completions not yet polled, by number in posting order
    dead: bool,            // ib_post_send failed: the connection is being dropped
    posted: seq<Wr>,       // history
    retired: seq<Wr>)      // history

  ghost predicate Init(e: Engine) {
    && e.unsig <= e.max && e.sigSends == 0 && e.out == [] && e.done == 0 && e.cq == [] && !e.dead
    && e.posted == [] && e.retired == []
  }

  datatype Action =
    | Post(notify: seq<bool>, forceLast: bool, ok: bool)  // rds_ib_xmit or rds_ib_xmit_rdma
    | Finish(flush: bool)                                 // the adapter finishes its next entry
    | Poll                                                // one turn of the completion handler

  predicate Enabled(e: Engine, a: Action) {
    match a
    case Post(notify, _, _) => !e.dead && 0 < |notify| && |e.out| + |notify| <= e.nr
    case Finish(_) => e.done < |e.out|
    case Poll => e.cq != []
  }

  /** Entries a completion for posting number c retires. */
  function Retires(e: Engine, c: nat): int {
    if e.out == [] then 0 else c - e.out[0].id + 1
  }

  function Apply(e: Engine, a: Action): Engine {
    match a
    case Post(notify, forceLast, ok) =>
      var (batch, unsig1) := Batch(|e.posted|, e.unsig, e.max, notify, forceLast);
      if ok then
        e.(unsig := unsig1, out := e.out + batch, posted := e.posted + batch, sigSends := e.sigSends + Count(batch))
      else
        e.(unsig := unsig1, dead := true)
    // A flushed entry reports a completion whether or not it asked for one.
    case Finish(flush) =>
      if e.done >= |e.out| then e
      else if e.out[e.done].signaled || flush then e.(done := e.done + 1, cq := e.cq + [e.out[e.done].id])
      else e.(done := e.done + 1)
    case Poll =>
      if e.cq == [] then e else
      var n := Retires(e, e.cq[0]);
      if !(0 <= n <= |e.out| && n <= e.done) then e
      else e.(cq := e.cq[1..], out := e.out[n..], done := e.done - n,
              retired := e.retired + e.out[..n], sigSends := e.sigSends - Count(e.out[..n]))
  }

  ghost predicate Run(tr: seq<Engine>, acts: seq<Action>) {
    && |tr| == |acts| + 1
    && Init(tr[0])
    && forall i :: 0 <= i < |acts| ==> Enabled(tr[i], acts[i]) && tr[i + 1] == Apply(tr[i], acts[i])
  }

  ghost predicate InOrder(e: Engine) {
    && e.posted == e.retired + e.out
    && e.done <= |e.out|
    && forall i :: 0 <= i < |e.posted| ==> e.posted[i].id == i
  }

  /** Completions name finished outstanding entries in order, and no finished signalled entry is missing. */
  ghost predicate CqComplete(e: Engine) {
    && (forall i, j :: 0 <= i < j < |e.cq| ==> e.cq[i] < e.cq[j])
    && (forall i :: 0 <= i < |e.cq| ==> |e.retired| <= e.cq[i] < |e.retired| + e.done)
    && (forall k :: 0 <= k < e.done && k < |e.out| && e.out[k].signaled ==> e.out[k].id in e.cq)
  }

  ghost predicate Inv(e: Engine) {
    && InOrder(e) && CqComplete(e)
    && e.sigSends == Count(e.out)
    && Windowed(e.posted, e.max)
    && (!e.dead ==> Paced(e.posted, e.unsig, e.max))
  }

  lemma OutIds(e: Engine, k: nat)
    requires InOrder(e) && k < |e.out|
    ensures e.out[k].id == |e.retired| + k
  {
    assert e.posted[|e.retired| + k] == e.out[k];
  }

  /** A batch extends what is outstanding, in order, and disturbs no completion. */
  lemma PostOrder(e: Engine, a: Action)
    requires InOrder(e) && CqComplete(e) && Enabled(e, a) && a.Post?
    ensures InOrder(Apply(e, a)) && CqComplete(Apply(e, a))
  {
    var batch := Batch(|e.posted|, e.unsig, e.max, a.notify, a.forceLast).0;
    assert e.posted + batch == e.retired + (e.out + batch);
  }

  lemma PostStep(e: Engine, a: Action)
    requires Inv(e) && Enabled(e, a) && a.Post?
    ensures Inv(Apply(e, a))
  {
    PostOrder(e, a);
    PacedBatch(e.posted, |e.posted|, e.unsig, e.max, a.notify, a.forceLast);
    CountSplit(e.out, Batch(|e.posted|, e.unsig, e.max, a.notify, a.forceLast).0);
  }

  /** A finished entry reports its own completion, behind those of the entries before it. */
  lemma FinishComplete(e: Engine, a: Action)
    requires InOrder(e) && CqComplete(e) && Enabled(e, a) && a.Finish?
    ensures CqComplete(Apply(e, a))
  {
    OutIds(e, e.done);
  }

  lemma FinishStep(e: Engine, a: Action)
    requires Inv(e) && Enabled(e, a) && a.Finish?
    ensures Inv(Apply(e, a))
  {
    FinishComplete(e, a);
  }

  /** The handler never underflows the ring: the completion it polls names an outstanding entry. */
  lemma PollFinds(e: Engine)
    requires Inv(e) && e.cq != []
    ensures e.out != [] && 1 <= Retires(e, e.cq[0]) <= e.done
    ensures Retires(e, e.cq[0]) == e.cq[0] - |e.retired| + 1
  {
    OutIds(e, 0);
  }

  lemma PollOrder(e: Engine)
    requires Inv(e) && e.cq != []
    ensures InOrder(Apply(e, Poll))
  {
    PollFinds(e);
    var n := Retires(e, e.cq[0]);
    assert e.retired + e.out[..n] + e.out[n..] == e.retired + e.out;
  }

  /** Polling takes the first completion away and leaves those of the entries still outstanding. */
  lemma PollComplete(e: Engine)
    requires Inv(e) && e.cq != []
    ensures CqComplete(Apply(e, Poll))
  {
    PollFinds(e);
    var n := Retires(e, e.cq[0]);
    var e' := Apply(e, Poll);
    assert forall i :: 0 <= i < |e'.cq| ==> e'.cq[i] == e.cq[i + 1];
    forall k | 0 <= k < e'.done && k < |e'.out| && e'.out[k].signaled ensures e'.out[k].id in e'.cq {
      OutIds(e, n + k);
      assert e.out[n + k].id in e.cq && e.out[n + k].id != e.cq[0];
    }
  }

  lemma PollStep(e: Engine)
    requires Inv(e) && e.cq != []
    ensures Inv(Apply(e, Poll))
  {
    PollFinds(e);
    PollOrder(e);
    PollComplete(e);
    var n := Retires(e, e.cq[0]);
    assert e.out == e.out[..n] + e.out[n..];
    CountSplit(e.out[..n], e.out[n..]);
  }

  lemma {:induction false} InvRun(tr: seq<Engine>, acts: seq<Action>, i: nat)
    requires Run(tr, acts) && i < |tr|
    ensures Inv(tr[i])
  {
    if i == 0 {
    } else {
      InvRun(tr, acts, i - 1);
      var e, a := tr[i - 1], acts[i - 1];
      match a
      case Post(_, _, _) => PostStep(e, a);
      case Finish(_) => FinishStep(e, a);
      case Poll => PollStep(e);
    }
  }

  /** Every posted entry is retired exactly once, in posting order. */
  lemma RetiredInPostingOrder(tr: seq<Engine>, acts: seq<Action>, i: nat)
    requires Run(tr, acts) && i < |tr|
    ensures tr[i].posted == tr[i].retired + tr[i].out
    ensures forall k :: 0 <= k < |tr[i].retired| ==> tr[i].retired[k].id == k
  {
    InvRun(tr, acts, i);
    assert forall k :: 0 <= k < |tr[i].retired| ==> tr[i].retired[k] == tr[i].posted[k];
  }

  /** i_signaled_sends is the number of signalled entries outstanding, so its BUG_ON cannot fire. */
  lemma SignaledSendsExact(tr: seq<Engine>, acts: seq<Action>, i: nat)
    requires Run(tr, acts) && i < |tr|
    ensures tr[i].sigSends == Count(tr[i].out) >= 0
  {
    InvRun(tr, acts, i);
  }

  /**
    A full ring larger than the signalling distance is never stuck: one of its entries is signalled,
    and it is either still with the adapter or its completion is waiting to be polled.
   */
  lemma FullRingDrains(tr: seq<Engine>, acts: seq<Action>, i: nat)
    requires Run(tr, acts) && i < |tr|
    requires |tr[i].out| == tr[i].nr > tr[i].max
    ensures exists k :: 0 <= k < |tr[i].out| && tr[i].out[k].signaled && (k >= tr[i].done || tr[i].out[k].id in tr[i].cq)
    ensures tr[i].sigSends > 0
  {
    InvRun(tr, acts, i);
    var e := tr[i];
    assert SignaledWithin(e.posted, |e.retired|, e.max);
    var j :| |e.retired| <= j <= |e.retired| + e.max && e.posted[j].signaled;
    var k := j - |e.retired|;
    assert e.out[k] == e.posted[j];
    CountPositive(e.out, k);
  }

  // ------------------------------------------------------------------ the same, in place on the ring

  /** The loop's position in the batch: what is filled in, and what the rest of the batch will be. */
  ghost predicate Rest(id: nat, unsig: nat, max: nat, notify: seq<bool>, forceLast: bool, i: nat,
                       filled: seq<Wr>, whole: (seq<Wr>, nat))
    requires i <= |notify|
  {
    && |filled| == i
    && filled + Batch(id + i, unsig, max, notify[i..], forceLast).0 == whole.0
    && Batch(id + i, unsig, max, notify[i..], forceLast).1 == whole.1
  }

  lemma RestStep(id: nat, unsig: nat, max: nat, notify: seq<bool>, forceLast: bool, i: nat,
                 filled: seq<Wr>, whole: (seq<Wr>, nat))
    requires i < |notify| && Rest(id, unsig, max, notify, forceLast, i, filled, whole)
    ensures var (sig, unsig1) := Signal(unsig, max, notify[i]);
            Rest(id, unsig1, max, notify, forceLast, i + 1,
                 filled + [Wr(id + i, sig || (forceLast && i == |notify| - 1))], whole)
  {
    var (sig, unsig1) := Signal(unsig, max, notify[i]);
    var w := Wr(id + i, sig || (forceLast && i == |notify| - 1));
    assert notify[i..][0] == notify[i] && notify[i..][1..] == notify[i + 1..];
    var rest := Batch(id + i + 1, unsig1, max, notify[i + 1..], forceLast).0;
    assert filled + ([w] + rest) == filled + [w] + rest;
  }

  lemma FillSnoc(now: seq<Wr>, c: seq<Wr>, start: nat, items: seq<Wr>, w: Wr)
    requires c != [] && now == Fill(c, start, items)
    ensures Fill(c, start, items + [w]) == now[SlotAt(start, |items|, |c|) := w]
  {
    assert (items + [w])[..|items|] == items;
  }

  function OutOf(f: Fields, c: seq<Wr>): (r: seq<Wr>)
    requires Consistent(f) && |c| == f.nr
    ensures |r| == f.Used()
    ensures forall i :: 0 <= i < |r| ==> r[i] == c[SlotAt(f.freePtr, i, f.nr)]
  {
    seq(f.Used(), i requires 0 <= i < f.Used() => c[SlotAt(f.freePtr, i, f.nr)])
  }

  /** Slot contents after writing items to consecutive slots from start. */
  function Fill(c: seq<Wr>, start: nat, items: seq<Wr>): (r: seq<Wr>)
    requires c != []
    ensures |r| == |c|
  {
    if items == [] then c
    else
      var n := |items| - 1;
      Fill(c, start, items[..n])[SlotAt(start, n, |c|) := items[n]]
  }

  lemma {:induction false} FillRead(c: seq<Wr>, start: nat, items: seq<Wr>, j: nat)
    requires j < |items| <= |c|
    ensures Fill(c, start, items)[SlotAt(start, j, |c|)] == items[j]
  {
    var n := |items| - 1;
    if j == n {
    } else {
      FillRead(c, start, items[..n], j);
      SlotsDistinct(start, |items|, |c|, j, n);
      assert Slots(start, |items|, |c|)[j] == SlotAt(start, j, |c|);
    }
  }

  lemma {:induction false} FillKeeps(c: seq<Wr>, start: nat, items: seq<Wr>, p: nat)
    requires p < |c| && forall j :: 0 <= j < |items| ==> SlotAt(start, j, |c|) != p
    ensures Fill(c, start, items)[p] == c[p]
  {
    if items == [] {
    } else {
      FillKeeps(c, start, items[..|items| - 1], p);
      assert SlotAt(start, |items| - 1, |c|) != p;
    }
  }

  /** Filling the slots just allocated appends the items to the outstanding entries. */
  lemma FillAppends(f: Fields, c: seq<Wr>, items: seq<Wr>)
    requires Consistent(f) && |c| == f.nr <= 0x8000_0000 && f.Used() + |items| <= f.nr
    ensures Consistent(Alloc(f, |items|))
    ensures OutOf(Alloc(f, |items|), Fill(c, f.allocPtr, items)) == OutOf(f, c) + items
  {
    var f', used, n := Alloc(f, |items|), f.Used(), |items|;
    AllocRefinesFifo(f, n);
    assert f'.Used() == |Fifo(f')| == used + n;
    var l, r := OutOf(f', Fill(c, f.allocPtr, items)), OutOf(f, c) + items;
    forall i | 0 <= i < used + n ensures l[i] == r[i] {
      if i < used {
        FillSpares(f, c, items, i);
      } else {
        FillShows(f, c, items, i - used);
      }
    }
  }

  /** The slots granted hold the items, right behind the outstanding ones. */
  lemma FillShows(f: Fields, c: seq<Wr>, items: seq<Wr>, j: nat)
    requires Consistent(f) && |c| == f.nr && |items| <= f.nr && j < |items|
    ensures Fill(c, f.allocPtr, items)[SlotAt(f.freePtr, f.Used() + j, f.nr)] == items[j]
  {
    SlotShift(f.freePtr, f.Used(), j, f.nr);
    FillRead(c, f.allocPtr, items, j);
  }

  /** Filling the slots granted leaves the outstanding ones alone. */
  lemma FillSpares(f: Fields, c: seq<Wr>, items: seq<Wr>, i: nat)
    requires Consistent(f) && |c| == f.nr && f.Used() + |items| <= f.nr && i < f.Used()
    ensures Fill(c, f.allocPtr, items)[SlotAt(f.freePtr, i, f.nr)] == c[SlotAt(f.freePtr, i, f.nr)]
  {
    forall j | 0 <= j < |items| ensures SlotAt(f.allocPtr, j, f.nr) != SlotAt(f.freePtr, i, f.nr) {
      GrantedFresh(f, |items|, j, i);
    }
    FillKeeps(c, f.allocPtr, items, SlotAt(f.freePtr, i, f.nr));
  }

  /** Pointer sums on such a ring do not wrap, so an allocation always works. */
  lemma AllocWorks(f: Fields, wanted: nat)
    requires Consistent(f) && f.nr <= 0x8000_0000
    ensures Consistent(Alloc(f, wanted)) && Alloc(f, wanted).Used() == f.Used() + Granted(f, wanted)
    ensures Alloc(f, wanted).freePtr == f.freePtr && Alloc(f, wanted).nr == f.nr
  {
    AllocRefinesFifo(f, wanted);
    if Granted(f, wanted) > 0 { AllocUsed(f, wanted); }
  }

  /** When everything allocated is filled. */
  lemma AllUsedAppends(f: Fields, c: seq<Wr>, items: seq<Wr>, wanted: nat)
    requires Consistent(f) && |c| == f.nr <= 0x8000_0000 && |items| == Granted(f, wanted)
    ensures Consistent(Alloc(f, wanted))
    ensures OutOf(Alloc(f, wanted), Fill(c, f.allocPtr, items)) == OutOf(f, c) + items
  {
    AllocWorks(f, wanted);
    AllocWorks(f, |items|);
    FillAppends(f, c, items);
    SameOutstanding(Alloc(f, |items|), Alloc(f, wanted), Fill(c, f.allocPtr, items));
  }

  /** When the rest is given back and the pointer can be moved back. */
  lemma GiveBackAppends(f: Fields, c: seq<Wr>, items: seq<Wr>, wanted: nat)
    requires Consistent(f) && |c| == f.nr <= 0x8000_0000 && |items| <= Granted(f, wanted)
    requires SubExact(Alloc(f, wanted).allocPtr, Granted(f, wanted) - |items|, f.nr)
    ensures var g, back := Alloc(f, wanted), Granted(f, wanted) - |items|;
            && Consistent(g) && back <= g.Used() && Consistent(Unalloc(g, back))
            && OutOf(Unalloc(g, back), Fill(c, f.allocPtr, items)) == OutOf(f, c) + items
  {
    var g, back := Alloc(f, wanted), Granted(f, wanted) - |items|;
    AllocWorks(f, wanted);
    AllocWorks(f, |items|);
    FillAppends(f, c, items);
    UnallocConsistent(g, back);
    UnallocPointer(g, back);
    SameOutstanding(Alloc(f, |items|), Unalloc(g, back), Fill(c, f.allocPtr, items));
  }

  lemma SameOutstanding(f: Fields, g: Fields, c: seq<Wr>)
    requires Consistent(f) && Consistent(g) && |c| == f.nr == g.nr && f.freePtr == g.freePtr && f.Used() == g.Used()
    ensures OutOf(f, c) == OutOf(g, c)
  {
  }

  lemma FreeDrops(f: Fields, c: seq<Wr>, n: nat)
    requires Consistent(f) && |c| == f.nr <= 0x8000_0000 && n <= f.Used()
    ensures Consistent(Free(f, n))
    ensures OutOf(Free(f, n), c) == OutOf(f, c)[n..]
  {
    var f' := Free(f, n);
    FreeRefinesFifo(f, n);
    assert f'.Used() == |Fifo(f')| == f.Used() - n;
    forall i | 0 <= i < f.Used() - n ensures OutOf(f', c)[i] == OutOf(f, c)[n + i] {
      assert Fifo(f')[i] == Fifo(f)[n + i];
    }
  }

  lemma SlotNext(start: nat, i: nat, nr: nat)
    requires 0 < nr
    ensures (SlotAt(start, i, nr) + 1) % nr == SlotAt(start, i + 1, nr)
  {
    ModAddLeft(start + i, 1, nr);
  }

  /** The send ring of a connection: the work ring, the slots it hands out, and the two counters. */
  class SendRing {
    const ring: Ring
    const sends: array<Wr>
    const max: nat
    var unsig: nat
    var sigSends: int

    /** Pointer sums do not reach 2^32 on a ring of at most 2^31 slots. */
    ghost predicate Valid()
      reads this, ring, sends
    {
      Consistent(ring.View()) && sends.Length == ring.nr <= 0x8000_0000
    }

    /** The outstanding entries, oldest first. */
    ghost function Out(): seq<Wr>
      reads this, ring, sends
      requires Valid()
    {
      OutOf(ring.View(), sends[..])
    }

    constructor (nr: nat, max: nat)
      requires 0 < nr <= 0x8000_0000
      ensures Valid() && fresh(ring) && fresh(sends) && ring.nr == nr && this.max == max
      ensures Out() == [] && unsig == 0 && sigSends == 0
    {
      this.max := max;
      unsig, sigSends := 0, 0;
      ring := new Ring(nr);
      sends := new Wr[nr](_ => Wr(0, false));
    }

    /** Fills in one slot and steps to the next. */
    method FillSlot(start: nat, pos: nat, w: Wr, ghost c: seq<Wr>, ghost filled: seq<Wr>) returns (next: nat)
      requires start < sends.Length == |c| && pos == SlotAt(start, |filled|, sends.Length)
      requires sends[..] == Fill(c, start, filled)
      modifies sends
      ensures sends[..] == Fill(c, start, filled + [w])
      ensures next == SlotAt(start, |filled| + 1, sends.Length)
    {
      FillSnoc(sends[..], c, start, filled, w);
      sends[pos] := w;
      SlotNext(start, |filled|, sends.Length);
      next := (pos + 1) % sends.Length;
    }

    /** The loop of rds_ib_xmit over the entries it was granted. */
    method FillEntries(id: nat, start: nat, notify: seq<bool>, forceLast: bool) returns (nrSig: nat)
      requires start < sends.Length
      modifies this, sends
      ensures sends[..] == Fill(old(sends[..]), start, Batch(id, old(unsig), max, notify, forceLast).0)
      ensures unsig == Batch(id, old(unsig), max, notify, forceLast).1
      ensures nrSig == Count(Batch(id, old(unsig), max, notify, forceLast).0) && sigSends == old(sigSends)
    {
      ghost var whole := Batch(id, unsig, max, notify, forceLast);
      ghost var filled: seq<Wr> := [];
      var i, pos: nat, left: nat := 0, start, unsig;
      nrSig := 0;
      SmallMod(start, sends.Length);
      while i < |notify|
        invariant 0 <= i <= |notify|
        invariant pos == SlotAt(start, i, sends.Length)
        invariant Rest(id, left, max, notify, forceLast, i, filled, whole)
        invariant nrSig == Count(filled)
        invariant sends[..] == Fill(old(sends[..]), start, filled)
        invariant unsig == old(unsig) && sigSends == old(sigSends)
      {
        RestStep(id, left, max, notify, forceLast, i, filled, whole);
        var signaled := left == 0 || notify[i];
        left := if signaled then max else left - 1;
        if forceLast && i == |notify| - 1 {
          signaled := true;
        }
        if signaled {
          nrSig := nrSig + 1;
        }
        var w := Wr(id + i, signaled);
        CountSnoc(filled, w);
        pos := FillSlot(start, pos, w, old(sends[..]), filled);
        filled := filled + [w];
        i := i + 1;
      }
      assert notify[i..] == [] && filled + [] == filled == whole.0;
      unsig := left;
    }

    /**
      The part of rds_ib_xmit that allocates `wanted` ring entries, fills in and posts as many as the
      message still needs, and gives the rest back.  The ring survives that exactly when its pointer can
      be moved back, and then the batch is what has been added.
     */
    method PostBatch(id: nat, wanted: nat, notify: seq<bool>, forceLast: bool)
      requires Valid() && |notify| <= Granted(ring.View(), wanted)
      modifies this, ring, sends
      ensures var f := old(ring.View());
              Valid() <==> SubExact(Alloc(f, wanted).allocPtr, Granted(f, wanted) - |notify|, f.nr)
      ensures Valid() ==> Out() == old(Out()) + Batch(id, old(unsig), max, notify, forceLast).0
      ensures unsig == Batch(id, old(unsig), max, notify, forceLast).1
      ensures sigSends == old(sigSends) + Count(Batch(id, old(unsig), max, notify, forceLast).0)
    {
      ghost var f, items := ring.View(), Batch(id, unsig, max, notify, forceLast).0;
      var work, pos := ring.AllocEntries(wanted);
      if work == 0 { pos := ring.allocPtr; }
      var nrSig := FillEntries(id, pos, notify, forceLast);
      AllocWorks(f, wanted);
      if |notify| < work {
        if SubExact(ring.allocPtr, work - |notify|, ring.nr) {
          GiveBackAppends(f, old(sends[..]), items, wanted);
        }
        ring.UnallocEntries(work - |notify|);
      } else {
        AllUsedAppends(f, old(sends[..]), items, wanted);
      }
      sigSends := sigSends + nrSig;
    }

    /** The walk over the completed entries, from the oldest on. */
    method CountSignals(oldest: nat, completed: nat) returns (nrSig: nat)
      requires Valid() && oldest == ring.freePtr && completed <= ring.View().Used()
      ensures nrSig == Count(Out()[..completed])
    {
      nrSig := 0;
      var slot, i := oldest, 0;
      SmallMod(oldest, ring.nr);
      while i < completed
        invariant 0 <= i <= completed && slot == SlotAt(oldest, i, ring.nr)
        invariant nrSig == Count(Out()[..i])
      {
        CountSnoc(Out()[..i], Out()[i]);
        assert Out()[..i + 1] == Out()[..i] + [Out()[i]];
        if sends[slot].signaled {
          nrSig := nrSig + 1;
        }
        SlotNext(oldest, i, ring.nr);
        slot := (slot + 1) % ring.nr;
        i := i + 1;
      }
    }

    /**
      One completion, as the handler processes it: walk from the oldest entry to the completed one,
      count the signalled entries passed, free them all, and take the count off i_signaled_sends.
     */
    method HandleCompletion(wrId: nat, ghost k: nat) returns (nrSig: nat)
      requires Valid() && k < ring.View().Used() && wrId == SlotAt(ring.freePtr, k, ring.nr)
      modifies this, ring
      ensures Valid()
      ensures Out() == old(Out())[k + 1..]
      ensures nrSig == Count(old(Out())[..k + 1]) && sigSends == old(sigSends) - nrSig
      ensures unsig == old(unsig)
    {
      ghost var f, out := ring.View(), Out();
      var oldest := ring.Oldest();
      CompletedCounts(f, k);
      var completed := Completed(ring.nr, wrId, oldest);
      nrSig := CountSignals(oldest, completed);
      var empty := ring.FreeEntries(completed);
      sigSends := sigSends - nrSig;
      FreeDrops(f, sends[..], k + 1);
    }
  }
}
