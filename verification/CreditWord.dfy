/**
  The packed credit word of an iWARP connection (net/rds/iw.h, net/rds/iw_send.c; the IB copy is
  the same).  One signed 32-bit atomic holds the send credits in its low half and the posted
  receive credits in its high half, so that both can be changed by a single exchange.
 */
module CreditWord {
  import opened Common

  const LOW: nat := 0x1_0000
  const MAX_ADV: nat := 255       // RDS_MAX_ADV_CREDIT

  function U32(x: int): (r: nat)
    ensures r < TWO32
  {
    x % TWO32
  }

  /** The value an int holds after any arithmetic: two's complement, 32 bits. */
  function S32(x: int): (r: int)
    ensures -0x8000_0000 <= r < 0x8000_0000
  {
    var u := x % TWO32;
    if u < 0x8000_0000 then u else u - TWO32
  }

  /** IB_GET_SEND_CREDITS and IB_GET_POST_CREDITS, as read into unsigned variables. */
  function GetSend(v: int): nat { v % LOW }
  function GetPost(v: int): nat { U32(v / LOW) }

  /** The two counters the word stands for. */
  datatype Pair = Pair(send: nat, post: nat) {
    /** Each half fits; the sign bit of the word stays clear. */
    predicate Fits() { send < 0x1_0000 && post < 0x8000 }
  }

  function Pack(p: Pair): int { p.post * LOW + p.send }

  /** What a grab takes: send credits, and posted credits to advertise to the peer. */
  datatype Grabbed = Grabbed(got: nat, adv: nat)

  /** The rule on plain counters: the last credit is kept back unless it carries an update. */
  function Take(p: Pair, wanted: nat, needPosted: bool, maxPosted: nat): (g: Grabbed)
    ensures g.got <= p.send && g.got <= wanted && g.adv <= p.post && g.adv <= maxPosted
  {
    var avail := if p.send > 0 && p.post == 0 then p.send - 1 else p.send;
    var got := Min(avail, wanted);
    Grabbed(got, if p.post > 0 && (got > 0 || needPosted) then Min(p.post, maxPosted) else 0)
  }

  function TakeWord(v: int, wanted: nat, needPosted: bool, maxPosted: nat): Grabbed {
    Take(Pair(GetSend(v), GetPost(v)), wanted, needPosted, maxPosted)
  }

  /** The word the exchange installs. */
  function Billed(v: int, g: Grabbed): int {
    S32(v - g.got % LOW - U32(g.adv * LOW))
  }

  /** atomic_add of send credits that arrived, and of credits for buffers just posted. */
  function AddSend(v: int, c: nat): int { S32(v + c % LOW) }
  function AddPost(v: int, c: nat): int { S32(v + U32(c * LOW)) }

  // ------------------------------------------------------------------ the word is the pair

  lemma PackReads(p: Pair)
    requires p.Fits()
    ensures GetSend(Pack(p)) == p.send && GetPost(Pack(p)) == p.post && S32(Pack(p)) == Pack(p)
  {
    assert Pack(p) / LOW == p.post;
  }

  /** Nothing the grab subtracts borrows from the other half. */
  lemma GrabRefines(p: Pair, wanted: nat, needPosted: bool, maxPosted: nat)
    requires p.Fits()
    ensures TakeWord(Pack(p), wanted, needPosted, maxPosted) == Take(p, wanted, needPosted, maxPosted)
    ensures var g := Take(p, wanted, needPosted, maxPosted);
            Billed(Pack(p), g) == Pack(Pair(p.send - g.got, p.post - g.adv))
  {
    PackReads(p);
    var g := Take(p, wanted, needPosted, maxPosted);
    assert g.adv * LOW < TWO32;
    PackReads(Pair(p.send - g.got, p.post - g.adv));
  }

  /** Adding send credits leaves the posted half alone exactly when the low half does not overflow. */
  lemma AddSendExact(p: Pair, c: nat)
    requires p.Fits() && c < LOW
    ensures (GetSend(AddSend(Pack(p), c)) == p.send + c && GetPost(AddSend(Pack(p), c)) == p.post)
            <==> p.send + c < LOW
    ensures p.send + c < LOW ==> AddSend(Pack(p), c) == Pack(Pair(p.send + c, p.post))
  {
    if p.send + c < LOW { PackReads(Pair(p.send + c, p.post)); }
  }

  /** Adding posted credits is read back exactly when the sign bit stays clear: rings below 32768. */
  lemma AddPostExact(p: Pair, c: nat)
    requires p.Fits() && c < 0x8000
    ensures (GetSend(AddPost(Pack(p), c)) == p.send && GetPost(AddPost(Pack(p), c)) == p.post + c)
            <==> p.post + c < 0x8000
    ensures p.post + c < 0x8000 ==> AddPost(Pack(p), c) == Pack(Pair(p.send, p.post + c))
  {
    assert c * LOW < TWO32;
    var q := Pair(p.send, p.post + c);
    assert Pack(p) + c * LOW == Pack(q);
    if p.post + c < 0x8000 {
      PackReads(q);
    } else {
      assert S32(Pack(q)) == Pack(q) - TWO32;
      assert (Pack(q) - TWO32) / LOW == p.post + c - LOW;
    }
  }

  // ------------------------------------------------------------------ the retry loop

  /** i_credits with the retry loop of rds_iw_send_grab_credits. */
  class CreditCell {
    var word: int
    var flowctl: bool

    constructor (flowctl: bool)
      ensures word == 0 && this.flowctl == flowctl
    {
      word := 0;
      this.flowctl := flowctl;
    }

    /**
      env[k] is the value other threads leave in the word between the k-th atomic_read and the
      k-th atomic_cmpxchg; they interfere finitely often.  The grab takes effect on the value that
      is in the word at the moment of the successful exchange, so no update of theirs is lost.
     */
    method Grab(wanted: nat, needPosted: bool, maxPosted: nat, env: seq<int>)
      returns (g: Grabbed, full: bool, ghost at: int)
      modifies this
      ensures flowctl == old(flowctl)
      ensures !flowctl ==> g == Grabbed(wanted, 0) && word == old(word)
      ensures flowctl ==> g == TakeWord(at, wanted, needPosted, maxPosted) && word == Billed(at, g)
      ensures flowctl ==> at == old(word) || at in env
      ensures flowctl && (forall k :: 0 <= k < |env| ==> env[k] == old(word)) ==> at == old(word)
      ensures flowctl && g.got < wanted ==> full
    {
      g, full, at := Grabbed(wanted, 0), false, word;
      if !flowctl {
        return;
      }
      var tries, done := 0, false;
      while !done
        invariant tries <= |env| + 1
        invariant !done ==> tries <= |env| && (word == old(word) || word in env)
        invariant !done && (forall k :: 0 <= k < |env| ==> env[k] == old(word)) ==> word == old(word)
        invariant flowctl == old(flowctl)
        invariant done ==> g == TakeWord(at, wanted, needPosted, maxPosted) && word == Billed(at, g)
        invariant done ==> at == old(word) || at in env
        invariant done && (forall k :: 0 <= k < |env| ==> env[k] == old(word)) ==> at == old(word)
        invariant done && g.got < wanted ==> full
        decreases !done, |env| - tries
      {
        var oldval := word;
        g := TakeWord(oldval, wanted, needPosted, maxPosted);
        if g.got < wanted {
          full := true;
        }
        var newval := Billed(oldval, g);
        if tries < |env| {
          word := env[tries];
        }
        tries := tries + 1;
        if word == oldval {
          at := word;
          word := newval;
          done := true;
        }
      }
    }

    /** rds_iw_send_add_credits and rds_iw_advertise_credits */
    method AddSendCredits(credits: nat)
      modifies this
      ensures word == if credits == 0 then old(word) else AddSend(old(word), credits)
      ensures flowctl == old(flowctl)
    {
      if credits == 0 {
        return;
      }
      word := AddSend(word, credits);
    }

    method Advertise(posted: nat) returns (ackNow: bool)
      modifies this
      ensures word == if posted == 0 then old(word) else AddPost(old(word), posted)
      ensures ackNow <==> posted != 0 && GetPost(word) >= 16
      ensures flowctl == old(flowctl)
    {
      ackNow := false;
      if posted == 0 {
        return;
      }
      word := AddPost(word, posted);
      if GetPost(word) >= 16 {
        ackNow := true;
      }
    }
  }
}
