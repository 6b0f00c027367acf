/**
 * Reassembly of RDS messages from a TCP byte stream. The receive routine is handed pieces of the
 * stream cut at arbitrary places and may give up early when an allocation fails; the bytes it did
 * not take are handed to it again later. Whatever the cuts and failures, the messages handed up are
 * exactly those a one-shot parser finds in the bytes taken so far.
 */
module TcpRecv {
  import opened ByteBlocks
  import opened Common

  const HDR: nat := 48

  /** A message as handed up: its header bytes and its payload. */
  datatype Message = Message(hdr: seq<Byte>, data: seq<Byte>)

  /** The message under construction: header bytes copied so far and the queue of payload clones. */
  datatype Incoming = Incoming(hdr: seq<Byte>, parts: seq<seq<Byte>>)

  /** The payload length of a header: four big-endian bytes at offset 16. */
  function Len(h: seq<Byte>): nat
    requires |h| == HDR
  {
    h[16] as nat * 0x100_0000 + h[17] as nat * 0x1_0000 + h[18] as nat * 0x100 + h[19] as nat
  }

  predicate WellFormed(m: Message) {
    |m.hdr| == HDR && |m.data| == Len(m.hdr)
  }

  /** What the peer puts on the wire for a list of messages. */
  function Encode(ms: seq<Message>): seq<Byte> {
    if ms == [] then [] else ms[0].hdr + ms[0].data + Encode(ms[1..])
  }

  /** Whether a stream opens with a whole message. */
  predicate Complete(s: seq<Byte>) {
    |s| >= HDR && |s| >= HDR + Len(s[..HDR])
  }

  /** The one-shot parser: split off whole messages until what is left is not one. */
  function Parse(s: seq<Byte>): (ms: seq<Message>)
    ensures forall m :: m in ms ==> WellFormed(m)
    decreases |s|
  {
    if !Complete(s) then [] else
      var end := HDR + Len(s[..HDR]);
      [Message(s[..HDR], s[HDR..end])] + Parse(s[end..])
  }

  lemma Extended(s: seq<Byte>, a: nat, b: nat)
    requires a <= b <= |s|
    ensures forall p: seq<Byte> :: p + s[..a] + s[a..b] == p + s[..b]
    ensures s[..a] + s[a..b] == s[..b]
  {
    assert s[..a] + s[a..b] == s[..b];
    forall p: seq<Byte> ensures p + s[..a] + s[a..b] == p + s[..b] {
      assert p + s[..a] + s[a..b] == p + (s[..a] + s[a..b]);
    }
  }

  lemma {:induction false} EncodeSnoc(ms: seq<Message>, m: Message)
    ensures Encode(ms + [m]) == Encode(ms) + m.hdr + m.data
  {
    if ms == [] {
      assert [m][1..] == [];
    } else {
      assert (ms + [m])[0] == ms[0] && (ms + [m])[1..] == ms[1..] + [m];
      EncodeSnoc(ms[1..], m);
    }
  }

  lemma HeadParsed(m: Message, rest: seq<Byte>)
    requires WellFormed(m)
    ensures Parse(m.hdr + m.data + rest) == [m] + Parse(rest)
  {
    var s := m.hdr + m.data + rest;
    assert s[..HDR] == m.hdr;
    assert s[HDR..HDR + |m.data|] == m.data;
    assert s[HDR + |m.data|..] == rest;
  }

  /** The parser inverts the encoder, and ignores an unfinished message at the end. */
  lemma {:induction false} ParseInvertsEncode(ms: seq<Message>, rest: seq<Byte>)
    requires forall m :: m in ms ==> WellFormed(m)
    requires !Complete(rest)
    ensures Parse(Encode(ms) + rest) == ms
  {
    if ms == [] {
      assert Encode(ms) + rest == rest;
    } else {
      var tail := Encode(ms[1..]) + rest;
      assert Encode(ms) + rest == ms[0].hdr + ms[0].data + tail;
      HeadParsed(ms[0], tail);
      assert ms[0] in ms;
      ParseInvertsEncode(ms[1..], rest);
    }
  }

  /** The bytes of the message under construction. */
  function Held(t: Option<Incoming>): seq<Byte> {
    if t.None? then [] else t.value.hdr + Flatten(t.value.parts)
  }

  /** Header and payload countdowns describe exactly what the unfinished message still lacks. */
  predicate Pending(t: Option<Incoming>, hdrRem: nat, dataRem: nat) {
    match t
    case None => hdrRem == HDR && dataRem == 0
    case Some(i) =>
      && hdrRem <= HDR && |i.hdr| == HDR - hdrRem
      && (hdrRem > 0 ==> i.parts == [] && dataRem == 0)
      && (hdrRem == 0 ==> dataRem + |Flatten(i.parts)| == Len(i.hdr))
  }

  /** Such a message is unfinished as long as one of the countdowns is running. */
  lemma HeldIncomplete(t: Option<Incoming>, hdrRem: nat, dataRem: nat)
    requires Pending(t, hdrRem, dataRem) && (hdrRem > 0 || dataRem > 0)
    ensures !Complete(Held(t))
  {
    if t.Some? && hdrRem == 0 {
      assert Held(t)[..HDR] == t.value.hdr;
    }
  }

  /** The receive side of one TCP connection. */
  class TcpConnection {
    var tinc: Option<Incoming>
    var hdrRem: nat
    var dataRem: nat
    var delivered: seq<Message>

    ghost predicate Valid()
      reads this
    {
      && Pending(tinc, hdrRem, dataRem)
      && (hdrRem > 0 || dataRem > 0)
      && forall m :: m in delivered ==> WellFormed(m)
    }

    /** Every byte taken so far, delivered or still held. */
    ghost function Taken(): seq<Byte>
      reads this
    {
      Encode(delivered) + Held(tinc)
    }

    constructor ()
      ensures Valid() && Taken() == [] && delivered == []
    {
      tinc, hdrRem, dataRem, delivered := None, HDR, 0, [];
    }

    /** What has been delivered is what the one-shot parser finds in the bytes taken. */
    lemma DeliveredIsParse()
      requires Valid()
      ensures delivered == Parse(Taken())
    {
      HeldIncomplete(tinc, hdrRem, dataRem);
      ParseInvertsEncode(delivered, Held(tinc));
    }

    /** Copies header bytes out of the piece; arms the payload countdown when the header is whole. */
    method CopyHeader(chunk: seq<Byte>, off: nat) returns (off': nat)
      requires Pending(tinc, hdrRem, dataRem) && tinc.Some? && hdrRem > 0 && off < |chunk|
      modifies this
      ensures off < off' <= |chunk| && delivered == old(delivered)
      ensures Pending(tinc, hdrRem, dataRem) && tinc.Some?
      ensures Taken() == old(Taken()) + chunk[off..off']
      ensures hdrRem == 0 || off' == |chunk|
    {
      var n := Min(hdrRem, |chunk| - off);
      tinc := Some(Incoming(tinc.value.hdr + chunk[off..off + n], tinc.value.parts));
      hdrRem := hdrRem - n;
      off' := off + n;
      if hdrRem == 0 {
        dataRem := Len(tinc.value.hdr);
      }
    }

    /** Queues a clone trimmed to the payload bytes of the piece that belong to this message. */
    method QueueClone(chunk: seq<Byte>, off: nat) returns (off': nat)
      requires Pending(tinc, hdrRem, dataRem) && tinc.Some? && hdrRem == 0 && dataRem > 0 && off < |chunk|
      modifies this
      ensures off < off' <= |chunk| && delivered == old(delivered)
      ensures Pending(tinc, hdrRem, dataRem) && tinc.Some? && hdrRem == 0
      ensures Taken() == old(Taken()) + chunk[off..off']
      ensures dataRem == 0 || off' == |chunk|
    {
      var n := Min(dataRem, |chunk| - off);
      FlattenSnoc(tinc.value.parts, chunk[off..off + n]);
      tinc := Some(Incoming(tinc.value.hdr, tinc.value.parts + [chunk[off..off + n]]));
      dataRem := dataRem - n;
      off' := off + n;
    }

    /** Hands the finished message up and starts afresh. */
    method HandUp()
      requires Pending(tinc, hdrRem, dataRem) && tinc.Some? && hdrRem == 0 && dataRem == 0
      requires forall m :: m in delivered ==> WellFormed(m)
      modifies this
      ensures Valid() && tinc.None? && Taken() == old(Taken())
    {
      var m := Message(tinc.value.hdr, Flatten(tinc.value.parts));
      EncodeSnoc(delivered, m);
      delivered := delivered + [m];
      hdrRem, dataRem, tinc := HDR, 0, None;
    }

    /**
     * One call of the receive routine on a piece of the stream. `alloc` gives the outcome of its
     * allocations in order. It takes a prefix of the piece, all of it unless an allocation failed,
     * and what it has delivered by then is the parse of everything taken.
     */
    method DataRecv(chunk: seq<Byte>, alloc: seq<bool>) returns (used: nat, failed: bool)
      requires Valid()
      modifies this
      ensures Valid() && used <= |chunk|
      ensures Taken() == old(Taken()) + chunk[..used]
      ensures delivered == Parse(Taken())
      ensures used < |chunk| ==> failed
      ensures failed ==> false in alloc
    {
      var off, k := 0, 0;
      failed := false;
      assert chunk[..0] == [];
      while off < |chunk|
        invariant Valid() && off <= |chunk|
        invariant Taken() == old(Taken()) + chunk[..off]
        invariant !failed
        decreases |chunk| - off
      {
        ghost var was := off;
        if tinc.None? {
          if k < |alloc| && !alloc[k] {
            failed := true;
            break;
          }
          k := k + 1;
          tinc := Some(Incoming([], []));
          assert Held(tinc) == [];
        }
        if hdrRem > 0 {
          off := CopyHeader(chunk, off);
          Extended(chunk, was, off);
        }
        ghost var mid := off;
        if off < |chunk| && dataRem > 0 {
          if k < |alloc| && !alloc[k] {
            failed := true;
            break;
          }
          k := k + 1;
          off := QueueClone(chunk, off);
          Extended(chunk, mid, off);
        }
        if hdrRem == 0 && dataRem == 0 {
          HandUp();
        }
      }
      used := off;
      DeliveredIsParse();
    }
  }

  lemma NextTaken(s: seq<Byte>, pos: nat, n: nat, used: nat)
    requires pos + n <= |s| && used <= n
    ensures s[..pos] + s[pos..pos + n][..used] == s[..pos + used]
  {
    var l, r := s[..pos] + s[pos..pos + n][..used], s[..pos + used];
    forall i | 0 <= i < pos + used ensures l[i] == r[i] {
      if i >= pos {
        assert s[pos..pos + n][..used][i - pos] == s[pos..pos + n][i - pos] == s[i];
      }
    }
  }

  /** A round that presents at least one byte and in which no allocation fails. */
  predicate Healthy(r: (nat, seq<bool>)) {
    r.0 > 0 && false !in r.1
  }

  predicate AllHealthy(rs: seq<(nat, seq<bool>)>) {
    forall i :: 0 <= i < |rs| ==> Healthy(rs[i])
  }

  /** Presents the next bytes of the stream to the receiver. */
  method Round(c: TcpConnection, stream: seq<Byte>, pos: nat, r: (nat, seq<bool>)) returns (next: nat)
    requires c.Valid() && pos <= |stream| && c.Taken() == stream[..pos]
    modifies c
    ensures c.Valid() && pos <= next <= |stream| && c.Taken() == stream[..next]
    ensures Healthy(r) && pos < |stream| ==> pos < next
  {
    var n := Min(r.0, |stream| - pos);
    var used, failed := c.DataRecv(stream[pos..pos + n], r.1);
    NextTaken(stream, pos, n, used);
    next := pos + used;
  }

  /**
   * A whole session: each round presents the next bytes of the stream, up to a limit, and
   * keeps what the receiver did not take for a later round. Whatever the cuts and the allocation
   * outcomes, the receiver has delivered exactly the messages found in the prefix it consumed; and
   * with memory available the rounds do get through the stream.
   */
  method Session(stream: seq<Byte>, rounds: seq<(nat, seq<bool>)>) returns (c: TcpConnection, pos: nat)
    ensures c.Valid() && pos <= |stream|
    ensures c.delivered == Parse(stream[..pos])
    ensures AllHealthy(rounds) ==> pos == |stream| || pos >= |rounds|
  {
    c := new TcpConnection();
    pos := 0;
    var i := 0;
    while i < |rounds|
      invariant fresh(c) && c.Valid() && i <= |rounds| && pos <= |stream|
      invariant c.Taken() == stream[..pos]
      invariant AllHealthy(rounds) ==> pos == |stream| || pos >= i
    {
      pos := Round(c, stream, pos, rounds[i]);
      i := i + 1;
    }
    c.DeliveredIsParse();
  }

  /** The end to end statement: the peer's encoding, consumed whole, gives back its messages. */
  lemma StreamDecodes(ms: seq<Message>)
    requires forall m :: m in ms ==> WellFormed(m)
    ensures Parse(Encode(ms)) == ms
  {
    ParseInvertsEncode(ms, []);
    assert Encode(ms) == Encode(ms) + [];
  }
}
