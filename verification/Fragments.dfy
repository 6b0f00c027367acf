/**
  Fragmentation on the send side and reassembly on the receive side of an IB connection
  (net/rds/send.c, net/rds/ib_send.c, net/rds/ib_recv.c).

  A message is sent in fragments of at most RDS_FRAG_SIZE bytes, over as many calls of the
  transport as ring space and credits allow.  The caller keeps a (header, sg, offset) cursor from
  the byte counts the transport returns; the receiver keeps only the bytes remaining.  Nothing on
  the wire says which fragment is the last.
 */
module Fragments {
  import opened ByteBlocks
  import opened Common

  const FRAG: nat := 4096      // RDS_FRAG_SIZE
  const HDR: nat := 48         // sizeof(struct rds_header)

  /** The header fields every fragment of a message repeats, and its scatterlist. */
  datatype Message = Message(tag: nat, sgs: seq<seq<Byte>>)

  /** One SEND: the message's header, of which h_len matters here, and the fragment's data. */
  datatype Frag = Frag(tag: nat, len: nat, data: seq<Byte>)

  function Payload(m: Message): seq<Byte> { Flatten(m.sgs) }

  /** Entries are never empty and all but the last hold whole fragments: they are pages. */
  predicate Paged(sgs: seq<seq<Byte>>) {
    && (forall k :: 0 <= k < |sgs| ==> |sgs[k]| > 0)
    && (forall k :: 0 <= k < |sgs| - 1 ==> |sgs[k]| % FRAG == 0)
  }

  /** The reference: cut a payload into fragments; an empty payload is one empty fragment. */
  function Cut(p: seq<Byte>): (r: seq<seq<Byte>>)
    ensures |r| > 0
  {
    if |p| <= FRAG then [p] else [p[..FRAG]] + Cut(p[FRAG..])
  }

  function Wrap(tag: nat, len: nat, parts: seq<seq<Byte>>): (r: seq<Frag>)
    ensures |r| == |parts|
    ensures forall i :: 0 <= i < |r| ==> r[i] == Frag(tag, len, parts[i])
  {
    seq(|parts|, i requires 0 <= i < |parts| => Frag(tag, len, parts[i]))
  }

  /** All the fragments of a message. */
  function Fragmented(m: Message): seq<Frag> {
    Wrap(m.tag, |Payload(m)|, Cut(Payload(m)))
  }

  // ------------------------------------------------------------------ cursors into the scatterlist

  /** Entry number and offset, as rds_send_xmit and the transport both keep them. */
  datatype Cursor = Cursor(sg: nat, off: nat)

  /** A cursor is never left at the end of an entry. */
  predicate Canonical(sgs: seq<seq<Byte>>, c: Cursor) {
    c.sg <= |sgs| && (if c.sg == |sgs| then c.off == 0 else c.off < |sgs[c.sg]|)
  }

  /** How many bytes of the message lie before the cursor. */
  function Pos(sgs: seq<seq<Byte>>, c: Cursor): nat
    requires Canonical(sgs, c)
  {
    Start(sgs, c.sg) + c.off
  }

  /** n bytes further within the current entry. */
  function Moved(sgs: seq<seq<Byte>>, c: Cursor, n: nat): (c': Cursor)
    requires Paged(sgs) && Canonical(sgs, c) && c.sg < |sgs| && c.off + n <= |sgs[c.sg]|
    ensures Canonical(sgs, c') && Pos(sgs, c') == Pos(sgs, c) + n
  {
    if c.off + n == |sgs[c.sg]| then Cursor(c.sg + 1, 0) else Cursor(c.sg, c.off + n)
  }

  lemma {:induction false} StartGrows(sgs: seq<seq<Byte>>, j: nat, k: nat)
    requires Paged(sgs) && j <= k <= |sgs|
    ensures Start(sgs, j) + (k - j) <= Start(sgs, k)
    ensures j < k ==> Start(sgs, j) + |sgs[j]| <= Start(sgs, k)
    decreases k
  {
    if j == k {
    } else {
      StartGrows(sgs, j, k - 1);
    }
  }

  /** Two cursors at the same byte are the same cursor. */
  lemma CursorUnique(sgs: seq<seq<Byte>>, c: Cursor, d: Cursor)
    requires Paged(sgs) && Canonical(sgs, c) && Canonical(sgs, d) && Pos(sgs, c) == Pos(sgs, d)
    ensures c == d
  {
    if c.sg < d.sg {
      StartGrows(sgs, c.sg, d.sg);
    } else if d.sg < c.sg {
      StartGrows(sgs, d.sg, c.sg);
    }
  }

  // ------------------------------------------------------------------ cutting from a cursor

  /** A cursor on a fragment boundary. */
  predicate Aligned(sgs: seq<seq<Byte>>, c: Cursor) {
    Canonical(sgs, c) && c.off % FRAG == 0
  }

  /** Length of the next fragment: it never crosses an entry. */
  function PieceLen(sgs: seq<seq<Byte>>, c: Cursor): nat
    requires Canonical(sgs, c) && c.sg < |sgs|
  {
    Min(FRAG, |sgs[c.sg]| - c.off)
  }

  function Piece(sgs: seq<seq<Byte>>, c: Cursor): seq<Byte>
    requires Canonical(sgs, c) && c.sg < |sgs|
  {
    sgs[c.sg][c.off..c.off + PieceLen(sgs, c)]
  }

  lemma MultipleGap(len: nat, off: nat)
    requires len % FRAG == 0 && off % FRAG == 0 && off < len
    ensures len - off >= FRAG
  {
  }

  /** The cursor after the next fragment. */
  function Next(sgs: seq<seq<Byte>>, c: Cursor): (c': Cursor)
    requires Paged(sgs) && Aligned(sgs, c) && c.sg < |sgs|
    ensures Aligned(sgs, c') && Pos(sgs, c') == Pos(sgs, c) + PieceLen(sgs, c)
  {
    if c.sg < |sgs| - 1 then MultipleGap(|sgs[c.sg]|, c.off); Moved(sgs, c, PieceLen(sgs, c))
    else Moved(sgs, c, PieceLen(sgs, c))
  }

  /** Because entries hold whole fragments, the entry boundary does not show in the next fragment. */
  lemma PieceIsFlat(sgs: seq<seq<Byte>>, c: Cursor)
    requires Paged(sgs) && Aligned(sgs, c) && c.sg < |sgs|
    ensures var p, n := Flatten(sgs), PieceLen(sgs, c);
            && Pos(sgs, c) + n <= |p|
            && n == Min(FRAG, |p| - Pos(sgs, c)) && n > 0
            && Piece(sgs, c) == p[Pos(sgs, c)..Pos(sgs, c) + n]
            && (Next(sgs, c).sg == |sgs| <==> Pos(sgs, c) + n == |p|)
  {
    var p, n, s0, e := Flatten(sgs), PieceLen(sgs, c), Start(sgs, c.sg), |sgs[c.sg]|;
    FlattenAt(sgs, c.sg);
    FlattenLength(sgs);
    StartGrows(sgs, c.sg, |sgs|);
    SubSlice(p, s0, s0 + e, c.off, c.off + n);
    if c.sg < |sgs| - 1 {
      MultipleGap(e, c.off);
      StartGrows(sgs, c.sg + 1, |sgs|);
    }
  }

  /** Where one call of the transport stops with `work` grants, what it sends, and how many bytes that is. */
  function End(sgs: seq<seq<Byte>>, c: Cursor, work: nat): (c': Cursor)
    requires Paged(sgs) && Aligned(sgs, c)
    ensures Aligned(sgs, c')
    decreases work
  {
    if work == 0 || c.sg == |sgs| then c else End(sgs, Next(sgs, c), work - 1)
  }

  function Pieces(sgs: seq<seq<Byte>>, c: Cursor, work: nat): seq<seq<Byte>>
    requires Paged(sgs) && Aligned(sgs, c)
    decreases work
  {
    if work == 0 || c.sg == |sgs| then []
    else [Piece(sgs, c)] + Pieces(sgs, Next(sgs, c), work - 1)
  }

  function Bytes(sgs: seq<seq<Byte>>, c: Cursor, work: nat): nat
    requires Paged(sgs) && Aligned(sgs, c)
    decreases work
  {
    if work == 0 || c.sg == |sgs| then 0
    else PieceLen(sgs, c) + Bytes(sgs, Next(sgs, c), work - 1)
  }

  /** The byte count is the distance the cursor moved, and the cursor moves whenever it can. */
  lemma {:induction false} BytesMoved(sgs: seq<seq<Byte>>, c: Cursor, work: nat)
    requires Paged(sgs) && Aligned(sgs, c)
    ensures Pos(sgs, End(sgs, c, work)) == Pos(sgs, c) + Bytes(sgs, c, work)
    ensures work > 0 && c.sg < |sgs| ==> Bytes(sgs, c, work) > 0
    decreases work
  {
    if work == 0 || c.sg == |sgs| {
    } else {
      BytesMoved(sgs, Next(sgs, c), work - 1);
    }
  }

  /** The reference cut from byte a on. */
  function CutFrom(p: seq<Byte>, a: nat): seq<seq<Byte>>
    requires a <= |p|
  {
    Cut(p[a..])
  }

  lemma CutNext(p: seq<Byte>, a: nat)
    requires a < |p|
    ensures var n := Min(FRAG, |p| - a);
            && CutFrom(p, a)[0] == p[a..a + n]
            && (a + n == |p| ==> |CutFrom(p, a)| == 1)
            && (a + n < |p| ==> CutFrom(p, a) == [p[a..a + n]] + CutFrom(p, a + n))
  {
    var n := Min(FRAG, |p| - a);
    assert p[a..][n..] == p[a + n..];
    assert p[a..][..n] == p[a..a + n];
  }

  /** However many grants there are, the pieces sent are the next ones of the reference cut. */
  lemma {:induction false} PiecesAreCut(sgs: seq<seq<Byte>>, c: Cursor, work: nat)
    requires Paged(sgs) && Aligned(sgs, c) && c.sg < |sgs| && Pos(sgs, c) < |Flatten(sgs)|
    ensures End(sgs, c, work).sg == |sgs| ==> Pieces(sgs, c, work) == CutFrom(Flatten(sgs), Pos(sgs, c))
    ensures var e := End(sgs, c, work);
            e.sg < |sgs| ==>
              && Pos(sgs, e) < |Flatten(sgs)|
              && Pieces(sgs, c, work) + CutFrom(Flatten(sgs), Pos(sgs, e)) == CutFrom(Flatten(sgs), Pos(sgs, c))
    decreases work
  {
    var p := Flatten(sgs);
    if work > 0 {
      PieceIsFlat(sgs, c);
      CutNext(p, Pos(sgs, c));
      var c1 := Next(sgs, c);
      if c1.sg < |sgs| {
        PiecesAreCut(sgs, c1, work - 1);
        PiecesJoin(Piece(sgs, c), Pieces(sgs, c1, work - 1));
      }
    } else {
      assert [] + CutFrom(p, Pos(sgs, c)) == CutFrom(p, Pos(sgs, c));
    }
  }

  lemma PiecesJoin(x: seq<Byte>, rest: seq<seq<Byte>>)
    ensures forall t: seq<seq<Byte>> :: [x] + rest + t == [x] + (rest + t)
  {
  }

  /** The pieces of the cut put together are the payload; all but the last are full; their number is the ceiling. */
  lemma {:induction false} CutJoins(p: seq<Byte>)
    ensures Flatten(Cut(p)) == p
    ensures forall i :: 0 <= i < |Cut(p)| - 1 ==> |Cut(p)[i]| == FRAG
    ensures |Cut(p)| == if |p| == 0 then 1 else (|p| + FRAG - 1) / FRAG
  {
    if |p| <= FRAG {
      assert [p][1..] == [];
    } else {
      CutJoins(p[FRAG..]);
      assert Cut(p)[1..] == Cut(p[FRAG..]);
      assert p == p[..FRAG] + p[FRAG..];
    }
  }

  // ------------------------------------------------------------------ one call of the transport

  /** What one call has cut so far, followed by what it will still cut, is what the whole call cuts. */
  ghost predicate Ahead(sgs: seq<seq<Byte>>, c: Cursor, work: nat, pieces: seq<seq<Byte>>, ret: nat, c1: Cursor, left: nat)
    requires Paged(sgs) && Aligned(sgs, c) && Aligned(sgs, c1)
  {
    && pieces + Pieces(sgs, c1, left) == Pieces(sgs, c, work)
    && ret + Bytes(sgs, c1, left) == Bytes(sgs, c, work)
    && End(sgs, c1, left) == End(sgs, c, work)
  }

  lemma AheadStep(sgs: seq<seq<Byte>>, c: Cursor, work: nat, pieces: seq<seq<Byte>>, ret: nat, c1: Cursor, left: nat)
    requires Paged(sgs) && Aligned(sgs, c) && Aligned(sgs, c1) && c1.sg < |sgs| && left > 0
    requires Ahead(sgs, c, work, pieces, ret, c1, left)
    ensures Ahead(sgs, c, work, pieces + [Piece(sgs, c1)], ret + |Piece(sgs, c1)|, Next(sgs, c1), left - 1)
  {
    var data, rest := Piece(sgs, c1), Pieces(sgs, Next(sgs, c1), left - 1);
    assert pieces + ([data] + rest) == pieces + [data] + rest;
  }

  lemma AheadDone(sgs: seq<seq<Byte>>, c: Cursor, work: nat, pieces: seq<seq<Byte>>, ret: nat, c1: Cursor, left: nat)
    requires Paged(sgs) && Aligned(sgs, c) && Aligned(sgs, c1) && (c1.sg == |sgs| || left == 0)
    requires Ahead(sgs, c, work, pieces, ret, c1, left)
    ensures pieces == Pieces(sgs, c, work) && ret == Bytes(sgs, c, work) && c1 == End(sgs, c, work)
  {
    assert pieces + [] == pieces;
  }

  lemma WrapSnoc(tag: nat, len: nat, pieces: seq<seq<Byte>>, data: seq<Byte>)
    ensures Wrap(tag, len, pieces + [data]) == Wrap(tag, len, pieces) + [Frag(tag, len, data)]
  {
  }

  /** Cuts the next piece off at the cursor. */
  method CutOne(sgs: seq<seq<Byte>>, c1: Cursor, ghost c: Cursor, ghost work: nat,
                ghost pieces: seq<seq<Byte>>, ghost ret: nat, ghost left: nat)
    returns (data: seq<Byte>, c2: Cursor)
    requires Paged(sgs) && Aligned(sgs, c) && Aligned(sgs, c1) && c1.sg < |sgs| && left > 0
    requires Ahead(sgs, c, work, pieces, ret, c1, left)
    ensures Aligned(sgs, c2) && Ahead(sgs, c, work, pieces + [data], ret + |data|, c2, left - 1)
  {
    AheadStep(sgs, c, work, pieces, ret, c1, left);
    data, c2 := Piece(sgs, c1), Next(sgs, c1);
  }

  /** rds_ib_xmit with `work` ring entries and credits granted; returns what it reports to its caller. */
  method Xmit(m: Message, hdrOff: nat, c: Cursor, work: nat) returns (frags: seq<Frag>, ret: nat, c': Cursor)
    requires Paged(m.sgs) && Aligned(m.sgs, c) && work > 0
    requires hdrOff == 0 || hdrOff == HDR
    requires c.sg < |m.sgs| || (m.sgs == [] && hdrOff == 0)
    ensures m.sgs == [] ==> c' == c && frags == Fragmented(m) && ret == HDR
    ensures m.sgs != [] ==>
              && c' == End(m.sgs, c, work)
              && frags == Wrap(m.tag, |Payload(m)|, Pieces(m.sgs, c, work))
              && ret == (if hdrOff == 0 then HDR else 0) + Bytes(m.sgs, c, work)
  {
    var len := |Payload(m)|;
    ghost var pieces: seq<seq<Byte>> := [];
    frags, ret, c' := [], 0, c;
    var i, more := 0, true;
    while more
      invariant 0 <= i <= work && |pieces| == i
      invariant more <==> i == 0 || (i < work && c'.sg < |m.sgs|)
      invariant Aligned(m.sgs, c')
      invariant m.sgs != [] && more ==> c'.sg < |m.sgs|
      invariant m.sgs != [] ==> Ahead(m.sgs, c, work, pieces, ret, c', work - i)
      invariant m.sgs == [] ==> c' == c && ret == 0 && pieces == if i == 0 then [] else [[]]
      invariant frags == Wrap(m.tag, len, pieces)
      decreases more, work - i
    {
      var data: seq<Byte> := [];
      if c'.sg < |m.sgs| {
        data, c' := CutOne(m.sgs, c', c, work, pieces, ret, work - i);
        ret := ret + |data|;
      }
      WrapSnoc(m.tag, len, pieces, data);
      pieces := pieces + [data];
      frags := frags + [Frag(m.tag, len, data)];
      i := i + 1;
      more := i < work && c'.sg < |m.sgs|;
    }
    if m.sgs != [] { AheadDone(m.sgs, c, work, pieces, ret, c', work - i); }
    if hdrOff == 0 {
      ret := ret + HDR;
    }
  }

  // ------------------------------------------------------------------ the caller's cursor

  /** rds_send_xmit turns the byte count into its own cursor, entry by entry. */
  method Advance(m: Message, hdrOff: nat, c: Cursor, count: nat) returns (hdrOff': nat, c': Cursor, sent: bool)
    requires Paged(m.sgs) && Canonical(m.sgs, c) && (hdrOff == 0 || hdrOff == HDR)
    requires hdrOff == 0 ==> count >= HDR
    requires Pos(m.sgs, c) + count - (HDR - hdrOff) <= |Payload(m)|
    ensures hdrOff' == HDR && Canonical(m.sgs, c')
    ensures Pos(m.sgs, c') == Pos(m.sgs, c) + count - (HDR - hdrOff)
    ensures sent <==> c'.sg == |m.sgs|
  {
    var ret: nat := count;
    hdrOff', c' := hdrOff, c;
    if hdrOff' < HDR {
      var tmp := Min(ret, HDR - hdrOff');
      hdrOff' := hdrOff' + tmp;
      ret := ret - tmp;
    }
    FlattenLength(m.sgs);
    while ret > 0
      invariant Canonical(m.sgs, c')
      invariant Pos(m.sgs, c') + ret == Pos(m.sgs, c) + count - (HDR - hdrOff) <= Start(m.sgs, |m.sgs|)
    {
      // Bytes are left, so an entry is left: the BUG_ON in this loop cannot fire.
      assert c'.sg < |m.sgs|;
      var tmp := Min(ret, |m.sgs[c'.sg]| - c'.off);
      c' := Moved(m.sgs, c', tmp);
      ret := ret - tmp;
    }
    sent := hdrOff' == HDR && c'.sg == |m.sgs|;
  }

  // ------------------------------------------------------------------ a whole message

  /** What is still to be sent when the caller's cursor is at c. */
  ghost predicate Outstanding(m: Message, frags: seq<Frag>, hdrOff: nat, c: Cursor) {
    && Aligned(m.sgs, c)
    && (hdrOff == 0 ==> c == Cursor(0, 0) && frags == [])
    && (hdrOff != 0 ==> hdrOff == HDR && c.sg < |m.sgs|)
    && Pos(m.sgs, c) <= |Payload(m)|
    && (c.sg < |m.sgs| ==> Pos(m.sgs, c) < |Payload(m)|)
    && frags + Wrap(m.tag, |Payload(m)|, CutFrom(Payload(m), Pos(m.sgs, c))) == Fragmented(m)
  }

  lemma OutstandingStart(m: Message)
    requires Paged(m.sgs)
    ensures Outstanding(m, [], 0, Cursor(0, 0))
  {
    var p := Payload(m);
    assert p[0..] == p;
    if m.sgs != [] { FlattenAt(m.sgs, 0); }
  }

  /** One more call of the transport: the two ends agree on the cursor and the cut continues where it stopped. */
  lemma OutstandingStep(m: Message, frags: seq<Frag>, hdrOff: nat, c: Cursor, work: nat, c': Cursor)
    requires Paged(m.sgs) && m.sgs != [] && Outstanding(m, frags, hdrOff, c) && work > 0
    requires Canonical(m.sgs, c') && Pos(m.sgs, c') == Pos(m.sgs, c) + Bytes(m.sgs, c, work)
    ensures c' == End(m.sgs, c, work)
    ensures var frags' := frags + Wrap(m.tag, |Payload(m)|, Pieces(m.sgs, c, work));
            && (c'.sg < |m.sgs| ==> Outstanding(m, frags', HDR, c') && |frags'| > |frags|)
            && (c'.sg == |m.sgs| ==> frags' == Fragmented(m))
  {
    BytesMoved(m.sgs, c, work);
    CursorUnique(m.sgs, c', End(m.sgs, c, work));
    PiecesAreCut(m.sgs, c, work);
    var pieces, len := Pieces(m.sgs, c, work), |Payload(m)|;
    if c'.sg < |m.sgs| {
      var rest := CutFrom(Payload(m), Pos(m.sgs, c'));
      WrapJoin(m.tag, len, pieces, rest);
      assert frags + (Wrap(m.tag, len, pieces) + Wrap(m.tag, len, rest))
          == frags + Wrap(m.tag, len, pieces) + Wrap(m.tag, len, rest);
    }
  }

  lemma WrapJoin(tag: nat, len: nat, a: seq<seq<Byte>>, b: seq<seq<Byte>>)
    ensures Wrap(tag, len, a + b) == Wrap(tag, len, a) + Wrap(tag, len, b)
  {
  }

  /** One turn of the loop in rds_send_xmit: call the transport, then bring the cursor up to date. */
  method OneCall(m: Message, ghost before: seq<Frag>, hdrOff: nat, c: Cursor, work: nat)
    returns (sent: seq<Frag>, hdrOff': nat, c': Cursor, done: bool)
    requires Paged(m.sgs) && Outstanding(m, before, hdrOff, c) && work > 0
    ensures done ==> before + sent == Fragmented(m)
    ensures !done ==> Outstanding(m, before + sent, hdrOff', c') && |sent| > 0
  {
    var ret, end;
    sent, ret, end := Xmit(m, hdrOff, c, work);
    if m.sgs != [] {
      BytesMoved(m.sgs, c, work);
      EndWithin(m.sgs, End(m.sgs, c, work));
    }
    hdrOff', c', done := Advance(m, hdrOff, c, ret);
    if m.sgs != [] { OutstandingStep(m, before, hdrOff, c, work, c'); }
  }

  /** An unfinished message has sent a proper prefix of its fragments. */
  lemma OutstandingPrefix(m: Message, frags: seq<Frag>, hdrOff: nat, c: Cursor)
    requires Outstanding(m, frags, hdrOff, c)
    ensures |frags| < |Fragmented(m)| && frags == Fragmented(m)[..|frags|]
  {
  }

  /** The calls of the transport from any state of the cursor on, with `before` sent already. */
  method SendFrom(m: Message, ghost before: seq<Frag>, hdrOff0: nat, c0: Cursor, grants: seq<nat>)
    returns (frags: seq<Frag>, finished: bool)
    requires Paged(m.sgs) && Outstanding(m, before, hdrOff0, c0)
    requires forall k :: 0 <= k < |grants| ==> grants[k] > 0
    ensures finished ==> before + frags == Fragmented(m)
    ensures !finished ==> |before + frags| < |Fragmented(m)| && before + frags == Fragmented(m)[..|before + frags|]
    ensures !finished ==> |frags| >= |grants|
  {
    var hdrOff, c, k := hdrOff0, c0, 0;
    ghost var all := before;
    frags, finished := [], false;
    while !finished && k < |grants|
      invariant 0 <= k <= |grants| && all == before + frags
      invariant !finished ==> Outstanding(m, all, hdrOff, c) && |frags| >= k
      invariant finished ==> all == Fragmented(m)
      decreases |grants| - k
    {
      var sent, hdrOff', c', done := OneCall(m, all, hdrOff, c, grants[k]);
      all := all + sent;
      frags, hdrOff, c, finished, k := frags + sent, hdrOff', c', done, k + 1;
    }
    if !finished {
      OutstandingPrefix(m, all, hdrOff, c);
    }
  }

  /**
    However ring space and credits split the message over calls of the transport, what goes on the
    wire is the reference cut, and a grant per fragment is enough to finish.
   */
  method SendMessage(m: Message, grants: seq<nat>) returns (frags: seq<Frag>, finished: bool)
    requires Paged(m.sgs)
    requires forall k :: 0 <= k < |grants| ==> grants[k] > 0
    ensures finished ==> frags == Fragmented(m)
    ensures !finished ==> |frags| < |Fragmented(m)| && frags == Fragmented(m)[..|frags|]
    ensures |grants| >= |Fragmented(m)| ==> finished
  {
    OutstandingStart(m);
    frags, finished := SendFrom(m, [], 0, Cursor(0, 0), grants);
    assert [] + frags == frags;
  }

  lemma EndWithin(sgs: seq<seq<Byte>>, c: Cursor)
    requires Paged(sgs) && Canonical(sgs, c)
    ensures Pos(sgs, c) <= |Flatten(sgs)|
  {
    FlattenLength(sgs);
    StartGrows(sgs, c.sg, |sgs|);
  }

  // ------------------------------------------------------------------ the receiver

  /** i_ibinc and i_recv_data_rem: the message being put together, if any. */
  datatype Partial = NoMessage | Building(tag: nat, len: nat, rem: nat, parts: seq<seq<Byte>>)

  datatype Arrival = Arrival(tag: nat, data: seq<Byte>)

  datatype Outcome = Continue(next: Partial, done: seq<Arrival>) | Mismatch

  /** rds_ib_process_recv for a fragment that is not an ACK. */
  function Accept(st: Partial, f: Frag): Outcome {
    if st.Building? && (st.tag != f.tag || st.len != f.len) then Mismatch
    else
      var rem := if st.Building? then st.rem else f.len;
      var parts := if st.Building? then st.parts + [f.data] else [f.data];
      if rem > FRAG then Continue(Building(f.tag, f.len, rem - FRAG, parts), [])
      else Continue(NoMessage, [Arrival(f.tag, Flatten(parts))])
  }

  function AcceptAll(st: Partial, fs: seq<Frag>): Outcome
    decreases |fs|
  {
    if fs == [] then Continue(st, [])
    else match Accept(st, fs[0])
      case Mismatch => Mismatch
      case Continue(st1, d1) => After(d1, AcceptAll(st1, fs[1..]))
  }

  /** An outcome that follows on earlier arrivals. */
  function After(d: seq<Arrival>, o: Outcome): Outcome {
    if o.Mismatch? then o else Continue(o.next, d + o.done)
  }

  lemma AcceptStep(st: Partial, f: Frag, fs: seq<Frag>, st1: Partial, d: seq<Arrival>)
    requires Accept(st, f) == Continue(st1, d)
    ensures AcceptAll(st, [f] + fs) == After(d, AcceptAll(st1, fs))
  {
    assert ([f] + fs)[1..] == fs;
  }

  class Receiver {
    var current: Partial
    var delivered: seq<Arrival>

    constructor ()
      ensures current == NoMessage && delivered == []
    {
      current, delivered := NoMessage, [];
    }

    /** The reassembly part of rds_ib_process_recv; ok is false when the connection has to be dropped. */
    method ProcessRecv(f: Frag) returns (ok: bool)
      modifies this
      ensures ok <==> Accept(old(current), f).Continue?
      ensures ok ==> current == Accept(old(current), f).next && delivered == old(delivered) + Accept(old(current), f).done
      ensures !ok ==> current == old(current) && delivered == old(delivered)
    {
      ok := true;
      if current.NoMessage? {
        current := Building(f.tag, f.len, f.len, []);
      } else if current.tag != f.tag || current.len != f.len {
        ok := false;
        return;
      }
      assert [] + [f.data] == [f.data];
      current := current.(parts := current.parts + [f.data]);
      if current.rem > FRAG {
        current := current.(rem := current.rem - FRAG);
      } else {
        delivered := delivered + [Arrival(f.tag, Flatten(current.parts))];
        current := NoMessage;
      }
    }
  }

  /** The receiver's count runs out exactly at the last fragment of the cut. */
  lemma {:induction false} CountdownExact(tag: nat, len: nat, p: seq<Byte>, parts: seq<seq<Byte>>, rest: seq<Frag>)
    ensures AcceptAll(Building(tag, len, |p|, parts), Wrap(tag, len, Cut(p)) + rest)
            == After([Arrival(tag, Flatten(parts) + p)], AcceptAll(NoMessage, rest))
    decreases |p|
  {
    if |p| <= FRAG {
      CountdownEnds(tag, len, p, parts, rest);
    } else {
      var q, parts1 := p[FRAG..], parts + [p[..FRAG]];
      CountdownGoesOn(tag, len, p, parts, rest);
      CountdownExact(tag, len, q, parts1, rest);
      PartsMove(parts, p);
      assert |q| == |p| - FRAG;
    }
  }

  lemma PartsMove(parts: seq<seq<Byte>>, p: seq<Byte>)
    requires |p| >= FRAG
    ensures Flatten(parts + [p[..FRAG]]) + p[FRAG..] == Flatten(parts) + p
  {
    FlattenSnoc(parts, p[..FRAG]);
    assert Flatten(parts) + p[..FRAG] + p[FRAG..] == Flatten(parts) + p;
  }

  lemma CountdownEnds(tag: nat, len: nat, p: seq<Byte>, parts: seq<seq<Byte>>, rest: seq<Frag>)
    requires |p| <= FRAG
    ensures AcceptAll(Building(tag, len, |p|, parts), Wrap(tag, len, Cut(p)) + rest)
            == After([Arrival(tag, Flatten(parts) + p)], AcceptAll(NoMessage, rest))
  {
    var f := Frag(tag, len, p);
    FlattenSnoc(parts, p);
    assert Wrap(tag, len, Cut(p)) + rest == [f] + rest;
    AcceptStep(Building(tag, len, |p|, parts), f, rest, NoMessage, [Arrival(tag, Flatten(parts) + p)]);
  }

  lemma CountdownGoesOn(tag: nat, len: nat, p: seq<Byte>, parts: seq<seq<Byte>>, rest: seq<Frag>)
    requires |p| > FRAG
    ensures AcceptAll(Building(tag, len, |p|, parts), Wrap(tag, len, Cut(p)) + rest)
            == AcceptAll(Building(tag, len, |p| - FRAG, parts + [p[..FRAG]]), Wrap(tag, len, Cut(p[FRAG..])) + rest)
  {
    var st1, fs := Building(tag, len, |p| - FRAG, parts + [p[..FRAG]]), Wrap(tag, len, Cut(p[FRAG..])) + rest;
    WrapFirst(tag, len, p, rest);
    AcceptStep(Building(tag, len, |p|, parts), Frag(tag, len, p[..FRAG]), fs, st1, []);
    NothingBefore(AcceptAll(st1, fs));
  }

  lemma WrapFirst(tag: nat, len: nat, p: seq<Byte>, rest: seq<Frag>)
    requires |p| > FRAG
    ensures Wrap(tag, len, Cut(p)) + rest == [Frag(tag, len, p[..FRAG])] + (Wrap(tag, len, Cut(p[FRAG..])) + rest)
  {
    assert Cut(p) == [p[..FRAG]] + Cut(p[FRAG..]);
  }

  lemma NothingBefore(o: Outcome)
    ensures After([], o) == o
  {
    if o.Continue? {
      assert [] + o.done == o.done;
    }
  }

  function Stream(ms: seq<Message>): seq<Frag> {
    if ms == [] then [] else Fragmented(ms[0]) + Stream(ms[1..])
  }

  function Arrivals(ms: seq<Message>): seq<Arrival> {
    if ms == [] then [] else [Arrival(ms[0].tag, Payload(ms[0]))] + Arrivals(ms[1..])
  }

  lemma FirstFragment(m: Message, rest: seq<Frag>)
    ensures AcceptAll(NoMessage, Fragmented(m) + rest)
            == AcceptAll(Building(m.tag, |Payload(m)|, |Payload(m)|, []), Fragmented(m) + rest)
  {
    var f := (Fragmented(m) + rest)[0];
    assert [] + [f.data] == [f.data];
  }

  /**
    Fragmentation meets reassembly: a stream of messages, each cut into fragments, is put back
    together into exactly those messages in that order, and every message completes on its own
    last fragment, also when it is empty.
   */
  lemma {:induction false} StreamReassembles(ms: seq<Message>)
    ensures AcceptAll(NoMessage, Stream(ms)) == Continue(NoMessage, Arrivals(ms))
  {
    if ms == [] {
    } else {
      StreamReassembles(ms[1..]);
      FirstFragment(ms[0], Stream(ms[1..]));
      CountdownExact(ms[0].tag, |Payload(ms[0])|, Payload(ms[0]), [], Stream(ms[1..]));
      assert Flatten([]) + Payload(ms[0]) == Payload(ms[0]);
    }
  }

  /** Accepting one stretch of fragments after another. */
  lemma {:induction false} AcceptSplit(st: Partial, a: seq<Frag>, b: seq<Frag>)
    ensures AcceptAll(st, a + b) ==
            if AcceptAll(st, a).Mismatch? then Mismatch
            else After(AcceptAll(st, a).done, AcceptAll(AcceptAll(st, a).next, b))
    decreases |a|
  {
    if a == [] {
      assert a + b == b;
      NothingBefore(AcceptAll(st, b));
    } else {
      assert (a + b)[0] == a[0] && (a + b)[1..] == a[1..] + b;
      var first := Accept(st, a[0]);
      if first.Continue? {
        AcceptSplit(first.next, a[1..], b);
        var rest := AcceptAll(first.next, a[1..]);
        if rest.Continue? {
          AfterTwice(first.done, rest.done, AcceptAll(rest.next, b));
        }
      }
    }
  }

  lemma AfterTwice(d: seq<Arrival>, e: seq<Arrival>, o: Outcome)
    ensures After(d, After(e, o)) == After(d + e, o)
  {
    if o.Continue? {
      assert d + (e + o.done) == d + e + o.done;
    }
  }

  /**
    A connection torn down anywhere, also in the middle of a message: whatever prefix of the fragment
    stream has arrived, it is accepted and the messages that came out are the first ones sent.
   */
  lemma PrefixReassembles(ms: seq<Message>, k: nat)
    requires k <= |Stream(ms)|
    ensures AcceptAll(NoMessage, Stream(ms)[..k]).Continue?
    ensures AcceptAll(NoMessage, Stream(ms)[..k]).done <= Arrivals(ms)
  {
    StreamReassembles(ms);
    assert Stream(ms)[..k] + Stream(ms)[k..] == Stream(ms);
    AcceptSplit(NoMessage, Stream(ms)[..k], Stream(ms)[k..]);
  }
}
