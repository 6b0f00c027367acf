/**
 * Copying a message between user memory and its scatterlist. Copy-in walks the user's buffers and
 * grows the scatterlist a region at a time; copy-out walks the scatterlist and the reader's buffers.
 * Buffers of any sizes, empty ones included, may be used on both sides.
 */
module ScatterGather {
  import opened ByteBlocks
  import opened Common
  import opened PageStore

  /** Number of regions a message of n bytes takes. */
  function PagesFor(n: nat): nat {
    (n + PAGE - 1) / PAGE
  }

  /** The bytes of a list of regions, in order. */
  function Gathered(mem: map<nat, seq<Byte>>, sg: seq<Region>): seq<Byte>
    requires forall r :: r in sg ==> InPage(mem, r)
  {
    if sg == [] then [] else Contents(mem, sg[0]) + Gathered(mem, sg[1..])
  }

  /** The same as a list of blocks. */
  function Blocks(mem: map<nat, seq<Byte>>, sg: seq<Region>): (bs: seq<seq<Byte>>)
    requires forall r :: r in sg ==> InPage(mem, r)
    ensures |bs| == |sg| && Flatten(bs) == Gathered(mem, sg)
    ensures forall i :: 0 <= i < |sg| ==> bs[i] == Contents(mem, sg[i])
  {
    if sg == [] then [] else [Contents(mem, sg[0])] + Blocks(mem, sg[1..])
  }

  lemma {:induction false} GatheredSnoc(mem: map<nat, seq<Byte>>, sg: seq<Region>, r: Region)
    requires (forall q :: q in sg ==> InPage(mem, q)) && InPage(mem, r)
    ensures Gathered(mem, sg + [r]) == Gathered(mem, sg) + Contents(mem, r)
  {
    if sg == [] {
      assert [r][1..] == [];
    } else {
      assert (sg + [r])[0] == sg[0] && (sg + [r])[1..] == sg[1..] + [r];
      GatheredSnoc(mem, sg[1..], r);
    }
  }

  lemma {:induction false} GatheredSame(mem: map<nat, seq<Byte>>, mem': map<nat, seq<Byte>>, sg: seq<Region>)
    requires forall q :: q in sg ==> InPage(mem, q) && InPage(mem', q) && Contents(mem', q) == Contents(mem, q)
    ensures Gathered(mem', sg) == Gathered(mem, sg)
  {
    if sg == [] {
    } else {
      assert sg[0] in sg;
      GatheredSame(mem, mem', sg[1..]);
    }
  }

  // ---- walking the user's buffers ----------------------------------------------------------

  /** The walk stands at offset `off` of buffer k, which is byte `pos` of the whole. */
  predicate At(iov: seq<seq<Byte>>, k: nat, off: nat, pos: nat) {
    k < |iov| && off <= |iov[k]| && Start(iov, k) + off == pos
  }

  /** Steps over buffers that are used up or empty. */
  method SkipFull(iov: seq<seq<Byte>>, k0: nat, off0: nat, pos: nat) returns (k: nat, off: nat)
    requires At(iov, k0, off0, pos) && pos < |Flatten(iov)|
    ensures At(iov, k, off, pos) && off < |iov[k]|
  {
    k, off := k0, off0;
    FlattenLength(iov);
    while off == |iov[k]|
      invariant At(iov, k, off, pos)
      decreases |iov| - k
    {
      assert Start(iov, k + 1) == pos;
      off, k := 0, k + 1;
    }
  }

  /** What lies at the walk's position. */
  lemma BytesAt(iov: seq<seq<Byte>>, k: nat, off: nat, pos: nat, n: nat)
    requires At(iov, k, off, pos) && off + n <= |iov[k]|
    ensures pos + n <= |Flatten(iov)| && iov[k][off..off + n] == Flatten(iov)[pos..pos + n]
  {
    FlattenAt(iov, k);
    SubSlice(Flatten(iov), Start(iov, k), Start(iov, k) + |iov[k]|, off, off + n);
  }

  // ---- copy-in -----------------------------------------------------------------------------

  datatype Status = Done | NoMemory | Fault

  /** The region being filled: its first `off` bytes continue what the finished ones hold. */
  ghost predicate Filling(st: Store, sg: seq<Region>, cur: Option<Region>, off: nat, data: seq<Byte>, n: nat)
    reads st
  {
    && (forall r :: r in sg ==> r in st.handed && InPage(st.mem, r))
    && off <= n <= |data|
    && Gathered(st.mem, sg) == data[..n - off]
    && match cur
       case None => off == 0
       case Some(r) =>
         && r in st.handed && r !in sg && InPage(st.mem, r) && off < r.len
         && Contents(st.mem, r)[..off] == data[n - off..n]
  }

  lemma SpliceTake(c: seq<Byte>, off: nat, d: seq<Byte>)
    requires off + |d| <= |c|
    ensures Splice(c, off, d)[..off + |d|] == c[..off] + d
  {
  }

  lemma Joined(data: seq<Byte>, a: nat, b: nat, c: nat)
    requires a <= b <= c <= |data|
    ensures data[a..b] + data[b..c] == data[a..c]
    ensures data[..a] + data[a..c] == data[..c]
  {
  }

  /** How many regions are finished, and how long they are, after n of `total` bytes. */
  predicate Paced(sg: seq<Region>, cur: Option<Region>, off: nat, n: nat, total: nat) {
    && n <= total
    && (n < total ==> (forall r :: r in sg ==> r.len == PAGE) && n - off == |sg| * PAGE)
    && (n == total ==> cur.None? && |sg| == PagesFor(total))
    && (cur.Some? ==> n < total && cur.value.len == Min(total - (n - off), PAGE))
    && (forall i :: 0 <= i < |sg| - 1 ==> sg[i].len == PAGE)
  }

  lemma PacedNext(sg: seq<Region>, r: Region, off: nat, n: nat, total: nat, k: nat, sg': seq<Region>,
                  cur: Option<Region>, off': nat)
    requires Paced(sg, Some(r), off, n, total) && 0 < k && off + k <= r.len && off <= n
    requires if off + k == r.len then sg' == sg + [r] && cur == None && off' == 0
             else sg' == sg && cur == Some(r) && off' == off + k
    ensures Paced(sg', cur, off', n + k, total)
  {
    if off + k == r.len {
      forall i | 0 <= i < |sg'| - 1 ensures sg'[i].len == PAGE {
        assert sg'[i] in sg;
      }
    }
  }

  /** The regions of other messages are as they were. */
  predicate Untouched(mem0: map<nat, seq<Byte>>, mem: map<nat, seq<Byte>>, others: set<Region>) {
    forall q :: q in others ==> InPage(mem0, q) && InPage(mem, q) && Contents(mem, q) == Contents(mem0, q)
  }

  /** One piece of m bytes is written behind what the current region holds already. */
  method FillPiece(st: Store, sg: seq<Region>, r: Region, off: nat, piece: seq<Byte>, m: nat,
                   ghost data: seq<Byte>, ghost n: nat, ghost total: nat,
                   ghost mem0: map<nat, seq<Byte>>, ghost others: set<Region>)
    returns (sg': seq<Region>, cur: Option<Region>, off': nat)
    requires st.Valid() && others <= st.handed && Untouched(mem0, st.mem, others)
    requires Filling(st, sg, Some(r), off, data, n) && Paced(sg, Some(r), off, n, total) && r !in others
    requires |piece| == m && 0 < m && off + m <= r.len
    requires n + m <= |data| && piece == data[n..n + m]
    modifies st
    ensures st.Valid() && others <= st.handed && Untouched(mem0, st.mem, others)
    ensures Filling(st, sg', cur, off', data, n + m) && Paced(sg', cur, off', n + m, total)
    ensures forall q :: q in sg' ==> q in sg || q == r
    ensures cur.Some? ==> cur.value == r
  {
    ghost var before := Contents(st.mem, r);
    ghost var was := st.mem;
    st.Write(r, off, piece);
    GatheredSame(was, st.mem, sg);
    SpliceTake(before, off, piece);
    Joined(data, n - off, n, n + m);
    assert Contents(st.mem, r)[..off + m] == data[n - off..n + m];
    if off + m == r.len {
      assert Contents(st.mem, r) == Contents(st.mem, r)[..off + m];
      GatheredSnoc(st.mem, sg, r);
      assert Gathered(st.mem, sg + [r]) == data[..n + m];
      sg', cur, off' := sg + [r], None, 0;
    } else {
      sg', cur, off' := sg, Some(r), off + m;
    }
    PacedNext(sg, r, off, n, total, m, sg', cur, off');
  }

  /** Adds a region to the scatterlist for the bytes still to come. */
  method NextRegion(st: Store, sg: seq<Region>, ghost data: seq<Byte>, n: nat, total: nat, ok: bool,
                    ghost mem0: map<nat, seq<Byte>>, ghost others: set<Region>)
    returns (cur: Option<Region>)
    requires st.Valid() && others <= st.handed && Untouched(mem0, st.mem, others)
    requires n < total && Filling(st, sg, None, 0, data, n) && Paced(sg, None, 0, n, total)
    modifies st
    ensures st.Valid() && others <= st.handed && Untouched(mem0, st.mem, others)
    ensures cur.None? ==> !ok
    ensures cur.Some? ==> cur.value !in others
    ensures cur.Some? ==> Filling(st, sg, cur, 0, data, n) && Paced(sg, cur, 0, n, total)
  {
    ghost var was := st.mem;
    cur := st.RemainderAlloc(total - n, ok);
    GatheredSame(was, st.mem, sg);
  }

  /** Where copy-in stands: n bytes copied, at buffer k, filling `cur` behind the finished regions. */
  datatype Walk = Walk(sg: seq<Region>, cur: Option<Region>, off: nat, k: nat, iovOff: nat, n: nat)

  ghost predicate Underway(st: Store, iov: seq<seq<Byte>>, total: nat, w: Walk,
                           mem0: map<nat, seq<Byte>>, others: set<Region>)
    reads st
  {
    && st.Valid() && others <= st.handed && Untouched(mem0, st.mem, others)
    && (forall r :: r in w.sg ==> r !in others) && (w.cur.Some? ==> w.cur.value !in others)
    && (w.n < total ==> At(iov, w.k, w.iovOff, w.n))
    && Filling(st, w.sg, w.cur, w.off, Flatten(iov), w.n)
    && Paced(w.sg, w.cur, w.off, w.n, total)
  }

  /** Adds a region when the last one is full. */
  method OpenRegion(st: Store, iov: seq<seq<Byte>>, total: nat, w: Walk, pageOk: bool,
                    ghost mem0: map<nat, seq<Byte>>, ghost others: set<Region>)
    returns (ok: bool, w': Walk)
    requires Underway(st, iov, total, w, mem0, others) && w.n < total && w.cur.None?
    modifies st
    ensures st.Valid() && others <= st.handed && Untouched(mem0, st.mem, others)
    ensures !ok ==> !pageOk
    ensures ok ==> Underway(st, iov, total, w', mem0, others) && w'.cur.Some? && w'.n == w.n
  {
    var cur := NextRegion(st, w.sg, Flatten(iov), w.n, total, pageOk, mem0, others);
    ok, w' := cur.Some?, w.(cur := cur, off := 0);
  }

  /** Copies one piece, from the current buffer to the current region. */
  method CopyPiece(st: Store, iov: seq<seq<Byte>>, total: nat, w: Walk,
                   ghost mem0: map<nat, seq<Byte>>, ghost others: set<Region>)
    returns (w': Walk)
    requires Underway(st, iov, total, w, mem0, others) && w.n < total <= |Flatten(iov)| && w.cur.Some?
    modifies st
    ensures Underway(st, iov, total, w', mem0, others) && w.n < w'.n
  {
    var k, iovOff := SkipFull(iov, w.k, w.iovOff, w.n);
    var m: nat := Min(Min(|iov[k]| - iovOff, w.cur.value.len - w.off), total - w.n);
    BytesAt(iov, k, iovOff, w.n, m);
    var sg, cur, off := FillPiece(st, w.sg, w.cur.value, w.off, iov[k][iovOff..iovOff + m], m,
                                  Flatten(iov), w.n, total, mem0, others);
    w' := Walk(sg, cur, off, k, iovOff + m, w.n + m);
  }

  /**
   * Copy-in. `pages` and `copies` give the outcomes of page allocations and of reads from user memory.
   * On success the scatterlist holds exactly the first `total` bytes in ceil(total / PAGE) regions,
   * all but the last of them full pages; and regions of other messages are left alone in any case.
   */
  method CopyFromUser(st: Store, iov: seq<seq<Byte>>, total: nat, pages: seq<bool>, copies: seq<bool>)
    returns (status: Status, sg: seq<Region>)
    requires st.Valid() && total <= |Flatten(iov)|
    modifies st
    ensures st.Valid() && old(st.handed) <= st.handed
    ensures Untouched(old(st.mem), st.mem, old(st.handed))
    ensures status.Done? ==> forall r :: r in sg ==> r in st.handed && r !in old(st.handed)
    ensures status.Done? ==> Gathered(st.mem, sg) == Flatten(iov)[..total]
    ensures status.Done? ==> |sg| == PagesFor(total) && forall i :: 0 <= i < |sg| - 1 ==> sg[i].len == PAGE
    ensures status.NoMemory? ==> false in pages
    ensures status.Fault? ==> false in copies
  {
    ghost var mem0, others := st.mem, st.handed;
    var w := Walk([], None, 0, 0, 0, 0);
    var pa, ra := 0, 0;
    while w.n < total
      invariant Underway(st, iov, total, w, mem0, others)
      decreases total - w.n
    {
      if w.cur.None? {
        var ok;
        ok, w := OpenRegion(st, iov, total, w, pa >= |pages| || pages[pa], mem0, others);
        pa := pa + 1;
        if !ok {
          return NoMemory, w.sg;
        }
      }
      if ra < |copies| && !copies[ra] {
        return Fault, w.sg;
      }
      ra := ra + 1;
      w := CopyPiece(st, iov, total, w, mem0, others);
    }
    return Done, w.sg;
  }

  // ---- copy-out ----------------------------------------------------------------------------

  /** The reader's buffers after n bytes: the message's first n bytes, then what was there before. */
  predicate Delivered(out: seq<seq<Byte>>, out0: seq<seq<Byte>>, data: seq<Byte>, n: nat) {
    && |out| == |out0| && (forall i :: 0 <= i < |out| ==> |out[i]| == |out0[i]|)
    && n <= |data| && n <= |Flatten(out0)|
    && Flatten(out) == data[..n] + Flatten(out0)[n..]
  }

  lemma {:induction false} StartSame(a: seq<seq<Byte>>, b: seq<seq<Byte>>, k: nat)
    requires |a| == |b| && (forall i :: 0 <= i < |a| ==> |a[i]| == |b[i]|) && k <= |a|
    ensures Start(a, k) == Start(b, k)
  {
    if k == 0 {
    } else {
      StartSame(a, b, k - 1);
    }
  }

  lemma SplicePrefix(data: seq<Byte>, rest: seq<Byte>, n: nat, m: nat)
    requires n + m <= |data| && n + m <= |rest|
    ensures Splice(data[..n] + rest[n..], n, data[n..n + m]) == data[..n + m] + rest[n + m..]
  {
    assert (data[..n] + rest[n..])[..n] == data[..n];
    assert (data[..n] + rest[n..])[n + m..] == rest[n + m..];
    assert data[..n] + data[n..n + m] == data[..n + m];
  }

  /** One piece is copied to the reader at the walk's position. */
  lemma DeliverPiece(out: seq<seq<Byte>>, out0: seq<seq<Byte>>, data: seq<Byte>, n: nat, k: nat, o: nat, m: nat)
    requires Delivered(out, out0, data, n) && At(out, k, o, n) && o + m <= |out[k]| && n + m <= |data|
    ensures Delivered(out[k := Splice(out[k], o, data[n..n + m])], out0, data, n + m)
    ensures At(out[k := Splice(out[k], o, data[n..n + m])], k, o + m, n + m)
  {
    var d := data[n..n + m];
    var out' := out[k := Splice(out[k], o, d)];
    FlattenSplice(out, k, o, d);
    SplicePrefix(data, Flatten(out0), n, m);
    StartSame(out', out, k);
  }

  /** The walk of the scatterlist: never at the end of a region. */
  predicate InList(blocks: seq<seq<Byte>>, i: nat, off: nat, pos: nat) {
    i <= |blocks| && Start(blocks, i) + off == pos && if i < |blocks| then off < |blocks[i]| else off == 0
  }

  lemma InListNext(blocks: seq<seq<Byte>>, i: nat, off: nat, pos: nat, m: nat)
    requires InList(blocks, i, off, pos) && i < |blocks| && off + m <= |blocks[i]|
    requires forall j :: 0 <= j < |blocks| ==> |blocks[j]| > 0
    ensures if off + m == |blocks[i]| then InList(blocks, i + 1, 0, pos + m) else InList(blocks, i, off + m, pos + m)
  {
  }

  /** Where copy-out stands: at buffer k of the reader and in region i of the scatterlist. */
  datatype Reading = Reading(out: seq<seq<Byte>>, k: nat, iovOff: nat, i: nat, vecOff: nat, copied: nat)

  predicate Serving(blocks: seq<seq<Byte>>, out0: seq<seq<Byte>>, goal: nat, w: Reading) {
    && w.copied <= goal
    && Delivered(w.out, out0, Flatten(blocks), w.copied)
    && (w.copied < goal ==> At(w.out, w.k, w.iovOff, w.copied))
    && InList(blocks, w.i, w.vecOff, w.copied)
  }

  predicate NonEmpty(blocks: seq<seq<Byte>>) {
    forall j :: 0 <= j < |blocks| ==> |blocks[j]| > 0
  }

  /** Copies one piece, from the current region to the current buffer. */
  method ServePiece(region: seq<Byte>, w: Reading, goal: nat, ghost blocks: seq<seq<Byte>>, ghost out0: seq<seq<Byte>>)
    returns (w': Reading)
    requires NonEmpty(blocks) && Serving(blocks, out0, goal, w) && w.copied < goal <= |Flatten(blocks)|
    requires goal <= |Flatten(w.out)| && w.i < |blocks| && region == blocks[w.i]
    ensures Serving(blocks, out0, goal, w') && w.copied < w'.copied && |Flatten(w'.out)| == |Flatten(w.out)|
  {
    var k, iovOff := SkipFull(w.out, w.k, w.iovOff, w.copied);
    var m: nat := Min(Min(|w.out[k]| - iovOff, |region| - w.vecOff), goal - w.copied);
    PieceServed(blocks, out0, goal, w, k, iovOff, m);
    var out := w.out[k := Splice(w.out[k], iovOff, region[w.vecOff..w.vecOff + m])];
    if w.vecOff + m == |region| {
      w' := Reading(out, k, iovOff + m, w.i + 1, 0, w.copied + m);
    } else {
      w' := Reading(out, k, iovOff + m, w.i, w.vecOff + m, w.copied + m);
    }
  }

  /** Both walks move on by the m bytes copied. */
  lemma PieceServed(blocks: seq<seq<Byte>>, out0: seq<seq<Byte>>, goal: nat, w: Reading, k: nat, iovOff: nat, m: nat)
    requires NonEmpty(blocks) && Serving(blocks, out0, goal, w) && w.i < |blocks|
    requires At(w.out, k, iovOff, w.copied) && iovOff + m <= |w.out[k]|
    requires w.vecOff + m <= |blocks[w.i]| && w.copied + m <= goal <= |Flatten(blocks)|
    ensures var region := blocks[w.i];
            var out := w.out[k := Splice(w.out[k], iovOff, region[w.vecOff..w.vecOff + m])];
            && |Flatten(out)| == |Flatten(w.out)|
            && if w.vecOff + m == |region|
               then Serving(blocks, out0, goal, Reading(out, k, iovOff + m, w.i + 1, 0, w.copied + m))
               else Serving(blocks, out0, goal, Reading(out, k, iovOff + m, w.i, w.vecOff + m, w.copied + m))
  {
    BytesAt(blocks, w.i, w.vecOff, w.copied, m);
    DeliverPiece(w.out, out0, Flatten(blocks), w.copied, k, iovOff, m);
    InListNext(blocks, w.i, w.vecOff, w.copied, m);
    FlattenSplice(w.out, k, iovOff, blocks[w.i][w.vecOff..w.vecOff + m]);
  }

  lemma BlocksFit(mem: map<nat, seq<Byte>>, sg: seq<Region>)
    requires forall r :: r in sg ==> InPage(mem, r)
    ensures NonEmpty(Blocks(mem, sg))
  {
    forall j | 0 <= j < |sg| ensures |Blocks(mem, sg)[j]| > 0 {
      assert sg[j] in sg;
    }
  }

  /**
   * Copy-out of a message of `len` bytes to a reader that asks for `size`. Without a fault the reader
   * finds the first min(size, len) bytes, and everything behind them as it was.
   */
  method CopyToUser(st: Store, sg: seq<Region>, len: nat, out0: seq<seq<Byte>>, size: nat, copies: seq<bool>)
    returns (status: Status, copied: nat, out: seq<seq<Byte>>)
    requires (forall r :: r in sg ==> InPage(st.mem, r)) && |Gathered(st.mem, sg)| == len
    requires Min(size, len) <= |Flatten(out0)|
    ensures status.Done? ==> copied == Min(size, len)
    ensures status.Done? ==> Delivered(out, out0, Gathered(st.mem, sg), copied)
    ensures !status.Done? ==> status.Fault? && false in copies
  {
    ghost var blocks := Blocks(st.mem, sg);
    var goal, ra := Min(size, len), 0;
    var w := Reading(out0, 0, 0, 0, 0, 0);
    BlocksFit(st.mem, sg);
    FlattenLength(blocks);
    while w.copied < goal
      invariant Serving(blocks, out0, goal, w) && goal <= |Flatten(w.out)|
      decreases goal - w.copied
    {
      if ra < |copies| && !copies[ra] {
        return Fault, w.copied, w.out;
      }
      ra := ra + 1;
      assert w.i < |sg| && sg[w.i] in sg;
      w := ServePiece(Contents(st.mem, sg[w.i]), w, goal, blocks, out0);
    }
    return Done, w.copied, w.out;
  }

  /**
   * The round trip, for all buffer layouts on both sides: what the reader gets is what the sender
   * gave, as far as the reader asked for it.
   */
  method RoundTrip(st: Store, iov: seq<seq<Byte>>, total: nat, pages: seq<bool>, out0: seq<seq<Byte>>, size: nat)
    returns (ok: bool, out: seq<seq<Byte>>)
    requires st.Valid() && total <= |Flatten(iov)| && Min(size, total) <= |Flatten(out0)|
    modifies st
    ensures ok ==> |Flatten(out)| == |Flatten(out0)|
    ensures ok ==> Flatten(out)[..Min(size, total)] == Flatten(iov)[..Min(size, total)]
    ensures false !in pages ==> ok
  {
    var status, sg := CopyFromUser(st, iov, total, pages, []);
    ok, out := status.Done?, out0;
    if ok {
      var _, copied, o := CopyToUser(st, sg, total, out0, size, []);
      out := o;
      assert Flatten(out)[..copied] == Flatten(iov)[..total][..copied] == Flatten(iov)[..copied];
    }
  }
}
