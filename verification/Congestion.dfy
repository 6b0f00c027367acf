/**
 * Congestion bitmaps and the congestion monitor: a peer's bitmap is copied word by word over the
 * local bitmap, the ports that stopped being congested are folded into a 64-bit mask, and the mask is
 * offered to the sockets that monitor congestion. A sender that found its port congested registers
 * in its socket's mask and looks again before giving up.
 */
module Congestion {

  const PORTS: nat := 65536
  const WORDS: nat := 1024
  const MAP_BYTES: nat := 8192
  const FRAG_WORDS: nat := 512

  /** A 64-bit word, given by the positions of its one bits in little-endian order. */
  type Word = w: set<nat> | forall k :: k in w ==> k < 64

  function WordOf(port: nat): nat { port / 64 }

  /** The monitor bit of a port. */
  function BitOf(port: nat): nat { port % 64 }

  /** Whether a bitmap marks a port congested. */
  predicate Marked(bits: seq<Word>, port: nat)
    requires |bits| == WORDS && port < PORTS
  {
    BitOf(port) in bits[WordOf(port)]
  }

  // ---- the bitmap update -------------------------------------------------------------------

  /** The mask bits of the ports that are congested in `was` and not in `now`, over the first n words. */
  function Freed(was: seq<Word>, now: seq<Word>, n: nat): Word
    requires n <= |was| && n <= |now|
  {
    if n == 0 then {} else Freed(was, now, n - 1) + (was[n - 1] - now[n - 1])
  }

  predicate FreedAt(was: seq<Word>, now: seq<Word>, i: nat, k: nat)
    requires i < |was| && i < |now|
  {
    k in was[i] && k !in now[i]
  }

  lemma {:induction false} FreedExact(was: seq<Word>, now: seq<Word>, n: nat, k: nat)
    requires n <= |was| && n <= |now|
    ensures k in Freed(was, now, n) <==> exists i :: 0 <= i < n && FreedAt(was, now, i, k)
  {
    if n == 0 {
    } else {
      FreedExact(was, now, n - 1, k);
      assert k in was[n - 1] - now[n - 1] <==> FreedAt(was, now, n - 1, k);
    }
  }

  /** The peer's bitmap as carried by the fragments of its message. */
  function Carried(frags: seq<seq<Word>>): (bits: seq<Word>)
    requires forall i :: 0 <= i < |frags| ==> |frags[i]| == FRAG_WORDS
    ensures |bits| == |frags| * FRAG_WORDS
  {
    if frags == [] then [] else frags[0] + Carried(frags[1..])
  }

  lemma {:induction false} CarriedAt(frags: seq<seq<Word>>, f: nat, o: nat)
    requires forall i :: 0 <= i < |frags| ==> |frags[i]| == FRAG_WORDS
    requires f < |frags| && o < FRAG_WORDS
    ensures f * FRAG_WORDS + o < |Carried(frags)|
    ensures Carried(frags)[f * FRAG_WORDS + o] == frags[f][o]
  {
    if f == 0 {
    } else {
      CarriedAt(frags[1..], f - 1, o);
    }
  }

  lemma AdvancePosition(q: nat, off: nat, size: nat, step: nat)
    requires size > 0 && off < size && step <= size - off
    ensures off + step == size ==> (q + 1) * size == q * size + off + step
  {
  }

  /**
   * Reception of a bitmap message. `bitmap` holds the local bitmap's pages one after the other, each of
   * `pageWords` words. A message of the wrong length is dropped; otherwise the map becomes the peer's
   * bitmap and the mask collects exactly the ports that were freed.
   */
  method CongRecv(len: nat, frags: seq<seq<Word>>, bitmap: array<Word>, pageWords: nat)
    returns (updated: bool, uncongested: Word)
    requires bitmap.Length == WORDS && pageWords > 0
    requires forall i :: 0 <= i < |frags| ==> |frags[i]| == FRAG_WORDS
    requires len == MAP_BYTES ==> |frags| * FRAG_WORDS == WORDS
    modifies bitmap
    ensures updated <==> len == MAP_BYTES
    ensures !updated ==> bitmap[..] == old(bitmap[..]) && uncongested == {}
    ensures updated ==> bitmap[..] == Carried(frags)
    ensures updated ==> uncongested == Freed(old(bitmap[..]), Carried(frags), WORDS)
  {
    updated, uncongested := false, {};
    if len != MAP_BYTES {
      return;
    }
    ghost var was := bitmap[..];
    ghost var src := Carried(frags);
    var mapPage, mapOff: nat, frag, fragOff: nat, copied: nat := 0, 0, 0, 0, 0;
    while copied < WORDS
      invariant copied <= WORDS && mapOff < pageWords && fragOff < FRAG_WORDS
      invariant mapPage * pageWords + mapOff == copied == frag * FRAG_WORDS + fragOff
      invariant bitmap[..copied] == src[..copied] && bitmap[copied..] == was[copied..]
      invariant uncongested == Freed(was, src, copied)
      decreases WORDS - copied
    {
      var toCopy: nat := if FRAG_WORDS - fragOff < pageWords - mapOff then FRAG_WORDS - fragOff else pageWords - mapOff;
      assert copied + toCopy <= (frag + 1) * FRAG_WORDS <= WORDS;
      uncongested := CopyWords(frags, frag, fragOff, bitmap, copied, toCopy, uncongested, was);
      AdvancePosition(mapPage, mapOff, pageWords, toCopy);
      copied := copied + toCopy;
      mapOff := mapOff + toCopy;
      if mapOff == pageWords {
        mapOff := 0;
        mapPage := mapPage + 1;
      }
      fragOff := fragOff + toCopy;
      if fragOff == FRAG_WORDS {
        frag := frag + 1;
        fragOff := 0;
      }
    }
    updated := true;
    assert bitmap[..] == bitmap[..copied] && src == src[..copied];
  }

  /** Copies the part of a fragment that fits the current page, recording what it frees. */
  method CopyWords(frags: seq<seq<Word>>, frag: nat, fragOff: nat, bitmap: array<Word>, at: nat, n: nat,
                   mask: Word, ghost was: seq<Word>)
    returns (mask': Word)
    requires forall i :: 0 <= i < |frags| ==> |frags[i]| == FRAG_WORDS
    requires bitmap.Length == WORDS == |was| == |frags| * FRAG_WORDS
    requires frag < |frags| && fragOff + n <= FRAG_WORDS && at == frag * FRAG_WORDS + fragOff && at + n <= WORDS
    requires bitmap[..at] == Carried(frags)[..at] && bitmap[at..] == was[at..]
    requires mask == Freed(was, Carried(frags), at)
    modifies bitmap
    ensures bitmap[..at + n] == Carried(frags)[..at + n] && bitmap[at + n..] == was[at + n..]
    ensures mask' == Freed(was, Carried(frags), at + n)
  {
    ghost var src := Carried(frags);
    mask' := mask;
    var k := 0;
    while k < n
      invariant k <= n
      invariant bitmap[..at + k] == src[..at + k] && bitmap[at + k..] == was[at + k..]
      invariant mask' == Freed(was, src, at + k)
    {
      CarriedAt(frags, frag, fragOff + k);
      assert bitmap[at + k] == bitmap[at + k..][0] == was[at + k];
      mask' := mask' + (bitmap[at + k] - frags[frag][fragOff + k]);
      bitmap[at + k] := frags[frag][fragOff + k];
      k := k + 1;
      assert bitmap[..at + k] == bitmap[..at + k - 1] + [bitmap[at + k - 1]];
    }
  }

  /** The same in terms of ports: bit k is raised iff a port congruent to k mod 64 was freed. */
  lemma FreedPorts(was: seq<Word>, now: seq<Word>, k: nat)
    requires |was| == |now| == WORDS && k < 64
    ensures k in Freed(was, now, WORDS) <==>
            exists p: nat :: p < PORTS && BitOf(p) == k && Marked(was, p) && !Marked(now, p)
  {
    FreedExact(was, now, WORDS, k);
    if k in Freed(was, now, WORDS) {
      var i :| 0 <= i < WORDS && FreedAt(was, now, i, k);
      var p: nat := i * 64 + k;
      assert p < PORTS && BitOf(p) == k && Marked(was, p) && !Marked(now, p);
    }
    if p: nat :| p < PORTS && BitOf(p) == k && Marked(was, p) && !Marked(now, p) {
      assert FreedAt(was, now, WordOf(p), k);
    }
  }

  /** Addressing a port's bit page by page reaches the same word and bit. */
  lemma PageAddressing(port: nat, pageWords: nat)
    requires pageWords > 0
    ensures (port / (pageWords * 64)) * pageWords + (port % (pageWords * 64)) / 64 == WordOf(port)
    ensures (port % (pageWords * 64)) % 64 == BitOf(port)
  {
    var bits := pageWords * 64;
    var q, r := port / bits, port % bits;
    assert port == q * bits + r;
    assert q * bits == (q * pageWords) * 64;
    assert r == (r / 64) * 64 + r % 64;
    assert port == (q * pageWords + r / 64) * 64 + r % 64;
  }
}
