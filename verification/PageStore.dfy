/**
 * The page remainder allocator and the memory it hands out. A request of a page or more gets a page
 * of its own; a smaller one is cut from the partly used page cached for it, so that regions of
 * different messages share pages. No two regions overlap, so writing one never disturbs another.
 */
module PageStore {
  import opened ByteBlocks
  import opened Common

  const PAGE: nat := 4096

  /** A scatterlist entry: part of one page. */
  datatype Region = Region(page: nat, off: nat, len: nat)

  /** The cached page and where its unused part begins. */
  datatype Remainder = Remainder(page: nat, off: nat)

  predicate Apart(a: Region, b: Region) {
    a.page != b.page || a.off + a.len <= b.off || b.off + b.len <= a.off
  }

  predicate InPage(mem: map<nat, seq<Byte>>, r: Region) {
    r.page in mem && 0 < r.len && r.off + r.len <= |mem[r.page]|
  }

  function Contents(mem: map<nat, seq<Byte>>, r: Region): (c: seq<Byte>)
    requires InPage(mem, r)
    ensures |c| == r.len
  {
    mem[r.page][r.off..r.off + r.len]
  }

  /** A store inside one region changes that region as expected, and no region apart from it. */
  lemma SpliceRegion(page: seq<Byte>, off: nat, len: nat, at: nat, d: seq<Byte>)
    requires off + len <= |page| && at + |d| <= len
    ensures Splice(page, off + at, d)[off..off + len] == Splice(page[off..off + len], at, d)
  {
    var a, b := Splice(page, off + at, d)[off..off + len], Splice(page[off..off + len], at, d);
    forall i | 0 <= i < len ensures a[i] == b[i] {
      assert a[i] == Splice(page, off + at, d)[off + i];
    }
  }

  lemma SpliceApart(page: seq<Byte>, off: nat, len: nat, at: nat, d: seq<Byte>)
    requires off + len <= |page| && at + |d| <= |page| && (at + |d| <= off || off + len <= at)
    ensures Splice(page, at, d)[off..off + len] == page[off..off + len]
  {
    var a, b := Splice(page, at, d)[off..off + len], page[off..off + len];
    forall i | 0 <= i < len ensures a[i] == b[i] {
      assert a[i] == Splice(page, at, d)[off + i] && b[i] == page[off + i];
    }
  }

  class Store {
    var mem: map<nat, seq<Byte>>
    var nextPage: nat
    var rem: Option<Remainder>
    ghost var handed: set<Region>

    ghost predicate PagesValid()
      reads this
    {
      forall p :: p in mem ==> p < nextPage && |mem[p]| == PAGE
    }

    ghost predicate RegionsApart()
      reads this
    {
      && (forall r :: r in handed ==> InPage(mem, r))
      && (forall a, b :: a in handed && b in handed && a != b ==> Apart(a, b))
    }

    /** The unused part of the cached page has not been handed out. */
    ghost predicate RemainderUnused()
      reads this
    {
      rem.Some? ==>
        && rem.value.page in mem && rem.value.off < PAGE
        && forall r :: r in handed && r.page == rem.value.page ==> r.off + r.len <= rem.value.off
    }

    ghost predicate Valid()
      reads this
    {
      PagesValid() && RegionsApart() && RemainderUnused()
    }

    constructor ()
      ensures Valid() && handed == {}
    {
      mem, nextPage, rem, handed := map[], 0, None, {};
    }

    /** A page nobody holds. */
    method AllocPage() returns (page: nat)
      requires Valid()
      modifies this
      ensures Valid() && page in mem && page !in old(mem)
      ensures handed == old(handed) && rem == old(rem)
      ensures forall p :: p in old(mem) ==> p in mem && mem[p] == old(mem)[p]
      ensures forall r :: r in handed ==> r.page != page
    {
      page := nextPage;
      mem := mem[page := seq(PAGE, _ => 0)];
      nextPage := nextPage + 1;
    }

    /**
     * Hands out a region of `bytes` bytes, or a whole page if that is less; `ok` says whether a page
     * can be allocated should one be needed. The region lies in one page, clear of all others.
     */
    method RemainderAlloc(bytes: nat, ok: bool) returns (r: Option<Region>)
      requires Valid() && bytes > 0
      modifies this
      ensures Valid()
      ensures forall p :: p in old(mem) ==> p in mem && mem[p] == old(mem)[p]
      ensures r.None? ==> !ok && handed == old(handed)
      ensures r.Some? ==> r.value !in old(handed) && handed == old(handed) + {r.value}
      ensures r.Some? ==> r.value.len == Min(bytes, PAGE)
    {
      if bytes >= PAGE {
        if !ok {
          return None;
        }
        var page := AllocPage();
        var region := Region(page, 0, PAGE);
        handed := handed + {region};
        return Some(region);
      }
      var installed := false;
      while true
        invariant Valid() && handed == old(handed)
        invariant forall p :: p in old(mem) ==> p in mem && mem[p] == old(mem)[p]
        invariant installed ==> rem.Some? && rem.value.off == 0
        decreases !installed
      {
        if rem.Some? && bytes > PAGE - rem.value.off {
          rem := None;
        }
        if rem.Some? {
          var region := Region(rem.value.page, rem.value.off, bytes);
          rem := if rem.value.off + bytes == PAGE then None
                 else Some(Remainder(rem.value.page, rem.value.off + bytes));
          handed := handed + {region};
          return Some(region);
        }
        if !ok {
          return None;
        }
        var page := AllocPage();
        rem := Some(Remainder(page, 0));
        installed := true;
      }
      return None;
    }

    /** Copies bytes into a region. */
    method Write(r: Region, at: nat, d: seq<Byte>)
      requires Valid() && r in handed && at + |d| <= r.len
      modifies this
      ensures Valid() && handed == old(handed)
      ensures Contents(mem, r) == Splice(old(Contents(mem, r)), at, d)
      ensures forall q :: q in handed && q != r ==> Contents(mem, q) == old(Contents(mem, q))
    {
      ghost var page := mem[r.page];
      mem := mem[r.page := Splice(mem[r.page], r.off + at, d)];
      SpliceRegion(page, r.off, r.len, at, d);
      forall q | q in handed && q != r ensures Contents(mem, q) == old(Contents(mem, q)) {
        assert Apart(q, r);
        if q.page == r.page {
          SpliceApart(page, q.off, q.len, r.off + at, d);
        }
      }
    }
  }
}
