/** Bytes and sequences of byte blocks, shared by the modules that move payload around. */
module ByteBlocks {

  type Byte = x: int | 0 <= x < 256

  /** The blocks put end to end. */
  function Flatten(blocks: seq<seq<Byte>>): seq<Byte> {
    if blocks == [] then [] else blocks[0] + Flatten(blocks[1..])
  }

  lemma {:induction false} FlattenJoin(a: seq<seq<Byte>>, b: seq<seq<Byte>>)
    ensures Flatten(a + b) == Flatten(a) + Flatten(b)
  {
    if a == [] {
      assert a + b == b;
    } else {
      assert (a + b)[1..] == a[1..] + b;
      FlattenJoin(a[1..], b);
    }
  }

  lemma FlattenOne(x: seq<Byte>)
    ensures Flatten([x]) == x
  {
    assert [x][1..] == [];
  }

  lemma FlattenSnoc(a: seq<seq<Byte>>, x: seq<Byte>)
    ensures Flatten(a + [x]) == Flatten(a) + x
  {
    FlattenJoin(a, [x]);
    FlattenOne(x);
  }

  lemma SubSlice(p: seq<Byte>, a: nat, b: nat, x: nat, y: nat)
    requires a <= b <= |p| && x <= y <= b - a
    ensures p[a..b][x..y] == p[a + x..a + y]
  {
    var l, r := p[a..b][x..y], p[a + x..a + y];
    assert forall i :: 0 <= i < y - x ==> l[i] == p[a..b][x + i] == r[i];
  }

  /** Bytes in the first k blocks. */
  function Start(sgs: seq<seq<Byte>>, k: nat): nat
    requires k <= |sgs|
  {
    if k == 0 then 0 else Start(sgs, k - 1) + |sgs[k - 1]|
  }

  lemma {:induction false} StartTail(sgs: seq<seq<Byte>>, k: nat)
    requires 0 < k <= |sgs|
    ensures Start(sgs, k) == |sgs[0]| + Start(sgs[1..], k - 1)
  {
    if k == 1 {
    } else {
      StartTail(sgs, k - 1);
    }
  }

  /** Block k sits in the whole at its start. */
  lemma {:induction false} FlattenAt(sgs: seq<seq<Byte>>, k: nat)
    requires k < |sgs|
    ensures Start(sgs, k) + |sgs[k]| <= |Flatten(sgs)|
    ensures Flatten(sgs)[Start(sgs, k)..Start(sgs, k) + |sgs[k]|] == sgs[k]
  {
    var rest := Flatten(sgs[1..]);
    if k == 0 {
    } else {
      StartTail(sgs, k);
      FlattenAt(sgs[1..], k - 1);
      var a := Start(sgs[1..], k - 1);
      assert (sgs[0] + rest)[|sgs[0]| + a..|sgs[0]| + a + |sgs[k]|] == rest[a..a + |sgs[k]|];
    }
  }

  lemma {:induction false} FlattenLength(sgs: seq<seq<Byte>>)
    ensures |Flatten(sgs)| == Start(sgs, |sgs|)
  {
    if sgs == [] {
    } else {
      FlattenLength(sgs[1..]);
      StartTail(sgs, |sgs|);
    }
  }

  /** s with the bytes from `at` on replaced by d. */
  function Splice(s: seq<Byte>, at: nat, d: seq<Byte>): (r: seq<Byte>)
    requires at + |d| <= |s|
    ensures |r| == |s|
  {
    s[..at] + d + s[at + |d|..]
  }

  /** Writing into block k writes into the whole at the block's start. */
  lemma {:induction false} FlattenSplice(blocks: seq<seq<Byte>>, k: nat, o: nat, d: seq<Byte>)
    requires k < |blocks| && o + |d| <= |blocks[k]|
    ensures Start(blocks, k) + o + |d| <= |Flatten(blocks)|
    ensures Flatten(blocks[k := Splice(blocks[k], o, d)]) == Splice(Flatten(blocks), Start(blocks, k) + o, d)
  {
    var upd := blocks[k := Splice(blocks[k], o, d)];
    if k == 0 {
      assert upd[1..] == blocks[1..];
    } else {
      StartTail(blocks, k);
      assert upd[1..] == blocks[1..][k - 1 := Splice(blocks[k], o, d)];
      FlattenSplice(blocks[1..], k - 1, o, d);
    }
  }
}
