/**
 * Local addresses: a table of hash chains that maps (address, port) to the socket bound there, and
 * the search for a free port, which walks the 16-bit port numbers upwards with wrap-around.
 */
module BindTable {
  import opened Common

  const BUCKETS: nat := 1024
  const TOP: nat := 65535

  datatype Key = Key(addr: nat, port: nat)

  /** A chain link: the socket and the name it is bound to. */
  datatype Link = Link(key: Key, sock: nat)

  // ---- the order in which ports are tried --------------------------------------------------

  /** Port 0 is stepped over. */
  function NonZero(rover: nat): nat {
    if rover == 0 then 1 else rover
  }

  /** The 16-bit increment of the search, as seen by the next try. */
  function Step(port: nat): nat {
    NonZero((port + 1) % (TOP + 1))
  }

  /** The port tried after k steps. */
  function Rover(start: nat, k: nat): nat {
    if k == 0 then NonZero(start) else Step(Rover(start, k - 1))
  }

  /** The same in closed form for one round. */
  function Tried(start: nat, k: nat): (p: nat)
    requires 1 <= start <= TOP && k < TOP
    ensures 1 <= p <= TOP
  {
    if start + k <= TOP then start + k else start + k - TOP
  }

  lemma TriedNext(start: nat, k: nat)
    requires 1 <= start <= TOP && k + 1 < TOP
    ensures Step(Tried(start, k)) == Tried(start, k + 1)
  {
    if Tried(start, k) == TOP {
      assert (TOP + 1) % (TOP + 1) == 0;
    }
  }

  /** Within one round no port is tried twice. */
  lemma TriedOnce(start: nat, j: nat, k: nat)
    requires 1 <= start <= TOP && j < TOP && k < TOP
    ensures Tried(start, j) == Tried(start, k) <==> j == k
  {
  }

  lemma {:induction false} RoverIsTried(start: nat, k: nat)
    requires 1 <= start <= TOP && k < TOP
    ensures Rover(start, k) == Tried(start, k)
  {
    if k == 0 {
    } else {
      RoverIsTried(start, k - 1);
      TriedNext(start, k - 1);
    }
  }

  /** When port p is tried. */
  function Turn(start: nat, p: nat): (k: nat)
    requires 1 <= start <= TOP && 1 <= p <= TOP
    ensures k < TOP && Tried(start, k) == p
  {
    if p >= start then p - start else p + TOP - start
  }

  /** The port after which a wildcard search from `start` stops: its predecessor in 16 bits. */
  function LastPort(start: nat): nat {
    (start + TOP) % (TOP + 1)
  }

  lemma {:induction false} RoverRange(start: nat, k: nat)
    requires start <= TOP
    ensures 1 <= Rover(start, k) <= TOP
  {
    if k == 0 {
    } else {
      RoverRange(start, k - 1);
    }
  }

  /** Of all 16-bit starting points, only 1 makes a search that nothing but a free port could stop. */
  lemma StopsExactly(start: nat)
    requires start <= TOP
    ensures (exists k: nat :: Rover(start, k) == LastPort(start)) <==> start != 1
  {
    if start == 1 {
      forall k: nat ensures Rover(start, k) != LastPort(start) {
        RoverRange(start, k);
      }
    } else if start == 0 {
      ZeroLikeOne(TOP - 1);
      RoverIsTried(1, TOP - 1);
      assert Rover(start, TOP - 1) == LastPort(start);
    } else {
      RoverIsTried(start, TOP - 1);
      assert Rover(start, TOP - 1) == LastPort(start);
    }
  }

  lemma {:induction false} ZeroLikeOne(k: nat)
    ensures Rover(0, k) == Rover(1, k)
  {
    if k == 0 {
    } else {
      ZeroLikeOne(k - 1);
    }
  }

  /** Where a wildcard search begins. */
  function Begin(random: nat): nat {
    if random > 2 then random else 2
  }

  /** The first k ports tried are all taken. */
  predicate TakenSoFar(model: map<Key, nat>, addr: nat, start: nat, k: nat)
    requires 1 <= start <= TOP && k <= TOP
  {
    forall j :: 0 <= j < k ==> Key(addr, Tried(start, j)) in model
  }

  lemma RoundStep(model: map<Key, nat>, addr: nat, start: nat, k: nat, rover: nat)
    requires 1 <= start <= TOP && k < TOP && rover == Tried(start, k)
    requires TakenSoFar(model, addr, start, k) && Key(addr, rover) in model
    ensures TakenSoFar(model, addr, start, k + 1)
    ensures k + 1 < TOP ==> NonZero((rover + 1) % (TOP + 1)) == Tried(start, k + 1)
  {
    if k + 1 < TOP {
      TriedNext(start, k);
    }
  }

  lemma FullRound(model: map<Key, nat>, addr: nat, start: nat, p: nat)
    requires 1 <= start <= TOP && 1 <= p <= TOP && TakenSoFar(model, addr, start, TOP)
    ensures Key(addr, p) in model
  {
    assert Tried(start, Turn(start, p)) == p;
  }

  // ---- chains ------------------------------------------------------------------------------

  function Find(chain: seq<Link>, key: Key): Option<nat> {
    if chain == [] then None
    else if chain[0].key == key then Some(chain[0].sock)
    else Find(chain[1..], key)
  }

  /** No name occurs twice in a chain. */
  predicate Distinct(chain: seq<Link>) {
    forall i, j :: 0 <= i < j < |chain| ==> chain[i].key != chain[j].key
  }

  lemma {:induction false} FindAt(chain: seq<Link>, key: Key, i: nat)
    requires i < |chain| && chain[i].key == key && (forall j :: 0 <= j < i ==> chain[j].key != key)
    ensures Find(chain, key) == Some(chain[i].sock)
  {
    if i == 0 {
    } else {
      FindAt(chain[1..], key, i - 1);
    }
  }

  lemma {:induction false} FindNone(chain: seq<Link>, key: Key)
    ensures Find(chain, key).None? <==> forall j :: 0 <= j < |chain| ==> chain[j].key != key
  {
    if chain == [] {
    } else {
      FindNone(chain[1..], key);
      if forall j :: 0 <= j < |chain| ==> chain[j].key != key {
        assert forall j :: 0 <= j < |chain[1..]| ==> chain[1..][j] == chain[j + 1];
      } else if chain[0].key != key {
        var j :| 0 <= j < |chain| && chain[j].key == key;
        assert chain[1..][j - 1].key == key;
      }
    }
  }

  function Unlink(chain: seq<Link>, i: nat): seq<Link>
    requires i < |chain|
  {
    chain[..i] + chain[i + 1..]
  }

  /** Unlinking one link removes its name and no other. */
  lemma {:induction false} FindUnlinked(chain: seq<Link>, i: nat, key: Key)
    requires i < |chain| && Distinct(chain)
    ensures Find(Unlink(chain, i), key) == if key == chain[i].key then None else Find(chain, key)
  {
    if i == 0 {
      assert Unlink(chain, 0) == chain[1..];
      FindNone(chain[1..], chain[0].key);
    } else {
      assert Unlink(chain, i)[0] == chain[0] && Unlink(chain, i)[1..] == Unlink(chain[1..], i - 1);
      DistinctTail(chain);
      FindUnlinked(chain[1..], i - 1, key);
      assert chain[i].key != chain[0].key;
    }
  }

  lemma DistinctTail(chain: seq<Link>)
    requires chain != [] && Distinct(chain)
    ensures Distinct(chain[1..])
  {
    forall i, j | 0 <= i < j < |chain[1..]| ensures chain[1..][i].key != chain[1..][j].key {
      assert chain[1..][i] == chain[i + 1] && chain[1..][j] == chain[j + 1];
    }
  }

  lemma DistinctUnlinked(chain: seq<Link>, i: nat)
    requires i < |chain| && Distinct(chain)
    ensures Distinct(Unlink(chain, i))
  {
    var r := Unlink(chain, i);
    forall a, b | 0 <= a < b < |r| ensures r[a].key != r[b].key {
      assert r[a] == chain[if a < i then a else a + 1] && r[b] == chain[if b < i then b else b + 1];
    }
  }

  // ---- the table ---------------------------------------------------------------------------

  class Table {
    const hash: Key -> nat
    var buckets: seq<seq<Link>>
    /** The sockets' own record of where they are bound. */
    var bound: map<nat, Key>
    /** The table as a simple map. */
    ghost var model: map<Key, nat>

    function Bucket(key: Key): nat {
      hash(key) % BUCKETS
    }

    ghost predicate ChainsValid()
      reads this
    {
      && |buckets| == BUCKETS
      && (forall b :: 0 <= b < BUCKETS ==> Distinct(buckets[b]))
      && (forall key :: Find(buckets[Bucket(key)], key) == if key in model then Some(model[key]) else None)
    }

    /** Names and sockets determine each other. */
    ghost predicate OneToOne()
      reads this
    {
      && (forall key :: key in model ==> model[key] in bound && bound[model[key]] == key)
      && (forall s :: s in bound ==> bound[s] in model && model[bound[s]] == s)
    }

    ghost predicate Valid()
      reads this
    {
      ChainsValid() && OneToOne()
    }

    constructor (h: Key -> nat)
      ensures Valid() && model == map[] && hash == h
    {
      hash := h;
      buckets := seq(BUCKETS, _ => []);
      bound, model := map[], map[];
    }

    method Lookup(key: Key) returns (r: Option<nat>)
      requires Valid()
      ensures r == if key in model then Some(model[key]) else None
    {
      var chain := buckets[Bucket(key)];
      var i := 0;
      while i < |chain|
        invariant i <= |chain| && forall j :: 0 <= j < i ==> chain[j].key != key
      {
        if chain[i].key == key {
          FindAt(chain, key, i);
          return Some(chain[i].sock);
        }
        i := i + 1;
      }
      FindNone(chain, key);
      return None;
    }

    /** Binds the socket unless the name is taken. */
    method Insert(key: Key, sock: nat) returns (taken: bool)
      requires Valid() && sock !in bound
      modifies this
      ensures Valid() && (taken <==> key in old(model))
      ensures taken ==> model == old(model) && bound == old(bound)
      ensures !taken ==> model == old(model)[key := sock] && bound == old(bound)[sock := key]
    {
      var r := Lookup(key);
      if r.Some? {
        return true;
      }
      var b := Bucket(key);
      FindNone(buckets[b], key);
      bound := bound[sock := key];
      buckets := buckets[b := [Link(key, sock)] + buckets[b]];
      assert buckets[b][1..] == old(buckets)[b];
      model := model[key := sock];
      return false;
    }

    /**
     * Binds a socket to the port asked for, or for port 0 to the first free one in a round that starts
     * at a random number no lower than 2. It fails only if the port, or every port, is taken.
     */
    method AddBound(sock: nat, addr: nat, port: nat, random: nat) returns (ok: bool, chosen: nat)
      requires Valid() && sock !in bound && addr != 0 && port <= TOP && random <= TOP
      modifies this
      ensures Valid()
      ensures port != 0 ==> (ok <==> Key(addr, port) !in old(model)) && (ok ==> chosen == port)
      ensures port == 0 ==> (ok <==> exists p :: 1 <= p <= TOP && Key(addr, p) !in old(model))
      ensures ok ==> 1 <= chosen <= TOP && Key(addr, chosen) !in old(model)
      ensures ok && port == 0 ==> TakenSoFar(old(model), addr, Begin(random), Turn(Begin(random), chosen))
      ensures ok ==> model == old(model)[Key(addr, chosen) := sock] && bound == old(bound)[sock := Key(addr, chosen)]
      ensures !ok ==> model == old(model) && bound == old(bound)
    {
      var start: nat := if port != 0 then port else Begin(random);
      var last: nat := if port != 0 then port else start - 1;
      var rover := start;
      ghost var k: nat := 0;
      while true
        invariant Valid() && model == old(model) && bound == old(bound)
        invariant k < TOP && 0 <= rover <= TOP && NonZero(rover) == Tried(start, k)
        invariant port != 0 ==> k == 0
        invariant TakenSoFar(model, addr, start, k)
        decreases TOP - k
      {
        if rover == 0 {
          rover := rover + 1;
        }
        var taken := Insert(Key(addr, rover), sock);
        if !taken {
          TriedOnce(start, k, Turn(start, rover));
          return true, rover;
        }
        RoundStep(model, addr, start, k, rover);
        if rover == last {
          break;
        }
        rover := (rover + 1) % (TOP + 1);
        k := k + 1;
      }
      if port == 0 {
        forall p | 1 <= p <= TOP ensures Key(addr, p) in model {
          FullRound(model, addr, start, p);
        }
      }
      return false, 0;
    }

    /** Takes a name out of its chain. */
    method Unhook(key: Key)
      requires ChainsValid() && key in model
      modifies this`buckets, this`model
      ensures ChainsValid() && model == old(model) - {key}
    {
      var b := Bucket(key);
      var chain := buckets[b];
      var i := IndexOf(chain, key);
      forall other ensures Find(Unlink(chain, i), other) == if other == key then None else Find(chain, other) {
        FindUnlinked(chain, i, other);
      }
      DistinctUnlinked(chain, i);
      buckets := buckets[b := Unlink(chain, i)];
      model := model - {key};
    }

    /** Unbinds a socket, if it is bound. */
    method RemoveBound(sock: nat)
      requires Valid()
      modifies this
      ensures Valid() && sock !in bound
      ensures sock in old(bound) ==> model == old(model) - {old(bound)[sock]} && bound == old(bound) - {sock}
      ensures sock !in old(bound) ==> model == old(model) && bound == old(bound)
    {
      if sock in bound {
        Unhook(bound[sock]);
        bound := bound - {sock};
      }
    }
  }

  /** The link of a name that is in the chain. */
  method IndexOf(chain: seq<Link>, key: Key) returns (i: nat)
    requires Find(chain, key).Some?
    ensures i < |chain| && chain[i].key == key
  {
    i := 0;
    FindNone(chain, key);
    while i < |chain| && chain[i].key != key
      invariant i <= |chain| && forall j :: 0 <= j < i ==> chain[j].key != key
    {
      i := i + 1;
    }
  }
}
