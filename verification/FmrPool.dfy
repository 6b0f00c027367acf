/**
 * The pool of memory regions (MRs). Regions move between users and three lists: `free` and `drop`
 * hold regions handed back while still mapped, `clean` holds unmapped ones ready for reuse. A flush,
 * one at a time, takes the lists over, unmaps everything, destroys worn-out or surplus regions and
 * puts the rest on the clean list, except for the first one: that goes to the caller waiting for it,
 * and to nobody if none is waiting. The counters are separate atomic variables updated a little before
 * or after the lists they describe, so the laws below carry what is still outstanding.
 */
module FmrPool {
  import opened Common

  /** A region: how many pages it pins, and how often it has been mapped since it was created. */
  datatype Mr = Mr(sgLen: nat, remaps: nat)

  datatype Limits = Limits(maxItems: nat, maxMaps: nat)

  /** The progress of the flush under way. */
  datatype Flush =
    | NoFlush
    | Gathered(list: seq<Mr>, freeAll: bool)
    | Swept(kept: seq<Mr>, unpinned: nat, cleaned: nat, freed: nat)
    | Published(unpinned: nat, cleaned: nat, freed: nat)

  /**
   * `uncounted` lists the pinned pages of regions put on a list whose release is not in the counters
   * yet; `reserved` and `over` count allocations that raised itemCount within and beyond the limit and
   * have not acted on it yet; `leaked` holds the regions a flush kept but put nowhere; `cleanTaken`
   * counts the clean regions ever gathered by a flush of all.
   */
  datatype State = State(
    inUse: seq<Mr>, drop: seq<Mr>, free: seq<Mr>, clean: seq<Mr>,
    flush: Flush, uncounted: seq<nat>, reserved: nat, over: nat,
    itemCount: int, freePinned: int, dirtyCount: int,
    leaked: seq<Mr>, cleanTaken: nat)

  function Pinned(mrs: seq<Mr>): nat {
    if mrs == [] then 0 else mrs[0].sgLen + Pinned(mrs[1..])
  }

  function Without<T>(xs: seq<T>, i: nat): (r: seq<T>)
    requires i < |xs|
    ensures |r| == |xs| - 1
    ensures forall x :: x in r ==> x in xs
  {
    xs[..i] + xs[i + 1..]
  }

  // ---- the operations ----------------------------------------------------------------------

  /** Which regions a sweep keeps, unmapped, once `freed` have been destroyed already. */
  function Keep(list: seq<Mr>, goal: int, freed: nat, maxMaps: nat): (kept: seq<Mr>)
    ensures |kept| <= |list|
    ensures forall m :: m in kept ==> m.sgLen == 0 && m.remaps < maxMaps
  {
    if list == [] then []
    else if freed < goal || list[0].remaps >= maxMaps then Keep(list[1..], goal, freed + 1, maxMaps)
    else [Mr(0, list[0].remaps)] + Keep(list[1..], goal, freed, maxMaps)
  }

  function Reuse(s: State): State
    requires s.clean != []
  {
    s.(clean := s.clean[1..], inUse := s.inUse + [s.clean[0]])
  }

  function Reserve(l: Limits, s: State): State {
    if s.itemCount + 1 <= l.maxItems
    then s.(itemCount := s.itemCount + 1, reserved := s.reserved + 1)
    else s.(itemCount := s.itemCount + 1, over := s.over + 1)
  }

  function PushFree(l: Limits, s: State, i: nat): State
    requires i < |s.inUse|
  {
    var m := s.inUse[i];
    var s1 := s.(inUse := Without(s.inUse, i), uncounted := [m.sgLen] + s.uncounted);
    if m.remaps >= l.maxMaps then s1.(drop := [m] + s.drop) else s1.(free := [m] + s.free)
  }

  function CountFree(s: State, i: nat): State
    requires i < |s.uncounted|
  {
    s.(uncounted := Without(s.uncounted, i),
       freePinned := s.freePinned + s.uncounted[i], dirtyCount := s.dirtyCount + 1)
  }

  /** Ordering matters: the worn-out regions come first. */
  function Gather(s: State, freeAll: bool): State {
    if freeAll
    then s.(drop := [], free := [], clean := [], flush := Gathered(s.drop + s.free + s.clean, true),
            cleanTaken := s.cleanTaken + |s.clean|)
    else s.(drop := [], free := [], flush := Gathered(s.drop + s.free, false))
  }

  function Sweep(l: Limits, s: State): State
    requires s.flush.Gathered?
  {
    var kept := Keep(s.flush.list, if s.flush.freeAll then s.itemCount else 0, 0, l.maxMaps);
    s.(flush := Swept(kept, Pinned(s.flush.list), |s.flush.list|, |s.flush.list| - |kept|))
  }

  /** The first region kept goes to the caller if one is waiting; only the others become clean. */
  function Publish(s: State, want: bool): State
    requires s.flush.Swept?
  {
    var f := s.flush;
    var s1 := s.(flush := Published(f.unpinned, f.cleaned, f.freed));
    if f.kept == [] then s1
    else if want then s1.(inUse := s.inUse + [f.kept[0]], clean := f.kept[1..] + s.clean)
    else s1.(leaked := s.leaked + [f.kept[0]], clean := f.kept[1..] + s.clean)
  }

  function Settle(s: State): State
    requires s.flush.Published?
  {
    s.(flush := NoFlush, freePinned := s.freePinned - s.flush.unpinned,
       dirtyCount := s.dirtyCount - s.flush.cleaned, itemCount := s.itemCount - s.flush.freed)
  }

  // ---- the machine -------------------------------------------------------------------------

  datatype Action =
    | TakeClean
    | TryReserve | GiveUp | Create | CreateFails
    | MapRegion(i: nat, pages: nat)
    | Push(i: nat) | Count(i: nat)
    | StartFlush(freeAll: bool) | DoSweep | DoPublish(want: bool) | DoSettle

  predicate Enabled(s: State, a: Action) {
    match a
    case TakeClean => s.clean != []
    case TryReserve => true
    case GiveUp => s.over > 0
    case Create => s.reserved > 0
    case CreateFails => s.reserved > 0
    case MapRegion(i, pages) => i < |s.inUse| && s.inUse[i].sgLen == 0 && pages > 0
    case Push(i) => i < |s.inUse|
    case Count(i) => i < |s.uncounted|
    case StartFlush(_) => s.flush.NoFlush?
    case DoSweep => s.flush.Gathered?
    case DoPublish(_) => s.flush.Swept?
    case DoSettle => s.flush.Published?
  }

  function Apply(l: Limits, s: State, a: Action): State
    requires Enabled(s, a)
  {
    match a
    case TakeClean => Reuse(s)
    case TryReserve => Reserve(l, s)
    case GiveUp => s.(over := s.over - 1, itemCount := s.itemCount - 1)
    case Create => s.(reserved := s.reserved - 1, inUse := s.inUse + [Mr(0, 0)])
    case CreateFails => s.(reserved := s.reserved - 1, itemCount := s.itemCount - 1)
    case MapRegion(i, pages) => s.(inUse := s.inUse[i := Mr(pages, s.inUse[i].remaps + 1)])
    case Push(i) => PushFree(l, s, i)
    case Count(i) => CountFree(s, i)
    case StartFlush(freeAll) => Gather(s, freeAll)
    case DoSweep => Sweep(l, s)
    case DoPublish(want) => Publish(s, want)
    case DoSettle => Settle(s)
  }

  predicate Init(s: State) {
    s == State([], [], [], [], NoFlush, [], 0, 0, 0, 0, 0, [], 0)
  }

  predicate Run(l: Limits, tr: seq<State>, acts: seq<Action>) {
    && |tr| == |acts| + 1 && Init(tr[0])
    && forall i :: 0 <= i < |acts| ==> Enabled(tr[i], acts[i]) && tr[i + 1] == Apply(l, tr[i], acts[i])
  }

  // ---- what every step keeps ---------------------------------------------------------------

  /** Regions that exist: in use, on a list, in the hands of the flush, or leaked. */
  function Live(s: State): nat {
    |s.inUse| + |s.drop| + |s.free| + |s.clean| + |s.leaked| +
    match s.flush
    case Gathered(list, _) => |list|
    case Swept(kept, _, _, _) => |kept|
    case _ => 0
  }

  /** Regions destroyed by the flush and not yet taken out of itemCount. */
  function FreedPending(s: State): nat {
    match s.flush
    case Swept(_, _, _, freed) => freed
    case Published(_, _, freed) => freed
    case _ => 0
  }

  function UnpinnedPending(s: State): nat {
    match s.flush
    case Gathered(list, _) => Pinned(list)
    case Swept(_, unpinned, _, _) => unpinned
    case Published(unpinned, _, _) => unpinned
    case NoFlush => 0
  }

  function CleanedPending(s: State): nat {
    match s.flush
    case Gathered(list, _) => |list|
    case Swept(_, _, cleaned, _) => cleaned
    case Published(_, cleaned, _) => cleaned
    case NoFlush => 0
  }

  predicate ItemsCounted(l: Limits, s: State) {
    && s.itemCount == Live(s) + FreedPending(s) + s.reserved + s.over
    && Live(s) + s.reserved <= l.maxItems
  }

  predicate PagesCounted(s: State) {
    s.freePinned + Sum(s.uncounted) == Pinned(s.free) + Pinned(s.drop) + UnpinnedPending(s)
  }

  predicate DirtyCounted(s: State) {
    s.dirtyCount + |s.uncounted| + s.cleanTaken == |s.free| + |s.drop| + CleanedPending(s)
  }

  /** A region that may be mapped again. */
  predicate Fresh(l: Limits, m: Mr) {
    m.sgLen == 0 && m.remaps < l.maxMaps
  }

  predicate Usable(l: Limits, m: Mr) {
    m.remaps <= l.maxMaps && (m.sgLen == 0 ==> m.remaps < l.maxMaps)
  }

  predicate Worn(l: Limits, s: State) {
    && (forall m :: m in s.inUse ==> Usable(l, m))
    && (forall m :: m in s.free ==> Usable(l, m))
    && (forall m :: m in s.drop ==> Usable(l, m))
    && (forall m :: m in s.clean ==> Fresh(l, m))
    && (s.flush.Swept? ==> forall m :: m in s.flush.kept ==> Fresh(l, m))
  }

  predicate Inv(l: Limits, s: State) {
    ItemsCounted(l, s) && PagesCounted(s) && DirtyCounted(s) && Worn(l, s)
  }

  lemma {:induction false} PinnedJoin(a: seq<Mr>, b: seq<Mr>)
    ensures Pinned(a + b) == Pinned(a) + Pinned(b)
  {
    if a == [] {
      assert a + b == b;
    } else {
      assert (a + b)[1..] == a[1..] + b;
      PinnedJoin(a[1..], b);
    }
  }

  lemma SumWithout(ns: seq<nat>, i: nat)
    requires i < |ns|
    ensures Sum(Without(ns, i)) == Sum(ns) - ns[i]
  {
    SumJoin(ns[..i], ns[i + 1..]);
    assert ns == ns[..i] + ns[i..] && ns[i..][1..] == ns[i + 1..];
    SumJoin(ns[..i], ns[i..]);
  }

  lemma {:induction false} CleanUnpinned(l: Limits, mrs: seq<Mr>)
    requires forall m :: m in mrs ==> Fresh(l, m)
    ensures Pinned(mrs) == 0
  {
    if mrs == [] {
    } else {
      assert mrs[0] in mrs;
      CleanUnpinned(l, mrs[1..]);
    }
  }

  lemma ItemsStep(l: Limits, s: State, a: Action)
    requires ItemsCounted(l, s) && Enabled(s, a)
    ensures ItemsCounted(l, Apply(l, s, a))
  {
  }

  lemma PagesStep(l: Limits, s: State, a: Action)
    requires PagesCounted(s) && Worn(l, s) && Enabled(s, a)
    ensures PagesCounted(Apply(l, s, a))
  {
    match a
    case Push(i) => PushPages(l, s, i);
    case Count(i) => SumWithout(s.uncounted, i);
    case StartFlush(freeAll) => GatherPages(l, s, freeAll);
    case _ =>
  }

  lemma PushPages(l: Limits, s: State, i: nat)
    requires PagesCounted(s) && i < |s.inUse|
    ensures PagesCounted(PushFree(l, s, i))
  {
    var m := s.inUse[i];
    assert ([m] + s.drop)[1..] == s.drop && ([m] + s.free)[1..] == s.free;
    assert ([m.sgLen] + s.uncounted)[1..] == s.uncounted;
  }

  lemma GatherPages(l: Limits, s: State, freeAll: bool)
    requires PagesCounted(s) && s.flush.NoFlush? && forall m :: m in s.clean ==> Fresh(l, m)
    ensures PagesCounted(Gather(s, freeAll))
  {
    PinnedJoin(s.drop, s.free);
    PinnedJoin(s.drop + s.free, s.clean);
    CleanUnpinned(l, s.clean);
  }

  lemma DirtyStep(l: Limits, s: State, a: Action)
    requires DirtyCounted(s) && Enabled(s, a)
    ensures DirtyCounted(Apply(l, s, a))
  {
  }

  lemma WornStep(l: Limits, s: State, a: Action)
    requires Worn(l, s) && Enabled(s, a) && l.maxMaps > 0
    ensures Worn(l, Apply(l, s, a))
  {
    match a
    case TakeClean => assert s.clean[0] in s.clean;
    case MapRegion(i, _) => assert s.inUse[i] in s.inUse;
    case Push(i) => assert s.inUse[i] in s.inUse;
    case DoPublish(_) => assert s.flush.kept != [] ==> s.flush.kept[0] in s.flush.kept;
    case _ =>
  }

  lemma InvStep(l: Limits, s: State, a: Action)
    requires Inv(l, s) && Enabled(s, a) && l.maxMaps > 0
    ensures Inv(l, Apply(l, s, a))
  {
    ItemsStep(l, s, a);
    PagesStep(l, s, a);
    DirtyStep(l, s, a);
    WornStep(l, s, a);
  }

  lemma {:induction false} InvRun(l: Limits, tr: seq<State>, acts: seq<Action>, i: nat)
    requires Run(l, tr, acts) && i < |tr| && l.maxMaps > 0
    ensures Inv(l, tr[i])
  {
    if i == 0 {
    } else {
      InvRun(l, tr, acts, i - 1);
      InvStep(l, tr[i - 1], acts[i - 1]);
    }
  }

  // ---- the pool's guarantees ---------------------------------------------------------------

  /** In every run the regions that exist stay within the limit, and no region is mapped too often. */
  lemma LimitsHeld(l: Limits, tr: seq<State>, acts: seq<Action>, i: nat)
    requires Run(l, tr, acts) && i < |tr| && l.maxMaps > 0
    ensures Live(tr[i]) <= l.maxItems
    ensures forall m :: m in tr[i].inUse + tr[i].free + tr[i].drop ==> m.remaps <= l.maxMaps
    ensures forall m :: m in tr[i].clean ==> m.sgLen == 0 && m.remaps < l.maxMaps
  {
    InvRun(l, tr, acts, i);
  }

  /** Nobody is in the middle of an operation. */
  predicate Quiet(s: State) {
    s.flush.NoFlush? && s.uncounted == [] && s.reserved == 0 && s.over == 0
  }

  /** In every run, between operations, the counters are exactly what their names say. */
  lemma CountersExact(l: Limits, tr: seq<State>, acts: seq<Action>, i: nat)
    requires Run(l, tr, acts) && i < |tr| && l.maxMaps > 0 && Quiet(tr[i])
    ensures tr[i].itemCount == |tr[i].inUse| + |tr[i].free| + |tr[i].drop| + |tr[i].clean| + |tr[i].leaked|
    ensures tr[i].freePinned == Pinned(tr[i].free) + Pinned(tr[i].drop)
    ensures tr[i].dirtyCount == |tr[i].free| + |tr[i].drop| - tr[i].cleanTaken
  {
    InvRun(l, tr, acts, i);
  }

  /** So the item count is the number of regions in use or on a list iff no flush has leaked one. */
  lemma ItemCountExact(l: Limits, tr: seq<State>, acts: seq<Action>, i: nat)
    requires Run(l, tr, acts) && i < |tr| && l.maxMaps > 0 && Quiet(tr[i])
    ensures tr[i].itemCount == |tr[i].inUse| + |tr[i].free| + |tr[i].drop| + |tr[i].clean| <==>
            forall j :: 0 <= j < i && acts[j] == DoPublish(false) ==> tr[j].flush.Swept? && tr[j].flush.kept == []
  {
    CountersExact(l, tr, acts, i);
    LeakedExact(l, tr, acts, i);
  }

  lemma {:induction false} LeakedExact(l: Limits, tr: seq<State>, acts: seq<Action>, i: nat)
    requires Run(l, tr, acts) && i < |tr|
    ensures tr[i].leaked == [] <==>
            forall j :: 0 <= j < i && acts[j] == DoPublish(false) ==> tr[j].flush.Swept? && tr[j].flush.kept == []
  {
    if i == 0 {
    } else {
      LeakedExact(l, tr, acts, i - 1);
      assert Enabled(tr[i - 1], acts[i - 1]) && tr[i] == Apply(l, tr[i - 1], acts[i - 1]);
    }
  }

  /** A flush that frees no surplus keeps nothing iff every region it gathers is worn out. */
  lemma {:induction false} KeepNone(list: seq<Mr>, freed: nat, maxMaps: nat)
    ensures Keep(list, 0, freed, maxMaps) == [] <==> forall m :: m in list ==> m.remaps >= maxMaps
  {
    if list == [] {
    } else {
      KeepNone(list[1..], if list[0].remaps >= maxMaps then freed + 1 else freed, maxMaps);
      assert list[0] in list && (forall m :: m in list <==> m == list[0] || m in list[1..]);
    }
  }

  /** So a flush for nobody, as the worker runs it, leaks a region iff one that is not worn out waits. */
  lemma FlushLeaksExactly(l: Limits, s: State)
    requires Quiet(s)
    ensures |FlushOnce(l, s, false, false).leaked| ==
            |s.leaked| + if (exists m :: m in s.drop + s.free && m.remaps < l.maxMaps) then 1 else 0
  {
    KeepNone(s.drop + s.free, 0, l.maxMaps);
  }

  lemma Then(l: Limits, tr: seq<State>, acts: seq<Action>, a: Action) returns (tr': seq<State>, acts': seq<Action>)
    requires Run(l, tr, acts) && Enabled(tr[|tr| - 1], a)
    ensures Run(l, tr', acts') && tr'[|tr'| - 1] == Apply(l, tr[|tr| - 1], a)
  {
    tr', acts' := tr + [Apply(l, tr[|tr| - 1], a)], acts + [a];
  }

  /** One region, mapped once, is on the free list. */
  const ONE_FREE: State := State([], [], [Mr(1, 1)], [], NoFlush, [], 0, 0, 1, 1, 1, [], 0)

  lemma HandedBack(l: Limits) returns (tr: seq<State>, acts: seq<Action>)
    requires l.maxItems > 0 && l.maxMaps > 1
    ensures Run(l, tr, acts) && tr[|tr| - 1] == ONE_FREE
  {
    tr, acts := [State([], [], [], [], NoFlush, [], 0, 0, 0, 0, 0, [], 0)], [];
    tr, acts := Then(l, tr, acts, TryReserve);
    tr, acts := Then(l, tr, acts, Create);
    tr, acts := Then(l, tr, acts, MapRegion(0, 1));
    tr, acts := Then(l, tr, acts, Push(0));
    tr, acts := Then(l, tr, acts, Count(0));
  }

  lemma KeepsOne(l: Limits)
    requires l.maxMaps > 1
    ensures Sweep(l, Gather(ONE_FREE, false)).flush == Swept([Mr(0, 1)], 1, 1, 0)
  {
    assert [] + [Mr(1, 1)] == [Mr(1, 1)] && [Mr(1, 1)][1..] == [];
    assert Keep([Mr(1, 1)], 0, 0, l.maxMaps) == [Mr(0, 1)];
  }

  /** A region created, mapped, handed back and flushed by the worker: nothing is left but the count. */
  lemma LeakReachable(l: Limits) returns (tr: seq<State>, acts: seq<Action>)
    requires l.maxItems > 0 && l.maxMaps > 1
    ensures Run(l, tr, acts) && Quiet(tr[|tr| - 1])
    ensures var s := tr[|tr| - 1];
            s.inUse == s.drop == s.free == s.clean == [] && s.itemCount == 1
  {
    tr, acts := HandedBack(l);
    KeepsOne(l);
    tr, acts := Then(l, tr, acts, StartFlush(false));
    tr, acts := Then(l, tr, acts, DoSweep);
    tr, acts := Then(l, tr, acts, DoPublish(false));
    tr, acts := Then(l, tr, acts, DoSettle);
  }

  /** So the dirty count is the length of the two dirty lists iff no flush of all took a clean region. */
  lemma DirtyCountExact(l: Limits, tr: seq<State>, acts: seq<Action>, i: nat)
    requires Run(l, tr, acts) && i < |tr| && l.maxMaps > 0 && Quiet(tr[i])
    ensures tr[i].dirtyCount == |tr[i].free| + |tr[i].drop| <==>
            forall j :: 0 <= j < i && acts[j] == StartFlush(true) ==> tr[j].clean == []
  {
    CountersExact(l, tr, acts, i);
    CleanTakenExact(l, tr, acts, i);
  }

  lemma {:induction false} CleanTakenExact(l: Limits, tr: seq<State>, acts: seq<Action>, i: nat)
    requires Run(l, tr, acts) && i < |tr|
    ensures tr[i].cleanTaken == 0 <==> forall j :: 0 <= j < i && acts[j] == StartFlush(true) ==> tr[j].clean == []
  {
    if i == 0 {
    } else {
      CleanTakenExact(l, tr, acts, i - 1);
      assert tr[i] == Apply(l, tr[i - 1], acts[i - 1]);
    }
  }

  /** A sweep whose goal covers the whole list keeps nothing. */
  lemma {:induction false} KeepNothing(list: seq<Mr>, goal: int, freed: nat, maxMaps: nat)
    requires goal >= freed + |list|
    ensures Keep(list, goal, freed, maxMaps) == []
  {
    if list == [] {
    } else {
      KeepNothing(list[1..], goal, freed + 1, maxMaps);
    }
  }

  function FlushAll(l: Limits, s: State): State {
    Settle(Publish(Sweep(l, Gather(s, true)), false))
  }

  /**
   * Destroying an idle pool: with nothing in use, a flush of all leaves no page pinned and no region
   * but the leaked ones, so the item count comes to 0 iff nothing has leaked.
   */
  lemma FlushAllEmpties(l: Limits, s: State)
    requires Inv(l, s) && Quiet(s) && s.inUse == []
    ensures FlushAll(l, s).freePinned == 0 && FlushAll(l, s).leaked == s.leaked
    ensures FlushAll(l, s).itemCount == Live(FlushAll(l, s)) == |s.leaked|
  {
    var list := s.drop + s.free + s.clean;
    KeepNothing(list, s.itemCount, 0, l.maxMaps);
    PagesStep(l, s, StartFlush(true));
  }

  // ---- the pool object ---------------------------------------------------------------------

  /** One flush from start to end, with nothing else going on. */
  function FlushOnce(l: Limits, s: State, freeAll: bool, want: bool): State {
    if want && s.clean != [] then Reuse(s)
    else Settle(Publish(Sweep(l, Gather(s, freeAll)), want))
  }

  lemma FlushOnceKeeps(l: Limits, s: State, freeAll: bool, want: bool)
    requires Inv(l, s) && Quiet(s) && l.maxMaps > 0
    ensures Inv(l, FlushOnce(l, s, freeAll, want)) && Quiet(FlushOnce(l, s, freeAll, want))
  {
    if want && s.clean != [] {
      InvStep(l, s, TakeClean);
    } else {
      InvStep(l, s, StartFlush(freeAll));
      InvStep(l, Gather(s, freeAll), DoSweep);
      InvStep(l, Sweep(l, Gather(s, freeAll)), DoPublish(want));
      InvStep(l, Publish(Sweep(l, Gather(s, freeAll)), want), DoSettle);
    }
  }

  lemma ReleaseKeeps(l: Limits, s: State, i: nat)
    requires Inv(l, s) && Quiet(s) && l.maxMaps > 0 && i < |s.inUse|
    ensures Inv(l, CountFree(PushFree(l, s, i), 0)) && Quiet(CountFree(PushFree(l, s, i), 0))
  {
    InvStep(l, s, Push(i));
    InvStep(l, PushFree(l, s, i), Count(0));
  }

  /** With every region handed back in the flush's hands, no page stays pinned. */
  lemma FlushUnpins(l: Limits, s: State)
    requires Inv(l, s) && Quiet(s) && l.maxMaps > 0
    ensures FlushOnce(l, s, false, false).freePinned == 0
  {
    FlushOnceKeeps(l, s, false, false);
  }

  /** A flush on behalf of an allocation yields a region or makes room, if any region is not in use. */
  lemma FlushHelps(l: Limits, s: State)
    requires Inv(l, s) && Quiet(s) && s.clean == [] && s.itemCount > |s.inUse| + |s.leaked|
    ensures var s' := FlushOnce(l, s, false, true);
            && s'.leaked == s.leaked
            && (|s'.inUse| == |s.inUse| + 1 || (s'.inUse == s.inUse && s'.itemCount < s.itemCount))
  {
  }

  datatype Outcome = Got | TryAgain | NoMemory

  class Pool {
    const limits: Limits
    var inUse: seq<Mr>
    var drop: seq<Mr>
    var free: seq<Mr>
    var clean: seq<Mr>
    var itemCount: int
    var freePinned: int
    var dirtyCount: int
    /** Regions the pool has lost track of. */
    ghost var leaked: seq<Mr>
    ghost var cleanTaken: nat

    ghost function View(): State
      reads this
    {
      State(inUse, drop, free, clean, NoFlush, [], 0, 0, itemCount, freePinned, dirtyCount, leaked, cleanTaken)
    }

    ghost predicate Valid()
      reads this
    {
      limits.maxMaps > 0 && Inv(limits, View())
    }

    constructor (maxItems: nat, maxMaps: nat)
      requires maxMaps > 0
      ensures Valid() && Init(View()) && limits == Limits(maxItems, maxMaps)
    {
      limits := Limits(maxItems, maxMaps);
      inUse, drop, free, clean := [], [], [], [];
      itemCount, freePinned, dirtyCount, leaked, cleanTaken := 0, 0, 0, [], 0;
    }

    /** Unmaps and sorts out the gathered regions one by one. */
    method SweepList(list: seq<Mr>, goal: int) returns (kept: seq<Mr>, unpinned: nat, freed: nat)
      ensures kept == Keep(list, goal, 0, limits.maxMaps)
      ensures unpinned == Pinned(list) && freed == |list| - |kept|
    {
      kept, unpinned, freed := [], 0, 0;
      var i := 0;
      while i < |list|
        invariant i <= |list| && freed + |kept| == i
        invariant kept + Keep(list[i..], goal, freed, limits.maxMaps) == Keep(list, goal, 0, limits.maxMaps)
        invariant unpinned + Pinned(list[i..]) == Pinned(list)
      {
        assert list[i..][1..] == list[i + 1..];
        unpinned := unpinned + list[i].sgLen;
        if freed < goal || list[i].remaps >= limits.maxMaps {
          freed := freed + 1;
        } else {
          kept := kept + [Mr(0, list[i].remaps)];
        }
        i := i + 1;
      }
      assert list[i..] == [] && kept + [] == kept;
    }

    /** Takes over the lists a flush works on. */
    method GatherLists(freeAll: bool) returns (list: seq<Mr>)
      modifies this
      ensures View() == Gather(old(View()), freeAll).(flush := NoFlush)
      ensures list == Gather(old(View()), freeAll).flush.list
    {
      list := drop + free;
      drop, free := [], [];
      if freeAll {
        list := list + clean;
        cleanTaken := cleanTaken + |clean|;
        clean := [];
      }
    }

    /** The first region kept goes to the caller or nowhere, the others to the clean list. */
    method PutBack(kept: seq<Mr>, want: bool) returns (got: bool)
      modifies this
      ensures got <==> want && kept != []
      ensures var s := old(View());
              View() == if kept == [] then s
                        else if want then s.(inUse := s.inUse + [kept[0]], clean := kept[1..] + s.clean)
                        else s.(leaked := s.leaked + [kept[0]], clean := kept[1..] + s.clean)
    {
      got := false;
      if kept != [] {
        if want {
          inUse := inUse + [kept[0]];
          got := true;
        } else {
          leaked := leaked + [kept[0]];
        }
        clean := kept[1..] + clean;
      }
    }

    /** The part of a flush that takes the lists over and works on them. */
    method FlushLists(freeAll: bool, want: bool) returns (got: bool)
      modifies this
      ensures View() == Settle(Publish(Sweep(limits, Gather(old(View()), freeAll)), want))
      ensures got <==> inUse != old(inUse)
    {
      got := false;
      var list := GatherLists(freeAll);
      if list == [] {
        return;
      }
      var kept, unpinned, freed := SweepList(list, if freeAll then itemCount else 0);
      got := PutBack(kept, want);
      freePinned := freePinned - unpinned;
      dirtyCount := dirtyCount - |list|;
      itemCount := itemCount - freed;
    }

    /** A flush; the result says whether a caller that wanted a region got one. */
    method FlushPool(freeAll: bool, want: bool) returns (got: bool)
      requires Valid()
      modifies this
      ensures Valid() && View() == FlushOnce(limits, old(View()), freeAll, want)
      ensures got <==> inUse != old(inUse)
      ensures got ==> |inUse| == |old(inUse)| + 1
    {
      FlushOnceKeeps(limits, View(), freeAll, want);
      if want && clean != [] {
        inUse, clean := inUse + [clean[0]], clean[1..];
        got := true;
      } else {
        got := FlushLists(freeAll, want);
      }
    }

    /**
     * Allocation: reuse a clean region, create one within the limit, or flush and try again, twice at
     * most. It reports a depleted pool only when every permitted region is in use or leaked.
     */
    method AllocFmr(created: bool) returns (r: Outcome)
      requires Valid()
      modifies this
      ensures Valid()
      ensures r.TryAgain? <==> |old(inUse)| + |old(leaked)| == limits.maxItems
      ensures r.Got? ==> |inUse| == |old(inUse)| + 1 && Fresh(limits, inUse[|inUse| - 1])
      ensures !r.Got? ==> inUse == old(inUse)
      ensures created ==> !r.NoMemory?
    {
      var iter := 0;
      while true
        invariant Valid() && inUse == old(inUse) && leaked == old(leaked) && 0 <= iter <= 2
        invariant iter > 0 ==> |inUse| + |leaked| == limits.maxItems || itemCount < limits.maxItems
        decreases 3 - iter
      {
        if clean != [] {
          ReuseFmr();
          return Got;
        }
        if itemCount + 1 <= limits.maxItems {
          break;
        }
        iter := iter + 1;
        if iter > 2 {
          return TryAgain;
        }
        if itemCount > |inUse| + |leaked| {
          FlushHelps(limits, View());
        }
        var got := FlushPool(false, true);
        if got {
          assert Fresh(limits, inUse[|inUse| - 1]);
          return Got;
        }
      }
      if !created {
        return NoMemory;
      }
      CreateFmr();
      return Got;
    }

    /** A fresh region within the limit. */
    method CreateFmr()
      requires Valid() && itemCount < limits.maxItems
      modifies this
      ensures Valid() && inUse == old(inUse) + [Mr(0, 0)] && leaked == old(leaked)
    {
      InvStep(limits, View(), TryReserve);
      InvStep(limits, Reserve(limits, View()), Create);
      itemCount := itemCount + 1;
      inUse := inUse + [Mr(0, 0)];
    }

    /** A region off the clean list. */
    method ReuseFmr()
      requires Valid() && clean != []
      modifies this
      ensures Valid() && inUse == old(inUse) + [old(clean)[0]] && Fresh(limits, old(clean)[0])
    {
      InvStep(limits, View(), TakeClean);
      assert clean[0] in clean;
      inUse, clean := inUse + [clean[0]], clean[1..];
    }

    /** A region just allocated is mapped over `pages` pages. */
    method MapFmr(i: nat, pages: nat)
      requires Valid() && i < |inUse| && inUse[i].sgLen == 0 && pages > 0
      modifies this
      ensures Valid() && View() == Apply(limits, old(View()), MapRegion(i, pages))
    {
      InvStep(limits, View(), MapRegion(i, pages));
      inUse := inUse[i := Mr(pages, inUse[i].remaps + 1)];
    }

    /** Puts a region on its list and counts it. */
    method Release(i: nat)
      requires i < |inUse|
      modifies this
      ensures View() == CountFree(PushFree(limits, old(View()), i), 0)
    {
      var m := inUse[i];
      if m.remaps >= limits.maxMaps {
        drop := [m] + drop;
      } else {
        free := [m] + free;
      }
      inUse := Without(inUse, i);
      freePinned := freePinned + m.sgLen;
      dirtyCount := dirtyCount + 1;
    }

    /** Handing a region back; an invalidating caller flushes at once. */
    method FreeMr(i: nat, invalidate: bool)
      requires Valid() && i < |inUse|
      modifies this
      ensures Valid() && inUse == Without(old(inUse), i)
      ensures !invalidate ==> View() == CountFree(PushFree(limits, old(View()), i), 0)
      ensures invalidate ==> free == [] && drop == [] && freePinned == 0
    {
      ReleaseKeeps(limits, View(), i);
      Release(i);
      if invalidate {
        FlushUnpins(limits, View());
        var _ := FlushPool(false, false);
      }
    }

    /** Tearing the pool down once nothing is in use. */
    method Destroy()
      requires Valid() && inUse == []
      modifies this
      ensures Valid() && freePinned == 0 && itemCount == |leaked| == |old(leaked)|
    {
      FlushAllEmpties(limits, View());
      var _ := FlushPool(true, false);
    }
  }
}
