/** Every run of cache operations is safe (libnl/lib/cache.c, hashtable.c, object.c). */
module NlCacheSteps {
  import opened Wrappers
  import opened NlObjects
  import opened NlCache
  import opened NlCacheSafety
  import opened NlCacheRuns

  // ---------- clearing and freeing a cache ----------

  lemma {:induction false} ClearKeeps(s: State, held: multiset<nat>, c: nat, rest: seq<nat>)
    requires Valid(s, held) && c in s.caches && s.caches[c].items == rest
    ensures RemoveAll(s, rest).Ok? && Valid(RemoveAll(s, rest).value, held)
    ensures c in RemoveAll(s, rest).value.caches && RemoveAll(s, rest).value.caches[c].items == []
    decreases |rest|
  {
    if rest != [] {
      assert CacheOk(s, c) && rest[0] in rest;
      assert Member(s, c, rest[0]);
      RemoveKeeps(s, held, c, rest[0]);
      UnlinkedCache(s, held, c, rest[0]);
      assert Drop(rest, 0) == rest[1..];
      ClearKeeps(Unlinked(s, rest[0]), held, c, rest[1..]);
    }
  }

  lemma EmptyChains(s: State, c: nat)
    requires c in s.caches && CacheOk(s, c) && s.caches[c].items == [] && s.caches[c].table.Some?
    ensures forall k :: 0 <= k < |s.caches[c].table.value| ==> s.caches[c].table.value[k] == []
  {
    var table := s.caches[c].table.value;
    forall k | 0 <= k < |table|
      ensures table[k] == []
    {
      assert ChainOk(s, [], k, |table|, table[k]);
      if table[k] != [] {
        Inhabited(table[k]);
      }
    }
  }

  lemma Inhabited(list: seq<nat>)
    requires list != []
    ensures exists o :: o in list
  {
    assert list[0] in list;
  }

  lemma {:induction false} FreeEmptyTable(s: State, chains: seq<seq<nat>>)
    requires forall k :: 0 <= k < |chains| ==> chains[k] == []
    ensures FreeTable(s, chains) == Ok(s)
    decreases |chains|
  {
    if chains != [] {
      assert PutAll(s, chains[0]) == Ok(s);
      FreeEmptyTable(s, chains[1..]);
    }
  }

  lemma WithoutCache(s: State, held: multiset<nat>, c: nat)
    requires Valid(s, held) && c in s.caches && s.caches[c].items == []
    ensures Valid(s.(caches := s.caches - {c}), held)
  {
    var t := s.(caches := s.caches - {c});
    forall d | d in t.caches
      ensures CacheOk(t, d)
    {
      CacheFrame(s, t, d);
    }
    forall o | o in t.objects
      ensures ObjectOk(t, held, o)
    {
      assert ObjectOk(s, held, o);
    }
  }

  /** Freeing a cache gives up exactly its own references. */
  lemma FreeCacheKeeps(s: State, held: multiset<nat>, c: nat)
    requires Valid(s, held) && c in s.caches
    ensures FreeCache(s, c).Ok? && Valid(FreeCache(s, c).value, held)
  {
    ClearKeeps(s, held, c, s.caches[c].items);
    var t := Clear(s, c).value;
    assert CacheOk(t, c);
    if t.caches[c].table.Some? {
      EmptyChains(t, c);
      FreeEmptyTable(t, t.caches[c].table.value);
    }
    WithoutCache(t, held, c);
  }

  lemma AllocCacheKeeps(s: State, held: multiset<nat>, c: nat, kind: Kind, actions: map<nat, Action>, size: Option<nat>)
    requires Valid(s, held) && c !in s.caches && (size.Some? ==> size.value > 0)
    ensures Valid(AllocCache(s, c, kind, actions, size), held)
  {
    var t := AllocCache(s, c, kind, actions, size);
    forall d | d in t.caches
      ensures CacheOk(t, d)
    {
      if d != c {
        CacheFrame(s, t, d);
      }
    }
    forall o | o in t.objects
      ensures ObjectOk(t, held, o)
    {
      assert ObjectOk(s, held, o);
    }
  }

  // ---------- marks ----------

  lemma MarkKeeps(s: State, held: multiset<nat>, o: nat)
    requires Valid(s, held) && o in s.objects
    ensures Mark(s, o).Ok? && Valid(Mark(s, o).value, held)
  {
    var t := Mark(s, o).value;
    forall d | d in t.caches
      ensures CacheOk(t, d)
    {
      CacheFrame(s, t, d);
    }
    forall p | p in t.objects
      ensures ObjectOk(t, held, p)
    {
      assert ObjectOk(s, held, p);
    }
  }

  lemma {:induction false} MarkAllKeeps(s: State, held: multiset<nat>, rest: seq<nat>)
    requires Valid(s, held) && forall o :: o in rest ==> o in s.objects
    ensures MarkAll(s, rest).Ok? && Valid(MarkAll(s, rest).value, held)
    ensures MarkAll(s, rest).value.caches == s.caches && MarkAll(s, rest).value.objects.Keys == s.objects.Keys
    decreases |rest|
  {
    if rest != [] {
      MarkKeeps(s, held, rest[0]);
      MarkAllKeeps(Mark(s, rest[0]).value, held, rest[1..]);
    }
  }

  // ---------- picking up ----------

  lemma PickupCheckDupKeeps(s: State, held: multiset<nat>, c: nat, o: nat)
    requires Valid(s, held) && c in s.caches && o in held
    ensures PickupCheckDup(s, c, o).Ok? && Valid(PickupCheckDup(s, c, o).value.0, held)
  {
    SearchKeeps(s, held, c, o);
    var found := Listed(s, s.caches[c].items, o);
    if found.None? {
      AddKeeps(s, held, c, o);
    } else {
      var prior, more := found.value, held + multiset{found.value};
      var t := Get(s, prior).value;
      RemoveKeeps(t, more, c, prior);
      PutKeeps(Unlinked(t, prior), more, prior);
      assert more - multiset{prior} == held;
      AddKeeps(Put(Unlinked(t, prior), prior).value, held, c, o);
    }
  }

  /** The same caches of the same kinds, with or without hash tables. */
  ghost predicate SameCaches(s: State, t: State)
  {
    && t.caches.Keys == s.caches.Keys
    && forall c :: c in s.caches ==>
                     && t.caches[c].kind == s.caches[c].kind && t.caches[c].actions == s.caches[c].actions
                     && (t.caches[c].table.Some? <==> s.caches[c].table.Some?)
  }

  lemma InsertSameCaches(s: State, c: nat, o: nat)
    requires Insert(s, c, o).Ok?
    ensures SameCaches(s, Insert(s, c, o).value.0)
  {
  }

  lemma HashDelSameCaches(s: State, c: nat, o: nat)
    requires HashDel(s, c, o).Ok?
    ensures SameCaches(s, HashDel(s, c, o).value)
  {
  }

  lemma RemoveSameCaches(s: State, o: nat)
    requires Remove(s, o).Ok?
    ensures SameCaches(s, Remove(s, o).value)
  {
    var c := s.objects[o].cache;
    if c.Some? {
      HashDelSameCaches(s, c.value, o);
    }
  }

  lemma MoveSameCaches(s: State, c: nat, o: nat)
    requires Move(s, c, o).Ok?
    ensures SameCaches(s, Move(s, c, o).value.0)
  {
    if s.caches[c].kind == s.objects[o].data.kind {
      if s.objects[o].listed {
        RemoveSameCaches(Get(s, o).value, o);
      }
      InsertSameCaches(Loose(s, o).value, c, o);
    }
  }

  lemma ReplaceSameCaches(s: State, c: nat, prior: nat, o: nat)
    requires Replace(s, c, prior, o).Ok?
    ensures SameCaches(s, Replace(s, c, prior, o).value.0)
  {
    RemoveSameCaches(s, prior);
    MoveSameCaches(Remove(s, prior).value, c, o);
  }

  lemma IncludeNewSameCaches(s: State, c: nat, o: nat)
    requires IncludeNew(s, c, o).Ok?
    ensures SameCaches(s, IncludeNew(s, c, o).value.0)
  {
    var found := Search(s, c, o).value;
    if found.1.Some? {
      ReplaceSameCaches(found.0, c, found.1.value, o);
    } else {
      MoveSameCaches(found.0, c, o);
    }
  }

  lemma IncludeDelSameCaches(s: State, c: nat, o: nat)
    requires IncludeDel(s, c, o).Ok?
    ensures SameCaches(s, IncludeDel(s, c, o).value.0)
  {
    var found := Search(s, c, o).value;
    if found.1.Some? {
      RemoveSameCaches(found.0, found.1.value);
    }
  }

  lemma IncludeSameCaches(s: State, c: nat, o: nat)
    requires Include(s, c, o).Ok?
    ensures SameCaches(s, Include(s, c, o).value.0)
  {
    if IncludeNew(s, c, o).Ok? {
      IncludeNewSameCaches(s, c, o);
    }
    if IncludeDel(s, c, o).Ok? {
      IncludeDelSameCaches(s, c, o);
    }
  }

  lemma PickupKeeps(s: State, held: multiset<nat>, c: nat, data: Data)
    requires Valid(s, held) && c in s.caches
    ensures Pickup(s, c, data).Ok? && Valid(Pickup(s, c, data).value.0, held)
    ensures SameCaches(s, Pickup(s, c, data).value.0)
  {
    var t, o := Alloc(s, data).0, s.next;
    AllocKeeps(s, held, data);
    IncludeKeeps(t, held + multiset{o}, c, o);
    IncludeSameCaches(t, c, o);
    PutKeeps(Include(t, c, o).value.0, held + multiset{o}, o);
    assert held + multiset{o} - multiset{o} == held;
  }

  lemma {:induction false} PickupAllKeeps(s: State, held: multiset<nat>, c: nat, dump: seq<Data>)
    requires Valid(s, held) && c in s.caches
    ensures PickupAll(s, c, dump).Ok? && Valid(PickupAll(s, c, dump).value.0, held)
    ensures SameCaches(s, PickupAll(s, c, dump).value.0)
    decreases |dump|
  {
    if dump != [] {
      PickupKeeps(s, held, c, dump[0]);
      PickupAllKeeps(Pickup(s, c, dump[0]).value.0, held, c, dump[1..]);
    }
  }

  /** Everything but `o` is untouched. */
  ghost predicate OnlyAt(s: State, t: State, o: nat)
  {
    forall p :: p != o && p in s.objects ==> p in t.objects && t.objects[p] == s.objects[p]
  }

  lemma ExpelKeeps(s: State, held: multiset<nat>, c: nat, o: nat)
    requires Valid(s, held) && Member(s, c, o) && Get(s, o).Ok?
    ensures var t := Get(s, o).value;
            && Remove(t, o).Ok? && o in Remove(t, o).value.objects && c in Remove(t, o).value.caches
            && Valid(Remove(t, o).value, held + multiset{o}) && OnlyAt(s, Remove(t, o).value, o)
  {
    GetKeeps(s, held, o);
    var t, more := Get(s, o).value, held + multiset{o};
    RemoveKeeps(t, more, c, o);
    RemoveLess(t, more, c, o);
  }

  /** A marked object leaves its cache; everything else is untouched. */
  lemma SweepOneKeeps(s: State, held: multiset<nat>, c: nat, o: nat)
    requires Valid(s, held) && Member(s, c, o)
    ensures SweepOne(s, o).Ok? && Valid(SweepOne(s, o).value.0, held)
    ensures OnlyAt(s, SweepOne(s, o).value.0, o)
  {
    if s.objects[o].marked {
      ExpelKeeps(s, held, c, o);
      PutKeeps(Remove(Get(s, o).value, o).value, held + multiset{o}, o);
      assert held + multiset{o} - multiset{o} == held;
    }
  }

  lemma {:induction false} SweepKeeps(s: State, held: multiset<nat>, c: nat, rest: seq<nat>)
    requires Valid(s, held) && Distinct(rest) && forall o :: o in rest ==> Member(s, c, o)
    ensures Sweep(s, rest).Ok? && Valid(Sweep(s, rest).value.0, held)
    decreases |rest|
  {
    if rest != [] {
      assert Member(s, c, rest[0]);
      SweepOneKeeps(s, held, c, rest[0]);
      var t := SweepOne(s, rest[0]).value.0;
      forall o | o in rest[1..]
        ensures Member(t, c, o)
      {
        assert o != rest[0] && o in rest;
      }
      SweepKeeps(t, held, c, rest[1..]);
    }
  }

  lemma ResyncKeeps(s: State, held: multiset<nat>, c: nat, dump: seq<Data>)
    requires Valid(s, held) && c in s.caches
    ensures Resync(s, c, dump).Ok? && Valid(Resync(s, c, dump).value.0, held)
  {
    assert CacheOk(s, c);
    assert forall o :: o in s.caches[c].items ==> Member(s, c, o);
    MarkAllKeeps(s, held, s.caches[c].items);
    var t := MarkAll(s, s.caches[c].items).value;
    PickupAllKeeps(t, held, c, dump);
    var u := PickupAll(t, c, dump).value.0;
    assert CacheOk(u, c);
    SweepKeeps(u, held, c, u.caches[c].items);
  }

  // ---------- runs ----------

  /** What callers can do, at any time and in any order. */
  datatype Step =
    | StepAlloc(data: Data)
    | StepGet(o: nat)
    | StepPut(o: nat)
    | StepMark(o: nat)
    | StepAllocCache(c: nat, kind: Kind, actions: map<nat, Action>, size: Option<nat>)
    | StepFreeCache(c: nat)
    | StepAdd(c: nat, o: nat)
    | StepMove(c: nat, o: nat)
    | StepRemove(o: nat)
    | StepClear(c: nat)
    | StepSearch(c: nat, o: nat)
    | StepInclude(c: nat, o: nat)
    | StepCheckDup(c: nat, o: nat)
    | StepResync(c: nat, dump: seq<Data>)

  /** What a step demands of the caller: objects and caches that exist, and for putting an object
      or handing it to the parser callback, a reference. A table has at least one chain. */
  ghost predicate Allowed(s: State, held: multiset<nat>, step: Step)
  {
    match step
    case StepAlloc(_) => true
    case StepGet(o) => o in s.objects
    case StepPut(o) => o in held
    case StepMark(o) => o in s.objects
    case StepAllocCache(c, _, _, size) => c !in s.caches && (size.Some? ==> size.value > 0)
    case StepFreeCache(c) => c in s.caches
    case StepAdd(c, o) => c in s.caches && o in s.objects
    case StepMove(c, o) => c in s.caches && o in s.objects
    case StepRemove(o) => o in s.objects
    case StepClear(c) => c in s.caches
    case StepSearch(c, o) => c in s.caches && o in s.objects
    case StepInclude(c, o) => c in s.caches && o in s.objects
    case StepCheckDup(c, o) => c in s.caches && o in held
    case StepResync(c, _) => c in s.caches
  }

  function Fst<T>(r: Result<(State, T), Crash>): Result<State, Crash>
  {
    var pair :- r;
    Ok(pair.0)
  }

  /** The state a step leads to. */
  function After(s: State, step: Step): Result<State, Crash>
  {
    match step
    case StepAlloc(data) => Ok(Alloc(s, data).0)
    case StepGet(o) => Get(s, o)
    case StepPut(o) => Put(s, o)
    case StepMark(o) => Mark(s, o)
    case StepAllocCache(c, kind, actions, size) => Ok(AllocCache(s, c, kind, actions, size))
    case StepFreeCache(c) => FreeCache(s, c)
    case StepAdd(c, o) => Fst(Add(s, c, o))
    case StepMove(c, o) => Fst(Move(s, c, o))
    case StepRemove(o) => Remove(s, o)
    case StepClear(c) => Clear(s, c)
    case StepSearch(c, o) => Fst(Search(s, c, o))
    case StepInclude(c, o) => var r :- Include(s, c, o); Ok(r.0)
    case StepCheckDup(c, o) => Fst(PickupCheckDup(s, c, o))
    case StepResync(c, dump) => var r :- Resync(s, c, dump); Ok(r.0)
  }

  /** The references in callers' hands after a step. A refused move leaves one more. */
  ghost function HeldAfter(s: State, held: multiset<nat>, step: Step): multiset<nat>
  {
    match step
    case StepAlloc(_) => held + multiset{s.next}
    case StepGet(o) => held + multiset{o}
    case StepPut(o) => held - multiset{o}
    case StepMove(c, o) =>
      if c in s.caches && o in s.objects && MoveRefused(s, c, o) then held + multiset{o} else held
    case StepSearch(c, o) =>
      if Search(s, c, o).Ok? && Search(s, c, o).value.1.Some? then held + multiset{Search(s, c, o).value.1.value}
      else held
    case _ => held
  }

  lemma RemoveStepKeeps(s: State, held: multiset<nat>, o: nat)
    requires Valid(s, held) && o in s.objects
    ensures Remove(s, o).Ok? && Valid(Remove(s, o).value, held)
  {
    if s.objects[o].cache.Some? {
      RemoveKeeps(s, held, s.objects[o].cache.value, o);
    }
  }

  lemma StepKeeps(s: State, held: multiset<nat>, step: Step)
    requires Valid(s, held) && Allowed(s, held, step)
    ensures After(s, step).Ok? && Valid(After(s, step).value, HeldAfter(s, held, step))
  {
    match step {
      case StepAlloc(data) => AllocKeeps(s, held, data);
      case StepGet(o) => GetKeeps(s, held, o);
      case StepPut(o) => PutKeeps(s, held, o);
      case StepMark(o) => MarkKeeps(s, held, o);
      case StepAllocCache(c, kind, actions, size) => AllocCacheKeeps(s, held, c, kind, actions, size);
      case StepFreeCache(c) => FreeCacheKeeps(s, held, c);
      case StepAdd(c, o) => AddKeeps(s, held, c, o);
      case StepMove(c, o) => MoveKeeps(s, held, c, o);
      case StepRemove(o) => RemoveStepKeeps(s, held, o);
      case StepClear(c) => ClearKeeps(s, held, c, s.caches[c].items);
      case StepSearch(c, o) => SearchKeeps(s, held, c, o);
      case StepInclude(c, o) => IncludeKeeps(s, held, c, o);
      case StepCheckDup(c, o) => PickupCheckDupKeeps(s, held, c, o);
      case StepResync(c, dump) => ResyncKeeps(s, held, c, dump);
    }
  }

  /** Every step is allowed when its turn comes. */
  ghost predicate AllowedRun(s: State, held: multiset<nat>, run: seq<Step>)
    decreases |run|
  {
    run != [] ==>
      && Allowed(s, held, run[0])
      && (After(s, run[0]).Ok? ==> AllowedRun(After(s, run[0]).value, HeldAfter(s, held, run[0]), run[1..]))
  }

  /** Where a run ends, with the references callers then hold. */
  ghost function Run(s: State, held: multiset<nat>, run: seq<Step>): Result<(State, multiset<nat>), Crash>
    decreases |run|
  {
    if run == [] then Ok((s, held))
    else
      var t :- After(s, run[0]);
      Run(t, HeldAfter(s, held, run[0]), run[1..])
  }

  lemma {:induction false} RunKeeps(s: State, held: multiset<nat>, run: seq<Step>)
    requires Valid(s, held) && AllowedRun(s, held, run)
    ensures Run(s, held, run).Ok? && Valid(Run(s, held, run).value.0, Run(s, held, run).value.1)
    decreases |run|
  {
    if run != [] {
      StepKeeps(s, held, run[0]);
      RunKeeps(After(s, run[0]).value, HeldAfter(s, held, run[0]), run[1..]);
    }
  }

  /** Reference conservation and memory safety over every run from empty memory: no step touches
      freed memory or runs into BUG(), and in the end every live object's count is what callers hold
      plus one for the list and one for the hash table it is in. */
  lemma EveryRunConserves(keygen: (Kind, Attrs) -> nat, run: seq<Step>)
    requires AllowedRun(State(keygen, map[], map[], 0), multiset{}, run)
    ensures Run(State(keygen, map[], map[], 0), multiset{}, run).Ok?
    ensures var (s, held) := Run(State(keygen, map[], map[], 0), multiset{}, run).value;
            && (forall o :: o in held ==> o in s.objects)
            && (forall o :: o in s.objects ==>
                              && s.objects[o].refCount == held[o] + Stored(s, s.objects[o].cache) > 0
                              && forall c :: c in s.caches ==> (o in s.caches[c].items <==> s.objects[o].cache == Some(c)))
  {
    RunKeeps(State(keygen, map[], map[], 0), multiset{}, run);
    var (s, held) := Run(State(keygen, map[], map[], 0), multiset{}, run).value;
    forall o | o in s.objects
      ensures s.objects[o].refCount == held[o] + Stored(s, s.objects[o].cache) > 0
      ensures forall c :: c in s.caches ==> (o in s.caches[c].items <==> s.objects[o].cache == Some(c))
    {
      assert ObjectOk(s, held, o);
      forall c | c in s.caches
        ensures o in s.caches[c].items <==> s.objects[o].cache == Some(c)
      {
        assert CacheOk(s, c);
        assert o in s.caches[c].items ==> Member(s, c, o);
      }
    }
  }

  /** The index agrees with the list in every reachable state: the chains hold exactly the items,
      each in the chain of its key and once, no two items are identical, c_nitems counts them, and
      the fast lookup finds what a scan of the list finds. */
  lemma EveryRunIndexed(keygen: (Kind, Attrs) -> nat, run: seq<Step>, c: nat)
    requires AllowedRun(State(keygen, map[], map[], 0), multiset{}, run)
    ensures Run(State(keygen, map[], map[], 0), multiset{}, run).Ok?
    ensures var s := Run(State(keygen, map[], map[], 0), multiset{}, run).value.0;
            c in s.caches ==>
              var ca := s.caches[c];
              && Distinct(ca.items) && ca.count == |ca.items|
              && (ca.table.Some? ==> TableOk(s, ca.items, ca.table.value))
              && forall o :: o in s.objects ==> Find(s, c, o) == Ok(Listed(s, ca.items, o))
  {
    RunKeeps(State(keygen, map[], map[], 0), multiset{}, run);
    var (s, held) := Run(State(keygen, map[], map[], 0), multiset{}, run).value;
    if c in s.caches {
      assert CacheOk(s, c);
      forall o | o in s.objects
        ensures Find(s, c, o) == Ok(Listed(s, s.caches[c].items, o))
      {
        FastLookupAgrees(s, held, c, o);
      }
    }
  }
}
