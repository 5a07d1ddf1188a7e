/** Runs from empty memory that end where the cache does not do what one would expect
    (libnl/lib/cache.c). */
module NlCacheReached {
  import opened Wrappers
  import opened NlObjects
  import opened NlCache
  import opened NlCacheSafety
  import opened NlCacheRuns
  import opened NlCacheSteps
  import opened NlContents
  import opened NlCacheResync
  import opened NlCacheDuplicates

  function Nothing(keygen: (Kind, Attrs) -> nat): State
  {
    State(keygen, map[], map[], 0)
  }

  /** The run leads from empty memory to `s`, with the references `held` in the hands of callers. */
  ghost predicate Reached(keygen: (Kind, Attrs) -> nat, run: seq<Step>, s: State, held: multiset<nat>)
  {
    AllowedRun(Nothing(keygen), multiset{}, run) && Run(Nothing(keygen), multiset{}, run) == Ok((s, held))
  }

  lemma {:induction false} RunSnoc(s: State, held: multiset<nat>, run: seq<Step>, t: State, more: multiset<nat>, step: Step)
    requires AllowedRun(s, held, run) && Run(s, held, run) == Ok((t, more))
    requires Allowed(t, more, step) && After(t, step).Ok?
    ensures AllowedRun(s, held, run + [step])
    ensures Run(s, held, run + [step]) == Ok((After(t, step).value, HeldAfter(t, more, step)))
    decreases |run|
  {
    if run == [] {
      assert [] + [step] == [step] && [step][1..] == [];
      assert AllowedRun(After(t, step).value, HeldAfter(t, more, step), []);
    } else {
      assert (run + [step])[0] == run[0] && (run + [step])[1..] == run[1..] + [step];
      RunSnoc(After(s, run[0]).value, HeldAfter(s, held, run[0]), run[1..], t, more, step);
    }
  }

  /** One step more. */
  lemma Onwards(keygen: (Kind, Attrs) -> nat, run: seq<Step>, s: State, held: multiset<nat>, step: Step)
    returns (t: State, more: multiset<nat>)
    requires Reached(keygen, run, s, held) && Valid(s, held) && Allowed(s, held, step)
    ensures After(s, step) == Ok(t) && more == HeldAfter(s, held, step)
    ensures Reached(keygen, run + [step], t, more) && Valid(t, more)
  {
    StepKeeps(s, held, step);
    RunSnoc(Nothing(keygen), multiset{}, run, s, held, step);
    t, more := After(s, step).value, HeldAfter(s, held, step);
  }

  /** The objects live are `data`, by address, and more have not been handed out. */
  ghost predicate Live(s: State, data: seq<Data>)
  {
    s.next == |data| && forall o :: (o in s.objects <==> 0 <= o < |data|) && (o in s.objects ==> s.objects[o].data == data[o])
  }

  /** Cache 0 has that kind, those message types, a hash table or none, and those items. */
  ghost predicate Holds(s: State, kind: Kind, actions: map<nat, Action>, hashed: bool, items: seq<nat>)
  {
    && 0 in s.caches && s.caches[0].kind == kind && s.caches[0].actions == actions
    && s.caches[0].table.Some? == hashed && s.caches[0].items == items
  }

  lemma EmptyCache(keygen: (Kind, Attrs) -> nat, kind: Kind, actions: map<nat, Action>, size: Option<nat>)
    returns (s: State, held: multiset<nat>)
    requires size.Some? ==> size.value > 0
    ensures Reached(keygen, [StepAllocCache(0, kind, actions, size)], s, held) && Valid(s, held) && held == multiset{}
    ensures Live(s, []) && Holds(s, kind, actions, size.Some?, [])
  {
    assert Reached(keygen, [], Nothing(keygen), multiset{});
    s, held := Onwards(keygen, [], Nothing(keygen), multiset{}, StepAllocCache(0, kind, actions, size));
    assert [] + [StepAllocCache(0, kind, actions, size)] == [StepAllocCache(0, kind, actions, size)];
  }

  lemma OneMoreObject(keygen: (Kind, Attrs) -> nat, run: seq<Step>, s: State, held: multiset<nat>, all: seq<Data>,
                      data: Data)
    returns (t: State, more: multiset<nat>)
    requires Reached(keygen, run, s, held) && Valid(s, held) && Live(s, all)
    ensures Reached(keygen, run + [StepAlloc(data)], t, more) && Valid(t, more) && more == held + multiset{|all|}
    ensures t == Alloc(s, data).0
  {
    t, more := Onwards(keygen, run, s, held, StepAlloc(data));
  }

  lemma OneMoreLive(s: State, all: seq<Data>, data: Data)
    requires Live(s, all)
    ensures Live(Alloc(s, data).0, all + [data]) && !Alloc(s, data).0.objects[|all|].listed
    ensures Alloc(s, data).0.caches == s.caches
  {
  }

  /** The object is moved into the cache. */
  lemma MovedIn(keygen: (Kind, Attrs) -> nat, run: seq<Step>, s: State, held: multiset<nat>, o: nat)
    returns (t: State)
    requires Reached(keygen, run, s, held) && Valid(s, held) && 0 in s.caches && o in s.objects && o in held
    requires !MoveRefused(s, 0, o)
    ensures Reached(keygen, run + [StepMove(0, o)], t, held) && Valid(t, held)
    ensures Move(s, 0, o).Ok? && t == Move(s, 0, o).value.0
  {
    var more;
    t, more := Onwards(keygen, run, s, held, StepMove(0, o));
  }

  lemma InsertNext(s: State, c: nat, o: nat)
    requires Insert(s, c, o).Ok?
    ensures Insert(s, c, o).value.0.next == s.next
  {
  }

  lemma MovedLive(s: State, held: multiset<nat>, all: seq<Data>, o: nat)
    requires Valid(s, held) && 0 in s.caches && o in s.objects && s.objects[o].data.kind == s.caches[0].kind
    requires Live(s, all) && !MoveRefused(s, 0, o)
    ensures Move(s, 0, o).Ok? && Live(Move(s, 0, o).value.0, all)
  {
    LooseKeeps(s, held, o);
    var u := Loose(s, o).value;
    DuplicateAfterLoose(s, u, held, held + multiset{o}, 0, o);
    MoveSucceeds(s, held, 0, o);
    InsertNext(u, 0, o);
    forall p
      ensures p in u.objects <==> p in s.objects
    {
    }
  }

  lemma MovedHolds(s: State, held: multiset<nat>, kind: Kind, actions: map<nat, Action>, hashed: bool, items: seq<nat>,
                   o: nat)
    requires Valid(s, held) && o in held && o in s.objects && !s.objects[o].listed && s.objects[o].data.kind == kind
    requires Holds(s, kind, actions, hashed, items) && !MoveRefused(s, 0, o)
    ensures Move(s, 0, o).Ok? && Holds(Move(s, 0, o).value.0, kind, actions, hashed, items + [o])
  {
    assert ObjectOk(s, held, o);
    NotDuplicate(s, held, o);
    MoveFresh(s, held, 0, o);
    MoveSameCaches(s, 0, o);
  }

  lemma NotDuplicate(s: State, held: multiset<nat>, o: nat)
    requires Valid(s, held) && 0 in s.caches && o in s.objects && s.objects[o].cache.None?
    requires s.caches[0].kind == s.objects[o].data.kind && !MoveRefused(s, 0, o)
    ensures !Duplicate(s, 0, o)
  {
    assert CacheOk(s, 0);
    assert forall p :: p in s.caches[0].items ==> Member(s, 0, p) && p != o;
  }

  // ---------- a cache with one item ----------

  /** A cache, an object moved into it, and one more object. */
  function Beginning(data: Data, actions: map<nat, Action>, size: Option<nat>, second: Data): seq<Step>
  {
    [StepAllocCache(0, data.kind, actions, size)] + [StepAlloc(data)] + [StepMove(0, 0)] + [StepAlloc(second)]
  }

  lemma FirstIn(keygen: (Kind, Attrs) -> nat, data: Data, actions: map<nat, Action>, size: Option<nat>)
    returns (s: State, held: multiset<nat>)
    requires size.Some? ==> size.value > 0
    ensures Reached(keygen, [StepAllocCache(0, data.kind, actions, size)] + [StepAlloc(data)] + [StepMove(0, 0)], s, held)
    ensures Valid(s, held) && held == multiset{0} && Live(s, [data])
    ensures Holds(s, data.kind, actions, size.Some?, [0])
  {
    var first := [StepAllocCache(0, data.kind, actions, size)];
    var s0, held0 := EmptyCache(keygen, data.kind, actions, size);
    var s1, held1 := OneMoreObject(keygen, first, s0, held0, [], data);
    OneMoreLive(s0, [], data);
    assert [] + [data] == [data];
    assert 0 in s1.objects && s1.objects[0].data == [data][0];
    assert !MoveRefused(s1, 0, 0);
    held := held1;
    s := MovedIn(keygen, first + [StepAlloc(data)], s1, held1, 0);
    MovedLive(s1, held1, [data], 0);
    MovedHolds(s1, held1, data.kind, actions, size.Some?, [], 0);
    assert [] + [0] == [0];
  }

  lemma SecondThere(keygen: (Kind, Attrs) -> nat, data: Data, actions: map<nat, Action>, size: Option<nat>, second: Data)
    returns (s: State, held: multiset<nat>)
    requires size.Some? ==> size.value > 0
    ensures Reached(keygen, Beginning(data, actions, size, second), s, held) && Valid(s, held)
    ensures held == multiset{0, 1} && Live(s, [data, second]) && !s.objects[1].listed
    ensures Holds(s, data.kind, actions, size.Some?, [0])
  {
    var s0, held0 := FirstIn(keygen, data, actions, size);
    s, held := OneMoreObject(keygen, [StepAllocCache(0, data.kind, actions, size)] + [StepAlloc(data)] + [StepMove(0, 0)],
                             s0, held0, [data], second);
    OneMoreLive(s0, [data], second);
    assert [data] + [second] == [data, second];
  }

  lemma Twins(s: State, data: Data)
    requires Live(s, [data, data]) && data.kind.comparable
    ensures Same(s, 0, 1)
  {
    assert s.objects[0].data == [data, data][0] && s.objects[1].data == [data, data][1];
    IdenticalIsSameIdentity(0, data, 1, data);
  }

  // ---------- what goes wrong ----------

  /** A second object of the same identity is not moved into the hashed cache. Its creator gives back
      the one reference it has ever had, and the object is still there, in no cache, with a count
      of one. */
  lemma MoveLeaks(keygen: (Kind, Attrs) -> nat, data: Data, actions: map<nat, Action>)
    returns (run: seq<Step>, s: State, held: multiset<nat>)
    requires data.kind.comparable
    ensures run == Beginning(data, actions, Some(1), data) + [StepMove(0, 1)] + [StepPut(1)]
    ensures Reached(keygen, run, s, held)
    ensures 1 in s.objects && s.objects[1].cache == None && s.objects[1].refCount == 1
  {
    var begin := Beginning(data, actions, Some(1), data);
    var s0, held0 := SecondThere(keygen, data, actions, Some(1), data);
    Twins(s0, data);
    assert 0 in s0.caches[0].items;
    assert s0.objects[1].data == [data, data][1];
    assert MoveRefused(s0, 0, 1);
    var s1, held1 := Onwards(keygen, begin, s0, held0, StepMove(0, 1));
    RefusedLeaves(s0, held0, s1, 1);
    s, held := Onwards(keygen, begin + [StepMove(0, 1)], s1, held1, StepPut(1));
    run := begin + [StepMove(0, 1)] + [StepPut(1)];
    PutKeeps(s1, held1, 1);
    PutLeaves(s1, s, 1);
    assert ObjectOk(s, held, 1);
  }

  lemma PutLeaves(s: State, t: State, o: nat)
    requires o in s.objects && Put(s, o) == Ok(t) && o in t.objects
    ensures t.objects[o].cache == s.objects[o].cache
  {
  }

  /** A refused object is left out of every cache. */
  lemma RefusedLeaves(s: State, held: multiset<nat>, t: State, o: nat)
    requires Valid(s, held) && 0 in s.caches && o in s.objects && MoveRefused(s, 0, o)
    requires After(s, StepMove(0, o)) == Ok(t)
    ensures o in t.objects && t.objects[o].cache.None?
  {
    LooseKeeps(s, held, o);
    var u := Loose(s, o).value;
    DuplicateAfterLoose(s, u, held, held + multiset{o}, 0, o);
    InsertRefused(u, held + multiset{o}, 0, o);
  }

  /** The same two objects are both moved into a cache without hash table. A dump that names their
      identity once then ends with a log that does not lead from the old contents to the new. */
  lemma DuplicatesReached(keygen: (Kind, Attrs) -> nat, data: Data, actions: map<nat, Action>)
    returns (run: seq<Step>, s: State, held: multiset<nat>, w: State, log: seq<Event>)
    requires data.kind.comparable && data.msgType in actions && actions[data.msgType] == New
    ensures run == Beginning(data, actions, None, data) + [StepMove(0, 1)] && Reached(keygen, run, s, held)
    ensures Holds(s, data.kind, actions, false, [0, 1]) && Same(s, 0, 1) && AllLive(s, [0, 1])
    ensures Resync(s, 0, [data]) == Ok((w, Success, log)) && 0 in w.caches && AllLive(w, w.caches[0].items)
    ensures Replay(Contents(View(s, [0, 1]), true), log) != Some(Contents(View(w, w.caches[0].items), true))
  {
    var begin := Beginning(data, actions, None, data);
    var s0, held0 := SecondThere(keygen, data, actions, None, data);
    assert s0.objects[1].data == [data, data][1];
    s := MovedIn(keygen, begin, s0, held0, 1);
    held := held0;
    MovedLive(s0, held0, [data, data], 1);
    MovedHolds(s0, held0, data.kind, actions, false, [0], 1);
    assert [0] + [1] == [0, 1];
    run := begin + [StepMove(0, 1)];
    Twins(s, data);
    TwinsSound(s, held, data, actions);
    w, log := DuplicatesLoseTrack(s, held, 0, 0, 1, data);
  }

  lemma TwinsSound(s: State, held: multiset<nat>, data: Data, actions: map<nat, Action>)
    requires Valid(s, held) && Live(s, [data, data]) && Holds(s, data.kind, actions, false, [0, 1])
    requires data.kind.comparable
    ensures Sound(s, held, 0) && AllLive(s, [0, 1])
    ensures View(s, [0, 1])[0].data == View(s, [0, 1])[1].data == data
  {
    assert s.objects[0].data == [data, data][0] && s.objects[1].data == [data, data][1];
  }

  /** An object, and a filter without attributes that matches it: trying the filter on the items finds
      the object, and nl_cache_find finds nothing. */
  lemma ShortcutMissesInRun(keygen: (Kind, Attrs) -> nat, data: Data, actions: map<nat, Action>, filter: Data)
    returns (run: seq<Step>, s: State, held: multiset<nat>)
    requires data.kind.comparable && data.idAttrs.None? && data.attrs != map[]
    requires filter.kind == data.kind && filter.idAttrs.None? && filter.attrs == map[]
    ensures run == Beginning(data, actions, Some(1), filter) && Reached(keygen, run, s, held)
    ensures Holds(s, data.kind, actions, true, [0])
    ensures FindMatch(s, 0, 1) == Ok(None) && FirstMatch(s, [0], 1) == Some(0)
  {
    run := Beginning(data, actions, Some(1), filter);
    s, held := SecondThere(keygen, data, actions, Some(1), filter);
    assert s.objects[0].data == [data, filter][0] && s.objects[1].data == [data, filter][1];
    ShortcutMisses(s, held, 0, 1);
    assert MatchesFilter(data, filter);
  }

  // ---------- clones ----------

  /** nl_cache_add appends the object itself, or a clone of one that was ever in a list. */
  lemma AddTakes(s: State, held: multiset<nat>, c: nat, o: nat)
    requires Valid(s, held) && c in s.caches && o in s.objects && s.caches[c].kind == s.objects[o].data.kind
    ensures Add(s, c, o).Ok? && c in Add(s, c, o).value.0.caches
    ensures Add(s, c, o).value.1 == Success ==>
              Add(s, c, o).value.0.caches[c].items == s.caches[c].items + [if s.objects[o].listed then s.next else o]
  {
    AddKeeps(s, held, c, o);
    if s.objects[o].listed {
      InsertOrPutItems(Alloc(s, s.objects[o].data).0, c, s.next);
    } else {
      InsertOrPutItems(Get(s, o).value, c, o);
    }
  }

  lemma InsertOrPutItems(s: State, c: nat, o: nat)
    requires c in s.caches && InsertOrPut(s, c, o).Ok?
    ensures c in InsertOrPut(s, c, o).value.0.caches
    ensures InsertOrPut(s, c, o).value.1 == Success ==>
              InsertOrPut(s, c, o).value.0.caches[c].items == s.caches[c].items + [o]
  {
  }

  lemma StillListed(s: State, held: multiset<nat>, t: State, o: nat)
    requires Valid(s, held) && o in s.objects && s.objects[o].cache == Some(0) && 0 in s.caches && o in held
    requires Remove(s, o) == Ok(t)
    ensures o in t.objects && t.objects[o].listed && t.objects[o].data == s.objects[o].data
    ensures 0 in t.caches && t.caches[0].kind == s.caches[0].kind && t.caches[0].table.Some? == s.caches[0].table.Some?
    ensures t.caches[0].items == Drop(s.caches[0].items, PositionOf(s.caches[0].items, o))
  {
    assert ObjectOk(s, held, o);
    RemoveKeeps(s, held, 0, o);
    UnlinkedCache(s, held, 0, o);
  }

  lemma AddSucceeds(s: State, held: multiset<nat>, o: nat)
    requires Valid(s, held) && 0 in s.caches && o in s.objects && s.caches[0].kind == s.objects[o].data.kind
    requires s.caches[0].table.None? && s.objects[o].listed
    ensures Add(s, 0, o).Ok? && Add(s, 0, o).value.1 == Success
  {
  }

  /** An object is moved into a cache, removed, and added again: the cache then holds a clone. */
  lemma ClonedInRun(keygen: (Kind, Attrs) -> nat, data: Data, actions: map<nat, Action>)
    returns (run: seq<Step>, s: State, held: multiset<nat>)
    ensures run == [StepAllocCache(0, data.kind, actions, None)] + [StepAlloc(data)] + [StepMove(0, 0)]
                   + [StepRemove(0)] + [StepAdd(0, 0)]
    ensures Reached(keygen, run, s, held)
    ensures 0 in s.caches && s.caches[0].items != [0] && |s.caches[0].items| == 1 && 0 in held
  {
    var begin := [StepAllocCache(0, data.kind, actions, None)] + [StepAlloc(data)] + [StepMove(0, 0)];
    var s0, held0 := FirstIn(keygen, data, actions, None);
    assert CacheOk(s0, 0);
    assert 0 in s0.caches[0].items;
    assert Member(s0, 0, 0);
    assert s0.objects[0].data == [data][0];
    var s1, held1 := Onwards(keygen, begin, s0, held0, StepRemove(0));
    StillListed(s0, held0, s1, 0);
    assert Drop([0], PositionOf([0], 0)) == [];
    s, held := Onwards(keygen, begin + [StepRemove(0)], s1, held1, StepAdd(0, 0));
    AddTakes(s1, held1, 0, 0);
    AddSucceeds(s1, held1, 0);
    assert ObjectOk(s1, held1, 0);
    assert [] + [s1.next] == [s1.next];
    run := begin + [StepRemove(0)] + [StepAdd(0, 0)];
  }
}
