/** The cache operations as they change memory in place (libnl/lib/cache.c, hashtable.c, object.c).
    Memory is a map from addresses that every operation updates. */
module NlCacheLibrary {
  import opened Wrappers
  import opened NlObjects
  import opened NlCache
  import opened NlCacheSafety
  import opened NlCacheRuns
  import opened NlCacheSteps

  lemma {:induction false} FirstSameAt(s: State, list: seq<nat>, o: nat, i: nat)
    requires i < |list| && Same(s, list[i], o) && forall j :: 0 <= j < i ==> !Same(s, list[j], o)
    ensures FirstSame(s, list, o) == Some(i)
    decreases i
  {
    if i > 0 {
      assert forall j :: 0 <= j < i - 1 ==> list[1..][j] == list[j + 1];
      FirstSameAt(s, list[1..], o, i - 1);
    }
  }

  class Library {
    const keygen: (Kind, Attrs) -> nat
    var objects: map<nat, Object>
    var caches: map<nat, Cache>
    var next: nat

    function Value(): State
      reads this
    {
      State(keygen, objects, caches, next)
    }

    constructor (keygen: (Kind, Attrs) -> nat)
      ensures Value() == State(keygen, map[], map[], 0) && Valid(Value(), multiset{})
    {
      this.keygen := keygen;
      objects, caches, next := map[], map[], 0;
    }

    // ---------- objects ----------

    method ObjectAlloc(data: Data) returns (o: nat)
      modifies this
      ensures (Value(), o) == Alloc(old(Value()), data)
    {
      o := next;
      objects := objects[o := Object(data, 1, None, false, false)];
      next := next + 1;
    }

    method ObjectGet(o: nat)
      requires o in objects
      modifies this
      ensures Ok(Value()) == Get(old(Value()), o)
    {
      objects := objects[o := objects[o].(refCount := objects[o].refCount + 1)];
    }

    /** BUG() and freeing an object that is in a cache are ruled out by the precondition. */
    method ObjectPut(o: nat)
      requires Put(Value(), o).Ok?
      modifies this
      ensures Ok(Value()) == Put(old(Value()), o)
    {
      var left := objects[o].refCount - 1;
      assert left >= 0;
      if left == 0 {
        assert objects[o].cache.None?;
        objects := objects - {o};
      } else {
        objects := objects[o := objects[o].(refCount := left)];
      }
    }

    // ---------- hash table ----------

    method HashLookup(table: seq<seq<nat>>, o: nat) returns (found: Option<nat>)
      requires Lookup(Value(), table, o).Ok?
      ensures Ok(found) == Lookup(Value(), table, o)
    {
      var chain := table[Key(Value(), o, |table|)];
      var node := 0;
      while node < |chain|
        invariant node <= |chain| && forall j :: 0 <= j < node ==> !Same(Value(), chain[j], o)
      {
        if Same(Value(), chain[node], o) {
          FirstSameAt(Value(), chain, o, node);
          return Some(node);
        }
        node := node + 1;
      }
      FirstSameExact(Value(), chain, o);
      return None;
    }

    /** The first identical node is unlinked from its chain. */
    method HashTableDel(c: nat, o: nat)
      requires HashDel(Value(), c, o).Ok? && c in caches && caches[c].table.Some?
      modifies this
      ensures Ok(Value()) == HashDel(old(Value()), c, o)
    {
      var table := caches[c].table.value;
      var k := Key(Value(), o, |table|);
      var node := HashLookup(table, o);
      if node.Some? {
        ObjectPut(o);
        caches := caches[c := caches[c].(table := Some(table[k := table[k][..node.value] + table[k][node.value + 1..]]))];
      }
    }

    /** A new node goes to the front of its chain, with a reference of its own. */
    method HashTableAdd(c: nat, o: nat) returns (code: Code)
      requires c in caches && caches[c].table.Some? && Lookup(Value(), caches[c].table.value, o).Ok?
      modifies this
      ensures var s := old(Value());
              var table := s.caches[c].table.value;
              var k := Key(s, o, |table|);
              if Lookup(s, table, o).value.Some? then code == Exist && Value() == s
              else
                && code == Success
                && Value() == WithCache(WithObject(s, o, s.objects[o].(refCount := s.objects[o].refCount + 1)), c,
                                        s.caches[c].(table := Some(table[k := [o] + table[k]])))
    {
      var table := caches[c].table.value;
      var k := Key(Value(), o, |table|);
      var found := HashLookup(table, o);
      if found.Some? {
        return Exist;
      }
      ObjectGet(o);
      caches := caches[c := caches[c].(table := Some(table[k := [o] + table[k]]))];
      return Success;
    }

    // ---------- adding and removing ----------

    method CacheInsert(c: nat, o: nat) returns (code: Code)
      requires Insert(Value(), c, o).Ok?
      modifies this
      ensures Ok((Value(), code)) == Insert(old(Value()), c, o)
    {
      ghost var s := Value();
      SetCache(o, Some(c));
      if caches[c].table.Some? {
        LookupAside(s, Value(), caches[c].table.value, o);
        code := HashTableAdd(c, o);
        if code != Success {
          SetCache(o, None);
          assert objects == s.objects[o := s.objects[o].(cache := None)];
          return code;
        }
      }
      objects := objects[o := objects[o].(listed := true)];
      caches := caches[c := caches[c].(items := caches[c].items + [o], count := caches[c].count + 1)];
      assert objects == Insert(s, c, o).value.0.objects;
      assert caches == Insert(s, c, o).value.0.caches;
      return Success;
    }

    method SetCache(o: nat, cache: Option<nat>)
      requires o in objects
      modifies this
      ensures Value() == old(Value()).(objects := old(objects)[o := old(objects)[o].(cache := cache)])
    {
      objects := objects[o := objects[o].(cache := cache)];
    }

    method Unlink(o: nat)
      requires Remove(Value(), o).Ok?
      modifies this
      ensures Ok(Value()) == Remove(old(Value()), o)
    {
      var cache := objects[o].cache;
      if cache.None? {
        return;
      }
      var c := cache.value;
      if caches[c].table.Some? {
        HashTableDel(c, o);
      }
      var items := caches[c].items;
      caches := caches[c := caches[c].(items := Drop(items, PositionOf(items, o)), count := caches[c].count - 1)];
      SetCache(o, None);
      ObjectPut(o);
    }

    // ---------- the interface ----------

    method CacheRemove(o: nat, ghost held: multiset<nat>)
      requires Valid(Value(), held) && o in objects
      modifies this
      ensures Ok(Value()) == Remove(old(Value()), o) && Valid(Value(), held)
    {
      RemoveStepKeeps(Value(), held, o);
      Unlink(o);
    }

    method CacheAdd(c: nat, o: nat, ghost held: multiset<nat>) returns (code: Code)
      requires Valid(Value(), held) && c in caches && o in objects
      modifies this
      ensures Ok((Value(), code)) == Add(old(Value()), c, o) && Valid(Value(), held)
    {
      AddKeeps(Value(), held, c, o);
      if caches[c].kind != objects[o].data.kind {
        return Mismatch;
      }
      var added := o;
      if objects[o].listed {
        added := ObjectAlloc(objects[o].data);
      } else {
        ObjectGet(o);
      }
      code := CacheInsert(c, added);
      if code != Success {
        ObjectPut(added);
      }
    }

    method CacheMove(c: nat, o: nat, ghost held: multiset<nat>) returns (code: Code)
      requires Valid(Value(), held) && c in caches && o in objects
      modifies this
      ensures Ok((Value(), code)) == Move(old(Value()), c, o)
      ensures Valid(Value(), if code == Exist then held + multiset{o} else held)
    {
      MoveKeeps(Value(), held, c, o);
      code := MoveObject(c, o);
    }

    method MoveObject(c: nat, o: nat) returns (code: Code)
      requires Move(Value(), c, o).Ok?
      modifies this
      ensures Ok((Value(), code)) == Move(old(Value()), c, o)
    {
      if caches[c].kind != objects[o].data.kind {
        return Mismatch;
      }
      ObjectGet(o);
      if objects[o].listed {
        Unlink(o);
      }
      code := CacheInsert(c, o);
    }

    method CacheClear(c: nat, ghost held: multiset<nat>)
      requires Valid(Value(), held) && c in caches
      modifies this
      ensures Ok(Value()) == Clear(old(Value()), c) && Valid(Value(), held)
    {
      var items := caches[c].items;
      ghost var s := Value();
      ClearKeeps(s, held, c, items);
      assert items[0..] == items;
      for i := 0 to |items|
        invariant RemoveAll(Value(), items[i..]) == RemoveAll(s, items)
      {
        assert items[i..][0] == items[i] && items[i..][1..] == items[i + 1..];
        Unlink(items[i]);
      }
    }

    /** A scan of the list, or a lookup in the hash table where there is one. */
    method CacheSearch(c: nat, o: nat, ghost held: multiset<nat>) returns (found: Option<nat>)
      requires Valid(Value(), held) && c in caches && o in objects
      modifies this
      ensures Ok((Value(), found)) == Search(old(Value()), c, o)
      ensures found == Listed(old(Value()), old(caches)[c].items, o)
      ensures Valid(Value(), if found.Some? then held + multiset{found.value} else held)
    {
      SearchKeeps(Value(), held, c, o);
      FastLookupAgrees(Value(), held, c, o);
      if caches[c].table.Some? {
        var table := caches[c].table.value;
        var node := HashLookup(table, o);
        if node.Some? {
          found := Some(table[Key(Value(), o, |table|)][node.value]);
          ObjectGet(found.value);
        } else {
          found := None;
        }
      } else {
        found := ScanItems(caches[c].items, o);
        if found.Some? {
          ObjectGet(found.value);
        }
      }
    }

    method ScanItems(items: seq<nat>, o: nat) returns (found: Option<nat>)
      ensures found == Listed(Value(), items, o)
    {
      for i := 0 to |items|
        invariant forall j :: 0 <= j < i ==> !Same(Value(), items[j], o)
      {
        if Same(Value(), items[i], o) {
          FirstSameAt(Value(), items, o, i);
          return Some(items[i]);
        }
      }
      FirstSameExact(Value(), items, o);
      return None;
    }

    /** What `cache_include` does with a new object: its predecessor, if there is one, makes room. */
    method IncludeNewObject(c: nat, o: nat, ghost held: multiset<nat>) returns (log: seq<Event>)
      requires Valid(Value(), held) && c in caches && o in objects && objects[o].data.kind == caches[c].kind
      modifies this
      ensures Ok((Value(), log)) == IncludeNew(old(Value()), c, o) && Valid(Value(), held)
    {
      IncludeNewKeeps(Value(), held, c, o);
      var prior := CacheSearch(c, o, held);
      if prior.Some? {
        log := ReplaceObject(c, prior.value, o);
      } else {
        var _ := MoveObject(c, o);
        log := [Added(objects[o].data)];
      }
    }

    method ReplaceObject(c: nat, prior: nat, o: nat) returns (log: seq<Event>)
      requires Replace(Value(), c, prior, o).Ok?
      modifies this
      ensures Ok((Value(), log)) == Replace(old(Value()), c, prior, o)
    {
      Unlink(prior);
      var _ := MoveObject(c, o);
      var was, now := objects[prior].data, objects[o].data;
      log := if Differs(was, now) then [Changed(was, now)] else [];
      ObjectPut(prior);
    }

    method IncludeDeletedObject(c: nat, o: nat, ghost held: multiset<nat>) returns (log: seq<Event>)
      requires Valid(Value(), held) && c in caches && o in objects
      modifies this
      ensures Ok((Value(), log)) == IncludeDel(old(Value()), c, o) && Valid(Value(), held)
    {
      IncludeDelKeeps(Value(), held, c, o);
      var prior := CacheSearch(c, o, held);
      if prior.None? {
        return [];
      }
      Unlink(prior.value);
      log := [Removed(objects[prior.value].data)];
      ObjectPut(prior.value);
    }

    method CacheInclude(c: nat, o: nat, ghost held: multiset<nat>) returns (code: Code, log: seq<Event>)
      requires Valid(Value(), held) && c in caches && o in objects
      modifies this
      ensures Ok((Value(), code, log)) == Include(old(Value()), c, o) && Valid(Value(), held)
    {
      IncludeKeeps(Value(), held, c, o);
      var data := objects[o].data;
      if caches[c].kind != data.kind {
        return Mismatch, [];
      }
      if data.msgType !in caches[c].actions {
        return NoMsgType, [];
      }
      match caches[c].actions[data.msgType] {
        case New => log := IncludeNewObject(c, o, held);
        case Del => log := IncludeDeletedObject(c, o, held);
        case Other => log := [];
      }
      code := Success;
    }

    // ---------- resynchronizing ----------

    method MarkAllItems(c: nat, ghost held: multiset<nat>)
      requires Valid(Value(), held) && c in caches
      modifies this
      ensures Ok(Value()) == MarkAll(old(Value()), old(caches)[c].items) && Valid(Value(), held) && c in caches
    {
      var items := caches[c].items;
      ghost var s := Value();
      assert CacheOk(s, c);
      assert forall o :: o in items ==> Member(s, c, o);
      MarkAllKeeps(s, held, items);
      assert items[0..] == items;
      for i := 0 to |items|
        invariant MarkAll(Value(), items[i..]) == MarkAll(s, items)
      {
        assert items[i..][0] == items[i] && items[i..][1..] == items[i + 1..];
        objects := objects[items[i] := objects[items[i]].(marked := true)];
      }
    }

    method PickupOne(c: nat, data: Data, ghost held: multiset<nat>) returns (code: Code, log: seq<Event>)
      requires Valid(Value(), held) && c in caches
      modifies this
      ensures Ok((Value(), code, log)) == Pickup(old(Value()), c, data) && Valid(Value(), held) && c in caches
    {
      PickupKeeps(Value(), held, c, data);
      AllocKeeps(Value(), held, data);
      var o := ObjectAlloc(data);
      code, log := CacheInclude(c, o, held + multiset{o});
      ObjectPut(o);
    }

    /** Replays the dump object by object, until one cannot be included. */
    method PickupDump(c: nat, dump: seq<Data>, ghost held: multiset<nat>) returns (code: Code, log: seq<Event>)
      requires Valid(Value(), held) && c in caches
      modifies this
      ensures Ok((Value(), code, log)) == PickupAll(old(Value()), c, dump) && Valid(Value(), held) && c in caches
    {
      ghost var s := Value();
      code, log := Success, [];
      assert dump[0..] == dump;
      Prepended([], PickupAll(s, c, dump));
      for i := 0 to |dump|
        invariant Valid(Value(), held) && c in caches && code == Success
        invariant PickupAll(s, c, dump) == Prefixed(log, PickupAll(Value(), c, dump[i..]))
      {
        ghost var t := Value();
        assert dump[i..][0] == dump[i] && dump[i..][1..] == dump[i + 1..];
        var events;
        code, events := PickupOne(c, dump[i], held);
        if code != Success {
          log := log + events;
          return;
        }
        PrefixedTwice(log, events, PickupAll(Value(), c, dump[i + 1..]));
        log := log + events;
      }
      assert log + [] == log;
    }

    method SweepItem(c: nat, o: nat, ghost held: multiset<nat>) returns (log: seq<Event>)
      requires Valid(Value(), held) && Member(Value(), c, o)
      modifies this
      ensures Ok((Value(), log)) == SweepOne(old(Value()), o) && Valid(Value(), held)
    {
      SweepOneKeeps(Value(), held, c, o);
      if !objects[o].marked {
        return [];
      }
      ObjectGet(o);
      Unlink(o);
      log := [Removed(objects[o].data)];
      ObjectPut(o);
    }

    /** Sweeps the items the list has now; each may be freed on the way. */
    method SweepItems(c: nat, ghost held: multiset<nat>) returns (log: seq<Event>)
      requires Valid(Value(), held) && c in caches
      modifies this
      ensures Ok((Value(), log)) == Sweep(old(Value()), old(caches)[c].items) && Valid(Value(), held)
    {
      var items := caches[c].items;
      ghost var s := Value();
      assert CacheOk(s, c);
      SweepKeeps(s, held, c, items);
      log := [];
      assert items[0..] == items;
      SweptNothing(Sweep(s, items));
      for i := 0 to |items|
        invariant Valid(Value(), held) && forall o :: o in items[i..] ==> Member(Value(), c, o)
        invariant Sweep(s, items) == Swept(log, Sweep(Value(), items[i..]))
      {
        assert items[i..][0] == items[i] && items[i..][1..] == items[i + 1..];
        ghost var t := Value();
        SweepOneKeeps(t, held, c, items[i]);
        var events := SweepItem(c, items[i], held);
        StillMembers(t, Value(), c, items, i);
        SweptTwice(log, events, Sweep(Value(), items[i + 1..]));
        log := log + events;
      }
      assert log + [] == log;
    }

    method CacheResync(c: nat, dump: seq<Data>, ghost held: multiset<nat>) returns (code: Code, log: seq<Event>)
      requires Valid(Value(), held) && c in caches
      modifies this
      ensures Ok((Value(), code, log)) == Resync(old(Value()), c, dump) && Valid(Value(), held)
    {
      ResyncKeeps(Value(), held, c, dump);
      MarkAllItems(c, held);
      code, log := PickupDump(c, dump, held);
      if code != Success {
        return;
      }
      var more := SweepItems(c, held);
      log := log + more;
    }
  }

  lemma StillMembers(s: State, t: State, c: nat, items: seq<nat>, i: nat)
    requires i < |items| && Distinct(items) && OnlyAt(s, t, items[i])
    requires forall o :: o in items[i..] ==> Member(s, c, o)
    ensures forall o :: o in items[i + 1..] ==> Member(t, c, o)
  {
    forall o | o in items[i + 1..]
      ensures Member(t, c, o)
    {
      assert o in items[i..] && o != items[i];
    }
  }

  function Swept(log: seq<Event>, rest: Result<(State, seq<Event>), Crash>): Result<(State, seq<Event>), Crash>
  {
    if rest.Ok? then Ok((rest.value.0, log + rest.value.1)) else rest
  }

  lemma SweptNothing(rest: Result<(State, seq<Event>), Crash>)
    ensures Swept([], rest) == rest
  {
    assert rest.Ok? ==> [] + rest.value.1 == rest.value.1;
  }

  lemma SweptTwice(a: seq<Event>, b: seq<Event>, rest: Result<(State, seq<Event>), Crash>)
    ensures Swept(a, Swept(b, rest)) == Swept(a + b, rest)
  {
    if rest.Ok? {
      Regroup(a, b, rest.value.1);
    }
  }

  function Prefixed(log: seq<Event>, rest: Result<(State, Code, seq<Event>), Crash>)
    : Result<(State, Code, seq<Event>), Crash>
  {
    if rest.Ok? then Ok((rest.value.0, rest.value.1, log + rest.value.2)) else rest
  }

  lemma Prepended(log: seq<Event>, rest: Result<(State, Code, seq<Event>), Crash>)
    requires log == []
    ensures Prefixed(log, rest) == rest
  {
    assert rest.Ok? ==> log + rest.value.2 == rest.value.2;
  }

  lemma PrefixedTwice(a: seq<Event>, b: seq<Event>, rest: Result<(State, Code, seq<Event>), Crash>)
    ensures Prefixed(a, Prefixed(b, rest)) == Prefixed(a + b, rest)
  {
    if rest.Ok? {
      Regroup(a, b, rest.value.2);
    }
  }

  /** ce_cache plays no part in a lookup. */
  lemma LookupAside(s: State, t: State, table: seq<seq<nat>>, o: nat)
    requires o in s.objects && o in t.objects && t == s.(objects := s.objects[o := t.objects[o]])
    requires t.objects[o].data == s.objects[o].data
    ensures Lookup(t, table, o) == Lookup(s, table, o)
    ensures |table| > 0 ==> Key(t, o, |table|) == Key(s, o, |table|)
  {
    if |table| > 0 {
      SameFirst(s, t, table[Key(s, o, |table|)], o);
    }
  }

  lemma {:induction false} SameFirst(s: State, t: State, list: seq<nat>, o: nat)
    requires t.objects.Keys == s.objects.Keys && forall p :: p in s.objects ==> t.objects[p].data == s.objects[p].data
    ensures FirstSame(t, list, o) == FirstSame(s, list, o)
    decreases |list|
  {
    if list != [] {
      SameFirst(s, t, list[1..], o);
    }
  }
}
