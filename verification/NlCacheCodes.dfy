/** What the cache operations return, from the state before the call (libnl/lib/cache.c). */
module NlCacheCodes {
  import opened Wrappers
  import opened NlObjects
  import opened NlCache
  import opened NlCacheSafety
  import opened NlCacheRuns

  /** The cache has a hash table, and an object in it is identical to any other with these contents. */
  ghost predicate Clashes(s: State, c: nat, data: Data)
    requires c in s.caches
  {
    && s.caches[c].table.Some?
    && exists p :: p in s.caches[c].items && p in s.objects && Identical(0, s.objects[p].data, 1, data)
  }

  lemma AddressOnly(p: nat, a: Data, q: nat, b: Data)
    requires p != q
    ensures Identical(p, a, q, b) == Identical(0, a, 1, b)
  {
  }

  /** An object that is in no cache is a duplicate exactly when its contents clash. */
  lemma DuplicateClashes(s: State, held: multiset<nat>, c: nat, o: nat)
    requires Valid(s, held) && c in s.caches && o in s.objects && s.objects[o].cache.None?
    ensures Duplicate(s, c, o) <==> Clashes(s, c, s.objects[o].data)
  {
    assert CacheOk(s, c);
    forall p | p in s.caches[c].items
      ensures p in s.objects && p != o && (Same(s, p, o) <==> Identical(0, s.objects[p].data, 1, s.objects[o].data))
    {
      assert Member(s, c, p);
      AddressOnly(p, s.objects[p].data, o, s.objects[o].data);
    }
  }

  lemma SameClashes(s: State, t: State, held: multiset<nat>, c: nat, data: Data)
    requires Valid(s, held) && c in s.caches && c in t.caches
    requires t.caches[c].items == s.caches[c].items && (t.caches[c].table.Some? <==> s.caches[c].table.Some?)
    requires forall p :: p in s.objects ==> p in t.objects && t.objects[p].data == s.objects[p].data
    ensures Clashes(t, c, data) <==> Clashes(s, c, data)
  {
    assert CacheOk(s, c);
    forall p | p in s.caches[c].items
      ensures p in s.objects
    {
      assert Member(s, c, p);
    }
  }

  lemma InsertOrPutCode(s: State, held: multiset<nat>, c: nat, o: nat)
    requires Valid(s, held) && c in s.caches && o in s.objects && s.objects[o].cache.None? && InsertOrPut(s, c, o).Ok?
    ensures InsertOrPut(s, c, o).value.1 == if Clashes(s, c, s.objects[o].data) then Exist else Success
  {
    InsertOutcome(s, held, c, o);
    DuplicateClashes(s, held, c, o);
  }

  /** nl_cache_add: refused for another type, and for contents that clash; accepted otherwise. */
  lemma AddCode(s: State, held: multiset<nat>, c: nat, o: nat)
    requires Valid(s, held) && c in s.caches && o in s.objects
    ensures Add(s, c, o).Ok?
    ensures Add(s, c, o).value.1 ==
            if s.caches[c].kind != s.objects[o].data.kind then Mismatch
            else if Clashes(s, c, s.objects[o].data) then Exist
            else Success
  {
    AddKeeps(s, held, c, o);
    assert ObjectOk(s, held, o);
    if s.caches[c].kind == s.objects[o].data.kind {
      if s.objects[o].listed {
        var (t, clone) := Alloc(s, s.objects[o].data);
        FreshAddress(s, held);
        AllocKeeps(s, held, s.objects[o].data);
        InsertOrPutCode(t, held + multiset{s.next}, c, clone);
        SameClashes(s, t, held, c, s.objects[o].data);
      } else {
        var t := Get(s, o).value;
        GetKeeps(s, held, o);
        InsertOrPutCode(t, held + multiset{o}, c, o);
        SameClashes(s, t, held, c, s.objects[o].data);
      }
    }
  }

  lemma FreshAddress(s: State, held: multiset<nat>)
    requires Valid(s, held)
    ensures s.next !in s.objects
  {
    forall o | o in s.objects
      ensures o < s.next
    {
      assert ObjectOk(s, held, o);
    }
  }

  /** nl_cache_move: refused for another type, and for another object of the same identity in a hash table;
      accepted otherwise, and then the object is the last one in the cache. */
  lemma MoveCode(s: State, held: multiset<nat>, c: nat, o: nat)
    requires Valid(s, held) && c in s.caches && o in s.objects
    ensures Move(s, c, o).Ok?
    ensures var (t, code) := Move(s, c, o).value;
            && code == (if s.caches[c].kind != s.objects[o].data.kind then Mismatch
                        else if MoveRefused(s, c, o) then Exist else Success)
            && (code == Mismatch ==> t == s)
            && (code == Success ==> c in t.caches && t.caches[c].items != [] && o in t.objects
                                    && t.caches[c].items[|t.caches[c].items| - 1] == o && t.objects[o].cache == Some(c))
  {
    MoveKeeps(s, held, c, o);
    if s.caches[c].kind == s.objects[o].data.kind {
      LooseKeeps(s, held, o);
      var u := Loose(s, o).value;
      DuplicateAfterLoose(s, u, held, held + multiset{o}, c, o);
      InsertOutcome(u, held + multiset{o}, c, o);
    }
  }

  /** nl_cache_include: refused for another type, and for a message type the cache does not know; accepted
      otherwise, and a message type that is neither for new objects nor for deleted ones changes nothing. */
  lemma IncludeCode(s: State, held: multiset<nat>, c: nat, o: nat)
    requires Valid(s, held) && c in s.caches && o in s.objects
    ensures Include(s, c, o).Ok?
    ensures var (t, code, events) := Include(s, c, o).value;
            var known := s.caches[c].actions;
            && code == (if s.caches[c].kind != s.objects[o].data.kind then Mismatch
                        else if s.objects[o].data.msgType !in known then NoMsgType else Success)
            && (code != Success ==> t == s && events == [])
            && (code == Success && known[s.objects[o].data.msgType] == Other ==> t == s && events == [])
  {
    IncludeKeeps(s, held, c, o);
  }

  /** nl_cache_search finds the first identical object of the list, and takes one reference to it. */
  lemma SearchCode(s: State, c: nat, o: nat)
    requires Search(s, c, o).Ok? && Search(s, c, o).value.1.Some?
    ensures var (t, found) := Search(s, c, o).value;
            && found.value in s.objects && Same(s, found.value, o)
            && var ob := s.objects[found.value];
               t == s.(objects := s.objects[found.value := ob.(refCount := ob.refCount + 1)])
  {
  }

  /** One dumped object: what its inclusion answers. */
  lemma PickupCode(s: State, held: multiset<nat>, c: nat, data: Data)
    requires Valid(s, held) && c in s.caches && Pickup(s, c, data).Ok?
    ensures Pickup(s, c, data).value.1 ==
            if s.caches[c].kind != data.kind then Mismatch
            else if data.msgType !in s.caches[c].actions then NoMsgType
            else Success
  {
    AllocKeeps(s, held, data);
    IncludeCode(Alloc(s, data).0, held + multiset{s.next}, c, s.next);
  }

  /** A dump stops at the first object that is refused, with what that one answers. */
  lemma DumpStops(s: State, held: multiset<nat>, c: nat, dump: seq<Data>)
    requires Valid(s, held) && c in s.caches && dump != [] && PickupAll(s, c, dump).Ok?
    ensures s.caches[c].kind != dump[0].kind ==> PickupAll(s, c, dump).value.1 == Mismatch
    ensures s.caches[c].kind == dump[0].kind && dump[0].msgType !in s.caches[c].actions ==>
              PickupAll(s, c, dump).value.1 == NoMsgType
  {
    PickupCode(s, held, c, dump[0]);
  }
}
