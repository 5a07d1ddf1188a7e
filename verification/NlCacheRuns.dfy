/** Safety of the cache operations over whole runs (libnl/lib/cache.c). */
module NlCacheRuns {
  import opened Wrappers
  import opened NlObjects
  import opened NlCache
  import opened NlCacheSafety

  /** References and cache members only went away; contents and marks stayed. */
  ghost predicate Less(s: State, t: State)
  {
    && t.keygen == s.keygen && t.next == s.next && t.caches.Keys == s.caches.Keys
    && (forall o :: o in t.objects ==> o in s.objects && t.objects[o].data == s.objects[o].data
                                       && t.objects[o].marked == s.objects[o].marked)
    && (forall c :: c in t.caches ==> LessCache(s.caches[c], t.caches[c]))
  }

  ghost predicate LessCache(a: Cache, b: Cache)
  {
    && b.kind == a.kind && b.actions == a.actions && (b.table.Some? <==> a.table.Some?)
    && forall p :: p in b.items ==> p in a.items
  }

  lemma RemoveLess(s: State, held: multiset<nat>, c: nat, o: nat)
    requires Valid(s, held) && Member(s, c, o)
    ensures c in s.caches && Less(s, Unlinked(s, o)) && o !in Unlinked(s, o).caches[c].items
    ensures forall p :: p != o && p in s.objects ==>
                          p in Unlinked(s, o).objects && Unlinked(s, o).objects[p] == s.objects[p]
  {
    assert ObjectOk(s, held, o) && CacheOk(s, c);
    Dropped(s.caches[c].items, o, PositionOf(s.caches[c].items, o));
  }

  // ---------- adding and moving ----------

  lemma InsertOrPutKeeps(s: State, held: multiset<nat>, c: nat, o: nat, left: multiset<nat>)
    requires Valid(s, held) && c in s.caches && held == left + multiset{o}
    requires s.objects[o].cache.None? && s.objects[o].data.kind == s.caches[c].kind
    ensures InsertOrPut(s, c, o).Ok? && Valid(InsertOrPut(s, c, o).value.0, left)
  {
    InsertOutcome(s, held, c, o);
    assert held - multiset{o} == left;
    if Duplicate(s, c, o) {
      InsertRefused(s, held, c, o);
      PutKeeps(s, held, o);
    } else {
      InsertKeeps(s, held, c, o);
    }
  }

  lemma AddCloneKeeps(s: State, held: multiset<nat>, c: nat, data: Data)
    requires Valid(s, held) && c in s.caches && data.kind == s.caches[c].kind
    ensures InsertOrPut(Alloc(s, data).0, c, s.next).Ok?
    ensures Valid(InsertOrPut(Alloc(s, data).0, c, s.next).value.0, held)
  {
    AllocKeeps(s, held, data);
    InsertOrPutKeeps(Alloc(s, data).0, held + multiset{s.next}, c, s.next, held);
  }

  lemma AddItselfKeeps(s: State, held: multiset<nat>, c: nat, o: nat)
    requires Valid(s, held) && c in s.caches && o in s.objects
    requires s.objects[o].cache.None? && s.objects[o].data.kind == s.caches[c].kind
    ensures Get(s, o).Ok? && InsertOrPut(Get(s, o).value, c, o).Ok?
    ensures Valid(InsertOrPut(Get(s, o).value, c, o).value.0, held)
  {
    GetKeeps(s, held, o);
    InsertOrPutKeeps(Get(s, o).value, held + multiset{o}, c, o, held);
  }

  /** nl_cache_add: whether the object, a clone or nothing is added, callers hold what they held. */
  lemma AddKeeps(s: State, held: multiset<nat>, c: nat, o: nat)
    requires Valid(s, held) && c in s.caches && o in s.objects
    ensures Add(s, c, o).Ok? && Valid(Add(s, c, o).value.0, held)
  {
    assert ObjectOk(s, held, o);
    if s.caches[c].kind == s.objects[o].data.kind {
      if s.objects[o].listed {
        AddCloneKeeps(s, held, c, s.objects[o].data);
      } else {
        AddItselfKeeps(s, held, c, o);
      }
    }
  }

  /** Only `o` is touched, and it is in no cache. */
  ghost predicate OnlyLoosens(s: State, u: State, o: nat)
  {
    && Less(s, u) && o in u.objects && u.objects[o].cache.None?
    && forall p :: p != o && p in s.objects ==> p in u.objects && u.objects[p] == s.objects[p]
  }

  lemma RemoveLoosens(s: State, t: State, held: multiset<nat>, o: nat)
    requires Get(s, o) == Ok(t) && Valid(t, held) && o in held && t.objects[o].cache.Some?
    ensures Remove(t, o) == Ok(Unlinked(t, o)) && Valid(Unlinked(t, o), held)
    ensures OnlyLoosens(s, Unlinked(t, o), o)
  {
    var c := t.objects[o].cache.value;
    RemoveKeeps(t, held, c, o);
    RemoveLess(t, held, c, o);
  }

  lemma LooseKeeps(s: State, held: multiset<nat>, o: nat)
    requires Valid(s, held) && o in s.objects
    ensures Loose(s, o).Ok? && Valid(Loose(s, o).value, held + multiset{o}) && OnlyLoosens(s, Loose(s, o).value, o)
  {
    assert ObjectOk(s, held, o);
    GetKeeps(s, held, o);
    var t := Get(s, o).value;
    if s.objects[o].cache.Some? {
      RemoveLoosens(s, t, held + multiset{o}, o);
    }
  }

  /** What a caller can see before nl_cache_move: the cache has a hash table, and in it another object
      of the same identity. */
  ghost predicate MoveRefused(s: State, c: nat, o: nat)
    requires c in s.caches && o in s.objects
  {
    && s.caches[c].kind == s.objects[o].data.kind && s.caches[c].table.Some?
    && exists p :: p in s.caches[c].items && p != o && Same(s, p, o)
  }

  /** Taking the object out of its cache leaves every other item where it was. */
  lemma DuplicateAfterLoose(s: State, u: State, held: multiset<nat>, more: multiset<nat>, c: nat, o: nat)
    requires Valid(s, held) && Valid(u, more) && OnlyLoosens(s, u, o)
    requires c in s.caches && o in s.objects && s.caches[c].kind == s.objects[o].data.kind
    ensures c in u.caches && (Duplicate(u, c, o) <==> MoveRefused(s, c, o))
  {
    assert LessCache(s.caches[c], u.caches[c]);
    assert CacheOk(s, c) && CacheOk(u, c);
    forall p | p in s.caches[c].items && p != o
      ensures p in u.caches[c].items
    {
      assert Member(s, c, p);
      assert ObjectOk(u, more, p);
    }
    assert forall p :: p in u.caches[c].items ==> Member(u, c, p) && p != o;
    assert forall p :: p in u.caches[c].items ==> (Same(u, p, o) <==> Same(s, p, o));
  }

  /** nl_cache_move is refused exactly when another object of the same identity is in the hash table,
      and then a reference is left that nobody gives back. */
  lemma MoveKeeps(s: State, held: multiset<nat>, c: nat, o: nat)
    requires Valid(s, held) && c in s.caches && o in s.objects
    ensures Move(s, c, o).Ok? && (Move(s, c, o).value.1 == Exist <==> MoveRefused(s, c, o))
    ensures Valid(Move(s, c, o).value.0, if MoveRefused(s, c, o) then held + multiset{o} else held)
  {
    if s.caches[c].kind == s.objects[o].data.kind {
      LooseKeeps(s, held, o);
      var u := Loose(s, o).value;
      DuplicateAfterLoose(s, u, held, held + multiset{o}, c, o);
      InsertOutcome(u, held + multiset{o}, c, o);
      if Duplicate(u, c, o) {
        InsertRefused(u, held + multiset{o}, c, o);
      } else {
        InsertKeeps(u, held + multiset{o}, c, o);
        assert held + multiset{o} - multiset{o} == held;
      }
    }
  }

  // ---------- including ----------

  /** nl_cache_search gives the caller a reference to the object found. */
  lemma SearchKeeps(s: State, held: multiset<nat>, c: nat, o: nat)
    requires Valid(s, held) && c in s.caches && o in s.objects
    ensures var found := Listed(s, s.caches[c].items, o);
            if found.None? then Search(s, c, o) == Ok((s, None))
            else
              && found.value in s.caches[c].items && Member(s, c, found.value)
              && Get(s, found.value).Ok? && Valid(Get(s, found.value).value, held + multiset{found.value})
              && Search(s, c, o) == Ok((Get(s, found.value).value, found))
  {
    FastLookupAgrees(s, held, c, o);
    var found := Listed(s, s.caches[c].items, o);
    if found.Some? {
      assert CacheOk(s, c);
      assert Member(s, c, found.value);
      GetKeeps(s, held, found.value);
    }
  }

  lemma NoDuplicateLeft(s: State, u: State, c: nat, prior: nat, o: nat)
    requires c in s.caches && Less(s, u) && o in u.objects && prior !in u.caches[c].items
    requires s.caches[c].table.Some? ==> Unique(s, s.caches[c].items)
    requires prior in s.caches[c].items && Same(s, prior, o)
    ensures !Duplicate(u, c, o)
  {
    if Duplicate(u, c, o) {
      var p :| p in u.caches[c].items && Same(u, p, o);
      assert LessCache(s.caches[c], u.caches[c]);
      assert Same(s, p, o);
      SameTransitive(s, p, o, prior);
    }
  }

  lemma LessTwice(s: State, t: State, u: State)
    requires Less(s, t) && Less(t, u)
    ensures Less(s, u)
  {
  }

  lemma UniqueTable(s: State, held: multiset<nat>, c: nat)
    requires Valid(s, held) && c in s.caches && s.caches[c].table.Some?
    ensures Unique(s, s.caches[c].items)
  {
    assert CacheOk(s, c);
  }

  /** Once its predecessor is out, nothing keeps an object from being moved into the cache. */
  lemma MoveAfterRemove(s: State, held: multiset<nat>, c: nat, prior: nat, o: nat)
    requires Valid(s, held) && prior in held && Member(s, c, prior) && c in s.caches && o in s.objects
    requires prior in s.caches[c].items && Same(s, prior, o) && s.objects[o].data.kind == s.caches[c].kind
    ensures var t := Unlinked(s, prior);
            && Move(t, c, o).Ok? && Move(t, c, o).value.1 == Success && Valid(Move(t, c, o).value.0, held)
            && o in Move(t, c, o).value.0.objects
  {
    var t := Unlinked(s, prior);
    RemoveKeeps(s, held, c, prior);
    RemoveLess(s, held, c, prior);
    if s.caches[c].table.Some? {
      UniqueTable(s, held, c);
    }
    LooseKeeps(t, held, o);
    var u := Loose(t, o).value;
    LessTwice(s, t, u);
    NoDuplicateLeft(s, u, c, prior, o);
    MoveSucceeds(t, held, c, o);
  }

  lemma MoveSucceeds(t: State, held: multiset<nat>, c: nat, o: nat)
    requires Valid(t, held) && c in t.caches && o in t.objects && t.objects[o].data.kind == t.caches[c].kind
    requires Loose(t, o).Ok? && c in Loose(t, o).value.caches && !Duplicate(Loose(t, o).value, c, o)
    ensures Move(t, c, o).Ok? && Move(t, c, o).value.1 == Success && Valid(Move(t, c, o).value.0, held)
    ensures SameData(Loose(t, o).value, Move(t, c, o).value.0) && o in Loose(t, o).value.objects
  {
    LooseKeeps(t, held, o);
    InsertOutcome(Loose(t, o).value, held + multiset{o}, c, o);
    InsertKeeps(Loose(t, o).value, held + multiset{o}, c, o);
    assert held + multiset{o} - multiset{o} == held;
  }

  lemma ReplaceKeeps(s: State, held: multiset<nat>, c: nat, prior: nat, o: nat)
    requires Valid(s, held + multiset{prior}) && Member(s, c, prior) && c in s.caches && o in s.objects
    requires prior in s.caches[c].items && Same(s, prior, o) && s.objects[o].data.kind == s.caches[c].kind
    ensures Replace(s, c, prior, o).Ok? && Valid(Replace(s, c, prior, o).value.0, held)
  {
    RemoveKeeps(s, held + multiset{prior}, c, prior);
    MoveAfterRemove(s, held + multiset{prior}, c, prior, o);
    PutKeeps(Move(Unlinked(s, prior), c, o).value.0, held + multiset{prior}, prior);
    assert held + multiset{prior} - multiset{prior} == held;
  }

  lemma AddedNew(s: State, held: multiset<nat>, c: nat, o: nat)
    requires Valid(s, held) && c in s.caches && o in s.objects && s.objects[o].data.kind == s.caches[c].kind
    requires Listed(s, s.caches[c].items, o).None?
    ensures Loose(s, o).Ok? && c in Loose(s, o).value.caches && !Duplicate(Loose(s, o).value, c, o)
    ensures Move(s, c, o).Ok? && Move(s, c, o).value.1 == Success && Valid(Move(s, c, o).value.0, held)
    ensures o in Move(s, c, o).value.0.objects
  {
    LooseKeeps(s, held, o);
    FirstSameExact(s, s.caches[c].items, o);
    var u := Loose(s, o).value;
    if Duplicate(u, c, o) {
      var p :| p in u.caches[c].items && Same(u, p, o);
      assert LessCache(s.caches[c], u.caches[c]);
      assert Same(s, p, o);
    }
    MoveSucceeds(s, held, c, o);
  }

  lemma IncludeNewKeeps(s: State, held: multiset<nat>, c: nat, o: nat)
    requires Valid(s, held) && c in s.caches && o in s.objects && s.objects[o].data.kind == s.caches[c].kind
    ensures IncludeNew(s, c, o).Ok? && Valid(IncludeNew(s, c, o).value.0, held)
  {
    SearchKeeps(s, held, c, o);
    var found := Listed(s, s.caches[c].items, o);
    if found.None? {
      AddedNew(s, held, c, o);
    } else {
      assert Same(s, found.value, o);
      ReplaceKeeps(Get(s, found.value).value, held, c, found.value, o);
    }
  }

  lemma IncludeDelKeeps(s: State, held: multiset<nat>, c: nat, o: nat)
    requires Valid(s, held) && c in s.caches && o in s.objects
    ensures IncludeDel(s, c, o).Ok? && Valid(IncludeDel(s, c, o).value.0, held)
  {
    SearchKeeps(s, held, c, o);
    var found := Listed(s, s.caches[c].items, o);
    if found.Some? {
      var prior, more := found.value, held + multiset{found.value};
      var t := Get(s, prior).value;
      RemoveKeeps(t, more, c, prior);
      PutKeeps(Unlinked(t, prior), more, prior);
      assert more - multiset{prior} == held;
    }
  }

  lemma IncludeAsKeeps(s: State, held: multiset<nat>, c: nat, o: nat, action: Action)
    requires Valid(s, held) && c in s.caches && o in s.objects && s.objects[o].data.kind == s.caches[c].kind
    ensures IncludeAs(s, c, o, action).Ok? && Valid(IncludeAs(s, c, o, action).value.0, held)
  {
    match action {
      case New => IncludeNewKeeps(s, held, c, o);
      case Del => IncludeDelKeeps(s, held, c, o);
      case Other =>
    }
  }

  /** nl_cache_include: callers hold what they held, and the objects that the change callback looks
      at are alive. */
  lemma IncludeKeeps(s: State, held: multiset<nat>, c: nat, o: nat)
    requires Valid(s, held) && c in s.caches && o in s.objects
    ensures Include(s, c, o).Ok? && Valid(Include(s, c, o).value.0, held)
  {
    var ca, data := s.caches[c], s.objects[o].data;
    if ca.kind == data.kind && data.msgType in ca.actions {
      IncludeAsKeeps(s, held, c, o, ca.actions[data.msgType]);
    }
  }
}
