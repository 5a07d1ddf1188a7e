/** The object cache as a state machine over addresses (libnl/lib/cache.c, hashtable.c, object.c).
    Every operation that touches freed memory or runs into BUG() crashes. */
module NlCache {
  import opened Wrappers
  import opened NlObjects

  /** `cache` is ce_cache, `listed` says that ce_list is not empty: it stays so after a removal,
      because nl_list_del does not initialize the head again. */
  datatype Object = Object(data: Data, refCount: int, cache: Option<nat>, listed: bool, marked: bool)

  datatype Action = New | Del | Other

  /** `table` holds the hash chains; `actions` is co_msgtypes. */
  datatype Cache = Cache(kind: Kind, actions: map<nat, Action>, items: seq<nat>, count: int,
                         table: Option<seq<seq<nat>>>)

  /** Memory. `next` is the next address the allocator hands out. */
  datatype State = State(keygen: (Kind, Attrs) -> nat, objects: map<nat, Object>, caches: map<nat, Cache>, next: nat)

  datatype Crash = Bug | Dangling

  datatype Code = Success | Mismatch | Exist | NoMsgType

  /** What a change callback is told, as contents: the object added, the old one and the new one,
      or the one removed. */
  datatype Event =
    | Added(data: Data)
    | Changed(was: Data, data: Data)
    | Removed(data: Data)

  // ---------- objects ----------

  predicate Same(s: State, p: nat, q: nat)
  {
    p == q || (p in s.objects && q in s.objects && Identical(p, s.objects[p].data, q, s.objects[q].data))
  }

  function Key(s: State, o: nat, size: nat): nat
    requires size > 0
  {
    if o in s.objects then s.keygen(s.objects[o].data.kind, Identity(s.objects[o].data)) % size else 0
  }

  predicate AllLive(s: State, list: seq<nat>)
  {
    forall i :: 0 <= i < |list| ==> list[i] in s.objects
  }

  /** nl_object_alloc, with its contents filled in. */
  function Alloc(s: State, data: Data): (State, nat)
  {
    (s.(objects := s.objects[s.next := Object(data, 1, None, false, false)], next := s.next + 1), s.next)
  }

  function Get(s: State, o: nat): Result<State, Crash>
  {
    if o !in s.objects then Err(Dangling)
    else Ok(s.(objects := s.objects[o := s.objects[o].(refCount := s.objects[o].refCount + 1)]))
  }

  /** nl_object_put. Freeing an object that is still in a cache removes it from there, which puts
      it once more: BUG. */
  function Put(s: State, o: nat): Result<State, Crash>
  {
    if o !in s.objects then Err(Dangling)
    else
      var left := s.objects[o].refCount - 1;
      if left < 0 then Err(Bug)
      else if left > 0 then Ok(s.(objects := s.objects[o := s.objects[o].(refCount := left)]))
      else if s.objects[o].cache.Some? then Err(Bug)
      else Ok(s.(objects := s.objects - {o}))
  }

  // ---------- lists and chains ----------

  /** Where the first object identical to `o` stands in a list. */
  function FirstSame(s: State, list: seq<nat>, o: nat): (r: Option<nat>)
    ensures r.Some? ==> r.value < |list| && Same(s, list[r.value], o)
  {
    if list == [] then None
    else if Same(s, list[0], o) then Some(0)
    else
      var rest := FirstSame(s, list[1..], o);
      if rest.Some? then Some(rest.value + 1) else None
  }

  function PositionOf(list: seq<nat>, o: nat): (i: nat)
    ensures i <= |list| && (i < |list| ==> list[i] == o)
    ensures i < |list| <==> o in list
  {
    if list == [] || list[0] == o then 0 else PositionOf(list[1..], o) + 1
  }

  function Drop(list: seq<nat>, i: nat): seq<nat>
  {
    if i < |list| then list[..i] + list[i + 1..] else list
  }

  // ---------- caches ----------

  function AllocCache(s: State, c: nat, kind: Kind, actions: map<nat, Action>, size: Option<nat>): State
  {
    var table := if size.Some? then Some(seq(size.value, i => [])) else None;
    s.(caches := s.caches[c := Cache(kind, actions, [], 0, table)])
  }

  function WithObject(s: State, o: nat, ob: Object): State
  {
    s.(objects := s.objects[o := ob])
  }

  function WithCache(s: State, c: nat, ca: Cache): State
  {
    s.(caches := s.caches[c := ca])
  }

  /** nl_hash_table_lookup: where the object stands in its chain. */
  function Lookup(s: State, table: seq<seq<nat>>, o: nat): Result<Option<nat>, Crash>
  {
    if o !in s.objects || |table| == 0 then Err(Dangling)
    else
      var chain := table[Key(s, o, |table|)];
      if !AllLive(s, chain) then Err(Dangling) else Ok(FirstSame(s, chain, o))
  }

  /** __cache_add, with nl_hash_table_add in it. */
  function Insert(s: State, c: nat, o: nat): Result<(State, Code), Crash>
  {
    if c !in s.caches || o !in s.objects then Err(Dangling)
    else
      var ca, ob := s.caches[c], s.objects[o];
      if ca.table.None? then
        Ok((WithCache(WithObject(s, o, ob.(cache := Some(c), listed := true)), c,
                      ca.(items := ca.items + [o], count := ca.count + 1)), Success))
      else
        var table := ca.table.value;
        var found :- Lookup(s, table, o);
        if found.Some? then Ok((WithObject(s, o, ob.(cache := None)), Exist))
        else
          var k := Key(s, o, |table|);
          Ok((WithCache(WithObject(s, o, ob.(refCount := ob.refCount + 1, cache := Some(c), listed := true)), c,
                        ca.(items := ca.items + [o], count := ca.count + 1,
                            table := Some(table[k := [o] + table[k]]))), Success))
  }

  /** nl_hash_table_del: the first identical node is unlinked, and `o` is put. */
  function HashDel(s: State, c: nat, o: nat): Result<State, Crash>
  {
    if c !in s.caches then Err(Dangling)
    else
      var ca := s.caches[c];
      if ca.table.None? then Ok(s)
      else
        var table := ca.table.value;
        var found :- Lookup(s, table, o);
        if found.None? then Ok(s)
        else
          var k := Key(s, o, |table|);
          var t :- Put(s, o);
          Ok(WithCache(t, c, ca.(table := Some(table[k := Drop(table[k], found.value)]))))
  }

  /** nl_cache_remove. */
  function Remove(s: State, o: nat): Result<State, Crash>
  {
    if o !in s.objects then Err(Dangling)
    else if s.objects[o].cache.None? then Ok(s)
    else
      var c := s.objects[o].cache.value;
      var t :- HashDel(s, c, o);
      if o !in t.objects || c !in t.caches then Err(Dangling)
      else
        var ca := t.caches[c];
        var u := WithObject(t, o, t.objects[o].(cache := None));
        Put(WithCache(u, c, ca.(items := Drop(ca.items, PositionOf(ca.items, o)), count := ca.count - 1)), o)
  }

  /** An object that cannot be inserted is put. */
  function InsertOrPut(s: State, c: nat, o: nat): Result<(State, Code), Crash>
  {
    var inserted :- Insert(s, c, o);
    if inserted.1 == Success then Ok(inserted)
    else
      var t :- Put(inserted.0, o);
      Ok((t, inserted.1))
  }

  /** nl_cache_add. */
  function Add(s: State, c: nat, o: nat): Result<(State, Code), Crash>
  {
    if c !in s.caches || o !in s.objects then Err(Dangling)
    else if s.caches[c].kind != s.objects[o].data.kind then Ok((s, Mismatch))
    else if s.objects[o].listed then
      var (t, clone) := Alloc(s, s.objects[o].data);
      InsertOrPut(t, c, clone)
    else
      var t :- Get(s, o);
      InsertOrPut(t, c, o)
  }

  /** A reference is taken, and an object that is listed is removed from its cache. */
  function Loose(s: State, o: nat): Result<State, Crash>
  {
    if o !in s.objects then Err(Dangling)
    else
      var t :- Get(s, o);
      if s.objects[o].listed then Remove(t, o) else Ok(t)
  }

  /** nl_cache_move. When the insertion fails, the reference taken here stays taken. */
  function Move(s: State, c: nat, o: nat): Result<(State, Code), Crash>
  {
    if c !in s.caches || o !in s.objects then Err(Dangling)
    else if s.caches[c].kind != s.objects[o].data.kind then Ok((s, Mismatch))
    else
      var t :- Loose(s, o);
      Insert(t, c, o)
  }

  /** nl_cache_clear, from the remaining items `rest` on. */
  function RemoveAll(s: State, rest: seq<nat>): Result<State, Crash>
    decreases |rest|
  {
    if rest == [] then Ok(s)
    else
      var t :- Remove(s, rest[0]);
      RemoveAll(t, rest[1..])
  }

  function Clear(s: State, c: nat): Result<State, Crash>
  {
    if c !in s.caches then Err(Dangling) else RemoveAll(s, s.caches[c].items)
  }

  /** The address nl_cache_search finds. */
  function Find(s: State, c: nat, o: nat): Result<Option<nat>, Crash>
  {
    if c !in s.caches || o !in s.objects then Err(Dangling)
    else
      var ca := s.caches[c];
      if ca.table.Some? then
        var found :- Lookup(s, ca.table.value, o);
        Ok(if found.Some? then Some(ca.table.value[Key(s, o, |ca.table.value|)][found.value]) else None)
      else if !AllLive(s, ca.items) then Err(Dangling)
      else Ok(Listed(s, ca.items, o))
  }

  /** The first object in a list that is identical to `o`. */
  function Listed(s: State, items: seq<nat>, o: nat): Option<nat>
  {
    var found := FirstSame(s, items, o);
    if found.Some? then Some(items[found.value]) else None
  }

  /** nl_cache_search: the caller gets a reference to what is found. */
  function Search(s: State, c: nat, o: nat): Result<(State, Option<nat>), Crash>
  {
    var found :- Find(s, c, o);
    if found.None? then Ok((s, None))
    else
      var t :- Get(s, found.value);
      Ok((t, found))
  }

  /** The part of cache_include for deleted objects, without oo_update. */
  function IncludeDel(s: State, c: nat, o: nat): Result<(State, seq<Event>), Crash>
  {
    var found :- Search(s, c, o);
    if found.1.None? then Ok((found.0, []))
    else
      var prior := found.1.value;
      var t :- Remove(found.0, prior);
      if prior !in t.objects then Err(Dangling)
      else
        var u :- Put(t, prior);
        Ok((u, [Removed(t.objects[prior].data)]))
  }

  /** The part of cache_include for new objects, without oo_update. */
  function IncludeNew(s: State, c: nat, o: nat): Result<(State, seq<Event>), Crash>
  {
    var found :- Search(s, c, o);
    if found.1.Some? then Replace(found.0, c, found.1.value, o)
    else
      var moved :- Move(found.0, c, o);
      if o !in moved.0.objects then Err(Dangling)
      else Ok((moved.0, [Added(moved.0.objects[o].data)]))
  }

  /** `o` takes the place of `prior`, to which the search has given a reference. */
  function Replace(s: State, c: nat, prior: nat, o: nat): Result<(State, seq<Event>), Crash>
  {
    var t :- Remove(s, prior);
    var moved :- Move(t, c, o);
    if o !in moved.0.objects || prior !in moved.0.objects then Err(Dangling)
    else
      var was, now := moved.0.objects[prior].data, moved.0.objects[o].data;
      var u :- Put(moved.0, prior);
      Ok((u, if Differs(was, now) then [Changed(was, now)] else []))
  }

  /** nl_cache_include and nl_cache_include_v2. The change is reported either way the callback is
      registered, with what the callback gets to see. */
  function Include(s: State, c: nat, o: nat): Result<(State, Code, seq<Event>), Crash>
  {
    if c !in s.caches || o !in s.objects then Err(Dangling)
    else
      var data := s.objects[o].data;
      if s.caches[c].kind != data.kind then Ok((s, Mismatch, []))
      else if data.msgType !in s.caches[c].actions then Ok((s, NoMsgType, []))
      else
        var included :- IncludeAs(s, c, o, s.caches[c].actions[data.msgType]);
        Ok((included.0, Success, included.1))
  }

  /** cache_include. */
  function IncludeAs(s: State, c: nat, o: nat, action: Action): Result<(State, seq<Event>), Crash>
  {
    match action
    case New => IncludeNew(s, c, o)
    case Del => IncludeDel(s, c, o)
    case Other => Ok((s, []))
  }

  /** pickup_checkdup_cb, for object types without oo_update. */
  function PickupCheckDup(s: State, c: nat, o: nat): Result<(State, Code), Crash>
  {
    var found :- Search(s, c, o);
    if found.1.None? then Add(found.0, c, o)
    else
      var t :- Remove(found.0, found.1.value);
      var u :- Put(t, found.1.value);
      Add(u, c, o)
  }

  // ---------- freeing a cache ----------

  function PutAll(s: State, chain: seq<nat>): Result<State, Crash>
    decreases |chain|
  {
    if chain == [] then Ok(s)
    else
      var t :- Put(s, chain[0]);
      PutAll(t, chain[1..])
  }

  /** nl_hash_table_free, from the remaining chains on. */
  function FreeTable(s: State, chains: seq<seq<nat>>): Result<State, Crash>
    decreases |chains|
  {
    if chains == [] then Ok(s)
    else
      var t :- PutAll(s, chains[0]);
      FreeTable(t, chains[1..])
  }

  /** __nl_cache_free. */
  function FreeCache(s: State, c: nat): Result<State, Crash>
  {
    var t :- Clear(s, c);
    if c !in t.caches then Err(Dangling)
    else
      var u :- FreeTable(t, if t.caches[c].table.Some? then t.caches[c].table.value else []);
      Ok(u.(caches := u.caches - {c}))
  }

  // ---------- resynchronizing ----------

  function Mark(s: State, o: nat): Result<State, Crash>
  {
    if o !in s.objects then Err(Dangling) else Ok(WithObject(s, o, s.objects[o].(marked := true)))
  }

  function MarkAll(s: State, rest: seq<nat>): Result<State, Crash>
    decreases |rest|
  {
    if rest == [] then Ok(s)
    else
      var t :- Mark(s, rest[0]);
      MarkAll(t, rest[1..])
  }

  /** One dumped object: the parser creates it, includes it, and gives up its reference. */
  function Pickup(s: State, c: nat, data: Data): Result<(State, Code, seq<Event>), Crash>
  {
    var (t, o) := Alloc(s, data);
    var included :- Include(t, c, o);
    var u :- Put(included.0, o);
    Ok((u, included.1, included.2))
  }

  /** The dump, up to its end or the first object that cannot be included. */
  function PickupAll(s: State, c: nat, dump: seq<Data>): Result<(State, Code, seq<Event>), Crash>
    decreases |dump|
  {
    if dump == [] then Ok((s, Success, []))
    else
      var first :- Pickup(s, c, dump[0]);
      if first.1 != Success then Ok(first)
      else
        var rest :- PickupAll(first.0, c, dump[1..]);
        Ok((rest.0, rest.1, first.2 + rest.2))
  }

  /** An object that is still marked leaves the cache. */
  function SweepOne(s: State, o: nat): Result<(State, seq<Event>), Crash>
  {
    if o !in s.objects then Err(Dangling)
    else if !s.objects[o].marked then Ok((s, []))
    else
      var t :- Get(s, o);
      var u :- Remove(t, o);
      if o !in u.objects then Err(Dangling)
      else
        var v :- Put(u, o);
        Ok((v, [Removed(u.objects[o].data)]))
  }

  function Sweep(s: State, rest: seq<nat>): Result<(State, seq<Event>), Crash>
    decreases |rest|
  {
    if rest == [] then Ok((s, []))
    else
      var first :- SweepOne(s, rest[0]);
      var more :- Sweep(first.0, rest[1..]);
      Ok((more.0, first.1 + more.1))
  }

  /** nl_cache_resync with a dump that is not interrupted. */
  function Resync(s: State, c: nat, dump: seq<Data>): Result<(State, Code, seq<Event>), Crash>
  {
    if c !in s.caches then Err(Dangling)
    else
      var t :- MarkAll(s, s.caches[c].items);
      var picked :- PickupAll(t, c, dump);
      if picked.1 != Success || c !in picked.0.caches then Ok(picked)
      else
        var swept :- Sweep(picked.0, picked.0.caches[c].items);
        Ok((swept.0, Success, picked.2 + swept.1))
  }
}
