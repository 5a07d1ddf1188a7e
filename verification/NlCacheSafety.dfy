/** What every operation on caches keeps: the hash index agrees with the list, and every reference
    is accounted for (libnl/lib/cache.c, hashtable.c, object.c). */
module NlCacheSafety {
  import opened Wrappers
  import opened NlObjects
  import opened NlCache

  // ---------- the invariant ----------

  /** A hash chain: exactly the items with that key, each once. */
  ghost predicate ChainOk(s: State, items: seq<nat>, k: nat, size: nat, chain: seq<nat>)
    requires size > 0
  {
    && Distinct(chain)
    && forall o :: o in chain <==> o in items && Key(s, o, size) == k
  }

  ghost predicate Unique(s: State, items: seq<nat>)
  {
    forall p, q :: p in items && q in items && Same(s, p, q) ==> p == q
  }

  ghost predicate TableOk(s: State, items: seq<nat>, table: seq<seq<nat>>)
  {
    && |table| > 0
    && (forall k :: 0 <= k < |table| ==> ChainOk(s, items, k, |table|, table[k]))
    && Unique(s, items)
  }

  ghost predicate Member(s: State, c: nat, o: nat)
  {
    o in s.objects && s.objects[o].cache == Some(c)
  }

  ghost predicate CacheOk(s: State, c: nat)
    requires c in s.caches
  {
    var ca := s.caches[c];
    && Distinct(ca.items) && ca.count == |ca.items|
    && (forall o :: o in ca.items ==> Member(s, c, o))
    && (ca.table.Some? ==> TableOk(s, ca.items, ca.table.value))
  }

  /** The references that caches hold on an object: one for the list, and one for the hash table. */
  function Stored(s: State, cache: Option<nat>): nat
  {
    if cache.None? then 0
    else if cache.value in s.caches && s.caches[cache.value].table.Some? then 2
    else 1
  }

  ghost predicate ObjectOk(s: State, held: multiset<nat>, o: nat)
    requires o in s.objects
  {
    var ob := s.objects[o];
    && ob.refCount == held[o] + Stored(s, ob.cache) && ob.refCount > 0 && o < s.next
    && (ob.cache.Some? ==>
          && ob.listed && ob.cache.value in s.caches && o in s.caches[ob.cache.value].items
          && s.caches[ob.cache.value].kind == ob.data.kind)
  }

  /** `held` are the references in the hands of callers. */
  ghost predicate Valid(s: State, held: multiset<nat>)
  {
    && (forall o :: o in s.objects ==> ObjectOk(s, held, o))
    && (forall c :: c in s.caches ==> CacheOk(s, c))
    && (forall o :: o in held ==> o in s.objects)
  }

  // ---------- frames ----------

  /** The object at `o` is as good for the caches in `t` as it is in `s`. */
  ghost predicate Kept(s: State, t: State, o: nat)
    requires o in s.objects
  {
    o in t.objects && t.objects[o].data == s.objects[o].data && t.objects[o].cache == s.objects[o].cache
  }

  lemma ChainFrame(s: State, t: State, items: seq<nat>, k: nat, size: nat, chain: seq<nat>)
    requires size > 0 && ChainOk(s, items, k, size, chain)
    requires forall o :: o in items ==> Key(t, o, size) == Key(s, o, size)
    ensures ChainOk(t, items, k, size, chain)
  {
  }

  lemma CacheFrame(s: State, t: State, c: nat)
    requires c in s.caches && CacheOk(s, c) && t.keygen == s.keygen
    requires c in t.caches && t.caches[c] == s.caches[c]
    requires forall o :: Member(s, c, o) ==> Kept(s, t, o)
    ensures CacheOk(t, c)
  {
    var ca := s.caches[c];
    if ca.table.Some? {
      var table := ca.table.value;
      forall k | 0 <= k < |table|
        ensures ChainOk(t, ca.items, k, |table|, table[k])
      {
        ChainFrame(s, t, ca.items, k, |table|, table[k]);
      }
    }
  }

  // ---------- objects ----------

  lemma AllocKeeps(s: State, held: multiset<nat>, data: Data)
    requires Valid(s, held)
    ensures Valid(Alloc(s, data).0, held + multiset{s.next})
  {
    var t := Alloc(s, data).0;
    forall c | c in t.caches
      ensures CacheOk(t, c)
    {
      CacheFrame(s, t, c);
    }
  }

  lemma GetKeeps(s: State, held: multiset<nat>, o: nat)
    requires Valid(s, held) && o in s.objects
    ensures Get(s, o).Ok? && Valid(Get(s, o).value, held + multiset{o})
  {
    var t := Get(s, o).value;
    forall c | c in t.caches
      ensures CacheOk(t, c)
    {
      CacheFrame(s, t, c);
    }
  }

  /** Giving back a reference never runs into BUG(), and frees the object exactly when it was the
      last one: an object in a cache stays. */
  lemma PutKeeps(s: State, held: multiset<nat>, o: nat)
    requires Valid(s, held) && o in held
    ensures Put(s, o).Ok? && Valid(Put(s, o).value, held - multiset{o})
    ensures o in Put(s, o).value.objects <==> held[o] > 1 || s.objects[o].cache.Some?
  {
    assert ObjectOk(s, held, o);
    var t := Put(s, o).value;
    forall c | c in t.caches
      ensures CacheOk(t, c)
    {
      CacheFrame(s, t, c);
    }
  }

  // ---------- the index ----------

  lemma {:induction false} FirstSameExact(s: State, list: seq<nat>, o: nat)
    ensures FirstSame(s, list, o).None? <==> forall i :: 0 <= i < |list| ==> !Same(s, list[i], o)
    decreases |list|
  {
    if list != [] {
      FirstSameExact(s, list[1..], o);
      if FirstSame(s, list, o).None? {
        assert forall i :: 1 <= i < |list| ==> list[i] == list[1..][i - 1];
      } else if !Same(s, list[0], o) {
        var i := FirstSame(s, list[1..], o).value;
        assert list[i + 1] == list[1..][i];
      }
    }
  }

  lemma SameKey(s: State, p: nat, q: nat, size: nat)
    requires size > 0 && Same(s, p, q)
    ensures Key(s, p, size) == Key(s, q, size)
  {
    if p != q {
      IdenticalIsSameIdentity(p, s.objects[p].data, q, s.objects[q].data);
    }
  }

  lemma SameTransitive(s: State, p: nat, q: nat, r: nat)
    requires Same(s, p, q) && Same(s, r, q)
    ensures Same(s, p, r)
  {
    if p != q && r != q && p != r {
      IdenticalIsSameIdentity(p, s.objects[p].data, q, s.objects[q].data);
      IdenticalIsSameIdentity(r, s.objects[r].data, q, s.objects[q].data);
      IdenticalIsSameIdentity(p, s.objects[p].data, r, s.objects[r].data);
    }
  }

  /** The only item identical to `o`, found in its chain or in the whole list. */
  ghost predicate OnlyMatch(s: State, items: seq<nat>, o: nat, found: Option<nat>)
  {
    match found
    case None => forall p :: p in items ==> !Same(s, p, o)
    case Some(q) => q in items && Same(s, q, o) && forall p :: p in items && Same(s, p, o) ==> p == q
  }

  lemma ChainLookup(s: State, items: seq<nat>, table: seq<seq<nat>>, o: nat, k: nat)
    requires TableOk(s, items, table) && o in s.objects && (forall p :: p in items ==> p in s.objects)
    requires k == Key(s, o, |table|)
    ensures Lookup(s, table, o) == Ok(FirstSame(s, table[k], o))
    ensures OnlyMatch(s, items, o, Listed(s, table[k], o))
  {
    var chain := table[k];
    assert ChainOk(s, items, k, |table|, chain);
    FirstSameExact(s, chain, o);
    forall p | p in items && Same(s, p, o)
      ensures p in chain
    {
      SameKey(s, p, o, |table|);
    }
    if Listed(s, chain, o).Some? {
      var q := Listed(s, chain, o).value;
      forall p | p in items && Same(s, p, o)
        ensures p == q
      {
        SameTransitive(s, p, o, q);
      }
    }
  }

  /** In a cache with a hash table, looking an object up gives what scanning the list gives. */
  lemma FastLookupAgrees(s: State, held: multiset<nat>, c: nat, o: nat)
    requires Valid(s, held) && c in s.caches && o in s.objects
    ensures Find(s, c, o) == Ok(Listed(s, s.caches[c].items, o))
  {
    var ca := s.caches[c];
    assert CacheOk(s, c);
    if ca.table.Some? {
      ChainLookup(s, ca.items, ca.table.value, o, Key(s, o, |ca.table.value|));
      ScanMatches(s, ca.items, o);
    } else {
      assert forall i :: 0 <= i < |ca.items| ==> Member(s, c, ca.items[i]);
    }
  }

  lemma ScanMatches(s: State, items: seq<nat>, o: nat)
    requires Unique(s, items)
    ensures OnlyMatch(s, items, o, Listed(s, items, o))
  {
    FirstSameExact(s, items, o);
    if Listed(s, items, o).Some? {
      var q := Listed(s, items, o).value;
      forall p | p in items && Same(s, p, o)
        ensures p == q
      {
        SameTransitive(s, p, o, q);
      }
    }
  }

  /** The first object in a list that matches a filter. */
  function FirstMatch(s: State, items: seq<nat>, filter: nat): Option<nat>
  {
    if items == [] || filter !in s.objects then None
    else if items[0] in s.objects && MatchesFilter(s.objects[items[0]].data, s.objects[filter].data) then Some(items[0])
    else FirstMatch(s, items[1..], filter)
  }

  /** The object nl_cache_find finds. */
  function FindMatch(s: State, c: nat, filter: nat): Result<Option<nat>, Crash>
  {
    if c !in s.caches || filter !in s.objects then Err(Dangling)
    else
      var data := s.objects[filter].data;
      if IdAttrs(data) == data.attrs.Keys && s.caches[c].table.Some? then Find(s, c, filter)
      else if !AllLive(s, s.caches[c].items) then Err(Dangling)
      else Ok(FirstMatch(s, s.caches[c].items, filter))
  }

  /** For an object type without identifying attributes an empty filter matches everything, but the
      shortcut only looks for an empty object. */
  lemma ShortcutMisses(s: State, held: multiset<nat>, c: nat, filter: nat)
    requires Valid(s, held) && c in s.caches && filter in s.objects && filter !in s.caches[c].items
    requires s.caches[c].table.Some? && s.caches[c].items != [] && s.objects[filter].data.idAttrs.None?
    requires s.objects[filter].data.attrs == map[] && s.objects[filter].data.kind == s.caches[c].kind
    requires s.caches[c].kind.comparable
    requires forall o :: o in s.caches[c].items && o in s.objects ==>
                           s.objects[o].data.idAttrs.None? && s.objects[o].data.attrs != map[]
    ensures FindMatch(s, c, filter) == Ok(None) && FirstMatch(s, s.caches[c].items, filter).Some?
  {
    var items := s.caches[c].items;
    assert CacheOk(s, c);
    assert forall o :: o in items ==> Member(s, c, o) && ObjectOk(s, held, o);
    FastLookupAgrees(s, held, c, filter);
    FirstSameExact(s, items, filter);
    assert items[0] in items;
    assert MatchesFilter(s.objects[items[0]].data, s.objects[filter].data);
  }

  // ---------- adding to a cache ----------

  /** The same objects with the same contents and marks. */
  ghost predicate SameData(s: State, t: State)
  {
    && t.keygen == s.keygen && t.objects.Keys == s.objects.Keys
    && forall o :: o in s.objects ==>
                     t.objects[o].data == s.objects[o].data && t.objects[o].marked == s.objects[o].marked
  }

  lemma TableGrows(s: State, t: State, items: seq<nat>, table: seq<seq<nat>>, o: nat, k: nat)
    requires TableOk(s, items, table) && SameData(s, t) && o !in items && k == Key(s, o, |table|)
    requires forall p :: p in items ==> !Same(s, p, o)
    ensures TableOk(t, items + [o], table[k := [o] + table[k]])
  {
    var grown := table[k := [o] + table[k]];
    forall j | 0 <= j < |grown|
      ensures ChainOk(t, items + [o], j, |grown|, grown[j])
    {
      assert ChainOk(s, items, j, |table|, table[j]);
      assert forall p :: Key(t, p, |table|) == Key(s, p, |table|);
      assert forall p :: p in [o] + table[k] <==> p == o || p in table[k];
    }
    forall p, q | p in items + [o] && q in items + [o] && Same(t, p, q)
      ensures p == q
    {
      assert Same(s, p, q);
      if p == o && q in items {
        SameSymmetric(s, o, q);
      }
    }
  }

  lemma SameSymmetric(s: State, p: nat, q: nat)
    requires Same(s, p, q)
    ensures Same(s, q, p)
  {
    if p != q {
      IdenticalIsSameIdentity(p, s.objects[p].data, q, s.objects[q].data);
      IdenticalIsSameIdentity(q, s.objects[q].data, p, s.objects[p].data);
    }
  }

  /** Whether nl_hash_table_add finds a duplicate. */
  ghost predicate Duplicate(s: State, c: nat, o: nat)
    requires c in s.caches
  {
    s.caches[c].table.Some? && exists p :: p in s.caches[c].items && Same(s, p, o)
  }

  lemma InsertOutcome(s: State, held: multiset<nat>, c: nat, o: nat)
    requires Valid(s, held) && c in s.caches && o in s.objects
    ensures Insert(s, c, o).Ok? && Insert(s, c, o).value.1 == if Duplicate(s, c, o) then Exist else Success
  {
    var ca := s.caches[c];
    assert CacheOk(s, c);
    if ca.table.Some? {
      ChainLookup(s, ca.items, ca.table.value, o, Key(s, o, |ca.table.value|));
    }
  }

  /** A failed insertion changes nothing. */
  lemma InsertRefused(s: State, held: multiset<nat>, c: nat, o: nat)
    requires Valid(s, held) && c in s.caches && o in s.objects && Duplicate(s, c, o)
    requires s.objects[o].cache.None?
    ensures Insert(s, c, o) == Ok((s, Exist))
  {
    InsertOutcome(s, held, c, o);
    var ob := s.objects[o];
    assert ob.(cache := None) == ob && s.objects[o := ob] == s.objects;
  }

  lemma InsertedCache(s: State, held: multiset<nat>, c: nat, o: nat)
    requires Valid(s, held) && c in s.caches && o in s.objects && !Duplicate(s, c, o)
    requires s.objects[o].cache.None?
    ensures Insert(s, c, o).Ok?
    ensures var t := Insert(s, c, o).value.0; c in t.caches && CacheOk(t, c)
  {
    InsertOutcome(s, held, c, o);
    var t := Insert(s, c, o).value.0;
    var ca := s.caches[c];
    assert CacheOk(s, c);
    assert !Member(s, c, o);
    if ca.table.Some? {
      TableGrows(s, t, ca.items, ca.table.value, o, Key(s, o, |ca.table.value|));
    }
  }

  lemma InsertedObjects(s: State, held: multiset<nat>, c: nat, o: nat)
    requires Valid(s, held) && c in s.caches && o in held && !Duplicate(s, c, o)
    requires s.objects[o].cache.None? && s.objects[o].data.kind == s.caches[c].kind
    ensures Insert(s, c, o).Ok?
    ensures var t := Insert(s, c, o).value.0;
            && SameData(s, t) && t.caches == s.caches[c := t.caches[c]] && t.caches[c].items == s.caches[c].items + [o]
            && forall p :: p in t.objects ==> ObjectOk(t, held - multiset{o}, p)
  {
    InsertOutcome(s, held, c, o);
    var t := Insert(s, c, o).value.0;
    assert ObjectOk(s, held, o);
    forall p | p in t.objects
      ensures ObjectOk(t, held - multiset{o}, p)
    {
      assert ObjectOk(s, held, p);
    }
  }

  /** An insertion takes over one reference of the caller's; the hash table takes its own. */
  lemma InsertKeeps(s: State, held: multiset<nat>, c: nat, o: nat)
    requires Valid(s, held) && c in s.caches && o in held && !Duplicate(s, c, o)
    requires s.objects[o].cache.None? && s.objects[o].data.kind == s.caches[c].kind
    ensures Insert(s, c, o).Ok?
    ensures var t := Insert(s, c, o).value.0;
            && Valid(t, held - multiset{o}) && SameData(s, t)
            && t.caches == s.caches[c := t.caches[c]] && t.caches[c].items == s.caches[c].items + [o]
  {
    InsertedCache(s, held, c, o);
    InsertedObjects(s, held, c, o);
    var t := Insert(s, c, o).value.0;
    forall d | d in t.caches
      ensures CacheOk(t, d)
    {
      if d != c {
        CacheFrame(s, t, d);
      }
    }
  }

  // ---------- removing from a cache ----------

  lemma Dropped(list: seq<nat>, o: nat, i: nat)
    requires Distinct(list) && i < |list| && list[i] == o
    ensures i == PositionOf(list, o) && Distinct(Drop(list, i)) && |Drop(list, i)| == |list| - 1
    ensures forall x :: x in Drop(list, i) <==> x in list && x != o
  {
    var less := Drop(list, i);
    forall x | x in list && x != o
      ensures x in less
    {
      var j := PositionOf(list, x);
      assert less[if j < i then j else j - 1] == x;
    }
    assert forall x :: x in less ==> x in list;
  }

  /** Memory after `o` was taken out of its cache, in one step. */
  function Unlinked(s: State, o: nat): State
    requires o in s.objects && s.objects[o].cache.Some? && s.objects[o].cache.value in s.caches
  {
    var ob := s.objects[o];
    var c := ob.cache.value;
    var ca := s.caches[c];
    var left := ob.refCount - Stored(s, ob.cache);
    s.(objects := if left == 0 then s.objects - {o} else s.objects[o := ob.(refCount := left, cache := None)],
       caches := s.caches[c := ca.(items := Drop(ca.items, PositionOf(ca.items, o)), count := ca.count - 1,
                                   table := Unhashed(s, ca.table, o))])
  }

  function Unhashed(s: State, table: Option<seq<seq<nat>>>, o: nat): Option<seq<seq<nat>>>
  {
    if table.None? || |table.value| == 0 then table
    else
      var k := Key(s, o, |table.value|);
      Some(table.value[k := Drop(table.value[k], PositionOf(table.value[k], o))])
  }

  /** In a table, the node that nl_hash_table_del unlinks is the object's own. */
  lemma OwnNode(s: State, items: seq<nat>, table: seq<seq<nat>>, o: nat, k: nat)
    requires TableOk(s, items, table) && o in items && (forall p :: p in items ==> p in s.objects)
    requires k == Key(s, o, |table|)
    ensures o in table[k] && Lookup(s, table, o) == Ok(Some(PositionOf(table[k], o)))
  {
    var chain := table[k];
    assert ChainOk(s, items, k, |table|, chain);
    ChainLookup(s, items, table, o, k);
    assert chain[FirstSame(s, chain, o).value] == o;
    Dropped(chain, o, FirstSame(s, chain, o).value);
  }

  lemma HashDelResult(s: State, held: multiset<nat>, c: nat, o: nat)
    requires Valid(s, held) && c in s.caches && Member(s, c, o) && s.caches[c].table.Some?
    ensures HashDel(s, c, o) ==
            Ok(s.(objects := s.objects[o := s.objects[o].(refCount := s.objects[o].refCount - 1)],
                  caches := s.caches[c := s.caches[c].(table := Unhashed(s, s.caches[c].table, o))]))
  {
    var ca := s.caches[c];
    assert CacheOk(s, c) && ObjectOk(s, held, o);
    OwnNode(s, ca.items, ca.table.value, o, Key(s, o, |ca.table.value|));
  }

  lemma RemoveResult(s: State, held: multiset<nat>, o: nat)
    requires Valid(s, held) && o in s.objects && s.objects[o].cache.Some?
    ensures s.objects[o].cache.value in s.caches && Remove(s, o) == Ok(Unlinked(s, o))
  {
    var ob := s.objects[o];
    var c := ob.cache.value;
    assert ObjectOk(s, held, o);
    var ca := s.caches[c];
    var t := s;
    if ca.table.Some? {
      HashDelResult(s, held, c, o);
      t := HashDel(s, c, o).value;
    }
    UnlinkRest(s, o, c, t);
  }

  lemma LastPut(u: State, objects: map<nat, Object>, o: nat, ob: Object)
    requires u.objects == objects[o := ob] && ob.cache.None? && ob.refCount >= 1
    ensures Put(u, o) ==
            Ok(u.(objects := if ob.refCount == 1 then objects - {o}
                             else objects[o := ob.(refCount := ob.refCount - 1)]))
  {
    var less := ob.(refCount := ob.refCount - 1);
    assert objects[o := ob] - {o} == objects - {o};
    assert objects[o := ob][o := less] == objects[o := less];
  }

  lemma UnlinkRest(s: State, o: nat, c: nat, t: State)
    requires o in s.objects && s.objects[o].cache == Some(c) && c in s.caches && HashDel(s, c, o) == Ok(t)
    requires s.objects[o].refCount >= Stored(s, Some(c))
    requires var ca, ob := s.caches[c], s.objects[o];
             t == if ca.table.None? then s
                  else s.(objects := s.objects[o := ob.(refCount := ob.refCount - 1)],
                          caches := s.caches[c := ca.(table := Unhashed(s, ca.table, o))])
    ensures Remove(s, o) == Ok(Unlinked(s, o))
  {
    var ob, ca := t.objects[o].(cache := None), t.caches[c];
    var less := ca.(items := Drop(ca.items, PositionOf(ca.items, o)), count := ca.count - 1);
    var u := WithCache(WithObject(t, o, ob), c, less);
    assert u.objects == s.objects[o := ob] && u.caches == s.caches[c := less];
    LastPut(u, s.objects, o, ob);
  }

  lemma TableShrinks(s: State, t: State, items: seq<nat>, table: seq<seq<nat>>, less: seq<nat>, o: nat)
    requires TableOk(s, items, table) && o in items && t.keygen == s.keygen
    requires forall p :: p in less <==> p in items && p != o
    requires forall p :: p in less ==> p in s.objects && p in t.objects && t.objects[p].data == s.objects[p].data
    ensures TableOk(t, less, Unhashed(s, Some(table), o).value)
  {
    var k := Key(s, o, |table|);
    var shrunk := Unhashed(s, Some(table), o).value;
    forall j | 0 <= j < |shrunk|
      ensures ChainOk(t, less, j, |shrunk|, shrunk[j])
    {
      assert ChainOk(s, items, j, |table|, table[j]);
      if j == k {
        Dropped(table[k], o, PositionOf(table[k], o));
      }
      assert forall p :: p in less ==> Key(t, p, |table|) == Key(s, p, |table|);
    }
    forall p, q | p in less && q in less && Same(t, p, q)
      ensures p == q
    {
      assert Same(s, p, q);
    }
  }

  lemma UnlinkedCache(s: State, held: multiset<nat>, c: nat, o: nat)
    requires Valid(s, held) && c in s.caches && Member(s, c, o)
    ensures CacheOk(Unlinked(s, o), c)
    ensures Unlinked(s, o).caches[c].items == Drop(s.caches[c].items, PositionOf(s.caches[c].items, o))
  {
    var t := Unlinked(s, o);
    var items := s.caches[c].items;
    assert ObjectOk(s, held, o) && CacheOk(s, c);
    Dropped(items, o, PositionOf(items, o));
    assert forall p :: p in items ==> Member(s, c, p);
    if s.caches[c].table.Some? {
      TableShrinks(s, t, items, s.caches[c].table.value, t.caches[c].items, o);
    }
  }

  lemma UnlinkedObjects(s: State, held: multiset<nat>, c: nat, o: nat)
    requires Valid(s, held) && c in s.caches && Member(s, c, o)
    ensures forall p :: p in Unlinked(s, o).objects ==> ObjectOk(Unlinked(s, o), held, p)
    ensures o in Unlinked(s, o).objects <==> o in held
  {
    var t := Unlinked(s, o);
    var items := s.caches[c].items;
    assert ObjectOk(s, held, o) && CacheOk(s, c);
    Dropped(items, o, PositionOf(items, o));
    forall p | p in t.objects
      ensures ObjectOk(t, held, p)
    {
      assert ObjectOk(s, held, p);
    }
  }

  /** Removing an object gives up the references of its cache and no other: the object is freed
      exactly when no caller holds it. */
  lemma RemoveKeeps(s: State, held: multiset<nat>, c: nat, o: nat)
    requires Valid(s, held) && Member(s, c, o)
    ensures c in s.caches && Remove(s, o) == Ok(Unlinked(s, o)) && Valid(Unlinked(s, o), held)
    ensures o in Unlinked(s, o).objects <==> o in held
  {
    RemoveResult(s, held, o);
    var t := Unlinked(s, o);
    UnlinkedCache(s, held, c, o);
    UnlinkedObjects(s, held, c, o);
    forall d | d in t.caches
      ensures CacheOk(t, d)
    {
      if d != c {
        CacheFrame(s, t, d);
      }
    }
  }
}
