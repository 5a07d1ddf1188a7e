/** When the shortcut of nl_cache_find through the hash table finds what the filter finds
    (libnl/lib/cache.c). */
module NlCacheFinding {
  import opened Wrappers
  import opened NlObjects
  import opened NlCache
  import opened NlCacheSafety

  /** The shortcut is taken: the filter has exactly its identifying attributes, and there is a table. */
  ghost predicate ShortcutTaken(s: State, c: nat, filter: nat)
    requires c in s.caches && filter in s.objects
  {
    IdAttrs(s.objects[filter].data) == s.objects[filter].data.attrs.Keys && s.caches[c].table.Some?
  }

  ghost predicate Matches(s: State, p: nat, filter: nat)
    requires filter in s.objects
  {
    p in s.objects && MatchesFilter(s.objects[p].data, s.objects[filter].data)
  }

  /** Item `i` is the first that the filter matches. */
  ghost predicate FirstAt(s: State, items: seq<nat>, filter: nat, i: nat)
    requires filter in s.objects && i < |items|
  {
    Matches(s, items[i], filter) && forall j :: 0 <= j < i ==> !Matches(s, items[j], filter)
  }

  lemma {:induction false} FirstMatchExact(s: State, items: seq<nat>, filter: nat) returns (i: nat)
    requires filter in s.objects && AllLive(s, items)
    ensures i <= |items|
    ensures if i == |items|
            then FirstMatch(s, items, filter).None? && forall p :: p in items ==> !Matches(s, p, filter)
            else FirstMatch(s, items, filter) == Some(items[i]) && FirstAt(s, items, filter, i)
    decreases |items|
  {
    if items == [] {
      i := 0;
    } else if Matches(s, items[0], filter) {
      i := 0;
    } else {
      var rest := items[1..];
      var k := FirstMatchExact(s, rest, filter);
      assert forall j :: 0 < j < |items| ==> items[j] == rest[j - 1];
      assert forall p :: p in items <==> p == items[0] || p in rest;
      i := k + 1;
    }
  }

  /** A filter with exactly its identifying attributes: it matches what is identical to it, and an
      object that it matches is identical to it if no further attribute identifies that object. */
  lemma MatchAgainstIdentity(p: nat, d: Data, q: nat, filter: Data)
    requires p != q && d.kind == filter.kind && filter.kind.comparable && IdAttrs(filter) == filter.attrs.Keys
    ensures Identical(p, d, q, filter) <==> MatchesFilter(d, filter) && RequiredOf(d) == filter.attrs.Keys
  {
    var keys := filter.attrs.Keys;
    assert RequiredOf(filter) == keys;
    CompareEmpty(d, filter, keys);
    CompareEmpty(d, filter, RequiredOf(d));
  }

  /** The object is identified by the filter's attributes and no others. */
  ghost predicate Identified(s: State, p: nat, filter: nat)
    requires filter in s.objects
  {
    p in s.objects && RequiredOf(s.objects[p].data) == s.objects[filter].data.attrs.Keys
  }

  /** The condition on filter and items: nothing matches, and the filter is not an item itself, or the
      first item that matches is identified by the filter's attributes and no others. */
  ghost predicate ShortcutRight(s: State, items: seq<nat>, filter: nat)
    requires filter in s.objects
  {
    || (filter !in items && forall p :: p in items ==> !Matches(s, p, filter))
    || (exists i :: 0 <= i < |items| && FirstAt(s, items, filter, i) && Identified(s, items[i], filter))
  }

  lemma FirstOnly(s: State, items: seq<nat>, filter: nat, i: nat)
    requires filter in s.objects && i < |items| && FirstAt(s, items, filter, i)
    ensures ShortcutRight(s, items, filter) <==> Identified(s, items[i], filter)
  {
    assert items[i] in items;
    forall j | 0 <= j < |items| && FirstAt(s, items, filter, j)
      ensures j == i
    {
    }
  }

  lemma SameAsMatch(s: State, p: nat, filter: nat)
    requires p in s.objects && filter in s.objects && s.objects[p].data.kind == s.objects[filter].data.kind
    requires s.objects[filter].data.kind.comparable
    requires IdAttrs(s.objects[filter].data) == s.objects[filter].data.attrs.Keys
    ensures Same(s, p, filter) <==>
            && MatchesFilter(s.objects[p].data, s.objects[filter].data)
            && RequiredOf(s.objects[p].data) == s.objects[filter].data.attrs.Keys
  {
    if p == filter {
      CompareEmpty(s.objects[p].data, s.objects[filter].data, s.objects[filter].data.attrs.Keys);
    } else {
      MatchAgainstIdentity(p, s.objects[p].data, filter, s.objects[filter].data);
    }
  }

  lemma NeverSame(s: State, p: nat, filter: nat)
    requires p in s.objects && filter in s.objects && p != filter
    requires s.objects[p].data.kind != s.objects[filter].data.kind || !s.objects[filter].data.kind.comparable
    ensures !Same(s, p, filter) && !MatchesFilter(s.objects[p].data, s.objects[filter].data)
  {
  }

  lemma ListedAgainstFirst(s: State, items: seq<nat>, filter: nat)
    requires filter in s.objects && AllLive(s, items) && Unique(s, items)
    requires IdAttrs(s.objects[filter].data) == s.objects[filter].data.attrs.Keys
    requires s.objects[filter].data.kind.comparable
    requires forall p :: p in items ==> p in s.objects && s.objects[p].data.kind == s.objects[filter].data.kind
    ensures Listed(s, items, filter) == FirstMatch(s, items, filter) <==> ShortcutRight(s, items, filter)
  {
    var i := FirstMatchExact(s, items, filter);
    if i < |items| {
      FirstOnly(s, items, filter, i);
    }
    ScanMatches(s, items, filter);
    forall p | p in items
      ensures Same(s, p, filter) <==>
              && MatchesFilter(s.objects[p].data, s.objects[filter].data)
              && RequiredOf(s.objects[p].data) == s.objects[filter].data.attrs.Keys
    {
      SameAsMatch(s, p, filter);
    }
    if filter in items {
      assert Same(s, filter, filter);
    }
  }

  lemma ListedAgainstNone(s: State, items: seq<nat>, filter: nat)
    requires filter in s.objects && AllLive(s, items)
    requires forall p :: p in items ==> p in s.objects
    requires forall p :: p in items && p != filter ==>
                           s.objects[p].data.kind != s.objects[filter].data.kind || !s.objects[filter].data.kind.comparable
    requires filter in items ==> !s.objects[filter].data.kind.comparable
    ensures Listed(s, items, filter) == FirstMatch(s, items, filter) <==> ShortcutRight(s, items, filter)
  {
    var i := FirstMatchExact(s, items, filter);
    if i < |items| {
      FirstOnly(s, items, filter, i);
    }
    FirstSameExact(s, items, filter);
    forall p | p in items && p != filter
      ensures !Same(s, p, filter) && !MatchesFilter(s.objects[p].data, s.objects[filter].data)
    {
      NeverSame(s, p, filter);
    }
    if filter in items {
      assert Same(s, filter, filter);
    }
  }

  lemma ItemKinds(s: State, held: multiset<nat>, c: nat)
    requires Valid(s, held) && c in s.caches
    ensures AllLive(s, s.caches[c].items)
    ensures forall p :: p in s.caches[c].items ==> p in s.objects && s.objects[p].data.kind == s.caches[c].kind
  {
    assert CacheOk(s, c);
    forall p | p in s.caches[c].items
      ensures p in s.objects && s.objects[p].data.kind == s.caches[c].kind
    {
      assert Member(s, c, p);
      assert ObjectOk(s, held, p);
    }
  }

  /** nl_cache_find gives what trying the filter on every item gives exactly when it does not take its
      shortcut, or the first item that matches is identified by just the filter's attributes (and
      the filter is not itself in a cache where nothing can be compared). */
  lemma ShortcutExact(s: State, held: multiset<nat>, c: nat, filter: nat)
    requires Valid(s, held) && c in s.caches && filter in s.objects
    ensures FindMatch(s, c, filter) == Ok(FirstMatch(s, s.caches[c].items, filter)) <==>
            !ShortcutTaken(s, c, filter) || ShortcutRight(s, s.caches[c].items, filter)
  {
    var items := s.caches[c].items;
    ItemKinds(s, held, c);
    if ShortcutTaken(s, c, filter) {
      FastLookupAgrees(s, held, c, filter);
      assert CacheOk(s, c);
      if s.objects[filter].data.kind == s.caches[c].kind && s.caches[c].kind.comparable {
        ListedAgainstFirst(s, items, filter);
      } else {
        ListedAgainstNone(s, items, filter);
      }
    }
  }

  /** For an object type without identifying attributes and a cache with a hash table: the shortcut
      goes wrong exactly for the empty filter, when the first item is not empty itself. */
  lemma ShortcutWithoutIds(s: State, held: multiset<nat>, c: nat, filter: nat)
    requires Valid(s, held) && c in s.caches && filter in s.objects && s.caches[c].table.Some?
    requires s.objects[filter].data.kind == s.caches[c].kind && s.caches[c].kind.comparable
    requires s.objects[filter].data.idAttrs.None?
    requires forall o :: o in s.caches[c].items && o in s.objects ==> s.objects[o].data.idAttrs.None?
    ensures var items := s.caches[c].items;
            FindMatch(s, c, filter) == Ok(FirstMatch(s, items, filter)) <==>
            s.objects[filter].data.attrs != map[] || items == []
            || (items[0] in s.objects && s.objects[items[0]].data.attrs == map[])
  {
    var items := s.caches[c].items;
    ShortcutExact(s, held, c, filter);
    ItemKinds(s, held, c);
    assert s.objects[filter].data.attrs.Keys == {} <==> s.objects[filter].data.attrs == map[];
    if s.objects[filter].data.attrs == map[] && items != [] {
      var first := s.objects[items[0]].data;
      assert items[0] in items;
      assert MatchesFilter(first, s.objects[filter].data);
      assert RequiredOf(first) == first.attrs.Keys;
      assert first.attrs.Keys == {} <==> first.attrs == map[];
    }
  }
}
