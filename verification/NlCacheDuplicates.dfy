/** Where a resynchronization is not faithful: a cache without hash table may hold two objects of the
    same identity (libnl/lib/cache.c). */
module NlCacheDuplicates {
  import opened Wrappers
  import opened NlObjects
  import opened NlCache
  import opened NlCacheSafety
  import opened NlCacheSteps
  import opened NlContents
  import opened NlCacheResync

  // ---------- views ----------

  ghost predicate HasMarked(view: seq<Entry>, id: Attrs)
  {
    exists i :: 0 <= i < |view| && view[i].marked && Identity(view[i].data) == id
  }

  ghost predicate HasUnmarked(view: seq<Entry>, id: Attrs)
  {
    exists i :: 0 <= i < |view| && !view[i].marked && Identity(view[i].data) == id
  }

  /** The identity has a value as long as an entry has it. */
  lemma {:induction false} HasContents(view: seq<Entry>, i: nat)
    requires i < |view|
    ensures Identity(view[i].data) in Contents(view, true)
    decreases |view|
  {
    if i < |view| - 1 {
      assert view[..|view| - 1][i] == view[i];
      HasContents(view[..|view| - 1], i);
    }
  }

  /** A log of removals only. */
  ghost predicate Removals(log: seq<Event>)
  {
    forall i :: 0 <= i < |log| ==> log[i].Removed?
  }

  ghost predicate Names(log: seq<Event>, id: Attrs)
  {
    exists i :: 0 <= i < |log| && Identity(log[i].data) == id
  }

  /** What a log of removals names is not there after it. */
  lemma {:induction false} RemovalsLast(m: map<Attrs, Attrs>, log: seq<Event>, id: Attrs)
    requires Removals(log) && (Names(log, id) || id !in m)
    ensures Replay(m, log).Some? ==> id !in Replay(m, log).value
    decreases |log|
  {
    if log != [] {
      var first := Identity(log[0].data);
      if Names(log, id) && first != id {
        var i :| 0 <= i < |log| && Identity(log[i].data) == id;
        assert log[1..][i - 1] == log[i];
      }
      RemovalsLast(m - {first}, log[1..], id);
    }
  }

  /** After a new object took the place of the first of two with its identity, the second is still
      there. */
  lemma SecondStays(view: seq<Entry>, i: nat, j: nat, data: Data)
    requires i < j < |view| && Identity(view[i].data) == Identity(view[j].data) == Identity(data)
    requires forall k :: 0 <= k < |view| ==> view[k].marked
    ensures HasMarked(IncludeEntry(view, data, New), Identity(data))
    ensures HasUnmarked(IncludeEntry(view, data, New), Identity(data))
  {
    var at := FirstId(view, Identity(data)).value;
    var after := IncludeEntry(view, data, New);
    var kept := if at == i then j else i;
    var k := if kept < at then kept else kept - 1;
    assert after[k] == view[kept];
    assert after[|after| - 1] == Entry(data, false);
  }

  lemma DropKeeps(view: seq<Entry>, n: nat, id: Attrs)
    requires n < |view| && view[n].marked
    ensures HasUnmarked(view, id) ==> HasUnmarked(DropEntry(view, Some(n)), id)
    ensures HasMarked(view, id) && Identity(view[n].data) != id ==> HasMarked(DropEntry(view, Some(n)), id)
  {
    var less := DropEntry(view, Some(n));
    assert forall i :: 0 <= i < |view| && i != n ==> view[i] == less[if i < n then i else i - 1];
  }

  // ---------- sweeping ----------

  /** Sweeping names every identity that a marked entry has, and keeps the unmarked ones. */
  lemma {:induction false} SweepNames(s: State, held: multiset<nat>, c: nat, n: nat, id: Attrs)
    returns (w: State, log: seq<Event>)
    requires Sound(s, held, c) && Clean(View(s, s.caches[c].items), n)
    requires HasUnmarked(View(s, s.caches[c].items), id)
    ensures Sweep(s, s.caches[c].items[n..]) == Ok((w, log)) && Sound(w, held, c)
    ensures Removals(log) && (HasMarked(View(s, s.caches[c].items), id) ==> Names(log, id))
    ensures HasUnmarked(View(w, w.caches[c].items), id)
    decreases |s.caches[c].items| - n
  {
    var items := s.caches[c].items;
    var view := View(s, items);
    if n == |items| {
      w, log := s, [];
    } else if !s.objects[items[n]].marked {
      w, log := SweepNames(s, held, c, n + 1, id);
      SweepSkips(s, items, n, w, log);
    } else {
      var t, after := SweepFirstOfTwo(s, held, c, n, view);
      DropKeeps(view, n, id);
      var rest;
      w, rest := SweepNames(t, held, c, n, id);
      log := [Removed(view[n].data)] + rest;
      SweepTakes(s, items, n, t, w, view[n].data, rest);
      NamedFirst(view[n].data, rest, id);
    }
  }

  lemma SweepFirstOfTwo(s: State, held: multiset<nat>, c: nat, n: nat, view: seq<Entry>)
    returns (t: State, after: seq<Entry>)
    requires Sound(s, held, c) && view == View(s, s.caches[c].items) && n < |view| && view[n].marked && Clean(view, n)
    ensures SweepOne(s, s.caches[c].items[n]) == Ok((t, [Removed(view[n].data)]))
    ensures Sound(t, held, c) && after == View(t, t.caches[c].items) && Clean(after, n)
    ensures t.caches[c].items[n..] == s.caches[c].items[n + 1..] && after == DropEntry(view, Some(n))
  {
    t := SweepMarked(s, held, c, n);
    after := View(t, t.caches[c].items);
    assert forall i :: 0 <= i < n ==> after[i] == view[i];
  }

  lemma NamedFirst(data: Data, rest: seq<Event>, id: Attrs)
    requires Removals(rest)
    ensures Removals([Removed(data)] + rest)
    ensures Identity(data) == id || Names(rest, id) ==> Names([Removed(data)] + rest, id)
  {
    var log := [Removed(data)] + rest;
    assert log[0].data == data;
    if Names(rest, id) {
      var i :| 0 <= i < |rest| && Identity(rest[i].data) == id;
      assert log[i + 1] == rest[i];
    }
  }

  // ---------- the whole resynchronization ----------

  lemma MarkedSound(s: State, held: multiset<nat>, c: nat) returns (t: State)
    requires Sound(s, held, c)
    ensures MarkAll(s, s.caches[c].items) == Ok(t) && Sound(t, held, c) && t.caches == s.caches
    ensures var view, marked := View(s, s.caches[c].items), View(t, s.caches[c].items);
            |marked| == |view| && forall i :: 0 <= i < |view| ==> marked[i] == Entry(view[i].data, true)
  {
    var items := s.caches[c].items;
    assert forall o :: o in items ==> o in s.objects;
    MarkAllEffect(s, items, items);
    MarkAllKeeps(s, held, items);
    t := MarkAll(s, items).value;
    var view, marked := View(s, items), View(t, items);
    forall i | 0 <= i < |view|
      ensures marked[i] == Entry(view[i].data, true)
    {
      assert items[i] in s.objects;
    }
  }

  /** With two objects of the same identity in the cache, a dump that just names that identity once
      already makes the log wrong: it ends with the removal of an object that is still there. So
      resynchronizing is faithful for every dump exactly when no two items have the same identity. */
  lemma DuplicatesLoseTrack(s: State, held: multiset<nat>, c: nat, i: nat, j: nat, data: Data)
    returns (w: State, log: seq<Event>)
    requires Sound(s, held, c) && Fits(s.caches[c], data) && s.caches[c].actions[data.msgType] == New
    requires i < j < |s.caches[c].items|
    requires var view := View(s, s.caches[c].items);
             Identity(view[i].data) == Identity(view[j].data) == Identity(data)
    ensures Resync(s, c, [data]) == Ok((w, Success, log)) && c in w.caches && AllLive(w, w.caches[c].items)
    ensures Replay(Contents(View(s, s.caches[c].items), true), log) != Some(Contents(View(w, w.caches[c].items), true))
  {
    var id, view := Identity(data), View(s, s.caches[c].items);
    var t := MarkedSound(s, held, c);
    var marked := View(t, t.caches[c].items);
    SecondStays(marked, i, j, data);
    var u := PickupEffect(t, held, c, data);
    var first := IncludeEvents(marked, data, New);
    PickedUp(t, u, c, data, first);
    IncludedSound(t, u, held, c, data);
    var second;
    w, second := SweepNames(u, held, c, 0, id);
    assert u.caches[c].items[0..] == u.caches[c].items;
    log := first + second;
    StillThere(w, c, id);
    NotReplayed(Contents(view, true), first, second, id);
  }

  lemma PickedUp(t: State, u: State, c: nat, data: Data, first: seq<Event>)
    requires Pickup(t, c, data) == Ok((u, Success, first))
    ensures PickupAll(t, c, [data]) == Ok((u, Success, first))
  {
    assert [data][1..] == [] && first + [] == first;
    assert PickupAll(u, c, []) == Ok((u, Success, []));
  }

  lemma IncludedSound(t: State, u: State, held: multiset<nat>, c: nat, data: Data)
    requires Sound(t, held, c) && Valid(u, held) && SameCaches(t, u) && Fits(t.caches[c], data)
    requires c in u.caches && AllLive(u, u.caches[c].items)
    requires View(u, u.caches[c].items) == IncludeEntry(View(t, t.caches[c].items), data, New)
    ensures Sound(u, held, c)
  {
    IncludeOfKind(View(t, t.caches[c].items), data, New);
  }

  lemma StillThere(w: State, c: nat, id: Attrs)
    requires c in w.caches && AllLive(w, w.caches[c].items) && HasUnmarked(View(w, w.caches[c].items), id)
    ensures id in Contents(View(w, w.caches[c].items), true)
  {
    var view := View(w, w.caches[c].items);
    var k :| 0 <= k < |view| && !view[k].marked && Identity(view[k].data) == id;
    HasContents(view, k);
  }

  lemma NotReplayed(m: map<Attrs, Attrs>, first: seq<Event>, second: seq<Event>, id: Attrs)
    requires Removals(second) && Names(second, id)
    ensures Replay(m, first + second).Some? ==> id !in Replay(m, first + second).value
  {
    if Replay(m, first).Some? {
      ReplayBoth(m, first, second);
      RemovalsLast(Replay(m, first).value, second, id);
    } else {
      ReplayStuck(m, first, second);
    }
  }

  lemma {:induction false} ReplayStuck(m: map<Attrs, Attrs>, first: seq<Event>, second: seq<Event>)
    requires Replay(m, first).None?
    ensures Replay(m, first + second).None?
    decreases |first|
  {
    assert (first + second)[0] == first[0] && (first + second)[1..] == first[1..] + second;
    var id := Identity(first[0].data);
    match first[0] {
      case Added(data) => if id !in m { ReplayStuck(m[id := data.attrs], first[1..], second); }
      case Changed(was, data) =>
        if Identity(was) == id && id in m && m[id] == was.attrs {
          ReplayStuck(m[id := data.attrs], first[1..], second);
        }
      case Removed(data) => if id in m && m[id] == data.attrs { ReplayStuck(m - {id}, first[1..], second); }
    }
  }
}
