/** A resynchronization makes the cache what was dumped, and reports every change
    (libnl/lib/cache.c). */
module NlCacheResync {
  import opened Wrappers
  import opened NlObjects
  import opened NlCache
  import opened NlCacheSafety
  import opened NlCacheRuns
  import opened NlCacheSteps
  import opened NlContents

  function EntryOf(s: State, o: nat): Entry
    requires o in s.objects
  {
    Entry(s.objects[o].data, s.objects[o].marked)
  }

  function View(s: State, items: seq<nat>): seq<Entry>
    requires AllLive(s, items)
  {
    seq(|items|, i requires 0 <= i < |items| && items[i] in s.objects => EntryOf(s, items[i]))
  }

  /** Nothing but `gone` was freed or changed. */
  ghost predicate KeptBut(s: State, t: State, gone: set<nat>)
  {
    forall p :: p in s.objects && p !in gone ==> p in t.objects && EntryOf(t, p) == EntryOf(s, p)
  }

  /** Only this cache was changed, and its list is now `items`. */
  ghost predicate Relisted(s: State, t: State, c: nat, items: seq<nat>)
  {
    c in s.caches && c in t.caches && t.caches == s.caches[c := t.caches[c]] && t.caches[c].items == items
  }

  // ---------- one operation at a time ----------

  lemma GetKept(s: State, o: nat)
    requires o in s.objects
    ensures Get(s, o).Ok? && KeptBut(s, Get(s, o).value, {}) && Get(s, o).value.caches == s.caches
  {
  }

  lemma PutKept(s: State, held: multiset<nat>, o: nat)
    requires Valid(s, held) && o in held
    ensures Put(s, o).Ok? && Put(s, o).value.caches == s.caches
    ensures KeptBut(s, Put(s, o).value, if s.objects[o].cache.Some? then {} else {o})
  {
    PutKeeps(s, held, o);
  }

  lemma UnlinkedKept(s: State, held: multiset<nat>, c: nat, o: nat)
    requires Valid(s, held) && c in s.caches && Member(s, c, o)
    ensures var i := PositionOf(s.caches[c].items, o);
            Relisted(s, Unlinked(s, o), c, Drop(s.caches[c].items, i))
    ensures KeptBut(s, Unlinked(s, o), if o in held then {} else {o})
  {
    UnlinkedCache(s, held, c, o);
    RemoveLess(s, held, c, o);
    UnlinkedObjects(s, held, c, o);
  }

  /** A new object is appended. */
  lemma MoveFresh(s: State, held: multiset<nat>, c: nat, o: nat)
    requires Valid(s, held) && c in s.caches && o in held && !s.objects[o].listed
    requires s.objects[o].data.kind == s.caches[c].kind && !Duplicate(s, c, o)
    ensures Move(s, c, o).Ok? && Move(s, c, o).value.1 == Success && Valid(Move(s, c, o).value.0, held)
    ensures Relisted(s, Move(s, c, o).value.0, c, s.caches[c].items + [o])
    ensures KeptBut(s, Move(s, c, o).value.0, {})
  {
    assert ObjectOk(s, held, o);
    GetKeeps(s, held, o);
    GetKept(s, o);
    var t := Get(s, o).value;
    StillNoDuplicate(s, t, c, o);
    InsertOutcome(t, held + multiset{o}, c, o);
    InsertKeeps(t, held + multiset{o}, c, o);
    assert held + multiset{o} - multiset{o} == held;
  }

  lemma StillNoDuplicate(s: State, t: State, c: nat, o: nat)
    requires c in s.caches && !Duplicate(s, c, o) && Get(s, o) == Ok(t)
    ensures !Duplicate(t, c, o)
  {
  }

  lemma RelistedTwice(s: State, t: State, u: State, c: nat, first: seq<nat>, second: seq<nat>)
    requires Relisted(s, t, c, first) && Relisted(t, u, c, second)
    ensures Relisted(s, u, c, second)
  {
    assert s.caches[c := t.caches[c]][c := u.caches[c]] == s.caches[c := u.caches[c]];
  }

  lemma KeptTwice(s: State, t: State, u: State, gone: set<nat>)
    requires KeptBut(s, t, {}) && KeptBut(t, u, gone)
    ensures KeptBut(s, u, gone)
  {
  }

  lemma ReplaceUnfolds(s: State, t: State, u: State, w: State, c: nat, prior: nat, o: nat)
    requires Remove(s, prior) == Ok(t) && Move(t, c, o) == Ok((u, Success)) && Put(u, prior) == Ok(w)
    requires KeptBut(s, u, {}) && prior in s.objects && o in s.objects
    ensures Replace(s, c, prior, o) ==
            Ok((w, if Differs(s.objects[prior].data, s.objects[o].data)
                   then [Changed(s.objects[prior].data, s.objects[o].data)] else []))
  {
    assert EntryOf(u, prior) == EntryOf(s, prior) && EntryOf(u, o) == EntryOf(s, o);
  }

  /** The predecessor leaves, and the new object is appended. */
  lemma ReplaceEffect(s: State, held: multiset<nat>, c: nat, prior: nat, o: nat) returns (w: State)
    requires Valid(s, held) && prior in held && o in held && prior != o && c in s.caches && Member(s, c, prior)
    requires !s.objects[o].listed && s.objects[o].data.kind == s.caches[c].kind && Same(s, prior, o)
    ensures Relisted(s, w, c, Drop(s.caches[c].items, PositionOf(s.caches[c].items, prior)) + [o])
    ensures KeptBut(s, w, {prior}) && Valid(w, held - multiset{prior})
    ensures Replace(s, c, prior, o) ==
            Ok((w, if Differs(s.objects[prior].data, s.objects[o].data)
                   then [Changed(s.objects[prior].data, s.objects[o].data)] else []))
  {
    var t := Unlinked(s, prior);
    var rest := t.caches[c].items;
    RemoveKeeps(s, held, c, prior);
    UnlinkedKept(s, held, c, prior);
    NoDuplicateAfter(s, held, c, prior, o);
    MoveUnlinked(s, t, held, c, prior, o);
    var u := Move(t, c, o).value.0;
    KeptTwice(s, t, u, {});
    RelistedTwice(s, t, u, c, rest, rest + [o]);
    w := PutPrior(s, u, held, c, prior, rest + [o]);
    ReplaceUnfolds(s, t, u, w, c, prior, o);
  }

  lemma PutPrior(s: State, u: State, held: multiset<nat>, c: nat, prior: nat, items: seq<nat>) returns (w: State)
    requires Valid(u, held) && prior in held && Relisted(s, u, c, items) && KeptBut(s, u, {})
    ensures Put(u, prior) == Ok(w) && Relisted(s, w, c, items) && KeptBut(s, w, {prior})
    ensures Valid(w, held - multiset{prior})
  {
    PutKeeps(u, held, prior);
    PutKept(u, held, prior);
    w := Put(u, prior).value;
    KeptTwice(s, u, w, {prior});
  }

  lemma MoveUnlinked(s: State, t: State, held: multiset<nat>, c: nat, prior: nat, o: nat)
    requires Valid(s, held) && Valid(t, held) && prior in held && o in held && prior != o && c in s.caches
    requires Member(s, c, prior) && t == Unlinked(s, prior) && c in t.caches && !Duplicate(t, c, o)
    requires !s.objects[o].listed && s.objects[o].data.kind == s.caches[c].kind
    ensures Move(t, c, o).Ok? && Move(t, c, o).value.1 == Success && Valid(Move(t, c, o).value.0, held)
    ensures Relisted(t, Move(t, c, o).value.0, c, t.caches[c].items + [o])
    ensures KeptBut(t, Move(t, c, o).value.0, {})
  {
    RemoveLess(s, held, c, prior);
    assert t.objects[o] == s.objects[o];
    assert LessCache(s.caches[c], t.caches[c]);
    MoveFresh(t, held, c, o);
  }

  lemma NoDuplicateAfter(s: State, held: multiset<nat>, c: nat, prior: nat, o: nat)
    requires Valid(s, held) && prior in held && o in held && prior != o && c in s.caches && Member(s, c, prior)
    requires Same(s, prior, o)
    ensures c in Unlinked(s, prior).caches && !Duplicate(Unlinked(s, prior), c, o)
  {
    assert ObjectOk(s, held, prior);
    RemoveLess(s, held, c, prior);
    if s.caches[c].table.Some? {
      UniqueTable(s, held, c);
    }
    NoDuplicateLeft(s, Unlinked(s, prior), c, prior, o);
  }

  /** Where IncludeEntry finds the predecessor. */
  lemma FoundAt(s: State, held: multiset<nat>, c: nat, o: nat)
    requires Valid(s, held) && c in s.caches && o in s.objects && s.objects[o].cache.None?
    requires s.objects[o].data.kind == s.caches[c].kind && s.caches[c].kind.comparable
    ensures AllLive(s, s.caches[c].items)
    ensures FirstSame(s, s.caches[c].items, o) == FirstId(View(s, s.caches[c].items), Identity(s.objects[o].data))
  {
    assert CacheOk(s, c);
    var items := s.caches[c].items;
    forall i | 0 <= i < |items|
      ensures items[i] in s.objects && items[i] != o && s.objects[items[i]].data.kind == s.objects[o].data.kind
    {
      assert Member(s, c, items[i]);
      assert ObjectOk(s, held, items[i]);
    }
    FirstSameIsFirstId(s, items, o);
  }

  lemma {:induction false} FirstSameIsFirstId(s: State, items: seq<nat>, o: nat)
    requires AllLive(s, items) && o in s.objects && s.objects[o].data.kind.comparable
    requires forall i :: 0 <= i < |items| ==>
                           items[i] != o && s.objects[items[i]].data.kind == s.objects[o].data.kind
    ensures FirstSame(s, items, o) == FirstId(View(s, items), Identity(s.objects[o].data))
    decreases |items|
  {
    if items != [] {
      assert View(s, items)[1..] == View(s, items[1..]);
      assert View(s, items)[0] == EntryOf(s, items[0]);
      IdenticalIsSameIdentity(items[0], s.objects[items[0]].data, o, s.objects[o].data);
      FirstSameIsFirstId(s, items[1..], o);
    }
  }

  // ---------- including a new object ----------

  lemma RestAt(s: State, w: State, items: seq<nat>, at: Option<nat>, gone: set<nat>, i: nat)
    requires AllLive(s, items) && Distinct(items) && KeptBut(s, w, gone)
    requires if at.Some? then at.value < |items| && gone == {items[at.value]} else gone == {}
    requires i < if at.Some? then |items| - 1 else |items|
    ensures var rest := if at.Some? then Drop(items, at.value) else items;
            rest[i] in w.objects && EntryOf(w, rest[i]) == DropEntry(View(s, items), at)[i]
  {
    var j := if at.Some? && i >= at.value then i + 1 else i;
    RestIndex(items, View(s, items), at, i, j);
    assert View(s, items)[j] == EntryOf(s, items[j]);
  }

  lemma RestIndex(items: seq<nat>, view: seq<Entry>, at: Option<nat>, i: nat, j: nat)
    requires |items| == |view| && j < |items| && j == if at.Some? && i >= at.value then i + 1 else i
    requires at.Some? ==> at.value < |items|
    ensures var rest := if at.Some? then Drop(items, at.value) else items;
            i < |rest| && rest[i] == items[j] && i < |DropEntry(view, at)| && DropEntry(view, at)[i] == view[j]
  {
  }

  lemma ViewOfRest(s: State, w: State, items: seq<nat>, at: Option<nat>, gone: set<nat>)
    requires AllLive(s, items) && Distinct(items) && KeptBut(s, w, gone)
    requires if at.Some? then at.value < |items| && gone == {items[at.value]} else gone == {}
    ensures var rest := if at.Some? then Drop(items, at.value) else items;
            AllLive(w, rest) && View(w, rest) == DropEntry(View(s, items), at)
  {
    var rest := if at.Some? then Drop(items, at.value) else items;
    var view := DropEntry(View(s, items), at);
    forall i | 0 <= i < |rest|
      ensures rest[i] in w.objects && EntryOf(w, rest[i]) == view[i]
    {
      RestAt(s, w, items, at, gone, i);
    }
    assert |View(w, rest)| == |view|;
  }

  lemma ViewOfSnoc(w: State, rest: seq<nat>, o: nat)
    requires AllLive(w, rest) && o in w.objects
    ensures AllLive(w, rest + [o]) && View(w, rest + [o]) == View(w, rest) + [EntryOf(w, o)]
  {
  }

  /** The caller's new object: in no cache, and unmarked. */
  ghost predicate FreshFor(s: State, held: multiset<nat>, c: nat, o: nat)
  {
    && Valid(s, held) && o in held && c in s.caches && o in s.objects
    && !s.objects[o].listed && !s.objects[o].marked
    && s.objects[o].data.kind == s.caches[c].kind && s.caches[c].kind.comparable
  }

  lemma FreshFacts(s: State, held: multiset<nat>, c: nat, o: nat)
    requires FreshFor(s, held, c, o)
    ensures s.objects[o].cache.None? && o !in s.caches[c].items
    ensures Distinct(s.caches[c].items) && AllLive(s, s.caches[c].items)
    ensures FirstSame(s, s.caches[c].items, o) == FirstId(View(s, s.caches[c].items), Identity(s.objects[o].data))
  {
    assert ObjectOk(s, held, o) && CacheOk(s, c);
    assert o in s.caches[c].items ==> Member(s, c, o);
    FoundAt(s, held, c, o);
  }

  lemma NewEffect(s: State, held: multiset<nat>, c: nat, o: nat) returns (w: State, items: seq<nat>)
    requires FreshFor(s, held, c, o)
    ensures AllLive(s, s.caches[c].items)
    ensures var view := View(s, s.caches[c].items);
            var data := s.objects[o].data;
            && IncludeNew(s, c, o) == Ok((w, IncludeEvents(view, data, New)))
            && Valid(w, held) && Relisted(s, w, c, items) && o in items && AllLive(w, items)
            && View(w, items) == IncludeEntry(view, data, New)
  {
    FreshFacts(s, held, c, o);
    var before := s.caches[c].items;
    var at := FirstSame(s, before, o);
    if at.None? {
      w := NewAppended(s, held, c, o);
      items := before + [o];
      ViewOfRest(s, w, before, None, {});
      ViewOfSnoc(w, before, o);
    } else {
      var prior := before[at.value];
      w := NewReplaced(s, held, c, o, at.value);
      items := Drop(before, at.value) + [o];
      ViewOfRest(s, w, before, at, {prior});
      ViewOfSnoc(w, Drop(before, at.value), o);
    }
  }

  lemma NewAppended(s: State, held: multiset<nat>, c: nat, o: nat) returns (w: State)
    requires FreshFor(s, held, c, o) && FirstSame(s, s.caches[c].items, o).None?
    ensures IncludeNew(s, c, o) == Ok((w, [Added(s.objects[o].data)])) && Valid(w, held)
    ensures Relisted(s, w, c, s.caches[c].items + [o]) && KeptBut(s, w, {})
  {
    SearchKeeps(s, held, c, o);
    FirstSameExact(s, s.caches[c].items, o);
    MoveFresh(s, held, c, o);
    w := Move(s, c, o).value.0;
    assert EntryOf(w, o) == EntryOf(s, o);
  }

  lemma NewReplaced(s: State, held: multiset<nat>, c: nat, o: nat, i: nat) returns (w: State)
    requires FreshFor(s, held, c, o) && FirstSame(s, s.caches[c].items, o) == Some(i)
    ensures s.caches[c].items[i] in s.objects
    ensures IncludeNew(s, c, o) ==
            var was, now := s.objects[s.caches[c].items[i]].data, s.objects[o].data;
            Ok((w, if Differs(was, now) then [Changed(was, now)] else []))
    ensures Valid(w, held) && Relisted(s, w, c, Drop(s.caches[c].items, i) + [o])
    ensures KeptBut(s, w, {s.caches[c].items[i]})
  {
    FreshFacts(s, held, c, o);
    SearchKeeps(s, held, c, o);
    var prior := s.caches[c].items[i];
    var t := Get(s, prior).value;
    GetKept(s, prior);
    Dropped(s.caches[c].items, prior, i);
    w := ReplaceEffect(t, held + multiset{prior}, c, prior, o);
    KeptTwice(s, t, w, {prior});
    assert held + multiset{prior} - multiset{prior} == held;
  }

  lemma DelFound(s: State, held: multiset<nat>, c: nat, o: nat, i: nat) returns (w: State)
    requires FreshFor(s, held, c, o) && FirstSame(s, s.caches[c].items, o) == Some(i)
    ensures s.caches[c].items[i] in s.objects
    ensures IncludeDel(s, c, o) == Ok((w, [Removed(s.objects[s.caches[c].items[i]].data)]))
    ensures Valid(w, held) && Relisted(s, w, c, Drop(s.caches[c].items, i))
    ensures KeptBut(s, w, {s.caches[c].items[i]})
  {
    FreshFacts(s, held, c, o);
    SearchKeeps(s, held, c, o);
    var prior := s.caches[c].items[i];
    var t := Get(s, prior).value;
    GetKept(s, prior);
    Dropped(s.caches[c].items, prior, i);
    w := ExpelPrior(s, t, held + multiset{prior}, c, prior);
    assert held + multiset{prior} - multiset{prior} == held;
  }

  lemma ExpelPrior(s: State, t: State, held: multiset<nat>, c: nat, prior: nat) returns (w: State)
    requires Valid(t, held) && prior in held && c in t.caches && Member(t, c, prior)
    requires KeptBut(s, t, {}) && t.caches == s.caches && prior in s.objects
    ensures Remove(t, prior).Ok? && prior in Remove(t, prior).value.objects
    ensures Remove(t, prior).value.objects[prior].data == s.objects[prior].data
    ensures Put(Remove(t, prior).value, prior) == Ok(w) && Valid(w, held - multiset{prior})
    ensures Relisted(s, w, c, Drop(s.caches[c].items, PositionOf(s.caches[c].items, prior)))
    ensures KeptBut(s, w, {prior})
  {
    RemoveKeeps(t, held, c, prior);
    UnlinkedKept(t, held, c, prior);
    var u := Unlinked(t, prior);
    KeptTwice(s, t, u, {});
    assert EntryOf(u, prior) == EntryOf(s, prior);
    w := PutPrior(s, u, held, c, prior, u.caches[c].items);
  }

  lemma DelEffect(s: State, held: multiset<nat>, c: nat, o: nat) returns (w: State, items: seq<nat>)
    requires FreshFor(s, held, c, o)
    ensures AllLive(s, s.caches[c].items)
    ensures var view := View(s, s.caches[c].items);
            var data := s.objects[o].data;
            && IncludeDel(s, c, o) == Ok((w, IncludeEvents(view, data, Del)))
            && Valid(w, held) && Relisted(s, w, c, items) && AllLive(w, items)
            && View(w, items) == IncludeEntry(view, data, Del)
  {
    FreshFacts(s, held, c, o);
    var before := s.caches[c].items;
    var at := FirstSame(s, before, o);
    if at.None? {
      w, items := s, before;
      SearchKeeps(s, held, c, o);
      assert s.caches[c := s.caches[c]] == s.caches;
    } else {
      w := DelFound(s, held, c, o, at.value);
      items := Drop(before, at.value);
      ViewOfRest(s, w, before, at, {before[at.value]});
    }
  }

  lemma ActionEffect(s: State, held: multiset<nat>, c: nat, o: nat, action: Action) returns (w: State, items: seq<nat>)
    requires FreshFor(s, held, c, o)
    ensures AllLive(s, s.caches[c].items)
    ensures var view := View(s, s.caches[c].items);
            var data := s.objects[o].data;
            && IncludeAs(s, c, o, action) == Ok((w, IncludeEvents(view, data, action)))
            && Valid(w, held) && Relisted(s, w, c, items) && AllLive(w, items)
            && View(w, items) == IncludeEntry(view, data, action)
  {
    FreshFacts(s, held, c, o);
    match action {
      case New => w, items := NewEffect(s, held, c, o);
      case Del => w, items := DelEffect(s, held, c, o);
      case Other =>
        w, items := s, s.caches[c].items;
        assert s.caches[c := s.caches[c]] == s.caches;
    }
  }

  // ---------- the dump ----------

  /** The cache `c` in a good state, with no two items of the same identity. */
  ghost predicate Ready(s: State, held: multiset<nat>, c: nat)
  {
    Sound(s, held, c) && DistinctIds(View(s, s.caches[c].items))
  }

  ghost predicate Sound(s: State, held: multiset<nat>, c: nat)
  {
    && Valid(s, held) && c in s.caches && s.caches[c].kind.comparable
    && AllLive(s, s.caches[c].items)
    && forall i :: 0 <= i < |View(s, s.caches[c].items)| ==>
                     View(s, s.caches[c].items)[i].data.kind == s.caches[c].kind
  }

  /** An object of the cache's kind and of a message type that belongs to it. */
  ghost predicate Fits(ca: Cache, data: Data)
  {
    data.kind == ca.kind && data.msgType in ca.actions
  }

  lemma AllocFresh(s: State, held: multiset<nat>, c: nat, data: Data)
    requires Valid(s, held) && c in s.caches && data.kind == s.caches[c].kind && s.caches[c].kind.comparable
    requires AllLive(s, s.caches[c].items)
    ensures var t := Alloc(s, data).0;
            && FreshFor(t, held + multiset{s.next}, c, s.next) && t.objects[s.next].data == data
            && t.caches == s.caches && View(t, s.caches[c].items) == View(s, s.caches[c].items)
  {
    AllocKeeps(s, held, data);
    var t := Alloc(s, data).0;
    forall i | 0 <= i < |s.caches[c].items|
      ensures EntryOf(t, s.caches[c].items[i]) == EntryOf(s, s.caches[c].items[i])
    {
      assert ObjectOk(s, held, s.caches[c].items[i]);
    }
  }

  /** The parser's last reference goes; the list stays as it is. */
  lemma PutParsed(s: State, held: multiset<nat>, c: nat, o: nat)
    requires Valid(s, held) && o in held && c in s.caches && AllLive(s, s.caches[c].items)
    ensures Put(s, o).Ok?
    ensures var t := Put(s, o).value;
            && Valid(t, held - multiset{o}) && t.caches == s.caches && AllLive(t, s.caches[c].items)
            && View(t, s.caches[c].items) == View(s, s.caches[c].items)
  {
    PutKeeps(s, held, o);
    PutKept(s, held, o);
    var t := Put(s, o).value;
    assert CacheOk(s, c);
    forall i | 0 <= i < |s.caches[c].items|
      ensures s.caches[c].items[i] in t.objects && EntryOf(t, s.caches[c].items[i]) == EntryOf(s, s.caches[c].items[i])
    {
      assert Member(s, c, s.caches[c].items[i]);
    }
  }

  lemma PickupEffect(s: State, held: multiset<nat>, c: nat, data: Data) returns (w: State)
    requires Sound(s, held, c) && Fits(s.caches[c], data)
    ensures var view := View(s, s.caches[c].items);
            var action := ActionOf(s.caches[c].actions, data);
            && Pickup(s, c, data) == Ok((w, Success, IncludeEvents(view, data, action)))
            && c in w.caches && AllLive(w, w.caches[c].items)
            && View(w, w.caches[c].items) == IncludeEntry(view, data, action)
    ensures Valid(w, held) && SameCaches(s, w) && Relisted(s, w, c, w.caches[c].items)
  {
    var t, o, more := Alloc(s, data).0, s.next, held + multiset{s.next};
    AllocFresh(s, held, c, data);
    var action := ActionOf(s.caches[c].actions, data);
    var u, items := ActionEffect(t, more, c, o, action);
    PutParsed(u, more, c, o);
    w := Put(u, o).value;
    assert more - multiset{o} == held;
    PickupKeeps(s, held, c, data);
  }

  function ActionOf(actions: map<nat, Action>, data: Data): Action
  {
    if data.msgType in actions then actions[data.msgType] else Other
  }

  /** What a dump leaves on top of `m`: per identity, what was reported last. */
  function Dumped(m: map<Attrs, Attrs>, dump: seq<Data>, actions: map<nat, Action>): map<Attrs, Attrs>
    decreases |dump|
  {
    if dump == [] then m
    else Dumped(Report(m, dump[0], ActionOf(actions, dump[0])), dump[1..], actions)
  }

  ghost predicate OfKind(view: seq<Entry>, kind: Kind)
  {
    forall i :: 0 <= i < |view| ==> view[i].data.kind == kind
  }

  lemma IncludeOfKind(view: seq<Entry>, data: Data, action: Action)
    requires OfKind(view, data.kind)
    ensures OfKind(IncludeEntry(view, data, action), data.kind)
  {
  }

  lemma {:induction false} PickupAllEffect(s: State, held: multiset<nat>, c: nat, dump: seq<Data>)
    returns (w: State, log: seq<Event>)
    requires Ready(s, held, c) && forall i :: 0 <= i < |dump| ==> Fits(s.caches[c], dump[i])
    ensures PickupAll(s, c, dump) == Ok((w, Success, log)) && Ready(w, held, c)
    ensures var view, after := View(s, s.caches[c].items), View(w, w.caches[c].items);
            && Contents(after, false) == Dumped(Contents(view, false), dump, s.caches[c].actions)
            && Replay(Contents(view, true), log) == Some(Contents(after, true))
    ensures Relisted(s, w, c, w.caches[c].items)
    decreases |dump|
  {
    if dump == [] {
      w, log := s, [];
      assert s.caches[c := s.caches[c]] == s.caches;
    } else {
      var view, action := View(s, s.caches[c].items), ActionOf(s.caches[c].actions, dump[0]);
      assert Fits(s.caches[c], dump[0]);
      var t := PickupEffect(s, held, c, dump[0]);
      IncludeContents(view, dump[0], action, false);
      IncludeOfKind(view, dump[0], action);
      IncludeReplays(view, dump[0], action);
      var rest;
      w, rest := PickupAllEffect(t, held, c, dump[1..]);
      log := IncludeEvents(view, dump[0], action) + rest;
      ReplayBoth(Contents(view, true), IncludeEvents(view, dump[0], action), rest);
      RelistedTwice(s, t, w, c, t.caches[c].items, w.caches[c].items);
    }
  }

  // ---------- marking and sweeping ----------

  lemma {:induction false} MarkAllEffect(s: State, items: seq<nat>, rest: seq<nat>)
    requires AllLive(s, items) && forall o :: o in rest ==> o in s.objects
    ensures MarkAll(s, rest).Ok?
    ensures var t := MarkAll(s, rest).value;
            && t.caches == s.caches && t.objects.Keys == s.objects.Keys
            && forall o :: o in s.objects ==>
                             && t.objects[o].data == s.objects[o].data
                             && t.objects[o].marked == (s.objects[o].marked || o in rest)
    decreases |rest|
  {
    if rest != [] {
      var t := Mark(s, rest[0]).value;
      MarkAllEffect(t, items, rest[1..]);
    }
  }

  lemma {:induction false} MarkedContents(view: seq<Entry>, marked: seq<Entry>)
    requires |marked| == |view|
    requires forall i :: 0 <= i < |view| ==> marked[i] == Entry(view[i].data, true)
    ensures Contents(marked, true) == Contents(view, true) && Contents(marked, false) == map[]
    decreases |view|
  {
    if view != [] {
      MarkedContents(view[..|view| - 1], marked[..|view| - 1]);
    }
  }

  lemma MarkedReady(s: State, held: multiset<nat>, c: nat) returns (t: State)
    requires Ready(s, held, c)
    ensures MarkAll(s, s.caches[c].items) == Ok(t) && Ready(t, held, c) && t.caches == s.caches
    ensures Contents(View(t, s.caches[c].items), true) == Contents(View(s, s.caches[c].items), true)
    ensures Contents(View(t, s.caches[c].items), false) == map[]
  {
    var items := s.caches[c].items;
    assert forall o :: o in items ==> o in s.objects;
    MarkAllEffect(s, items, items);
    MarkAllKeeps(s, held, items);
    t := MarkAll(s, items).value;
    var view, marked := View(s, items), View(t, items);
    forall i | 0 <= i < |view|
      ensures marked[i] == Entry(view[i].data, true)
    {
      assert items[i] in s.objects;
    }
    MarkedContents(view, marked);
  }

  /** All of the first `n` entries are unmarked. */
  ghost predicate Clean(view: seq<Entry>, n: nat)
  {
    n <= |view| && forall i :: 0 <= i < n ==> !view[i].marked
  }

  lemma {:induction false} CleanContents(view: seq<Entry>)
    requires Clean(view, |view|)
    ensures Contents(view, true) == Contents(view, false)
    decreases |view|
  {
    if view != [] {
      CleanContents(view[..|view| - 1]);
    }
  }

  lemma SweepMarked(s: State, held: multiset<nat>, c: nat, n: nat) returns (w: State)
    requires Sound(s, held, c) && n < |s.caches[c].items| && s.objects[s.caches[c].items[n]].marked
    ensures SweepOne(s, s.caches[c].items[n]) == Ok((w, [Removed(s.objects[s.caches[c].items[n]].data)]))
    ensures Valid(w, held) && Relisted(s, w, c, Drop(s.caches[c].items, n)) && AllLive(w, w.caches[c].items)
    ensures View(w, w.caches[c].items) == DropEntry(View(s, s.caches[c].items), Some(n))
    ensures w.caches[c].kind == s.caches[c].kind
  {
    var items := s.caches[c].items;
    var o := items[n];
    assert CacheOk(s, c);
    assert o in items && Member(s, c, o);
    GetKeeps(s, held, o);
    GetKept(s, o);
    Dropped(items, o, n);
    w := ExpelPrior(s, Get(s, o).value, held + multiset{o}, c, o);
    assert held + multiset{o} - multiset{o} == held;
    ViewOfRest(s, w, items, Some(n), {o});
    SameKindAfterSweep(s, held, c, o);
  }

  lemma SameKindAfterSweep(s: State, held: multiset<nat>, c: nat, o: nat)
    requires Valid(s, held) && c in s.caches && Member(s, c, o) && SweepOne(s, o).Ok? && s.objects[o].marked
    ensures SameCaches(s, SweepOne(s, o).value.0)
  {
    RemoveSameCaches(Get(s, o).value, o);
  }

  lemma DropMarked(view: seq<Entry>, n: nat)
    requires DistinctIds(view) && n < |view| && view[n].marked
    ensures var less := DropEntry(view, Some(n));
            && DistinctIds(less) && Contents(less, false) == Contents(view, false)
            && Replay(Contents(view, true), [Removed(view[n].data)]) == Some(Contents(less, true))
  {
    DropDistinct(view, n);
    DropMarkedReplays(view, n);
    ContentsDrop(view, n, false);
    ContentsAt(view, false);
  }

  lemma DropMarkedReplays(view: seq<Entry>, n: nat)
    requires DistinctIds(view) && n < |view|
    ensures Replay(Contents(view, true), [Removed(view[n].data)]) == Some(Contents(DropEntry(view, Some(n)), true))
  {
    ContentsDrop(view, n, true);
    ContentsAt(view, true);
    ReplayOne(Contents(view, true), [Removed(view[n].data)]);
  }

  lemma DropThenSweep(view: seq<Entry>, n: nat, rest: seq<Event>, last: map<Attrs, Attrs>)
    requires DistinctIds(view) && n < |view| && view[n].marked
    requires var less := DropEntry(view, Some(n));
             last == Contents(less, false) && Replay(Contents(less, true), rest) == Some(last)
    ensures last == Contents(view, false)
    ensures Replay(Contents(view, true), [Removed(view[n].data)] + rest) == Some(last)
  {
    DropMarked(view, n);
    ReplayBoth(Contents(view, true), [Removed(view[n].data)], rest);
  }

  /** The first item to be swept is one that is marked. */
  lemma SweepFirst(s: State, held: multiset<nat>, c: nat, n: nat, view: seq<Entry>) returns (t: State)
    requires Ready(s, held, c) && view == View(s, s.caches[c].items) && n < |view| && view[n].marked && Clean(view, n)
    ensures SweepOne(s, s.caches[c].items[n]) == Ok((t, [Removed(view[n].data)])) && Ready(t, held, c)
    ensures View(t, t.caches[c].items) == DropEntry(view, Some(n)) && Clean(View(t, t.caches[c].items), n)
    ensures t.caches[c].items[n..] == s.caches[c].items[n + 1..] && Relisted(s, t, c, t.caches[c].items)
  {
    t := SweepMarked(s, held, c, n);
    var less := DropEntry(view, Some(n));
    DropMarked(view, n);
    DropKeepsEntries(view, less, n, s.caches[c].kind);
    assert View(t, t.caches[c].items) == less;
  }

  lemma DropKeepsEntries(view: seq<Entry>, less: seq<Entry>, n: nat, kind: Kind)
    requires n < |view| && Clean(view, n) && less == DropEntry(view, Some(n))
    requires forall i :: 0 <= i < |view| ==> view[i].data.kind == kind
    ensures Clean(less, n)
    ensures forall i :: 0 <= i < |less| ==> less[i].data.kind == kind
  {
    assert forall i :: 0 <= i < |less| ==> less[i] == view[if i < n then i else i + 1];
  }

  /** Sweeping the items from position `n` on leaves the unmarked ones, and the log says which
      identities went. */
  lemma {:induction false} SweepEffect(s: State, held: multiset<nat>, c: nat, n: nat) returns (w: State, log: seq<Event>)
    requires Ready(s, held, c) && Clean(View(s, s.caches[c].items), n)
    ensures Sweep(s, s.caches[c].items[n..]) == Ok((w, log)) && Ready(w, held, c)
    ensures var view, after := View(s, s.caches[c].items), View(w, w.caches[c].items);
            && Contents(after, true) == Contents(view, false)
            && Replay(Contents(view, true), log) == Some(Contents(after, true))
    ensures Relisted(s, w, c, w.caches[c].items)
    decreases |s.caches[c].items| - n
  {
    var items := s.caches[c].items;
    var view := View(s, items);
    if n == |items| {
      w, log := s, [];
      CleanContents(view);
      assert s.caches[c := s.caches[c]] == s.caches;
    } else if !s.objects[items[n]].marked {
      w, log := SweepEffect(s, held, c, n + 1);
      SweepSkips(s, items, n, w, log);
    } else {
      var t := SweepFirst(s, held, c, n, view);
      var rest;
      w, rest := SweepEffect(t, held, c, n);
      log := [Removed(view[n].data)] + rest;
      SweepTakes(s, items, n, t, w, view[n].data, rest);
      DropThenSweep(view, n, rest, Contents(View(w, w.caches[c].items), true));
      RelistedTwice(s, t, w, c, t.caches[c].items, w.caches[c].items);
    }
  }

  lemma SweepSkips(s: State, items: seq<nat>, n: nat, w: State, log: seq<Event>)
    requires n < |items| && items[n] in s.objects && !s.objects[items[n]].marked
    requires Sweep(s, items[n + 1..]) == Ok((w, log))
    ensures Sweep(s, items[n..]) == Ok((w, log))
  {
    assert items[n..][0] == items[n] && items[n..][1..] == items[n + 1..];
    assert [] + log == log;
  }

  lemma SweepTakes(s: State, items: seq<nat>, n: nat, t: State, w: State, data: Data, rest: seq<Event>)
    requires n < |items| && SweepOne(s, items[n]) == Ok((t, [Removed(data)]))
    requires Sweep(t, items[n + 1..]) == Ok((w, rest))
    ensures Sweep(s, items[n..]) == Ok((w, [Removed(data)] + rest))
  {
    assert items[n..][0] == items[n] && items[n..][1..] == items[n + 1..];
  }

  // ---------- the whole resynchronization ----------

  /** Resynchronizing with a dump that is not interrupted makes the cache hold, per identity, what
      was dumped last, changes no other cache, and reports a log that turns the former contents
      into the new ones. */
  lemma ResyncFaithful(s: State, held: multiset<nat>, c: nat, dump: seq<Data>) returns (w: State, log: seq<Event>)
    requires Ready(s, held, c) && forall i :: 0 <= i < |dump| ==> Fits(s.caches[c], dump[i])
    ensures Resync(s, c, dump) == Ok((w, Success, log)) && Ready(w, held, c)
    ensures var before, after := View(s, s.caches[c].items), View(w, w.caches[c].items);
            && Contents(after, true) == Dumped(map[], dump, s.caches[c].actions)
            && Replay(Contents(before, true), log) == Some(Contents(after, true))
    ensures Relisted(s, w, c, w.caches[c].items)
  {
    var t := MarkedReady(s, held, c);
    var u, first := PickupAllEffect(t, held, c, dump);
    var second;
    w, second := SweepEffect(u, held, c, 0);
    assert u.caches[c].items[0..] == u.caches[c].items;
    log := first + second;
    ReplayBoth(Contents(View(s, s.caches[c].items), true), first, second);
    RelistedTwice(t, u, w, c, u.caches[c].items, w.caches[c].items);
  }

  /** In a cache with a hash table no two items have the same identity. */
  lemma HashedReady(s: State, held: multiset<nat>, c: nat)
    requires Valid(s, held) && c in s.caches && s.caches[c].table.Some? && s.caches[c].kind.comparable
    ensures Ready(s, held, c)
  {
    assert CacheOk(s, c);
    var items := s.caches[c].items;
    forall i | 0 <= i < |items|
      ensures items[i] in s.objects && s.objects[items[i]].data.kind == s.caches[c].kind
    {
      assert Member(s, c, items[i]);
      assert ObjectOk(s, held, items[i]);
    }
    forall i, j | 0 <= i < j < |items|
      ensures Identity(s.objects[items[i]].data) != Identity(s.objects[items[j]].data)
    {
      IdenticalIsSameIdentity(items[i], s.objects[items[i]].data, items[j], s.objects[items[j]].data);
      assert !Same(s, items[i], items[j]);
    }
  }
}
