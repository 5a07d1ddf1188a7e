/** What a cache holds, as a list of entries and as a map from identities, and how a change log
    is replayed (libnl/lib/cache.c). */
module NlContents {
  import opened Wrappers
  import opened NlObjects
  import opened NlCache

  datatype Entry = Entry(data: Data, marked: bool)

  /** The attributes per identity, of all entries or of the unmarked ones only. */
  function Contents(view: seq<Entry>, all: bool): map<Attrs, Attrs>
    decreases |view|
  {
    if view == [] then map[]
    else
      var last := view[|view| - 1];
      var before := Contents(view[..|view| - 1], all);
      if all || !last.marked then before[Identity(last.data) := last.data.attrs] else before
  }

  ghost predicate DistinctIds(view: seq<Entry>)
  {
    forall i, j :: 0 <= i < j < |view| ==> Identity(view[i].data) != Identity(view[j].data)
  }

  /** Where the first entry with an identity stands. */
  function FirstId(view: seq<Entry>, id: Attrs): (r: Option<nat>)
    ensures r.Some? ==> r.value < |view| && Identity(view[r.value].data) == id
    ensures r.None? ==> forall i :: 0 <= i < |view| ==> Identity(view[i].data) != id
  {
    if view == [] then None
    else if Identity(view[0].data) == id then Some(0)
    else
      var rest := FirstId(view[1..], id);
      assert rest.None? ==> forall i :: 1 <= i < |view| ==> view[i] == view[1..][i - 1];
      if rest.Some? then Some(rest.value + 1) else None
  }

  function DropEntry(view: seq<Entry>, at: Option<nat>): seq<Entry>
  {
    if at.Some? && at.value < |view| then view[..at.value] + view[at.value + 1..] else view
  }

  /** A reported object enters the view in place of the one with its identity, or leaves it. */
  function IncludeEntry(view: seq<Entry>, data: Data, action: Action): seq<Entry>
  {
    var rest := DropEntry(view, FirstId(view, Identity(data)));
    match action
    case New => rest + [Entry(data, false)]
    case Del => rest
    case Other => view
  }

  function IncludeEvents(view: seq<Entry>, data: Data, action: Action): seq<Event>
  {
    var at := FirstId(view, Identity(data));
    match action
    case New =>
      if at.None? then [Added(data)]
      else if Differs(view[at.value].data, data) then [Changed(view[at.value].data, data)]
      else []
    case Del => if at.None? then [] else [Removed(view[at.value].data)]
    case Other => []
  }

  /** The contents after replaying a log: each change must fit what is there. */
  function Replay(m: map<Attrs, Attrs>, log: seq<Event>): Option<map<Attrs, Attrs>>
    decreases |log|
  {
    if log == [] then Some(m)
    else
      var id := Identity(log[0].data);
      match log[0]
      case Added(data) => if id in m then None else Replay(m[id := data.attrs], log[1..])
      case Changed(was, data) =>
        if Identity(was) == id && id in m && m[id] == was.attrs then Replay(m[id := data.attrs], log[1..]) else None
      case Removed(data) => if id in m && m[id] == data.attrs then Replay(m - {id}, log[1..]) else None
  }

  lemma {:induction false} ReplayBoth(m: map<Attrs, Attrs>, first: seq<Event>, second: seq<Event>)
    requires Replay(m, first).Some?
    ensures Replay(m, first + second) == Replay(Replay(m, first).value, second)
    decreases |first|
  {
    if first == [] {
      assert first + second == second;
    } else {
      assert (first + second)[1..] == first[1..] + second;
      var id := Identity(first[0].data);
      match first[0] {
        case Added(data) => ReplayBoth(m[id := data.attrs], first[1..], second);
        case Changed(_, data) => ReplayBoth(m[id := data.attrs], first[1..], second);
        case Removed(_) => ReplayBoth(m - {id}, first[1..], second);
      }
    }
  }

  lemma {:induction false} ContentsAt(view: seq<Entry>, all: bool)
    requires DistinctIds(view)
    ensures forall i :: 0 <= i < |view| ==>
                          var id := Identity(view[i].data);
                          if all || !view[i].marked then id in Contents(view, all) && Contents(view, all)[id] == view[i].data.attrs
                          else id !in Contents(view, all)
    ensures forall id :: id in Contents(view, all) ==> exists i :: 0 <= i < |view| && Identity(view[i].data) == id
    decreases |view|
  {
    if view != [] {
      var less := view[..|view| - 1];
      ContentsAt(less, all);
      assert forall i :: 0 <= i < |less| ==> less[i] == view[i];
    }
  }

  lemma MinusUpdate(m: map<Attrs, Attrs>, gone: Attrs, id: Attrs, attrs: Attrs)
    ensures gone != id ==> m[id := attrs] - {gone} == (m - {gone})[id := attrs]
    ensures id !in m ==> m[id := attrs] - {id} == m
  {
  }

  lemma DropDistinct(view: seq<Entry>, i: nat)
    requires DistinctIds(view) && i < |view|
    ensures DistinctIds(DropEntry(view, Some(i)))
  {
  }

  /** Without an entry, its identity is gone. */
  lemma {:induction false} ContentsDrop(view: seq<Entry>, i: nat, all: bool)
    requires DistinctIds(view) && i < |view|
    ensures Contents(DropEntry(view, Some(i)), all) == Contents(view, all) - {Identity(view[i].data)}
    decreases |view|
  {
    var less, last := view[..|view| - 1], view[|view| - 1];
    ContentsAt(less, all);
    var dropped := DropEntry(view, Some(i));
    if i == |less| {
      assert dropped == less;
      MinusUpdate(Contents(less, all), Identity(last.data), Identity(last.data), last.data.attrs);
    } else {
      ContentsDrop(less, i, all);
      assert dropped == DropEntry(less, Some(i)) + [last];
      ContentsSnoc(DropEntry(less, Some(i)), last, all);
      MinusUpdate(Contents(less, all), Identity(view[i].data), Identity(last.data), last.data.attrs);
    }
  }

  lemma ContentsSnoc(view: seq<Entry>, last: Entry, all: bool)
    ensures Contents(view + [last], all) ==
            if all || !last.marked then Contents(view, all)[Identity(last.data) := last.data.attrs]
            else Contents(view, all)
  {
    assert (view + [last])[..|view|] == view;
  }

  /** The map after a report: what the identity has now, or nothing. */
  function Report(m: map<Attrs, Attrs>, data: Data, action: Action): map<Attrs, Attrs>
  {
    match action
    case New => m[Identity(data) := data.attrs]
    case Del => m - {Identity(data)}
    case Other => m
  }

  lemma DropContents(view: seq<Entry>, id: Attrs, all: bool)
    requires DistinctIds(view)
    ensures var rest := DropEntry(view, FirstId(view, id));
            && DistinctIds(rest) && Contents(rest, all) == Contents(view, all) - {id}
            && forall i :: 0 <= i < |rest| ==> Identity(rest[i].data) != id
  {
    var at := FirstId(view, id);
    if at.Some? {
      ContentsDrop(view, at.value, all);
      DropDistinct(view, at.value);
      DropIds(view, at.value);
    } else {
      ContentsAt(view, all);
    }
  }

  lemma DropIds(view: seq<Entry>, n: nat)
    requires DistinctIds(view) && n < |view|
    ensures var rest := DropEntry(view, Some(n));
            forall i :: 0 <= i < |rest| ==> Identity(rest[i].data) != Identity(view[n].data)
  {
    var rest := DropEntry(view, Some(n));
    assert forall i :: 0 <= i < |rest| ==> rest[i] == view[if i < n then i else i + 1];
  }

  lemma DistinctSnoc(view: seq<Entry>, last: Entry)
    requires DistinctIds(view) && forall i :: 0 <= i < |view| ==> Identity(view[i].data) != Identity(last.data)
    ensures DistinctIds(view + [last])
  {
  }

  lemma IncludeContents(view: seq<Entry>, data: Data, action: Action, all: bool)
    requires DistinctIds(view)
    ensures DistinctIds(IncludeEntry(view, data, action))
    ensures Contents(IncludeEntry(view, data, action), all) == Report(Contents(view, all), data, action)
  {
    var id := Identity(data);
    DropContents(view, id, all);
    match action {
      case New =>
        var rest := DropEntry(view, FirstId(view, id));
        ContentsSnoc(rest, Entry(data, false), all);
        DistinctSnoc(rest, Entry(data, false));
        Overwritten(Contents(view, all), id, data.attrs);
      case Del =>
      case Other =>
    }
  }

  lemma Overwritten(m: map<Attrs, Attrs>, id: Attrs, attrs: Attrs)
    ensures (m - {id})[id := attrs] == m[id := attrs]
  {
  }

  lemma ReplayOne(m: map<Attrs, Attrs>, log: seq<Event>)
    requires |log| == 1
    ensures Replay(m, log) ==
            var id := Identity(log[0].data);
            match log[0]
            case Added(data) => if id in m then None else Some(m[id := data.attrs])
            case Changed(was, data) =>
              if Identity(was) == id && id in m && m[id] == was.attrs then Some(m[id := data.attrs]) else None
            case Removed(data) => if id in m && m[id] == data.attrs then Some(m - {id}) else None
  {
    assert log[1..] == [];
  }

  lemma ReplayFound(m: map<Attrs, Attrs>, was: Data, data: Data, action: Action, events: seq<Event>)
    requires was.kind == data.kind && data.kind.comparable
    requires Identity(was) == Identity(data) && Identity(data) in m && m[Identity(data)] == was.attrs
    requires events == match action
                       case New => if Differs(was, data) then [Changed(was, data)] else []
                       case Del => [Removed(was)]
                       case Other => []
    ensures Replay(m, events) == Some(Report(m, data, action))
  {
    DiffersExactly(was, data);
    if events != [] {
      ReplayOne(m, events);
    } else {
      assert m == Report(m, data, action);
    }
  }

  lemma ReplayAbsent(m: map<Attrs, Attrs>, data: Data, action: Action, events: seq<Event>)
    requires Identity(data) !in m && events == if action == New then [Added(data)] else []
    ensures Replay(m, events) == Some(Report(m, data, action))
  {
    if events != [] {
      ReplayOne(m, events);
    } else {
      assert m == Report(m, data, action);
    }
  }

  /** The events of a report are what replaying needs. */
  lemma IncludeReplays(view: seq<Entry>, data: Data, action: Action)
    requires DistinctIds(view)
    requires forall i :: 0 <= i < |view| ==> view[i].data.kind == data.kind && data.kind.comparable
    ensures Replay(Contents(view, true), IncludeEvents(view, data, action)) ==
            Some(Contents(IncludeEntry(view, data, action), true))
  {
    var m, at := Contents(view, true), FirstId(view, Identity(data));
    IncludeContents(view, data, action, true);
    ContentsAt(view, true);
    if at.Some? {
      ReplayFound(m, view[at.value].data, data, action, IncludeEvents(view, data, action));
    } else {
      ReplayAbsent(m, data, action, IncludeEvents(view, data, action));
    }
  }
}
