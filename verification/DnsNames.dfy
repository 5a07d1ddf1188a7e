/** Domain name compression: what decoding means, and that it undoes encoding. */
module DnsNames {
  import opened Wrappers
  import opened DnsWire

  // ---------- what section 4.1.4 of RFC 1035 says a position denotes ----------

  /** `path` follows pointers: each of its positions starts a segment of labels, and every
      segment but the last ends in a pointer to the next position. */
  ghost predicate Chain(b: bytes, path: seq<nat>)
  {
    && path != [] && path[0] <= |b|
    && (|path| > 1 ==>
          && ReadSegment(b, path[0], true).tail.Pointer?
          && ReadSegment(b, path[0], true).tail.target == path[1] < |b|
          && Chain(b, path[1..]))
  }

  /** The name a chain denotes: all its labels in order. */
  ghost function ChainLabels(b: bytes, path: seq<nat>): seq<bytes>
    requires Chain(b, path)
  {
    ReadSegment(b, path[0], true).labels + if |path| > 1 then ChainLabels(b, path[1..]) else []
  }

  /** The text the decoder builds for a chain, segment by segment. */
  ghost function ChainText(b: bytes, path: seq<nat>): bytes
    requires Chain(b, path)
  {
    var domain := Join(ReadSegment(b, path[0], true).labels);
    if |path| > 1 then Extend(domain, ChainText(b, path[1..])) else domain
  }

  ghost predicate EndsAtRoot(b: bytes, path: seq<nat>)
    requires Chain(b, path)
  {
    if |path| > 1 then EndsAtRoot(b, path[1..]) else ReadSegment(b, path[0], true).tail.Root?
  }

  /** No pointer of the chain is the last thing in the buffer: setPos refuses to come back to
      the end. */
  ghost predicate ReturnsInside(b: bytes, path: seq<nat>)
    requires Chain(b, path)
  {
    |path| > 1 ==> ReadSegment(b, path[0], true).tail.next < |b| && ReturnsInside(b, path[1..])
  }

  /** `path` leads from `p` to the root without trouble. */
  ghost predicate Resolves(b: bytes, p: nat, path: seq<nat>)
  {
    && Chain(b, path) && path[0] == p
    && EndsAtRoot(b, path) && ReturnsInside(b, path) && |ChainText(b, path)| <= MAX_DOMAIN_LEN
  }

  /** `path` leads from `p` back to a position seen before. */
  ghost predicate Loops(b: bytes, p: nat, visited: seq<nat>, path: seq<nat>)
  {
    && Chain(b, path) && path[0] == p
    && path[|path| - 1] in visited + path[..|path| - 1]
  }

  function SegmentEnd(b: bytes, p: nat): nat
    requires p <= |b|
  {
    match ReadSegment(b, p, true).tail
    case Root(next) => next
    case Pointer(_, next) => next
    case Fault(_, at) => at
  }

  /** A normal return denotes a chain that ends at the root. */
  lemma {:induction false} ReadIsResolved(b: bytes, p: nat, visited: seq<nat>) returns (path: seq<nat>)
    requires p <= |b| && Distinct(visited) && Bounded(visited, |b| + 1)
    requires ReadName(b, p, visited, true).name.Ok?
    ensures Resolves(b, p, path)
    ensures ReadName(b, p, visited, true) == Reading(Ok(ChainText(b, path)), SegmentEnd(b, p), visited)
    decreases |b| + 1 - |visited|
  {
    match ReadSegment(b, p, true).tail
    case Root(_) => path := [p];
    case Pointer(target, _) =>
      DistinctFits(visited + [p], |b| + 1);
      var rest := ReadIsResolved(b, target, visited + [p]);
      path := [p] + rest;
      assert path[1..] == rest;
  }

  /** The endless-loop exception is raised only on a chain that really comes back. */
  lemma {:induction false} RefusedIsLoop(b: bytes, p: nat, visited: seq<nat>) returns (path: seq<nat>)
    requires p <= |b| && Distinct(visited) && Bounded(visited, |b| + 1)
    requires ReadName(b, p, visited, true).name == Err(EndlessLoop)
    ensures Loops(b, p, visited, path)
    ensures ReadName(b, p, visited, true).visited == []
    decreases |b| + 1 - |visited|
  {
    if p in visited {
      path := [p];
    } else {
      var target := ReadSegment(b, p, true).tail.target;
      DistinctFits(visited + [p], |b| + 1);
      var rest := RefusedIsLoop(b, target, visited + [p]);
      path := [p] + rest;
      LoopFromTarget(b, p, visited, target, rest);
    }
  }

  lemma LoopFromTarget(b: bytes, p: nat, visited: seq<nat>, target: nat, rest: seq<nat>)
    requires p <= |b| && target < |b| && ReadSegment(b, p, true).tail.Pointer?
    requires ReadSegment(b, p, true).tail.target == target && Loops(b, target, visited + [p], rest)
    ensures Loops(b, p, visited, [p] + rest)
  {
    var path := [p] + rest;
    assert path[1..] == rest;
    assert visited + path[..|path| - 1] == (visited + [p]) + rest[..|rest| - 1];
  }

  lemma {:induction false} ResolvedIsRead(b: bytes, p: nat, visited: seq<nat>, path: seq<nat>)
    requires Resolves(b, p, path)
    requires Distinct(visited + path) && Bounded(visited, |b| + 1)
    ensures p <= |b| && Distinct(visited)
    ensures ReadName(b, p, visited, true) == Reading(Ok(ChainText(b, path)), SegmentEnd(b, p), visited)
    decreases |path|
  {
    PrefixDistinct(visited, path);
    if |path| > 1 {
      assert visited + path == (visited + [p]) + path[1..];
      PrefixDistinct(visited + [p], path[1..]);
      ResolvedIsRead(b, path[1], visited + [p], path[1..]);
    }
  }

  lemma PrefixDistinct(visited: seq<nat>, path: seq<nat>)
    requires Distinct(visited + path)
    ensures Distinct(visited)
    ensures path != [] ==> path[0] !in visited
  {
    var all := visited + path;
    assert forall i :: 0 <= i < |visited| ==> all[i] == visited[i];
    assert path != [] ==> all[|visited|] == path[0];
  }

  lemma {:induction false} LoopIsRefused(b: bytes, p: nat, visited: seq<nat>, path: seq<nat>)
    requires Loops(b, p, visited, path)
    requires Distinct(visited) && Bounded(visited, |b| + 1)
    ensures p <= |b| && ReadName(b, p, visited, true).name == Err(EndlessLoop)
    decreases |path|
  {
    if p !in visited {
      assert |path| > 1;
      assert visited + path[..|path| - 1] == (visited + [p]) + path[1..][..|path| - 2];
      LoopIsRefused(b, path[1], visited + [p], path[1..]);
    }
  }

  /** Where a chain that ends at the root goes is fixed by where it starts. */
  lemma {:induction false} RootChainsAgree(b: bytes, x: seq<nat>, y: seq<nat>)
    requires Chain(b, x) && EndsAtRoot(b, x) && Chain(b, y) && EndsAtRoot(b, y)
    requires x[0] == y[0]
    ensures x == y
    decreases |x|
  {
    if |x| > 1 && |y| > 1 {
      RootChainsAgree(b, x[1..], y[1..]);
      assert x == [x[0]] + x[1..] && y == [y[0]] + y[1..];
    }
  }

  lemma {:induction false} RootChainFrom(b: bytes, path: seq<nat>, i: nat)
    requires Chain(b, path) && EndsAtRoot(b, path) && i < |path|
    ensures Chain(b, path[i..]) && EndsAtRoot(b, path[i..])
  {
    if i == 0 {
      assert path[0..] == path;
    } else {
      RootChainFrom(b, path[1..], i - 1);
      assert path[1..][i - 1..] == path[i..];
    }
  }

  lemma RootChainDistinct(b: bytes, path: seq<nat>)
    requires Chain(b, path) && EndsAtRoot(b, path)
    ensures Distinct(path)
  {
    forall i, j | 0 <= i < j < |path|
      ensures path[i] != path[j]
    {
      RootChainFrom(b, path, i);
      RootChainFrom(b, path, j);
      if path[i] == path[j] {
        RootChainsAgree(b, path[i..], path[j..]);
      }
    }
  }

  /** Decoding a name is total, and exact about both outcomes: it returns a text exactly when
      pointers lead from `p` to the root, and reports an endless loop exactly when they come
      back to where they have been. */
  lemma NameDecodingIsExact(b: bytes, p: nat)
    requires p <= |b|
    ensures forall text :: ReadName(b, p, [], true).name == Ok(text) <==>
                           exists path :: Resolves(b, p, path) && text == ChainText(b, path)
    ensures ReadName(b, p, [], true).name == Err(EndlessLoop) <==> exists path :: Loops(b, p, [], path)
    ensures ReadName(b, p, [], true).name.Ok? ==>
              ReadName(b, p, [], true).pos == SegmentEnd(b, p) && ReadName(b, p, [], true).visited == []
  {
    var r := ReadName(b, p, [], true);
    if r.name.Ok? {
      var path := ReadIsResolved(b, p, []);
    } else if r.name == Err(EndlessLoop) {
      var path := RefusedIsLoop(b, p, []);
    }
    forall path | Resolves(b, p, path)
      ensures r.name == Ok(ChainText(b, path))
    {
      RootChainDistinct(b, path);
      assert [] + path == path;
      ResolvedIsRead(b, p, [], path);
    }
    forall path | Loops(b, p, [], path)
      ensures r.name == Err(EndlessLoop)
    {
      LoopIsRefused(b, p, [], path);
    }
  }

  // ---------- the text against the denotation ----------

  lemma {:induction false} JoinConcat(a: seq<bytes>, b: seq<bytes>)
    requires ProperLabels(a) && ProperLabels(b)
    ensures Join(a + b) == if b == [] then Join(a) else Extend(Join(a), Join(b))
  {
    if b == [] {
      assert a + b == a;
    } else {
      var front, last := b[..|b| - 1], b[|b| - 1];
      JoinConcat(a, front);
      assert a + b == (a + front) + [last];
      JoinSnoc(a + front, last);
      JoinEmpty(a);
      JoinEmpty(front);
      if a != [] && front != [] {
        ExtendTwice(Join(a), Join(front), last);
      }
    }
  }

  lemma ExtendTwice(x: bytes, y: bytes, z: bytes)
    requires x != [] && y != []
    ensures Extend(Extend(x, y), z) == Extend(x, Extend(y, z))
  {
    Regroup(x + [DOT], y, [DOT] + z);
  }

  /** Whether the last labels of a chain are followed by a pointer that leads to nothing but
      the root. */
  ghost predicate PointsAtRoot(b: bytes, path: seq<nat>)
    requires Chain(b, path)
  {
    ChainLabels(b, path) != [] &&
    if |path| > 1 && ChainLabels(b, path[1..]) != [] then PointsAtRoot(b, path[1..]) else |path| > 1
  }

  lemma ExtendJoin(labels: seq<bytes>, rest: seq<bytes>, dot: bytes)
    requires ProperLabels(labels) && ProperLabels(rest) && (rest == [] ==> dot == [])
    ensures Extend(Join(labels), Join(rest) + dot) ==
            Join(labels + rest) + if labels != [] && rest == [] then [DOT] else dot
  {
    JoinConcat(labels, rest);
    JoinEmpty(labels);
    JoinEmpty(rest);
    if labels == [] {
      assert labels + rest == rest;
    } else if rest == [] {
      assert Join(labels) + [DOT] + ([] + []) == Join(labels) + [DOT];
    } else {
      Regroup(Join(labels) + [DOT], Join(rest), dot);
    }
  }

  lemma ConcatProper(a: seq<bytes>, b: seq<bytes>)
    requires ProperLabels(a) && ProperLabels(b)
    ensures ProperLabels(a + b)
  {
  }

  /** The decoded text is the dotted labels; a pointer to the root after a label leaves one
      more dot, and nothing else does. */
  lemma {:induction false} TextOfChain(b: bytes, path: seq<nat>)
    requires Chain(b, path)
    ensures ProperLabels(ChainLabels(b, path))
    ensures ChainText(b, path) == Join(ChainLabels(b, path)) + if PointsAtRoot(b, path) then [DOT] else []
    decreases |path|
  {
    var labels := ReadSegment(b, path[0], true).labels;
    if |path| > 1 {
      TextOfChain(b, path[1..]);
      var rest := ChainLabels(b, path[1..]);
      ConcatProper(labels, rest);
      ExtendJoin(labels, rest, if PointsAtRoot(b, path[1..]) then [DOT] else []);
      assert labels + rest == [] <==> labels == [] && rest == [];
    } else {
      assert labels + [] == labels;
    }
  }
}
