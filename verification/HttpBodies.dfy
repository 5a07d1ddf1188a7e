/** Which octets read_content_chunked takes for a whole body
    (cpp-httplib/include/cpp-httplib/httplib.h), section 4.1 of RFC 7230. */
module HttpBodies {
  import opened Wrappers
  import opened HttpChunked

  // ---------- coded bodies ----------

  /** A chunk on the wire: its size line, whatever that looks like, and its payload. */
  datatype Coded = Coded(line: bytes, payload: bytes)

  ghost predicate Terminated(line: bytes)
  {
    line != [] && line[|line| - 1] == LF && forall i :: 0 <= i < |line| - 1 ==> line[i] != LF
  }

  ghost predicate Announces(line: bytes, size: nat)
  {
    Terminated(line) && Strtoul(line) == Some(size)
  }

  ghost predicate Proper(c: Coded)
  {
    0 < |c.payload| < ULONG_MAX && Announces(c.line, |c.payload|)
  }

  ghost predicate AllProper(cs: seq<Coded>)
  {
    forall i :: 0 <= i < |cs| ==> Proper(cs[i])
  }

  /** The chunks, each closed by an empty line, with `more` behind them. */
  function Before(cs: seq<Coded>, more: bytes): bytes
  {
    if cs == [] then more else cs[0].line + (cs[0].payload + (CRLF + Before(cs[1..], more)))
  }

  function Payloads(cs: seq<Coded>): bytes
  {
    if cs == [] then [] else cs[0].payload + Payloads(cs[1..])
  }

  /** A whole body: chunks, the last one of size 0, and an empty line. */
  ghost predicate Complete(s: bytes, cs: seq<Coded>, last: bytes, rest: bytes)
  {
    AllProper(cs) && Announces(last, 0) && s == Before(cs, last + (CRLF + rest))
  }

  /** A line of its own; the last one needs no LF if the connection was closed in good order. */
  ghost predicate OwnLine(line: bytes, rest: bytes, closes: bool)
  {
    Terminated(line) || (closes && line != [] && LF !in line && rest == [])
  }

  /** A body cut off: behind the chunk `bad` there is a line, and it is not the empty one. */
  ghost predicate CutOff(s: bytes, closes: bool, cs: seq<Coded>, bad: Coded, line: bytes, rest: bytes)
  {
    && AllProper(cs) && Proper(bad) && line != CRLF && OwnLine(line, rest, closes)
    && s == Before(cs, bad.line + (bad.payload + (line + rest)))
  }

  // ---------- reading them ----------

  lemma TerminatedRead(line: bytes, rest: bytes, closes: bool)
    requires Terminated(line)
    ensures LineOf(line + rest) == line && Rest(line + rest) == rest && GotLine(line + rest, closes)
  {
    var front := line[..|line| - 1];
    assert line == front + [LF];
    LineThrough(front, rest);
  }

  lemma {:induction false} UnterminatedRead(line: bytes)
    requires LF !in line
    ensures LineOf(line) == line && Rest(line) == []
    decreases |line|
  {
    if line != [] {
      assert line[0] != LF;
      UnterminatedRead(line[1..]);
    }
  }

  lemma OwnLineRead(line: bytes, rest: bytes, closes: bool)
    requires OwnLine(line, rest, closes)
    ensures LineOf(line + rest) == line && Rest(line + rest) == rest && GotLine(line + rest, closes)
  {
    if Terminated(line) {
      TerminatedRead(line, rest, closes);
    } else {
      assert line + rest == line;
      UnterminatedRead(line);
    }
  }

  lemma SizeRead(c: Coded, t: bytes, closes: bool)
    requires Proper(c) && c.payload <= t
    ensures ReadChunks(c.line + t, closes) == Sized(|c.payload|, t, closes)
  {
    TerminatedRead(c.line, t, closes);
    assert AfterLine(c.line, t, closes) == Sized(|c.payload|, t, closes);
  }

  lemma CodedRead(c: Coded, more: bytes, closes: bool)
    requires Proper(c)
    ensures ReadChunks(c.line + (c.payload + (CRLF + more)), closes) == Prefixed(c.payload, ReadChunks(more, closes))
  {
    var t := c.payload + (CRLF + more);
    SizeRead(c, t, closes);
    SizedRead(c.payload, more, t, closes);
  }

  lemma BadRead(bad: Coded, line: bytes, rest: bytes, closes: bool)
    requires Proper(bad) && line != CRLF && OwnLine(line, rest, closes)
    ensures ReadChunks(bad.line + (bad.payload + (line + rest)), closes) == Outcome(true, bad.payload, rest)
  {
    var t := bad.payload + (line + rest);
    SizeRead(bad, t, closes);
    OwnLineRead(line, rest, closes);
    assert t[..|bad.payload|] == bad.payload && t[|bad.payload|..] == line + rest;
  }

  lemma LastRead(last: bytes, rest: bytes, closes: bool)
    requires Announces(last, 0)
    ensures ReadChunks(last + (CRLF + rest), closes) == Outcome(true, [], rest)
  {
    TerminatedRead(last, CRLF + rest, closes);
    TerminatedRead(CRLF, rest, closes);
  }

  /** Chunks in good order are delivered, and reading goes on behind them. */
  lemma {:induction false} ChunksRead(cs: seq<Coded>, more: bytes, o: Outcome, closes: bool)
    requires AllProper(cs) && ReadChunks(more, closes) == o
    ensures ReadChunks(Before(cs, more), closes) == Prefixed(Payloads(cs), o)
    decreases |cs|
  {
    if cs == [] {
      PrefixedNothing(o);
    } else {
      ChunksRead(cs[1..], more, o, closes);
      CodedRead(cs[0], Before(cs[1..], more), closes);
      PrefixedTwice(cs[0].payload, Payloads(cs[1..]), o);
    }
  }

  // ---------- taking apart what was read ----------

  lemma LineTerminated(s: bytes, closes: bool)
    requires GotLine(s, closes)
    ensures s == LineOf(s) + Rest(s) && OwnLine(LineOf(s), Rest(s), closes)
  {
    var n := |LineOf(s)|;
    assert s == s[..n] + s[n..];
    LineShape(s);
  }

  lemma {:induction false} LineShape(s: bytes)
    ensures s != [] ==> Terminated(LineOf(s)) || (LF !in LineOf(s) && Rest(s) == [])
    decreases |s|
  {
    if s != [] && s[0] != LF {
      LineShape(s[1..]);
      var rest := LineOf(s[1..]);
      assert LineOf(s) == [s[0]] + rest;
      if s[1..] != [] && Terminated(rest) {
        assert forall i :: 0 < i < |rest| ==> ([s[0]] + rest)[i] == rest[i - 1];
      }
    }
  }

  /** How a body that was read with success ends. */
  datatype Ending = Closed(last: bytes, rest: bytes) | Broken(bad: Coded, line: bytes, rest: bytes)

  ghost predicate EndsSo(s: bytes, closes: bool, cs: seq<Coded>, end: Ending)
  {
    match end
    case Closed(last, rest) => Complete(s, cs, last, rest)
    case Broken(bad, line, rest) => CutOff(s, closes, cs, bad, line, rest)
  }

  lemma OneMore(s: bytes, closes: bool, c: Coded, more: bytes, cs: seq<Coded>, end: Ending)
    requires Proper(c) && s == c.line + (c.payload + (CRLF + more)) && EndsSo(more, closes, cs, end)
    ensures EndsSo(s, closes, [c] + cs, end)
  {
    var all := [c] + cs;
    assert all[1..] == cs && all[0] == c;
  }

  /** What is left behind a size line that announces a chunk, when reading succeeds. */
  lemma SizedParts(size: nat, t: bytes, closes: bool) returns (payload: bytes, u: bytes)
    requires size > 0 && Sized(size, t, closes).ok
    ensures |payload| == size && t == payload + u && GotLine(u, closes)
    ensures LineOf(u) == CRLF ==> ReadChunks(Rest(u), closes).ok
  {
    payload, u := t[..size], t[size..];
  }

  lemma {:induction false} Succeeds(s: bytes, closes: bool) returns (cs: seq<Coded>, end: Ending)
    requires ReadChunks(s, closes).ok
    ensures EndsSo(s, closes, cs, end)
    decreases |s|
  {
    var line, t := LineOf(s), Rest(s);
    var size := Strtoul(line).value;
    LineTerminated(s, closes);
    if size == 0 {
      LineTerminated(t, closes);
      cs, end := [], Closed(line, Rest(t));
      NotTheLast(line, t, closes);
    } else {
      var payload, u := SizedParts(size, t, closes);
      var c := Coded(line, payload);
      NotTheLast(line, t, closes);
      LineTerminated(u, closes);
      if LineOf(u) == CRLF {
        var more;
        more, end := Succeeds(Rest(u), closes);
        OneMore(s, closes, c, Rest(u), more, end);
        cs := [c] + more;
      } else {
        cs, end := [], Broken(c, LineOf(u), Rest(u));
      }
    }
  }

  /** A line with something behind it ends in LF. */
  lemma NotTheLast(line: bytes, t: bytes, closes: bool)
    requires OwnLine(line, t, closes) && t != []
    ensures Terminated(line)
  {
  }

  // ---------- main results ----------

  /** A whole body is delivered, and nothing behind it is consumed. A body that is cut off is delivered
      as far as it goes and counts as success too; the line found in place of the empty one is lost. */
  lemma BodyDelivered(s: bytes, closes: bool, cs: seq<Coded>, end: Ending)
    requires EndsSo(s, closes, cs, end)
    ensures ReadChunks(s, closes) ==
            Outcome(true, Payloads(cs) + (if end.Broken? then end.bad.payload else []), end.rest)
  {
    match end {
      case Closed(last, rest) =>
        LastRead(last, rest, closes);
        ChunksRead(cs, last + (CRLF + rest), Outcome(true, [], rest), closes);
      case Broken(bad, line, rest) =>
        BadRead(bad, line, rest, closes);
        ChunksRead(cs, bad.line + (bad.payload + (line + rest)), Outcome(true, bad.payload, rest), closes);
    }
  }

  /** Reading succeeds exactly on whole bodies, and on bodies in which a chunk is followed by another
      line than the empty one. */
  lemma SuccessExactly(s: bytes, closes: bool)
    ensures ReadChunks(s, closes).ok <==>
            || (exists cs, last, rest :: Complete(s, cs, last, rest))
            || (exists cs, bad, line, rest :: CutOff(s, closes, cs, bad, line, rest))
  {
    if ReadChunks(s, closes).ok {
      var cs, end := Succeeds(s, closes);
      match end {
        case Closed(last, rest) => assert Complete(s, cs, last, rest);
        case Broken(bad, line, rest) => assert CutOff(s, closes, cs, bad, line, rest);
      }
    }
    if cs, last, rest :| Complete(s, cs, last, rest) {
      BodyDelivered(s, closes, cs, Closed(last, rest));
    }
    if cs, bad, line, rest :| CutOff(s, closes, cs, bad, line, rest) {
      BodyDelivered(s, closes, cs, Broken(bad, line, rest));
    }
  }

  /** Never both: what follows the chunks of a body says which it is. */
  lemma {:induction false} NeverBoth(s: bytes, closes: bool, cs: seq<Coded>, last: bytes, rest: bytes, ds: seq<Coded>,
                                     bad: Coded, line: bytes, more: bytes)
    requires Complete(s, cs, last, rest)
    ensures !CutOff(s, closes, ds, bad, line, more)
    decreases |cs|
  {
    if CutOff(s, closes, ds, bad, line, more) {
      FirstLine(s, closes, cs, last, rest);
      if cs == [] {
        BadFirst(s, closes, ds, bad, line, more);
      } else {
        BadFirst(s, closes, ds, bad, line, more);
        var t := Before(cs[1..], last + (CRLF + rest));
        SameFirst(s, cs[0], CRLF + t, if ds == [] then bad else ds[0],
                  if ds == [] then line + more else CRLF + Before(ds[1..], bad.line + (bad.payload + (line + more))));
        if ds == [] {
          OwnLineRead(line, more, closes);
          EmptyLineRead(t);
        } else {
          var u := Before(ds[1..], bad.line + (bad.payload + (line + more)));
          assert t == (CRLF + t)[2..] == (CRLF + u)[2..] == u;
          NeverBoth(t, closes, cs[1..], last, rest, ds[1..], bad, line, more);
        }
      }
    }
  }

  lemma FirstLine(s: bytes, closes: bool, cs: seq<Coded>, last: bytes, rest: bytes)
    requires Complete(s, cs, last, rest)
    ensures LineOf(s) == if cs == [] then last else cs[0].line
  {
    if cs == [] {
      TerminatedRead(last, CRLF + rest, closes);
    } else {
      TerminatedRead(cs[0].line, cs[0].payload + (CRLF + Before(cs[1..], last + (CRLF + rest))), closes);
    }
  }

  lemma BadFirst(s: bytes, closes: bool, ds: seq<Coded>, bad: Coded, line: bytes, more: bytes)
    requires CutOff(s, closes, ds, bad, line, more)
    ensures Strtoul(LineOf(s)) != Some(0)
  {
    if ds == [] {
      TerminatedRead(bad.line, bad.payload + (line + more), closes);
    } else {
      TerminatedRead(ds[0].line, ds[0].payload + (CRLF + Before(ds[1..], bad.line + (bad.payload + (line + more)))), closes);
    }
  }

  lemma SameFirst(s: bytes, c: Coded, t: bytes, d: Coded, u: bytes)
    requires Proper(c) && Proper(d) && s == c.line + (c.payload + t) && s == d.line + (d.payload + u)
    ensures t == u
  {
    TerminatedRead(c.line, c.payload + t, true);
    TerminatedRead(d.line, d.payload + u, true);
    var n := |c.payload|;
    assert t == (c.payload + t)[n..] && u == (d.payload + u)[n..];
  }

  /** A chunk of one octet, and a line that ends in LF alone. */
  lemma LoneLineFeed(closes: bool)
    ensures ReadChunks([49, 13, 10, 97, 10], closes) == Outcome(true, [97], [])
  {
    var bad := Coded([49, 13, 10], [97]);
    assert Hex(1) == [49];
    SizeLine(1);
    assert Hex(1) + CRLF == [49, 13, 10];
    assert bad.line + (bad.payload + ([10] + [])) == [49, 13, 10, 97, 10];
    BadRead(bad, [10], [], closes);
  }
}
