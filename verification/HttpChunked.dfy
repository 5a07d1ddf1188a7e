/** Chunked transfer coding (cpp-httplib/include/cpp-httplib/httplib.h), section 4.1 of RFC 7230. */
module HttpChunked {
  import opened Wrappers

  const CR: byte := 13
  const LF: byte := 10
  const CRLF: bytes := [13, 10]
  const ULONG_MAX := 0xFFFF_FFFF_FFFF_FFFF

  // ---------- hexadecimal numbers ----------

  function HexDigit(n: nat): (c: byte)
    requires n < 16
  {
    if n < 10 then 48 + n else 97 + (n - 10)
  }

  /** The value of a digit, in either case. */
  function HexValue(c: byte): (v: Option<nat>)
    ensures v.Some? ==> v.value < 16
  {
    if 48 <= c <= 57 then Some(c - 48) else if 97 <= c <= 102 then Some(c - 87) else if 65 <= c <= 70 then Some(c - 55) else None
  }

  function Hex(n: nat): (s: bytes)
    ensures s != [] && forall i :: 0 <= i < |s| ==> HexValue(s[i]).Some?
  {
    (if n < 16 then [] else Hex(n / 16)) + [HexDigit(n % 16)]
  }

  /** from_i_to_hex: digits are put in front, the lowest first. */
  method FromIToHex(n: nat) returns (ret: bytes)
    ensures ret == Hex(n)
  {
    ret := [HexDigit(n % 16)];
    var left := n / 16;
    while left > 0
      invariant Hex(n) == if left > 0 then Hex(left) + ret else ret
    {
      if left >= 16 {
        Regroup(Hex(left / 16), [HexDigit(left % 16)], ret);
      }
      ret := [HexDigit(left % 16)] + ret;
      left := left / 16;
    }
  }

  /** The value of the digits at the start of a string, behind digits of value `acc`. */
  function DigitsFrom(s: bytes, acc: nat): nat
  {
    if s == [] || HexValue(s[0]).None? then acc else DigitsFrom(s[1..], acc * 16 + HexValue(s[0]).value)
  }

  function SkipSpaces(s: bytes): bytes
  {
    if s != [] && (s[0] == 32 || 9 <= s[0] <= 13) then SkipSpaces(s[1..]) else s
  }

  /** strtoul with base 16: None when there is nothing to convert. A value that is too large reads as
      ULONG_MAX, and a minus sign negates modulo 2^64. */
  function Strtoul(line: bytes): Option<nat>
  {
    var s := SkipSpaces(line);
    var negative := s != [] && s[0] == 45;
    var t := if s != [] && (s[0] == 45 || s[0] == 43) then s[1..] else s;
    var d := if |t| > 2 && t[0] == 48 && (t[1] == 120 || t[1] == 88) && HexValue(t[2]).Some? then t[2..] else t;
    if d == [] || HexValue(d[0]).None? then None
    else
      var v := DigitsFrom(d, 0);
      Some(if v > ULONG_MAX then ULONG_MAX else if negative && v > 0 then ULONG_MAX + 1 - v else v)
  }

  lemma {:induction false} DigitsFromBoth(s: bytes, rest: bytes, acc: nat)
    requires forall i :: 0 <= i < |s| ==> HexValue(s[i]).Some?
    ensures DigitsFrom(s + rest, acc) == DigitsFrom(rest, DigitsFrom(s, acc))
    decreases |s|
  {
    if s == [] {
      assert s + rest == rest;
    } else {
      assert (s + rest)[1..] == s[1..] + rest;
      DigitsFromBoth(s[1..], rest, acc * 16 + HexValue(s[0]).value);
    }
  }

  lemma {:induction false} HexReadsBack(n: nat)
    ensures DigitsFrom(Hex(n), 0) == n
  {
    var last := [HexDigit(n % 16)];
    assert last[1..] == [];
    if n >= 16 {
      HexReadsBack(n / 16);
      DigitsFromBoth(Hex(n / 16), last, 0);
    }
  }

  lemma HexIsPlain(c: byte)
    requires HexValue(c).Some?
    ensures c != 32 && !(9 <= c <= 13) && c != 45 && c != 43 && c != 120 && c != 88
  {
  }

  /** A number in hexadecimal digits alone is converted digit by digit. */
  lemma PlainNumber(line: bytes)
    requires line != [] && HexValue(line[0]).Some? && (|line| > 1 ==> line[1] != 120 && line[1] != 88)
    requires DigitsFrom(line, 0) <= ULONG_MAX
    ensures Strtoul(line) == Some(DigitsFrom(line, 0))
  {
    HexIsPlain(line[0]);
  }

  /** A chunk size line reads back as the size. */
  lemma SizeLine(n: nat)
    requires n <= ULONG_MAX
    ensures Strtoul(Hex(n) + CRLF) == Some(n)
  {
    var line := Hex(n) + CRLF;
    DigitsFromBoth(Hex(n), CRLF, 0);
    HexReadsBack(n);
    assert DigitsFrom(CRLF, n) == n;
    if |Hex(n)| > 1 {
      HexIsPlain(Hex(n)[1]);
      assert line[1] == Hex(n)[1];
    }
    assert line[0] == Hex(n)[0];
    PlainNumber(line);
  }

  // ---------- writing ----------

  function Chunk(payload: bytes): bytes
  {
    Hex(|payload|) + CRLF + payload + CRLF
  }

  const DONE: bytes := [48, 13, 10, 13, 10]

  function Encoded(pieces: seq<bytes>): bytes
  {
    if pieces == [] then DONE else Chunk(pieces[0]) + Encoded(pieces[1..])
  }

  function Joined(pieces: seq<bytes>): bytes
  {
    if pieces == [] then [] else pieces[0] + Joined(pieces[1..])
  }

  function Chunks(pieces: seq<bytes>): bytes
  {
    if pieces == [] then [] else Chunks(pieces[..|pieces| - 1]) + Chunk(pieces[|pieces| - 1])
  }

  lemma {:induction false} EncodedIsChunks(pieces: seq<bytes>)
    ensures Encoded(pieces) == Chunks(pieces) + DONE
    decreases |pieces|
  {
    if pieces != [] {
      EncodedIsChunks(pieces[1..]);
      ChunksCons(pieces);
      Regroup(Chunk(pieces[0]), Chunks(pieces[1..]), DONE);
    }
  }

  lemma {:induction false} ChunksCons(pieces: seq<bytes>)
    requires pieces != []
    ensures Chunks(pieces) == Chunk(pieces[0]) + Chunks(pieces[1..])
    decreases |pieces|
  {
    var n := |pieces| - 1;
    if n == 0 {
      assert pieces[..0] == [] && pieces[1..] == [];
      assert [] + Chunk(pieces[0]) == Chunk(pieces[0]) + [];
    } else {
      ChunksCons(pieces[..n]);
      assert pieces[..n][1..] == pieces[1..][..n - 1] && pieces[1..][n - 1] == pieces[n];
      Regroup(Chunk(pieces[0]), Chunks(pieces[1..][..n - 1]), Chunk(pieces[n]));
    }
  }

  lemma {:induction false} ChunksTogether(x: seq<bytes>, y: seq<bytes>)
    ensures Chunks(x + y) == Chunks(x) + Chunks(y)
    decreases |y|
  {
    if y == [] {
      assert x + y == x && Chunks(x) + [] == Chunks(x);
    } else {
      var n := |y| - 1;
      assert (x + y)[..|x + y| - 1] == x + y[..n] && (x + y)[|x + y| - 1] == y[n];
      ChunksTogether(x, y[..n]);
      Regroup(Chunks(x), Chunks(y[..n]), Chunk(y[n]));
    }
  }

  /** Pieces without octets leave no trace in the body. */
  function Shown(pieces: seq<bytes>): (r: seq<bytes>)
    ensures [] !in r && forall d :: d in r ==> d in pieces
  {
    if pieces == [] then []
    else
      var last := pieces[|pieces| - 1];
      Shown(pieces[..|pieces| - 1]) + if last == [] then [] else [last]
  }

  /** A connection: what was written to it, and what arrives before reading ends, which it does with
      an orderly close or with an error. `some` decides how much a call transfers when it could
      transfer several octets, and `up` whether a write succeeds. */
  class Stream {
    var written: bytes
    var incoming: bytes
    const closes: bool
    const some: nat -> nat
    const up: nat -> bool
    var calls: nat

    constructor (incoming: bytes, closes: bool, some: nat -> nat, up: nat -> bool)
      ensures written == [] && this.incoming == incoming && this.closes == closes
    {
      written, this.incoming, this.closes, this.some, this.up, calls := [], incoming, closes, some, up, 0;
    }

    /** At least one and at most `max` octets are transferred. */
    function Amount(max: nat): (n: nat)
      requires max > 0
      reads this
      ensures 0 < n <= max
    {
      1 + some(calls) % max
    }

    /** A negative result is a failure. */
    method Write(d: bytes) returns (n: int)
      requires d != []
      modifies this
      ensures n != 0 && n <= |d| && written == old(written) + (if n > 0 then d[..n] else [])
      ensures incoming == old(incoming)
    {
      n := if up(calls) then Amount(|d|) else -1;
      if n > 0 {
        written := written + d[..n];
      }
      calls := calls + 1;
    }

    /** Zero is the end of what arrives, and a negative result a failure. */
    method Read(max: nat) returns (n: int, d: bytes)
      requires max > 0
      modifies this
      ensures |d| <= max && old(incoming) == d + incoming && written == old(written)
      ensures n > 0 ==> n == |d|
      ensures n <= 0 ==> d == [] && old(incoming) == [] && (n == 0 <==> closes)
    {
      if incoming == [] {
        return if closes then 0 else -1, [];
      }
      n := Amount(if max < |incoming| then max else |incoming|);
      d := incoming[..n];
      incoming := incoming[n..];
      calls := calls + 1;
    }
  }

  /** write_data: as many writes as it takes. */
  method WriteData(strm: Stream, d: bytes) returns (ok: bool)
    modifies strm
    ensures strm.incoming == old(strm.incoming)
    ensures ok ==> strm.written == old(strm.written) + d
    ensures !ok ==> old(strm.written) <= strm.written < old(strm.written) + d
  {
    var offset := 0;
    assert old(strm.written) + d[..0] == old(strm.written);
    while offset < |d|
      invariant offset <= |d| && strm.written == old(strm.written) + d[..offset] && strm.incoming == old(strm.incoming)
    {
      var length := strm.Write(d[offset..]);
      if length < 0 {
        return false;
      }
      assert d[..offset] + d[offset..][..length] == d[..offset + length];
      offset := offset + length;
    }
    assert d[..offset] == d;
    ok := true;
  }

  /** How sending a body ends. */
  datatype Sending = Sent | ShutDown | Emptied | Canceled | WriteFailed

  /** Who is asked for the body: what it writes in each of its calls, and what in one more call before it
      calls done. `down` says whether the server is shutting down before a call, `quits` whether the
      provider returns false before it writes anything, and `gives` what it returns after writing, which
      may depend on whether that went well. */
  datatype Provider = Provider(calls: seq<seq<bytes>>, last: seq<bytes>, down: nat -> bool, quits: nat -> bool,
                               gives: (nat, bool) -> bool)

  function WritesOf(p: Provider, i: nat): seq<bytes>
    requires i <= |p.calls|
  {
    if i < |p.calls| then p.calls[i] else p.last
  }

  /** What the provider's call number `i` puts on the wire. */
  function Turn(p: Provider, i: nat): bytes
    requires i <= |p.calls|
  {
    Chunks(Shown(WritesOf(p, i))) + if i < |p.calls| then [] else DONE
  }

  /** The pieces of the body that go with these calls. */
  function Pieces(calls: seq<seq<bytes>>): (r: seq<bytes>)
    ensures [] !in r
  {
    if calls == [] then [] else Pieces(calls[..|calls| - 1]) + Shown(calls[|calls| - 1])
  }

  /** All pieces of the body. */
  function Body(p: Provider): (r: seq<bytes>)
    ensures [] !in r
  {
    Pieces(p.calls) + Shown(p.last)
  }

  /** Nothing ends the loop in call number `i` by itself, as long as writing goes well. */
  predicate GoesOn(p: Provider, i: nat)
  {
    !p.down(i) && !p.quits(i) && p.gives(i, true)
  }

  /** The last write is of no octets, which looks as if no data were left. */
  predicate Dry(pieces: seq<bytes>)
  {
    pieces != [] && pieces[|pieces| - 1] == []
  }

  /** Sending gets to call number `i`, with `before` written since its start. */
  ghost predicate Reached(i: nat, p: Provider, before: bytes)
  {
    && i <= |p.calls| && (forall j :: 0 <= j < i ==> GoesOn(p, j) && !Dry(p.calls[j]))
    && before == Chunks(Pieces(p.calls[..i]))
  }

  /** Sending ends in call number `i`, with `written` written since its start: nothing of that call, all of
      it, or a beginning. */
  ghost predicate Ended(end: Sending, i: nat, p: Provider, written: bytes)
  {
    i <= |p.calls| &&
    var before := Chunks(Pieces(p.calls[..i]));
    var whole := before + Turn(p, i);
    && Reached(i, p, before)
    && match end
       case Sent => i == |p.calls| && GoesOn(p, i) && written == whole
       case ShutDown => p.down(i) && written == before
       case Emptied => i < |p.calls| && Dry(p.calls[i]) && GoesOn(p, i) && written == whole
       case Canceled =>
         && !p.down(i)
         && if p.quits(i) then written == before
            else (!p.gives(i, true) && written == whole) || (!p.gives(i, false) && before <= written < whole)
       case WriteFailed => !p.down(i) && !p.quits(i) && p.gives(i, false) && before <= written < whole
  }

  /** write_content_chunked with the identity compressor. Shutting down, or a call that ends with a write
      of no octets, ends the loop, and with it the body, without its end marker and without an error. */
  method WriteContentChunked(strm: Stream, p: Provider) returns (ok: bool, end: Sending, ghost i: nat, ghost sent: bytes)
    modifies strm
    ensures strm.incoming == old(strm.incoming) && (ok <==> end == Sent || end == ShutDown || end == Emptied)
    ensures strm.written == old(strm.written) + sent && Ended(end, i, p, sent)
  {
    ghost var start := strm.written;
    i, sent := 0, [];
    assert p.calls[..0] == [] && start + [] == start;
    var call := 0;
    while true
      invariant i == call && Reached(call, p, sent)
      invariant strm.incoming == old(strm.incoming) && strm.written == start + sent
      decreases |p.calls| - call
    {
      if p.down(call) {
        return true, ShutDown, i, sent;
      }
      var more;
      ghost var written;
      more, ok, end, written := CallProvider(strm, p, call, sent);
      sent := written;
      if !more {
        return;
      }
      call, i := call + 1, i + 1;
    }
  }

  /** One turn of the loop: whether there is another, and if not, how sending ended. */
  method CallProvider(strm: Stream, p: Provider, call: nat, ghost before: bytes)
    returns (more: bool, ok: bool, end: Sending, ghost written: bytes)
    requires Reached(call, p, before) && !p.down(call)
    modifies strm
    ensures strm.incoming == old(strm.incoming) && before <= written
    ensures strm.written == old(strm.written) + written[|before|..]
    ensures more ==> call < |p.calls| && Reached(call + 1, p, written)
    ensures !more ==> Ended(end, call, p, written) && (ok <==> end == Sent || end == Emptied)
  {
    more, ok, end, written := false, false, Canceled, before;
    if p.quits(call) {
      return;
    }
    var put, available;
    ghost var turn;
    put, available, turn := WriteTurn(strm, p, call);
    written := before + turn;
    if !p.gives(call, put) {
      return;
    }
    if !put {
      return false, false, WriteFailed, written;
    }
    if !available {
      return false, true, if call < |p.calls| then Emptied else Sent, written;
    }
    PiecesGrow(p, call);
    more := true;
  }

  lemma PiecesGrow(p: Provider, n: nat)
    requires n < |p.calls|
    ensures Chunks(Pieces(p.calls[..n + 1])) == Chunks(Pieces(p.calls[..n])) + Turn(p, n)
  {
    assert p.calls[..n + 1][..n] == p.calls[..n];
    ChunksTogether(Pieces(p.calls[..n]), Shown(p.calls[n]));
    assert Chunks(Shown(p.calls[n])) + [] == Chunks(Shown(p.calls[n]));
  }

  /** One call of the provider: its pieces, and the end marker behind the last. `available` is whether
      data seems to be left. */
  method WriteTurn(strm: Stream, p: Provider, i: nat) returns (ok: bool, available: bool, ghost more: bytes)
    requires i <= |p.calls|
    modifies strm
    ensures strm.incoming == old(strm.incoming) && strm.written == old(strm.written) + more
    ensures if ok then more == Turn(p, i) else more < Turn(p, i)
    ensures ok ==> (available <==> i < |p.calls| && !Dry(p.calls[i]))
  {
    ghost var start := strm.written;
    ok, available, more := WritePieces(strm, WritesOf(p, i));
    ghost var whole := Chunks(Shown(WritesOf(p, i)));
    if !ok {
      assert more < whole + if i < |p.calls| then [] else DONE;
      return;
    }
    if i == |p.calls| {
      available := false;
      ok := WriteData(strm, DONE);
      ghost var part := strm.written[|start + more|..];
      assert strm.written == (start + more) + part;
      Regroup(start, more, part);
      PartOfTurn(more, DONE, part, ok);
      more := more + part;
    } else {
      assert more + [] == more;
    }
  }

  /** A chunk for every piece that has octets, as long as writing goes well. */
  method WritePieces(strm: Stream, pieces: seq<bytes>) returns (ok: bool, available: bool, ghost more: bytes)
    modifies strm
    ensures strm.incoming == old(strm.incoming) && strm.written == old(strm.written) + more
    ensures var whole := Chunks(Shown(pieces));
            if ok then more == whole else more < whole
    ensures ok ==> available == !Dry(pieces)
  {
    ok, available, more := true, true, [];
    ghost var start := strm.written;
    assert start + [] == start;
    var k := 0;
    while k < |pieces| && ok
      invariant k <= |pieces| && strm.incoming == old(strm.incoming) && strm.written == start + more
      invariant ok ==> more == Chunks(Shown(pieces[..k])) && available == !Dry(pieces[..k])
      invariant !ok ==> more < Chunks(Shown(pieces))
      decreases |pieces| - k
    {
      available := pieces[k] != [];
      ghost var part;
      ok, part := WritePiece(strm, pieces[k]);
      Regroup(start, more, part);
      ShownGrow(pieces, k);
      if !ok {
        ShownPrefix(pieces, k + 1);
        BeginsIn(more, part, Chunk(pieces[k]), Chunks(Shown(pieces)));
      }
      more := more + part;
      k := k + 1;
    }
    assert ok ==> pieces[..k] == pieces;
  }

  /** One piece: nothing at all if it has no octets. */
  method WritePiece(strm: Stream, d: bytes) returns (ok: bool, ghost part: bytes)
    modifies strm
    ensures strm.incoming == old(strm.incoming) && strm.written == old(strm.written) + part
    ensures var whole := if d == [] then [] else Chunk(d);
            if ok then part == whole else part < whole
  {
    ok, part := true, [];
    if d != [] {
      var size := FromIToHex(|d|);
      ok := WriteData(strm, size + CRLF + d + CRLF);
      part := strm.written[|old(strm.written)|..];
    }
  }

  lemma ShownGrow(pieces: seq<bytes>, k: nat)
    requires k < |pieces|
    ensures Chunks(Shown(pieces[..k + 1])) == Chunks(Shown(pieces[..k])) + if pieces[k] == [] then [] else Chunk(pieces[k])
    ensures Dry(pieces[..k + 1]) <==> pieces[k] == []
  {
    assert pieces[..k + 1][..k] == pieces[..k];
    var x := Shown(pieces[..k]);
    if pieces[k] == [] {
      assert x + [] == x && Chunks(x) + [] == Chunks(x);
    } else {
      assert (x + [pieces[k]])[..|x|] == x;
    }
  }

  lemma BeginsIn(more: bytes, part: bytes, next: bytes, whole: bytes)
    requires part < next && more + next <= whole
    ensures more + part < whole
  {
  }

  lemma {:induction false} ShownPrefix(pieces: seq<bytes>, k: nat)
    requires k <= |pieces|
    ensures Chunks(Shown(pieces[..k])) <= Chunks(Shown(pieces))
    decreases |pieces| - k
  {
    if k == |pieces| {
      assert pieces[..k] == pieces;
    } else {
      ShownGrow(pieces, k);
      ShownPrefix(pieces, k + 1);
    }
  }

  lemma PartOfTurn(before: bytes, turn: bytes, more: bytes, whole: bool)
    requires if whole then more == turn else more < turn
    ensures if whole then before + more == before + turn else before <= before + more < before + turn
  {
  }

  /** A body that was sent is written as its pieces encode it. */
  lemma SentWhole(i: nat, p: Provider, written: bytes)
    requires Ended(Sent, i, p, written)
    ensures written == Encoded(Body(p))
    ensures forall j :: 0 <= j <= |p.calls| ==> GoesOn(p, j)
    ensures forall j :: 0 <= j < |p.calls| ==> !Dry(p.calls[j])
  {
    assert p.calls[..i] == p.calls;
    EncodedIsChunks(Body(p));
    ChunksTogether(Pieces(p.calls), Shown(p.last));
    Regroup(Chunks(Pieces(p.calls)), Chunks(Shown(p.last)), DONE);
  }

  /** Shutting down ends the loop in its first call at the latest: before that, only the provider or a
      write can end it. */
  lemma ShutDownFirst(end: Sending, i: nat, p: Provider, written: bytes, n: nat)
    requires Ended(end, i, p, written) && n <= |p.calls| && p.down(n)
    ensures i <= n && end != Sent && (i == n ==> end == ShutDown)
    ensures end == ShutDown ==> p.down(i) && (forall j :: 0 <= j < i ==> !p.down(j))
    ensures end == ShutDown ==> written == Chunks(Pieces(p.calls[..i]))
  {
    assert !GoesOn(p, n);
    forall j | 0 <= j < i
      ensures !p.down(j)
    {
      assert GoesOn(p, j);
    }
  }

  /** Success without the end marker happens exactly when the call that the loop ended in finds the server
      shutting down, or is one before the last that gives no reason to stop, puts all its pieces on the
      wire and ends with a write of no octets. What is written then are the chunks up to there. */
  lemma CutShortExactly(end: Sending, i: nat, p: Provider, written: bytes)
    requires Ended(end, i, p, written)
    ensures end == ShutDown || end == Emptied <==>
            || p.down(i)
            || (i < |p.calls| && Dry(p.calls[i]) && GoesOn(p, i) && written == Chunks(Pieces(p.calls[..i + 1])))
    ensures end == ShutDown || end == Emptied ==>
              written == Chunks(Pieces(p.calls[..if p.down(i) then i else i + 1]))
  {
    if i < |p.calls| {
      PiecesGrow(p, i);
    }
  }

  /** Unless the provider gives up or a write fails, the body is sent whole exactly when no call finds the
      server shutting down and none before the last ends with a write of no octets. */
  lemma WholeExactly(end: Sending, i: nat, p: Provider, written: bytes)
    requires Ended(end, i, p, written) && end != Canceled && end != WriteFailed
    ensures end == Sent <==> (forall j :: 0 <= j <= |p.calls| ==> !p.down(j)) && forall d :: d in p.calls ==> !Dry(d)
  {
    if end == Sent {
      SentWhole(i, p, written);
      forall j | 0 <= j <= |p.calls|
        ensures !p.down(j)
      {
        assert GoesOn(p, j);
      }
    } else if end == Emptied {
      assert p.calls[i] in p.calls;
    }
  }

  // ---------- reading lines ----------

  /** The octets up to and including the first LF, or all of them. */
  function LineOf(s: bytes): (line: bytes)
    ensures |line| <= |s| && line == s[..|line|]
    ensures s != [] ==> line != []
  {
    if s == [] then []
    else if s[0] == LF then [s[0]]
    else
      var rest := LineOf(s[1..]);
      assert s[..1 + |rest|] == [s[0]] + s[1..][..|rest|];
      [s[0]] + rest
  }

  function Rest(s: bytes): bytes
  {
    s[|LineOf(s)|..]
  }

  /** getline succeeds: there is a line, and if it has no LF the connection was closed in good order. */
  predicate GotLine(s: bytes, closes: bool)
  {
    s != [] && (closes || LineOf(s)[|LineOf(s)| - 1] == LF)
  }

  /** stream_line_reader: a buffer of fixed size, and one that grows once the fixed one is full. */
  class LineReader {
    const fixedSize: nat
    var fixed: bytes
    var glowable: bytes

    ghost predicate Valid()
      reads this
    {
      fixedSize > 0 && |fixed| < fixedSize && (glowable != [] ==> |fixed| == fixedSize - 1 && fixed <= glowable)
    }

    constructor (size: nat)
      requires size > 0
      ensures Valid() && Line() == []
    {
      fixedSize, fixed, glowable := size, [], [];
    }

    function Line(): bytes
      reads this
    {
      if glowable == [] then fixed else glowable
    }

    method Append(c: byte)
      requires Valid()
      modifies this
      ensures Valid() && Line() == old(Line()) + [c]
    {
      if |fixed| < fixedSize - 1 {
        fixed := fixed + [c];
      } else {
        if glowable == [] {
          glowable := fixed;
        }
        glowable := glowable + [c];
      }
    }

    /** getline, octet by octet. */
    method GetLine(strm: Stream) returns (ok: bool)
      requires Valid()
      modifies this, strm
      ensures Valid() && Line() == old(LineOf(strm.incoming)) && ok == GotLine(old(strm.incoming), strm.closes)
      ensures strm.incoming == old(Rest(strm.incoming)) && strm.written == old(strm.written)
    {
      fixed, glowable := [], [];
      ghost var all := strm.incoming;
      assert [] + all == all && [] + LineOf(all) == LineOf(all);
      var i := 0;
      while true
        invariant Valid() && i == |Line()| && strm.written == old(strm.written)
        invariant all == Line() + strm.incoming && LineOf(all) == Line() + LineOf(strm.incoming)
        invariant LF !in Line()
        decreases |strm.incoming|
      {
        var n, octet := NextOctet(strm, all);
        if n < 0 {
          return false;
        }
        if n == 0 {
          return i > 0;
        }
        i := i + 1;
        if octet[0] == LF {
          return true;
        }
      }
    }

    /** One octet is read and appended, if there is one. */
    method NextOctet(strm: Stream, ghost all: bytes) returns (n: int, octet: bytes)
      requires Valid() && all == Line() + strm.incoming && LineOf(all) == Line() + LineOf(strm.incoming)
      requires LF !in Line()
      modifies this, strm
      ensures Valid() && strm.written == old(strm.written) && all == Line() + strm.incoming
      ensures n <= 0 ==> Line() == LineOf(all) && strm.incoming == [] && |Line()| == old(|Line()|)
      ensures n <= 0 ==> (n == 0 <==> strm.closes) && GotLine(all, strm.closes) == (n == 0 && Line() != [])
      ensures n > 0 ==> |octet| == 1 && |Line()| == old(|Line()|) + 1 && |strm.incoming| < old(|strm.incoming|)
      ensures n > 0 && octet[0] == LF ==> Line() == LineOf(all) && GotLine(all, strm.closes)
      ensures n > 0 && octet[0] != LF ==> LF !in Line() && LineOf(all) == Line() + LineOf(strm.incoming)
    {
      ghost var before, left := Line(), strm.incoming;
      n, octet := strm.Read(1);
      if n <= 0 {
        NothingMore(all, before, left, strm.incoming);
      } else {
        OctetMore(all, before, left, octet, strm.incoming);
        Append(octet[0]);
        assert octet == [octet[0]];
      }
    }
  }

  lemma NothingMore(all: bytes, before: bytes, left: bytes, rest: bytes)
    requires all == before + left && LineOf(all) == before + LineOf(left) && left == [] + rest && left == []
    ensures before == LineOf(all) && all == before + rest && (all == [] <==> before == [])
  {
    assert before + [] == before;
  }

  lemma OctetMore(all: bytes, before: bytes, left: bytes, octet: bytes, rest: bytes)
    requires all == before + left && LineOf(all) == before + LineOf(left) && left == octet + rest && |octet| == 1
    ensures all != [] && all == (before + [octet[0]]) + rest
    ensures LineOf(all) == if octet[0] == LF then before + [octet[0]] else (before + [octet[0]]) + LineOf(rest)
  {
    assert octet == [octet[0]] && left[0] == octet[0] && left[1..] == rest;
    Regroup(before, octet, rest);
    Regroup(before, octet, LineOf(rest));
  }

  // ---------- reading chunks ----------

  /** What reading a chunked body yields: whether it went well, what the receiver got, and what is
      left to be read. */
  datatype Outcome = Outcome(ok: bool, body: bytes, rest: bytes)

  /** read_content_chunked, when no more than `s` arrives, and then an orderly close or an error. */
  function ReadChunks(s: bytes, closes: bool): Outcome
    decreases |s|, 2
  {
    if !GotLine(s, closes) then Outcome(false, [], Rest(s)) else AfterLine(LineOf(s), Rest(s), closes)
  }

  /** Reading on, with the size line already read. */
  function AfterLine(line: bytes, t: bytes, closes: bool): Outcome
    decreases |t|, 1
  {
    var size := Strtoul(line);
    if size.None? || size.value == ULONG_MAX then Outcome(false, [], t)
    else if size.value == 0 then Outcome(GotLine(t, closes) && LineOf(t) == CRLF, [], Rest(t))
    else Sized(size.value, t, closes)
  }

  /** Reading on, with the size known. A chunk that is followed by another line than an empty one ends
      the body, and even counts as success. */
  function Sized(size: nat, t: bytes, closes: bool): Outcome
    requires size > 0
    decreases |t|, 0
  {
    if size > |t| then Outcome(false, t, [])
    else
      var u := t[size..];
      if !GotLine(u, closes) then Outcome(false, t[..size], Rest(u))
      else if LineOf(u) != CRLF then Outcome(true, t[..size], Rest(u))
      else Prefixed(t[..size], ReadChunks(Rest(u), closes))
  }

  /** An outcome behind what the receiver already got. */
  function Prefixed(body: bytes, o: Outcome): Outcome
  {
    o.(body := body + o.body)
  }

  // ---------- round trip ----------

  lemma {:induction false} LineThrough(front: bytes, rest: bytes)
    requires forall i :: 0 <= i < |front| ==> front[i] != LF
    ensures LineOf(front + [LF] + rest) == front + [LF] && Rest(front + [LF] + rest) == rest
    decreases |front|
  {
    var s := front + [LF] + rest;
    if front == [] {
      assert s[0] == LF;
    } else {
      assert s[1..] == front[1..] + [LF] + rest && s[0] == front[0];
      LineThrough(front[1..], rest);
      assert [front[0]] + (front[1..] + [LF]) == front + [LF];
    }
    assert s[|front| + 1..] == rest;
  }

  lemma SizeLineRead(n: nat, rest: bytes)
    requires n < ULONG_MAX
    ensures var s := Hex(n) + CRLF + rest;
            s != [] && Strtoul(LineOf(s)) == Some(n) && Rest(s) == rest
  {
    var front := Hex(n) + [CR];
    assert Hex(n) + CRLF + rest == front + [LF] + rest;
    assert Hex(n) + CRLF == front + [LF];
    forall i | 0 <= i < |front|
      ensures front[i] != LF
    {
      if i < |Hex(n)| {
        HexIsPlain(Hex(n)[i]);
      }
    }
    LineThrough(front, rest);
    SizeLine(n);
  }

  lemma EmptyLineRead(rest: bytes)
    ensures LineOf(CRLF + rest) == CRLF && Rest(CRLF + rest) == rest
  {
    var front: bytes := [CR];
    assert CRLF + rest == front + [LF] + rest && CRLF == front + [LF];
    LineThrough(front, rest);
  }

  /** Reading what was written delivers exactly the pieces, and consumes exactly what was written. */
  lemma {:induction false} RoundTrip(pieces: seq<bytes>, rest: bytes, closes: bool)
    requires forall i :: 0 <= i < |pieces| ==> 0 < |pieces[i]| < ULONG_MAX
    ensures ReadChunks(Encoded(pieces) + rest, closes) == Outcome(true, Joined(pieces), rest)
    decreases |pieces|
  {
    if pieces == [] {
      DoneRead(rest, closes);
    } else {
      RoundTrip(pieces[1..], rest, closes);
      ChunkRead(pieces[0], Encoded(pieces[1..]) + rest, closes);
      Regroup(Chunk(pieces[0]), Encoded(pieces[1..]), rest);
    }
  }

  lemma DoneRead(rest: bytes, closes: bool)
    ensures ReadChunks(DONE + rest, closes) == Outcome(true, [], rest)
  {
    assert Hex(0) == [48];
    assert DONE + rest == Hex(0) + CRLF + (CRLF + rest);
    SizeLineRead(0, CRLF + rest);
    EmptyLineRead(rest);
  }

  lemma SizedRead(payload: bytes, more: bytes, t: bytes, closes: bool)
    requires payload != [] && t == payload + (CRLF + more)
    ensures Sized(|payload|, t, closes) == Prefixed(payload, ReadChunks(more, closes))
  {
    assert t[..|payload|] == payload && t[|payload|..] == CRLF + more;
    EmptyLineRead(more);
  }

  lemma ChunkRead(payload: bytes, more: bytes, closes: bool)
    requires 0 < |payload| < ULONG_MAX
    ensures ReadChunks(Chunk(payload) + more, closes) == Prefixed(payload, ReadChunks(more, closes))
  {
    var n, t := |payload|, payload + (CRLF + more);
    var s := Hex(n) + CRLF + t;
    assert Chunk(payload) + more == s;
    SizeLineRead(n, t);
    SizedRead(payload, more, t, closes);
    assert AfterLine(LineOf(s), t, closes) == Sized(n, t, closes);
  }

  /** A body that shutting down cut short is delivered as far as it goes, and then refused: the end
      marker is missed. */
  lemma {:induction false} CutShortRefused(pieces: seq<bytes>, closes: bool)
    requires forall i :: 0 <= i < |pieces| ==> 0 < |pieces[i]| < ULONG_MAX
    ensures ReadChunks(Chunks(pieces), closes) == Outcome(false, Joined(pieces), [])
    decreases |pieces|
  {
    if pieces != [] {
      ChunksCons(pieces);
      CutShortRefused(pieces[1..], closes);
      ChunkRead(pieces[0], Chunks(pieces[1..]), closes);
    }
  }

  /** A body that was sent is delivered as the provider wrote it, and nothing behind it is consumed. */
  lemma SentRead(i: nat, p: Provider, written: bytes, rest: bytes, closes: bool)
    requires Ended(Sent, i, p, written) && forall d :: d in Body(p) ==> |d| < ULONG_MAX
    ensures ReadChunks(written + rest, closes) == Outcome(true, Provided(p.calls) + Joined(p.last), rest)
  {
    SentWhole(i, p, written);
    forall k | 0 <= k < |Body(p)|
      ensures 0 < |Body(p)[k]| < ULONG_MAX
    {
      assert Body(p)[k] in Body(p);
    }
    RoundTrip(Body(p), rest, closes);
    JoinedTogether(Pieces(p.calls), Shown(p.last));
    PiecesJoined(p.calls);
    ShownJoined(p.last);
  }

  /** All octets of these calls. */
  function Provided(calls: seq<seq<bytes>>): bytes
  {
    if calls == [] then [] else Provided(calls[..|calls| - 1]) + Joined(calls[|calls| - 1])
  }

  lemma {:induction false} JoinedTogether(x: seq<bytes>, y: seq<bytes>)
    ensures Joined(x + y) == Joined(x) + Joined(y)
    decreases |x|
  {
    if x == [] {
      assert x + y == y && [] + Joined(y) == Joined(y);
    } else {
      assert (x + y)[1..] == x[1..] + y;
      JoinedTogether(x[1..], y);
      Regroup(x[0], Joined(x[1..]), Joined(y));
    }
  }

  lemma {:induction false} ShownJoined(pieces: seq<bytes>)
    ensures Joined(Shown(pieces)) == Joined(pieces)
    decreases |pieces|
  {
    if pieces != [] {
      var n := |pieces| - 1;
      var last := pieces[n];
      ShownJoined(pieces[..n]);
      assert pieces == pieces[..n] + [last];
      JoinedTogether(pieces[..n], [last]);
      JoinedTogether(Shown(pieces[..n]), if last == [] then [] else [last]);
      assert last + [] == last;
    }
  }

  lemma {:induction false} PiecesJoined(calls: seq<seq<bytes>>)
    ensures Joined(Pieces(calls)) == Provided(calls)
    decreases |calls|
  {
    if calls != [] {
      var n := |calls| - 1;
      PiecesJoined(calls[..n]);
      JoinedTogether(Pieces(calls[..n]), Shown(calls[n]));
      ShownJoined(calls[n]);
    }
  }

  /** Whatever cut a body short, its reader is delivered the pieces up to there and then fails. */
  lemma CutShortRead(end: Sending, i: nat, p: Provider, written: bytes, closes: bool)
    requires Ended(end, i, p, written) && (end == ShutDown || end == Emptied)
    requires forall d :: d in Body(p) ==> |d| < ULONG_MAX
    ensures var n := if p.down(i) then i else i + 1;
            n <= |p.calls| && ReadChunks(written, closes) == Outcome(false, Joined(Pieces(p.calls[..n])), [])
  {
    var n := if p.down(i) then i else i + 1;
    var pieces := Pieces(p.calls[..n]);
    CutShortExactly(end, i, p, written);
    PiecesPrefix(p.calls, n);
    forall k | 0 <= k < |pieces|
      ensures 0 < |pieces[k]| < ULONG_MAX
    {
      assert pieces[k] in pieces && pieces[k] in Body(p);
    }
    CutShortRefused(pieces, closes);
  }

  lemma {:induction false} PiecesPrefix(calls: seq<seq<bytes>>, n: nat)
    requires n <= |calls|
    ensures Pieces(calls[..n]) <= Pieces(calls)
    decreases |calls| - n
  {
    if n == |calls| {
      assert calls[..n] == calls;
    } else {
      assert calls[..n + 1][..n] == calls[..n];
      PiecesPrefix(calls, n + 1);
    }
  }

  /** A server that is shutting down from the start writes nothing at all, and reports success. */
  lemma ShutDownAtOnce(p: Provider, end: Sending, i: nat, written: bytes, closes: bool)
    requires p.calls == [[[97]]] && p.last == [] && p.down(0) && Ended(end, i, p, written)
    ensures end == ShutDown && written == [] && !ReadChunks(written, closes).ok
  {
    ShutDownFirst(end, i, p, written, 0);
    assert p.calls[..0] == [];
  }

  /** So does a provider whose first call writes no octets, though it would have gone on in the next. */
  lemma EmptiedAtOnce(p: Provider, end: Sending, i: nat, written: bytes, closes: bool)
    requires p.calls == [[[]], [[97]]] && p.last == [] && GoesOn(p, 0) && Ended(end, i, p, written)
    ensures Body(p) == [[97]] && end == Emptied && written == [] && !ReadChunks(written, closes).ok
  {
    var none: bytes := [];
    assert p.calls[0] == [none] && Dry(p.calls[0]);
    assert i == 0;
    assert p.calls[..0] == [] && [none][..0] == [];
    assert Shown([none]) == [] && Turn(p, 0) == [];
    assert Pieces(p.calls[..1]) == [] by {
      assert p.calls[..1][..0] == [] && p.calls[..1][0] == [none];
    }
    assert Shown([[97]]) == [[97]] by {
      assert [[97]][..0] == [];
    }
    assert p.calls[..1] == p.calls[..|p.calls| - 1];
    assert Body(p) == [[97]];
  }

  // ---------- reading a body ----------

  /** Who gets the body, and may refuse a part of it, which ends the reading. */
  class Receiver {
    var body: bytes
    var refused: bool
    const takes: nat -> bool
    var calls: nat

    constructor (takes: nat -> bool)
      ensures body == [] && !refused
    {
      body, refused, this.takes, calls := [], false, takes, 0;
    }

    method Take(d: bytes) returns (ok: bool)
      modifies this
      ensures ok ==> body == old(body) + d && refused == old(refused)
      ensures !ok ==> body == old(body) && refused
    {
      ok := takes(calls);
      calls := calls + 1;
      if ok {
        body := body + d;
      } else {
        refused := true;
      }
    }
  }

  /** read_content_with_length: in pieces of whatever size the connection delivers. Unless the receiver
      refuses, it gets what was asked for, or all there is. */
  method ReadContentWithLength(strm: Stream, len: nat, out: Receiver) returns (ok: bool, ghost got: bytes)
    requires !out.refused
    modifies strm, out
    ensures out.body == old(out.body) + got && strm.written == old(strm.written)
    ensures !out.refused ==>
              && ok == (len <= |old(strm.incoming)|)
              && got == (if ok then old(strm.incoming[..len]) else old(strm.incoming))
              && strm.incoming == if ok then old(strm.incoming[len..]) else []
    ensures out.refused ==> !ok && |got| < len && got <= old(strm.incoming)
  {
    var r := 0;
    got := [];
    ghost var all := strm.incoming;
    assert all == [] + all && out.body == out.body + [];
    while r < len
      invariant r == |got| <= len && all == got + strm.incoming && strm.written == old(strm.written)
      invariant out.body == old(out.body) + got && !out.refused
      decreases |strm.incoming|
    {
      ghost var left := strm.incoming;
      var n, d := strm.Read(if len - r < 4096 then len - r else 4096);
      if n <= 0 {
        assert all == got + [] == got;
        return false, got;
      }
      Regroup(got, d, strm.incoming);
      Regroup(old(out.body), got, d);
      var taken := out.Take(d);
      if !taken {
        return false, got;
      }
      got := got + d;
      r := r + n;
    }
    ok := true;
  }

  /** One chunk and the line behind it, and then the next size line if the body goes on. */
  method TakeChunk(strm: Stream, reader: LineReader, size: nat, out: Receiver)
    returns (more: bool, ok: bool, ghost piece: bytes)
    requires reader.Valid() && size > 0 && !out.refused
    modifies strm, reader, out
    ensures reader.Valid() && strm.written == old(strm.written) && out.body == old(out.body) + piece
    ensures |strm.incoming| < |old(strm.incoming)| || !more
    ensures !out.refused ==>
              Sized(size, old(strm.incoming), strm.closes) ==
              if more then Prefixed(piece, AfterLine(reader.Line(), strm.incoming, strm.closes))
              else Outcome(ok, piece, strm.incoming)
    ensures out.refused ==> !more && !ok && piece <= Sized(size, old(strm.incoming), strm.closes).body
  {
    more := false;
    ghost var t := strm.incoming;
    ok, piece := ReadContentWithLength(strm, size, out);
    if !ok {
      if out.refused {
        RefusedPiece(size, t, strm.closes, piece);
      }
      return;
    }
    ok := reader.GetLine(strm);
    if !ok {
      return;
    }
    if reader.Line() != CRLF {
      return;
    }
    ok := reader.GetLine(strm);
    more := ok;
    if !ok {
      assert piece + [] == piece;
    }
  }

  lemma RefusedPiece(size: nat, t: bytes, closes: bool, piece: bytes)
    requires size > 0 && |piece| < size && piece <= t
    ensures piece <= Sized(size, t, closes).body
  {
    if size <= |t| {
      assert piece <= t[..size];
    }
  }

  /** read_content_chunked, from a connection that may deliver any amounts and then close or fail. When
      the receiver refuses a part, it has got a beginning of the body, and reading fails. */
  method ReadContentChunked(strm: Stream, out: Receiver) returns (ok: bool)
    requires out.body == [] && !out.refused
    modifies strm, out
    ensures strm.written == old(strm.written)
    ensures !out.refused ==> Outcome(ok, out.body, strm.incoming) == ReadChunks(old(strm.incoming), strm.closes)
    ensures out.refused ==> !ok && out.body <= ReadChunks(old(strm.incoming), strm.closes).body
  {
    var reader := new LineReader(16);
    ghost var all := ReadChunks(strm.incoming, strm.closes);
    ok := reader.GetLine(strm);
    if !ok {
      return;
    }
    PrefixedNothing(all);
    while true
      invariant reader.Valid() && fresh(reader) && strm.written == old(strm.written) && !out.refused
      invariant all == Prefixed(out.body, AfterLine(reader.Line(), strm.incoming, strm.closes))
      decreases |strm.incoming|
    {
      var size := Strtoul(reader.Line());
      assert out.body + [] == out.body;
      if size.None? || size.value == ULONG_MAX {
        return false;
      }
      if size.value == 0 {
        ok := reader.GetLine(strm);
        ok := ok && reader.Line() == CRLF;
        return;
      }
      ghost var before, t := out.body, strm.incoming;
      var more;
      ghost var piece;
      more, ok, piece := TakeChunk(strm, reader, size.value, out);
      if !more {
        if out.refused {
          PrefixedPart(before, piece, Sized(size.value, t, strm.closes));
        }
        return;
      }
      PrefixedTwice(before, piece, AfterLine(reader.Line(), strm.incoming, strm.closes));
    }
  }

  lemma PrefixedPart(before: bytes, piece: bytes, o: Outcome)
    requires piece <= o.body
    ensures before + piece <= Prefixed(before, o).body
  {
  }

  lemma PrefixedNothing(o: Outcome)
    ensures Prefixed([], o) == o
  {
    assert [] + o.body == o.body;
  }

  lemma PrefixedTwice(a: bytes, b: bytes, o: Outcome)
    ensures Prefixed(a, Prefixed(b, o)) == Prefixed(a + b, o)
  {
    Regroup(a, b, o.body);
  }
}
