/** The server name in a TLS ClientHello (utils.cpp), section 4.1.2 of RFC 8446 and section 3 of
    RFC 6066. */
module TlsSni {
  import opened Wrappers

  // ---------- the walker ----------

  /** A byte of the buffer; at its end there is the terminating zero. */
  function At(b: bytes, i: nat): (c: nat)
    ensures c < 256
  {
    if i < |b| then b[i] else 0
  }

  /** char is signed, and unsigned short has sixteen bits. */
  function Widened(c: nat): (w: nat)
    requires c < 256
    ensures w < 0x1_0000
  {
    if c < 128 then c else 0xFF00 + c
  }

  function Word(b: bytes, i: nat): (w: nat)
    ensures w < 0x1_0000
  {
    At(b, i) * 256 + At(b, i + 1)
  }

  /** The extensions from `it` on: the first server name, if there is one before `stop`. */
  function WalkExtensions(b: bytes, lastChar: nat, it: nat, stop: nat): (nat, nat)
    decreases if it < stop then stop - it else 0
  {
    if it >= stop || lastChar <= it + 9 then (0, 0)
    else if Word(b, it) == 0 then (it + 9, Word(b, it + 7))
    else WalkExtensions(b, lastChar, it + 4 + Word(b, it + 2), stop)
  }

  /** get_tls_sni. Every byte it reads is at `lastChar` or before it. */
  method GetTlsSni(b: bytes, lastChar: nat) returns (startPos: nat, len: nat)
    ensures (startPos, len) == Sni(b, lastChar)
  {
    if lastChar <= 43 {
      return 0, 0;
    }
    var sidlen := Widened(At(b, 43));
    var it := 1 + 43 + sidlen;
    if lastChar <= it {
      return 0, 0;
    }
    assert it + 1 <= lastChar;
    var cslen := Word(b, it);
    it := it + 2 + cslen;
    if lastChar <= it {
      return 0, 0;
    }
    assert it <= lastChar;
    var cmplen := Widened(At(b, it));
    it := it + 1 + cmplen;
    if lastChar <= it {
      return 0, 0;
    }
    assert it + 1 <= lastChar;
    var maxcharit := (it + 2 + Word(b, it)) % 0x1_0000;
    it := it + 2;
    ghost var first := it;
    var extType := 1;
    while it < maxcharit && extType != 0
      invariant extType != 0 && WalkExtensions(b, lastChar, it, maxcharit) == WalkExtensions(b, lastChar, first, maxcharit)
      decreases maxcharit - it
    {
      if lastChar <= it + 9 {
        return 0, 0;
      }
      assert it + 8 <= lastChar;
      extType := Word(b, it);
      it := it + 2;
      var extLen := Word(b, it);
      it := it + 2;
      if extType == 0 {
        it := it + 3;
        var namelen := Word(b, it);
        it := it + 2;
        return it, namelen;
      } else {
        it := it + extLen;
      }
    }
    return 0, 0;
  }

  function Sni(b: bytes, lastChar: nat): (nat, nat)
  {
    var suites := 44 + Widened(At(b, 43));
    var compression := suites + 2 + Word(b, suites);
    var extensions := compression + 1 + Widened(At(b, compression));
    if lastChar <= 43 || lastChar <= suites || lastChar <= compression || lastChar <= extensions then (0, 0)
    else WalkExtensions(b, lastChar, extensions + 2, (extensions + 2 + Word(b, extensions)) % 0x1_0000)
  }

  // ---------- ClientHello records ----------

  /** A server name extension names a host first; `more` are the entries behind it. */
  datatype Extension =
    | ServerName(name: bytes, more: bytes)
    | Other(extType: nat, body: bytes)

  /** A ClientHello in one record: `front` are the 43 octets before the session id. */
  datatype Hello = Hello(front: bytes, session: bytes, suites: bytes, compression: bytes, extensions: Option<seq<Extension>>)

  function Two(n: nat): (r: bytes)
    requires n < 0x1_0000
    ensures |r| == 2
  {
    [n / 256, n % 256]
  }

  predicate ExtensionOk(e: Extension)
  {
    match e
    case ServerName(name, more) => 0 < |name| && |name| + |more| + 5 < 0x1_0000
    case Other(extType, body) => 0 < extType < 0x1_0000 && |body| < 0x1_0000
  }

  function Body(e: Extension): bytes
    requires ExtensionOk(e)
  {
    match e
    case ServerName(name, more) => Two(|name| + |more| + 3) + [0] + Two(|name|) + name + more
    case Other(_, body) => body
  }

  function ExtensionBytes(e: Extension): bytes
    requires ExtensionOk(e)
  {
    Two(if e.ServerName? then 0 else e.extType) + Two(|Body(e)|) + Body(e)
  }

  ghost predicate AllOk(es: seq<Extension>)
  {
    forall i :: 0 <= i < |es| ==> ExtensionOk(es[i])
  }

  ghost function ExtensionsBytes(es: seq<Extension>): bytes
    requires AllOk(es)
  {
    if es == [] then [] else ExtensionBytes(es[0]) + ExtensionsBytes(es[1..])
  }

  ghost predicate WellFormed(h: Hello)
  {
    && |h.front| == 43 && |h.session| <= 32 && |h.suites| < 0x1_0000 && |h.compression| < 128
    && (h.extensions.Some? ==> AllOk(h.extensions.value) && |ExtensionsBytes(h.extensions.value)| < 0x1_0000)
  }

  /** Up to the extensions. */
  ghost function Start(h: Hello): bytes
    requires WellFormed(h)
  {
    h.front + [|h.session|] + h.session + Two(|h.suites|) + h.suites + [|h.compression|] + h.compression
  }

  ghost function Serialize(h: Hello): bytes
    requires WellFormed(h)
  {
    Start(h) + if h.extensions.None? then []
               else Two(|ExtensionsBytes(h.extensions.value)|) + ExtensionsBytes(h.extensions.value)
  }

  /** Where the first host name stands in extensions that begin at `at`, and its length. */
  ghost function FirstName(es: seq<Extension>, at: nat): (nat, nat)
    requires AllOk(es)
  {
    if es == [] then (0, 0)
    else if es[0].ServerName? then (at + 9, |es[0].name|)
    else FirstName(es[1..], at + |ExtensionBytes(es[0])|)
  }

  /** The offset and length of the first host name of a record, or (0, 0). */
  ghost function Expected(h: Hello): (nat, nat)
    requires WellFormed(h)
  {
    if h.extensions.None? then (0, 0) else FirstName(h.extensions.value, |Start(h)| + 2)
  }

  // ---------- the walk through a record ----------

  lemma WordAt(b: bytes, w: bytes, n: nat, rest: bytes)
    requires n < 0x1_0000 && b == w + Two(n) + rest
    ensures Word(b, |w|) == n
  {
    assert b[|w|] == Two(n)[0] && b[|w| + 1] == Two(n)[1];
  }

  lemma OtherAt(b: bytes, w: bytes, e: Extension, rest: bytes)
    requires ExtensionOk(e) && e.Other? && b == w + ExtensionBytes(e) + rest
    ensures Word(b, |w|) == e.extType && Word(b, |w| + 2) == |e.body|
    ensures |ExtensionBytes(e)| == 4 + |e.body|
  {
    assert b == w + Two(e.extType) + (Two(|e.body|) + e.body + rest);
    WordAt(b, w, e.extType, Two(|e.body|) + e.body + rest);
    assert b == (w + Two(e.extType)) + Two(|e.body|) + (e.body + rest);
    WordAt(b, w + Two(e.extType), |e.body|, e.body + rest);
  }

  lemma ServerNameAt(b: bytes, w: bytes, e: Extension, rest: bytes)
    requires ExtensionOk(e) && e.ServerName? && b == w + ExtensionBytes(e) + rest
    ensures Word(b, |w|) == 0 && Word(b, |w| + 7) == |e.name| && |b| >= |w| + 10
    ensures b[|w| + 9..|w| + 9 + |e.name|] == e.name
  {
    var size := |e.name| + |e.more| + 3;
    var front := w + Two(0) + Two(|Body(e)|) + Two(size) + [0];
    assert b == w + Two(0) + (Two(|Body(e)|) + Body(e) + rest);
    WordAt(b, w, 0, Two(|Body(e)|) + Body(e) + rest);
    assert b == front + Two(|e.name|) + (e.name + e.more + rest);
    WordAt(b, front, |e.name|, e.name + e.more + rest);
    assert b == (front + Two(|e.name|)) + e.name + (e.more + rest);
  }

  lemma {:induction false} WalkFinds(b: bytes, w: bytes, es: seq<Extension>, at: nat, stop: nat)
    requires AllOk(es) && b == w + ExtensionsBytes(es) && at == |w| && stop == |b|
    ensures WalkExtensions(b, |b|, at, stop) == FirstName(es, at)
    decreases |es|
  {
    if es != [] {
      var rest := ExtensionsBytes(es[1..]);
      Regroup(w, ExtensionBytes(es[0]), rest);
      if es[0].ServerName? {
        ServerNameAt(b, w, es[0], rest);
      } else {
        OtherAt(b, w, es[0], rest);
        var next := w + ExtensionBytes(es[0]);
        WalkFinds(b, next, es[1..], |next|, stop);
        WalkPast(b, at, es[0], |next|, stop);
        TooShortForName(es[1..], at, |next|, stop);
      }
    }
  }

  lemma WalkPast(b: bytes, at: nat, e: Extension, next: nat, stop: nat)
    requires ExtensionOk(e) && e.Other? && Word(b, at) == e.extType && Word(b, at + 2) == |e.body|
    requires next == at + 4 + |e.body| <= stop == |b|
    ensures WalkExtensions(b, |b|, at, stop) == if |b| <= at + 9 then (0, 0) else WalkExtensions(b, |b|, next, stop)
  {
  }

  /** What is left is too short for a name exactly when no name comes. */
  lemma {:induction false} NamesNeedRoom(es: seq<Extension>, at: nat)
    requires AllOk(es) && |ExtensionsBytes(es)| < 10
    ensures FirstName(es, at) == (0, 0)
    decreases |es|
  {
    if es != [] {
      NamesNeedRoom(es[1..], at + |ExtensionBytes(es[0])|);
    }
  }

  lemma TooShortForName(es: seq<Extension>, at: nat, next: nat, stop: nat)
    requires AllOk(es) && at + 4 <= next && stop == next + |ExtensionsBytes(es)|
    ensures stop <= at + 9 ==> FirstName(es, next) == (0, 0)
  {
    if stop <= at + 9 {
      NamesNeedRoom(es, next);
    }
  }

  lemma StartParts(h: Hello, b: bytes, tail: bytes)
    requires WellFormed(h) && b == Start(h) + tail
    ensures At(b, 43) == |h.session|
    ensures Word(b, 44 + |h.session|) == |h.suites|
    ensures At(b, 46 + |h.session| + |h.suites|) == |h.compression|
    ensures |Start(h)| == 47 + |h.session| + |h.suites| + |h.compression|
  {
    var first := h.front + [|h.session|] + h.session;
    var second := first + Two(|h.suites|) + h.suites;
    var last := [|h.compression|] + h.compression + tail;
    assert b == first + Two(|h.suites|) + (h.suites + last);
    WordAt(b, first, |h.suites|, h.suites + last);
    assert b == second + last;
    assert b[|second|] == last[0] == |h.compression|;
    assert b[43] == first[43] == |h.session|;
  }

  /** On every well-formed ClientHello of less than 65536 octets, held whole, the walker returns the
      exact place of the first host name, or (0, 0) when there is none. */
  lemma SniExact(h: Hello)
    requires WellFormed(h) && |Serialize(h)| < 0x1_0000
    ensures Sni(Serialize(h), |Serialize(h)|) == Expected(h)
  {
    var b, start := Serialize(h), Start(h);
    if h.extensions.None? {
      assert b == start + [];
      ReachExtensions(h, b, []);
    } else {
      var es := ExtensionsBytes(h.extensions.value);
      ReachExtensions(h, b, Two(|es|) + es);
      WalkWhole(start, h.extensions.value, es, b, |start|);
    }
  }

  lemma WalkWhole(start: bytes, list: seq<Extension>, es: bytes, b: bytes, e: nat)
    requires AllOk(list) && es == ExtensionsBytes(list) && |es| < 0x1_0000
    requires b == start + (Two(|es|) + es) && |b| < 0x1_0000 && e == |start|
    ensures WalkExtensions(b, |b|, e + 2, (e + 2 + Word(b, e)) % 0x1_0000) == FirstName(list, e + 2)
  {
    Regroup(start, Two(|es|), es);
    WordAt(b, start, |es|, es);
    WalkFinds(b, start + Two(|es|), list, e + 2, |b|);
    EndReached(e + 2 + |es|);
  }

  lemma EndReached(n: nat)
    requires n < 0x1_0000
    ensures n % 0x1_0000 == n
  {
  }

  /** The walker comes to the extensions, or to the end of the record. */
  lemma ReachExtensions(h: Hello, b: bytes, tail: bytes)
    requires WellFormed(h) && b == Start(h) + tail
    ensures var e := |Start(h)|;
            Sni(b, |b|) ==
            if tail == [] then (0, 0) else WalkExtensions(b, |b|, e + 2, (e + 2 + Word(b, e)) % 0x1_0000)
  {
    StartParts(h, b, tail);
    SniFromParts(b, |h.session|, |h.suites|, |h.compression|);
  }

  lemma SniFromParts(b: bytes, session: nat, suites: nat, compression: nat)
    requires At(b, 43) == session <= 32 && Word(b, 44 + session) == suites
    requires At(b, 46 + session + suites) == compression < 128
    requires |b| >= 47 + session + suites + compression
    ensures var e := 47 + session + suites + compression;
            Sni(b, |b|) ==
            if |b| == e then (0, 0) else WalkExtensions(b, |b|, e + 2, (e + 2 + Word(b, e)) % 0x1_0000)
  {
  }

  /** The octets found are the name. */
  lemma {:induction false} NameThere(b: bytes, w: bytes, es: seq<Extension>, at: nat)
    requires AllOk(es) && b == w + ExtensionsBytes(es) && at == |w| && FirstName(es, at) != (0, 0)
    ensures exists e :: e in es && e.ServerName? &&
                        var (start, len) := FirstName(es, at); start + len <= |b| && b[start..start + len] == e.name
    decreases |es|
  {
    if es != [] {
      var rest := ExtensionsBytes(es[1..]);
      Regroup(w, ExtensionBytes(es[0]), rest);
      if es[0].ServerName? {
        ServerNameAt(b, w, es[0], rest);
        assert es[0] in es;
      } else {
        NameThere(b, w + ExtensionBytes(es[0]), es[1..], at + |ExtensionBytes(es[0])|);
      }
    }
  }
}
