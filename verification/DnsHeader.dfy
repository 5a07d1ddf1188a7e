/** The header of a message, octet by octet (dnslib/message.cpp, section 4.1.1 of RFC 1035). */
module DnsHeader {
  import opened Wrappers
  import opened Buffers
  import opened DnsWire
  import opened DnsFields
  import opened DnsRecords
  import opened DnsMessage
  import opened DnsTypes
  import opened DnsDecoded

  // ---------- writing ----------

  lemma NumbersWritten(w: bytes, a: nat, b: nat, c: nat, d: nat, e: nat, f: nat)
    ensures FieldsBytes(w, [U16(a), U16(b), U16(c), U16(d), U16(e), U16(f)]) ==
            Ok(Octets16(a) + (Octets16(b) + (Octets16(c) + (Octets16(d) + (Octets16(e) + Octets16(f))))))
  {
    var x5 := w + Octets16(a) + Octets16(b) + Octets16(c) + Octets16(d) + Octets16(e);
    assert FieldsBytes(x5 + Octets16(f), []) == Ok([]);
    assert Octets16(f) + [] == Octets16(f);
    Written(x5, f, []);
    Written(w + Octets16(a) + Octets16(b) + Octets16(c) + Octets16(d), e, [U16(f)]);
    Written(w + Octets16(a) + Octets16(b) + Octets16(c), d, [U16(e), U16(f)]);
    Written(w + Octets16(a) + Octets16(b), c, [U16(d), U16(e), U16(f)]);
    Written(w + Octets16(a), b, [U16(c), U16(d), U16(e), U16(f)]);
    Written(w, a, [U16(b), U16(c), U16(d), U16(e), U16(f)]);
  }

  lemma Written(w: bytes, n: nat, rest: seq<Field>)
    requires FieldsBytes(w + Octets16(n), rest).Ok?
    ensures FieldsBytes(w, [U16(n)] + rest) == Ok(Octets16(n) + FieldsBytes(w + Octets16(n), rest).value)
  {
    assert ([U16(n)] + rest)[1..] == rest;
  }

  /** The first twelve octets of an encoded message: identifier, flags, and the four counts in their order. */
  lemma HeaderWritten(m: Contents, b: bytes)
    requires MessageBytes(m) == Ok(b)
    ensures |b| >= 12
    ensures b[0] == m.id / 256 % 256 && b[1] == m.id % 256
    ensures b[2] == m.qr % 2 * 128 + m.opCode % 16 * 8 + m.aa % 2 * 4 + m.tc % 2 * 2 + m.rd % 2
    ensures b[3] == m.ra % 2 * 128 + m.rCode % 16
    ensures b[4] == |m.queries| / 256 % 256 && b[5] == |m.queries| % 256
    ensures b[6] == |m.answers| / 256 % 256 && b[7] == |m.answers| % 256
    ensures b[8] == |m.authorities| / 256 % 256 && b[9] == |m.authorities| % 256
    ensures b[10] == |m.additional| / 256 % 256 && b[11] == |m.additional| % 256
  {
    NumbersWritten([], m.id, Flags(m), |m.queries|, |m.answers|, |m.authorities|, |m.additional|);
    var header := FieldsBytes([], HeaderFields(m)).value;
    assert header <= b;
    FlagsOctets(m);
  }

  lemma FlagsOctets(m: Contents)
    ensures Flags(m) / 256 % 256 == m.qr % 2 * 128 + m.opCode % 16 * 8 + m.aa % 2 * 4 + m.tc % 2 * 2 + m.rd % 2
    ensures Flags(m) % 256 == m.ra % 2 * 128 + m.rCode % 16
  {
  }

  // ---------- reading ----------

  function Shorts(n: nat): seq<Kind>
  {
    if n == 0 then [] else [KindU16] + Shorts(n - 1)
  }

  function PairAt(b: bytes, p: nat): Field
    requires p + 2 <= |b|
  {
    U16(b[p] as int * 256 + b[p + 1])
  }

  function ShortsAt(b: bytes, p: nat, n: nat): seq<Field>
    requires p + 2 * n <= |b|
    decreases n
  {
    if n == 0 then [] else [PairAt(b, p)] + ShortsAt(b, p + 2, n - 1)
  }

  lemma {:induction false} ShortsIndex(b: bytes, p: nat, n: nat, i: nat)
    requires p + 2 * n <= |b| && i < n
    ensures |ShortsAt(b, p, n)| == n && p + 2 * i + 2 <= |b| && ShortsAt(b, p, n)[i] == PairAt(b, p + 2 * i)
    decreases n
  {
    if n == 1 {
      assert ShortsAt(b, p + 2, 0) == [];
    } else {
      ShortsIndex(b, p + 2, n - 1, if i > 0 then i - 1 else 0);
    }
  }

  lemma ShortRead(b: bytes, p: nat)
    requires p <= |b|
    ensures ReadField(b, p, KindU16) == if p + 2 <= |b| then Ok((PairAt(b, p), p + 2)) else Err(BehindBuffer)
  {
  }

  lemma {:induction false} ShortsRead(b: bytes, p: nat, n: nat)
    requires p <= |b|
    ensures ReadFields(b, p, Shorts(n)) ==
            if p + 2 * n <= |b| then Ok((ShortsAt(b, p, n), p + 2 * n)) else Err(BehindBuffer)
    decreases n
  {
    if n > 0 {
      ShortRead(b, p);
      if p + 2 <= |b| {
        ShortsRead(b, p + 2, n - 1);
        MoreMembers(b, p, KindU16, Shorts(n - 1), ReadField(b, p, KindU16), ReadFields(b, p + 2, Shorts(n - 1)));
      } else {
        MoreMembers(b, p, KindU16, Shorts(n - 1), ReadField(b, p, KindU16), Err(BehindBuffer));
      }
    }
  }

  lemma HeaderKinds()
    ensures Shorts(6) == HEADER_KINDS
  {
    assert Shorts(0) == [];
    assert Shorts(1) == [KindU16];
    assert Shorts(2) == [KindU16, KindU16];
    assert Shorts(3) == [KindU16, KindU16, KindU16];
    assert Shorts(4) == [KindU16, KindU16, KindU16, KindU16];
    assert Shorts(5) == [KindU16, KindU16, KindU16, KindU16, KindU16];
  }

  /** A list read with a count has one element more than the list read behind its first. */
  ghost predicate Linked<T>(there: (nat, nat, seq<T>) -> bool, at: nat, count: nat, ys: seq<T>)
  {
    if ys == [] then count == 0
    else exists next: nat, c: nat, zs :: there(next, c, zs) && c + 1 == count && zs == ys[1..]
  }

  lemma {:induction false} Counted<T>(there: (nat, nat, seq<T>) -> bool, p: nat, count: nat, xs: seq<T>)
    requires there(p, count, xs)
    requires forall at: nat, c: nat, ys: seq<T> {:trigger Linked(there, at, c, ys)} ::
               there(at, c, ys) ==> Linked(there, at, c, ys)
    ensures |xs| == count
    decreases count
  {
    assert Linked(there, p, count, xs);
    if xs != [] {
      var next: nat, c: nat, zs :| there(next, c, zs) && c + 1 == count && zs == xs[1..];
      Counted(there, next, c, zs);
    }
  }

  lemma RecordsLinked(b: bytes, at: nat, count: nat, rs: seq<Record>, there: (nat, nat, seq<Record>) -> bool)
    requires RecordsThere(b, at, count, rs)
    requires forall p: nat, c: nat, xs :: there(p, c, xs) == RecordsThere(b, p, c, xs)
    ensures Linked(there, at, count, rs)
  {
    if rs != [] {
      var _, next := FirstRecord(b, at, count, rs);
      assert there(next, count - 1, rs[1..]);
    }
  }

  lemma RecordsCounted(b: bytes, p: nat, count: nat, rs: seq<Record>)
    requires RecordsThere(b, p, count, rs)
    ensures |rs| == count
  {
    var there := (at: nat, c: nat, xs: seq<Record>) => RecordsThere(b, at, c, xs);
    forall at: nat, c: nat, xs: seq<Record> | there(at, c, xs)
      ensures Linked(there, at, c, xs)
    {
      RecordsLinked(b, at, c, xs, there);
    }
    Counted(there, p, count, rs);
  }

  lemma QuestionsLinked(b: bytes, at: nat, count: nat, rs: seq<Question>, there: (nat, nat, seq<Question>) -> bool)
    requires QuestionsThere(b, at, count, rs)
    requires forall p: nat, c: nat, xs :: there(p, c, xs) == QuestionsThere(b, p, c, xs)
    ensures Linked(there, at, count, rs)
  {
    if rs != [] {
      var _, next := FirstQuestion(b, at, count, rs);
      assert there(next, count - 1, rs[1..]);
    }
  }

  lemma QuestionsCounted(b: bytes, p: nat, count: nat, rs: seq<Question>)
    requires QuestionsThere(b, p, count, rs)
    ensures |rs| == count
  {
    var there := (at: nat, c: nat, xs: seq<Question>) => QuestionsThere(b, at, c, xs);
    forall at: nat, c: nat, xs: seq<Question> | there(at, c, xs)
      ensures Linked(there, at, c, xs)
    {
      QuestionsLinked(b, at, c, xs, there);
    }
    Counted(there, p, count, rs);
  }

  /** What the six numbers of the header are taken for. */
  ghost predicate Takes(m: Contents, numbers: seq<nat>)
  {
    && |numbers| == 6 && m.id == numbers[0]
    && m.qr == numbers[1] / 0x8000 % 2 && m.opCode == numbers[1] / 0x800 % 16 && m.aa == numbers[1] / 0x400 % 2
    && m.tc == numbers[1] / 0x200 % 2 && m.rd == numbers[1] / 0x100 % 2 && m.ra == numbers[1] / 0x80 % 2
    && |m.queries| == numbers[2] && |m.answers| == numbers[3]
    && |m.authorities| == numbers[4] && |m.additional| == numbers[5]
  }

  lemma NumbersTaken(b: bytes, rCode: nat, m: Contents, numbers: seq<nat>)
    requires ReadMessage(b, rCode) == Ok(m) && numbers == Numbers(ReadFields(b, 0, HEADER_KINDS).value.0)
    ensures Takes(m, numbers)
  {
    var header := ReadFields(b, 0, HEADER_KINDS).value;
    var queries := ReadQuestions(b, header.1, numbers[2]).value;
    QuestionsCounted(b, header.1, numbers[2], m.queries);
    var px, py := SectionsThere(b, queries.1, numbers[3], numbers[4], numbers[5], m);
    RecordsCounted(b, queries.1, numbers[3], m.answers);
    RecordsCounted(b, px, numbers[4], m.authorities);
    RecordsCounted(b, py, numbers[5], m.additional);
  }

  /** The number that two octets are, the first being the higher. */
  function Pair(b: bytes, p: nat): nat
    requires p + 2 <= |b|
  {
    b[p] as int * 256 + b[p + 1]
  }

  lemma NumbersOfShorts(b: bytes, numbers: seq<nat>)
    requires 12 <= |b| && numbers == Numbers(ShortsAt(b, 0, 6))
    ensures |numbers| == 6 && numbers[0] == Pair(b, 0) && numbers[1] == Pair(b, 2) && numbers[2] == Pair(b, 4)
    ensures numbers[3] == Pair(b, 6) && numbers[4] == Pair(b, 8) && numbers[5] == Pair(b, 10)
  {
    ShortsIndex(b, 0, 6, 0);
    ShortsIndex(b, 0, 6, 1);
    ShortsIndex(b, 0, 6, 2);
    ShortsIndex(b, 0, 6, 3);
    ShortsIndex(b, 0, 6, 4);
    ShortsIndex(b, 0, 6, 5);
  }

  lemma HeaderLong(b: bytes)
    requires ReadFields(b, 0, HEADER_KINDS).Ok?
    ensures |b| >= 12 && ReadFields(b, 0, HEADER_KINDS).value.0 == ShortsAt(b, 0, 6)
  {
    HeaderKinds();
    ShortsRead(b, 0, 6);
  }

  lemma UpperBits(high: nat, low: nat)
    requires high < 256 && low < 256
    ensures (high * 256 + low) / 0x8000 % 2 == high / 128 && (high * 256 + low) / 0x800 % 16 == high / 8 % 16
    ensures (high * 256 + low) / 0x400 % 2 == high / 4 % 2
  {
  }

  lemma LowerBits(high: nat, low: nat)
    requires high < 256 && low < 256
    ensures (high * 256 + low) / 0x200 % 2 == high / 2 % 2
    ensures (high * 256 + low) / 0x100 % 2 == high % 2 && (high * 256 + low) / 0x80 % 2 == low / 128
  {
  }

  /** The members of a header, from its octets. */
  ghost predicate FromOctets(b: bytes, m: Contents)
  {
    && |b| >= 12 && m.id == Pair(b, 0)
    && m.qr == b[2] / 128 && m.opCode == b[2] / 8 % 16 && m.aa == b[2] / 4 % 2 && m.tc == b[2] / 2 % 2
    && m.rd == b[2] % 2 && m.ra == b[3] / 128
    && |m.queries| == Pair(b, 4) && |m.answers| == Pair(b, 6) && |m.authorities| == Pair(b, 8)
    && |m.additional| == Pair(b, 10)
  }

  lemma OctetsTaken(b: bytes, m: Contents, numbers: seq<nat>)
    requires 12 <= |b| && numbers == Numbers(ShortsAt(b, 0, 6)) && Takes(m, numbers)
    ensures FromOctets(b, m)
  {
    NumbersOfShorts(b, numbers);
    UpperBits(b[2], b[3]);
    LowerBits(b[2], b[3]);
  }

  /** What is taken from the first twelve octets of a message that is decoded: identifier, flags, and how many
      questions and records of each section there are. */
  lemma HeaderRead(b: bytes, rCode: nat, m: Contents)
    requires ReadMessage(b, rCode) == Ok(m)
    ensures FromOctets(b, m)
  {
    HeaderLong(b);
    NumbersTaken(b, rCode, m, Numbers(ShortsAt(b, 0, 6)));
    OctetsTaken(b, m, Numbers(ShortsAt(b, 0, 6)));
  }
}
