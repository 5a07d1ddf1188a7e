/** Whole messages (dnslib/message.cpp), sections 4.1 and 4.1.1 of RFC 1035. */
module DnsMessage {
  import opened Wrappers
  import opened Buffers
  import opened DnsWire
  import opened DnsCompression
  import opened DnsFields
  import opened DnsRecords

  const MAX_MSG_LEN := 512

  datatype Contents = Contents(
    id: nat, qr: nat, opCode: nat, aa: nat, tc: nat, rd: nat, ra: nat, rCode: nat,
    queries: seq<Question>, answers: seq<Record>, authorities: seq<Record>, additional: seq<Record>)

  /** The sixteen bits of header flags; only the low bits of each member are taken. */
  function Flags(m: Contents): (f: nat)
    ensures f < 0x1_0000
  {
    m.qr % 2 * 0x8000 + m.opCode % 16 * 0x800 + m.aa % 2 * 0x400 + m.tc % 2 * 0x200
    + m.rd % 2 * 0x100 + m.ra % 2 * 0x80 + m.rCode % 16
  }

  function HeaderFields(m: Contents): seq<Field>
  {
    [U16(m.id), U16(Flags(m)), U16(|m.queries|), U16(|m.answers|), U16(|m.authorities|), U16(|m.additional|)]
  }

  const HEADER_KINDS: seq<Kind> := [KindU16, KindU16, KindU16, KindU16, KindU16, KindU16]

  function AllRecords(m: Contents): seq<Record>
  {
    m.answers + m.authorities + m.additional
  }

  /** The encoded message: header, questions and records, each behind what was written before. */
  function MessageBytes(m: Contents): Result<bytes, Error>
  {
    PartsBytes(HeaderFields(m), m.queries, AllRecords(m))
  }

  function PartsBytes(fields: seq<Field>, queries: seq<Question>, records: seq<Record>): Result<bytes, Error>
  {
    var first :- FieldsBytes([], fields);
    var second :- QuestionsBytes(first, queries);
    var third :- RecordsBytes(first + second, records);
    Ok(first + second + third)
  }

  /** The three sections of resource records, one after the other. */
  function ReadSections(b: bytes, p: nat, anCount: nat, nsCount: nat, arCount: nat)
    : (r: Result<((seq<Record>, seq<Record>, seq<Record>), nat), Error>)
    requires p <= |b|
    ensures r.Ok? ==> p <= r.value.1 <= |b|
  {
    var answers :- ReadRecords(b, p, anCount);
    var authorities :- ReadRecords(b, answers.1, nsCount);
    var additional :- ReadRecords(b, authorities.1, arCount);
    Ok(((answers.0, authorities.0, additional.0), additional.1))
  }

  /** The decoded message; RCODE is never decoded and keeps the value `rCode`. */
  function ReadMessage(b: bytes, rCode: nat): Result<Contents, Error>
  {
    if |b| > MAX_MSG_LEN then Err(MessageTooLong)
    else
      var header :- ReadFields(b, 0, HEADER_KINDS);
      var numbers := Numbers(header.0);
      var queries :- ReadQuestions(b, header.1, numbers[2]);
      var sections :- ReadSections(b, queries.1, numbers[3], numbers[4], numbers[5]);
      if sections.1 != |b| then Err(MessageNotEmpty)
      else Ok(Assemble(numbers[0], numbers[1], rCode, queries.0, sections.0))
  }

  function Numbers(fs: seq<Field>): (r: seq<nat>)
    ensures |r| == |fs|
  {
    seq(|fs|, i requires 0 <= i < |fs| => NumberOf(fs[i]))
  }

  function Assemble(id: nat, flags: nat, rCode: nat, queries: seq<Question>,
                    sections: (seq<Record>, seq<Record>, seq<Record>)): Contents
  {
    Contents(id, flags / 0x8000 % 2, flags / 0x800 % 16, flags / 0x400 % 2, flags / 0x200 % 2,
             flags / 0x100 % 2, flags / 0x80 % 2, rCode, queries, sections.0, sections.1, sections.2)
  }

  // ---------- round trip ----------

  ghost predicate WellFormedMessage(m: Contents)
  {
    && m.id < 0x1_0000 && m.qr < 2 && m.opCode < 16 && m.aa < 2 && m.tc < 2 && m.rd < 2 && m.ra < 2
    && (forall i :: 0 <= i < |m.queries| ==> WellFormedQuestion(m.queries[i]))
    && (forall i :: 0 <= i < |AllRecords(m)| ==> WellFormedRecord(AllRecords(m)[i]))
  }

  /** No length field that is filled in later disturbs a copy some name points to. */
  ghost predicate AllHarmless(w: bytes, rs: seq<Record>)
    decreases |rs|
  {
    rs != [] && RecordBytes(w, rs[0]).Ok? ==>
      PatchHarmless(w, rs[0]) && AllHarmless(w + RecordBytes(w, rs[0]).value, rs[1..])
  }

  /** The last record ends in a pointer. */
  ghost predicate LastRecordInPointer(w: bytes, rs: seq<Record>)
    decreases |rs|
  {
    rs != [] && RecordBytes(w, rs[0]).Ok? &&
    if |rs| == 1 then RecordInPointer(w, rs[0])
    else LastRecordInPointer(w + RecordBytes(w, rs[0]).value, rs[1..])
  }

  lemma RecordNotEmpty(w: bytes, r: Record)
    requires RecordBytes(w, r).Ok?
    ensures RecordBytes(w, r).value != []
  {
  }

  lemma {:induction false} QuestionsRoundTrip(w: bytes, qs: seq<Question>, octets: bytes, b: bytes, p: nat, end: nat)
    requires forall i :: 0 <= i < |qs| ==> WellFormedQuestion(qs[i])
    requires QuestionsBytes(w, qs) == Ok(octets) && w + octets <= b && |b| <= 0x4000
    requires p == |w| && end == p + |octets|
    ensures p <= |b| && ReadQuestions(b, p, |qs|) == Ok((qs, end))
    decreases |qs|
  {
    if qs != [] {
      var first := QuestionBytes(w, qs[0]).value;
      var rest := QuestionsBytes(w + first, qs[1..]).value;
      var next := p + |first|;
      Regroup(w, first, rest);
      QuestionRoundTrip(w, qs[0], first, b, p, next);
      QuestionsRoundTrip(w + first, qs[1..], rest, b, next, end);
      ReadQuestionsStep(b, p, qs, next, end);
    }
  }

  lemma ReadQuestionsStep(b: bytes, p: nat, qs: seq<Question>, next: nat, end: nat)
    requires qs != [] && p <= next <= |b|
    requires ReadQuestion(b, p) == Ok((qs[0], next)) && ReadQuestions(b, next, |qs| - 1) == Ok((qs[1..], end))
    ensures ReadQuestions(b, p, |qs|) == Ok((qs, end))
  {
    var first, rest := ReadQuestion(b, p), ReadQuestions(b, next, |qs| - 1);
    assert [qs[0]] + qs[1..] == qs;
    assert first.value == (qs[0], next) && rest.value == (qs[1..], end);
  }

  lemma QuestionRoundTrip(w: bytes, q: Question, octets: bytes, b: bytes, p: nat, end: nat)
    requires WellFormedQuestion(q) && QuestionBytes(w, q) == Ok(octets) && w + octets <= b && |b| <= 0x4000
    requires p == |w| && end == p + |octets|
    ensures ReadQuestion(b, p) == Ok((q, end))
  {
    var fs := QuestionFields(q);
    NotInPointer(w, fs);
    PlainRoundTrip(w, fs, octets, b, p, end);
    assert KindsOf(fs) == QUESTION_KINDS;
  }

  /** Records read back in order, unless the last of them is stuck at its pointer. */
  lemma {:induction false} RecordsRoundTrip(w: bytes, rs: seq<Record>, octets: bytes, b: bytes, p: nat, end: nat,
                                            stuck: bool)
    requires (forall i :: 0 <= i < |rs| ==> WellFormedRecord(rs[i])) && AllHarmless(w, rs)
    requires RecordsBytes(w, rs) == Ok(octets) && w + octets <= b && |b| <= 0x4000
    requires p == |w| && end == p + |octets|
    requires stuck == (LastRecordInPointer(w, rs) && end == |b|)
    ensures p <= |b| && ReadRecords(b, p, |rs|) == Got(stuck, rs, end)
    decreases |rs|
  {
    if rs != [] {
      var first := RecordBytes(w, rs[0]).value;
      var rest := RecordsBytes(w + first, rs[1..]).value;
      var next := p + |first|;
      var s0, s1 := RecordInPointer(w, rs[0]) && next == |b|, stuck && |rs| > 1;
      Regroup(w, first, rest);
      if |rs| > 1 {
        RecordNotEmpty(w + first, rs[1]);
      }
      RecordRoundTrip(w, rs[0], first, b, p, next, s0);
      RecordsRoundTrip(w + first, rs[1..], rest, b, next, end, s1);
      ReadRecordsStep(b, p, rs, next, end, s0, s1, stuck);
    }
  }

  lemma ReadRecordsStep(b: bytes, p: nat, rs: seq<Record>, next: nat, end: nat, stuck: bool, later: bool, either: bool)
    requires rs != [] && p <= next <= |b| && either == (stuck || later)
    requires ReadRecord(b, p) == Got(stuck, rs[0], next)
    requires ReadRecords(b, next, |rs| - 1) == Got(later, rs[1..], end)
    ensures ReadRecords(b, p, |rs|) == Got(either, rs, end)
  {
    var rest := ReadRecords(b, next, |rs| - 1);
    if !stuck && !later {
      assert rest == Ok((rs[1..], end)) && rs == [rs[0]] + rs[1..];
    }
  }

  /** Writing two lists of records one after the other is writing both as one list. */
  lemma {:induction false} RecordsConcat(w: bytes, a: seq<Record>, b: seq<Record>)
    requires RecordsBytes(w, a + b).Ok?
    ensures RecordsBytes(w, a).Ok? && RecordsBytes(w + RecordsBytes(w, a).value, b).Ok?
    ensures RecordsBytes(w, a + b).value ==
            RecordsBytes(w, a).value + RecordsBytes(w + RecordsBytes(w, a).value, b).value
    ensures AllHarmless(w, a + b) ==> AllHarmless(w, a) && AllHarmless(w + RecordsBytes(w, a).value, b)
    ensures LastRecordInPointer(w, a + b) <==>
            if b == [] then LastRecordInPointer(w, a) else LastRecordInPointer(w + RecordsBytes(w, a).value, b)
    decreases |a|
  {
    if a == [] {
      assert a + b == b && w + [] == w;
    } else {
      var first := RecordBytes(w, a[0]).value;
      assert (a + b)[1..] == a[1..] + b && (a + b)[0] == a[0];
      RecordsConcat(w + first, a[1..], b);
      var rest := RecordsBytes(w + first, a[1..]).value;
      Regroup(w, first, rest);
      Regroup(first, rest, RecordsBytes(w + first + rest, b).value);
    }
  }

  lemma RecordsNotEmpty(w: bytes, rs: seq<Record>)
    requires rs != [] && RecordsBytes(w, rs).Ok?
    ensures RecordsBytes(w, rs).value != []
  {
    RecordNotEmpty(w, rs[0]);
  }

  /** What is known of records written after `w` into `b`. */
  ghost predicate WrittenRecords(w: bytes, rs: seq<Record>, octets: bytes, b: bytes)
  {
    && (forall i :: 0 <= i < |rs| ==> WellFormedRecord(rs[i])) && AllHarmless(w, rs)
    && RecordsBytes(w, rs) == Ok(octets) && w + octets <= b && |b| <= 0x4000
  }

  lemma SplitRecords(w: bytes, x: seq<Record>, y: seq<Record>, octets: bytes, b: bytes)
    returns (first: bytes, second: bytes)
    requires WrittenRecords(w, x + y, octets, b)
    ensures octets == first + second && (y == [] <==> second == [])
    ensures WrittenRecords(w, x, first, b) && WrittenRecords(w + first, y, second, b)
    ensures LastRecordInPointer(w, x + y) <==>
            if y == [] then LastRecordInPointer(w, x) else LastRecordInPointer(w + first, y)
  {
    RecordsConcat(w, x, y);
    first := RecordsBytes(w, x).value;
    second := RecordsBytes(w + first, y).value;
    Regroup(w, first, second);
    assert forall i :: 0 <= i < |x| ==> x[i] == (x + y)[i];
    assert forall i :: 0 <= i < |y| ==> y[i] == (x + y)[|x| + i];
    if y != [] {
      RecordsNotEmpty(w + first, y);
    }
  }

  lemma SectionsRoundTrip(w: bytes, x: seq<Record>, y: seq<Record>, z: seq<Record>, octets: bytes, b: bytes,
                          p: nat, stuck: bool)
    requires WrittenRecords(w, (x + y) + z, octets, b) && w + octets == b && p == |w|
    requires stuck == LastRecordInPointer(w, (x + y) + z)
    ensures p <= |b| && ReadSections(b, p, |x|, |y|, |z|) == Got(stuck, (x, y, z), |b|)
  {
    var xy, oz := SplitRecords(w, x + y, z, octets, b);
    var ox, oy := SplitRecords(w, x, y, xy, b);
    Regroup(w, ox, oy);
    var px, py := p + |ox|, p + |ox| + |oy|;
    var sx, sy, sz := stuck && y == [] && z == [] && x != [], stuck && z == [] && y != [], stuck && z != [];
    assert w + octets == w + (ox + oy) + oz by { Regroup(w, xy, oz); }
    RecordsRoundTrip(w, x, ox, b, p, px, sx);
    RecordsRoundTrip(w + ox, y, oy, b, px, py, sy);
    RecordsRoundTrip(w + ox + oy, z, oz, b, py, |b|, sz);
    SectionsStep(b, p, x, y, z, px, py, sx, sy, sz);
  }

  lemma SectionsStep(b: bytes, p: nat, x: seq<Record>, y: seq<Record>, z: seq<Record>, px: nat, py: nat,
                     sx: bool, sy: bool, sz: bool)
    requires p <= px <= py <= |b|
    requires ReadRecords(b, p, |x|) == Got(sx, x, px)
    requires ReadRecords(b, px, |y|) == Got(sy, y, py)
    requires ReadRecords(b, py, |z|) == Got(sz, z, |b|)
    ensures ReadSections(b, p, |x|, |y|, |z|) == Got(sx || sy || sz, (x, y, z), |b|)
  {
  }

  lemma {:induction false} RecordCount(w: bytes, rs: seq<Record>)
    requires RecordsBytes(w, rs).Ok?
    ensures |rs| <= |RecordsBytes(w, rs).value|
    decreases |rs|
  {
    if rs != [] {
      RecordNotEmpty(w, rs[0]);
      RecordCount(w + RecordBytes(w, rs[0]).value, rs[1..]);
    }
  }

  lemma {:induction false} QuestionCount(w: bytes, qs: seq<Question>)
    requires (forall i :: 0 <= i < |qs| ==> WellFormedQuestion(qs[i])) && QuestionsBytes(w, qs).Ok?
    ensures |qs| <= |QuestionsBytes(w, qs).value|
    decreases |qs|
  {
    if qs != [] {
      NextNotEmpty(w, QuestionFields(qs[0]));
      QuestionCount(w + QuestionBytes(w, qs[0]).value, qs[1..]);
    }
  }

  /** The octets of a message before its resource records. */
  ghost function BeforeRecords(m: Contents): bytes
    requires MessageBytes(m).Ok?
  {
    var header := FieldsBytes([], HeaderFields(m)).value;
    header + QuestionsBytes(header, m.queries).value
  }

  /** The message is the last thing in its buffer, and ends in a pointer. */
  ghost predicate MessageInPointer(m: Contents)
    requires MessageBytes(m).Ok?
  {
    LastRecordInPointer(BeforeRecords(m), AllRecords(m))
  }

  /** Message round trip. Every message that fits 512 octets decodes to itself, RCODE apart, with
      every RDLENGTH filled in after the fact, exactly when its last record does not end in a
      compressed name's pointer; otherwise the decoder refuses it. */
  lemma MessageRoundTrip(m: Contents, b: bytes, rCode: nat)
    requires WellFormedMessage(m) && MessageBytes(m) == Ok(b) && |b| <= MAX_MSG_LEN
    requires AllHarmless(BeforeRecords(m), AllRecords(m))
    ensures ReadMessage(b, rCode) ==
            if MessageInPointer(m) then Err(PositionBehindBuffer) else Ok(m.(rCode := rCode))
  {
    var header := FieldsBytes([], HeaderFields(m)).value;
    var queries := QuestionsBytes(header, m.queries).value;
    var records := RecordsBytes(header + queries, AllRecords(m)).value;
    RecordCount(header + queries, AllRecords(m));
    QuestionCount(header, m.queries);
    HeaderRoundTrip(m, header, b);
    QuestionsRoundTrip(header, m.queries, queries, b, |header|, |header + queries|);
    SectionsRoundTrip(header + queries, m.answers, m.authorities, m.additional, records, b, |header + queries|,
                      MessageInPointer(m));
    MessageFromParts(m, HeaderFields(m), b, rCode, |header|, |header + queries|, MessageInPointer(m));
  }

  lemma HeaderFieldsFit(m: Contents)
    requires m.id < 0x1_0000
    requires |m.queries| <= 512 && |m.answers| <= 512 && |m.authorities| <= 512 && |m.additional| <= 512
    ensures KindsOf(HeaderFields(m)) == HEADER_KINDS && AllWellFormed(HeaderFields(m))
  {
  }

  lemma HeaderRoundTrip(m: Contents, header: bytes, b: bytes)
    requires m.id < 0x1_0000 && FieldsBytes([], HeaderFields(m)) == Ok(header) && header <= b && |b| <= 0x4000
    requires |m.queries| <= 512 && |m.answers| <= 512 && |m.authorities| <= 512 && |m.additional| <= 512
    ensures ReadFields(b, 0, HEADER_KINDS) == Ok((HeaderFields(m), |header|))
  {
    HeaderFieldsFit(m);
    NotInPointer([], HeaderFields(m));
    assert [] + header == header;
    PlainRoundTrip([], HeaderFields(m), header, b, 0, |header|);
  }

  lemma FlagsAssemble(m: Contents)
    requires m.qr < 2 && m.opCode < 16 && m.aa < 2 && m.tc < 2 && m.rd < 2 && m.ra < 2
    ensures var f := Flags(m);
            && f / 0x8000 % 2 == m.qr && f / 0x800 % 16 == m.opCode && f / 0x400 % 2 == m.aa
            && f / 0x200 % 2 == m.tc && f / 0x100 % 2 == m.rd && f / 0x80 % 2 == m.ra
  {
    FlagDigits(m, Flags(m), m.rCode % 16);
  }

  lemma Quotient(f: nat, high: nat, unit: nat, low: nat)
    requires f == high * unit + low && low < unit
    ensures f / unit == high
  {
    var q := f / unit;
    assert f == q * unit + f % unit;
    Multiples(q, high, unit);
    Multiples(high, q, unit);
  }

  lemma {:induction false} Multiples(x: nat, y: nat, unit: nat)
    ensures x < y ==> x * unit + unit <= y * unit
    decreases y
  {
    if x + 1 < y {
      Multiples(x, y - 1, unit);
      assert y * unit == (y - 1) * unit + unit;
    } else if x + 1 == y {
      assert y * unit == x * unit + unit;
    }
  }

  lemma FlagDigits(m: Contents, f: nat, low: nat)
    requires m.qr < 2 && m.opCode < 16 && m.aa < 2 && m.tc < 2 && m.rd < 2 && m.ra < 2 && low < 16
    requires f == m.qr * 0x8000 + m.opCode * 0x800 + m.aa * 0x400 + m.tc * 0x200 + m.rd * 0x100 + m.ra * 0x80 + low
    ensures f / 0x8000 % 2 == m.qr && f / 0x800 % 16 == m.opCode && f / 0x400 % 2 == m.aa
    ensures f / 0x200 % 2 == m.tc && f / 0x100 % 2 == m.rd && f / 0x80 % 2 == m.ra
  {
    var ra := m.ra * 0x80 + low;
    var rd := m.rd * 0x100 + ra;
    var tc := m.tc * 0x200 + rd;
    var aa := m.aa * 0x400 + tc;
    var op := m.opCode * 0x800 + aa;
    Quotient(f, m.qr, 0x8000, op);
    Quotient(f, m.qr * 16 + m.opCode, 0x800, aa);
    Quotient(f, m.qr * 32 + m.opCode * 2 + m.aa, 0x400, tc);
    Quotient(f, m.qr * 64 + m.opCode * 4 + m.aa * 2 + m.tc, 0x200, rd);
    Quotient(f, m.qr * 128 + m.opCode * 8 + m.aa * 4 + m.tc * 2 + m.rd, 0x100, ra);
    Quotient(f, m.qr * 256 + m.opCode * 16 + m.aa * 8 + m.tc * 4 + m.rd * 2 + m.ra, 0x80, low);
  }

  lemma MessageFromParts(m: Contents, fs: seq<Field>, b: bytes, rCode: nat, p: nat, q: nat, stuck: bool)
    requires WellFormedMessage(m) && |b| <= MAX_MSG_LEN && p <= q <= |b| && fs == HeaderFields(m)
    requires ReadFields(b, 0, HEADER_KINDS) == Ok((fs, p))
    requires ReadQuestions(b, p, |m.queries|) == Ok((m.queries, q))
    requires ReadSections(b, q, |m.answers|, |m.authorities|, |m.additional|) ==
             Got(stuck, (m.answers, m.authorities, m.additional), |b|)
    ensures ReadMessage(b, rCode) == if stuck then Err(PositionBehindBuffer) else Ok(m.(rCode := rCode))
  {
    HeaderNumbers(m);
    if !stuck {
      FlagsAssemble(m);
    }
  }

  lemma HeaderNumbers(m: Contents)
    ensures Numbers(HeaderFields(m)) ==
            [m.id, Flags(m), |m.queries|, |m.answers|, |m.authorities|, |m.additional|]
  {
  }

  // ---------- messages without names in their RDATA ----------

  ghost predicate NoCompressedNames(fs: seq<Field>)
  {
    forall i :: 0 <= i < |fs| ==> !(fs[i].Name? && fs[i].compressed)
  }

  /** Fields other than compressed names do not depend on what was written before them. */
  lemma {:induction false} PlainFieldsStand(w: bytes, fs: seq<Field>, octets: bytes, b: bytes)
    requires NoCompressedNames(fs) && FieldsBytes(w, fs) == Ok(octets) && OccursAt(b, octets, |w|)
    ensures AllStand(w, fs, b) && !LastInPointer(w, fs)
    decreases |fs|
  {
    if fs != [] {
      var first := FieldBytes(w, fs[0]).value;
      var rest := FieldsBytes(w + first, fs[1..]).value;
      OccursSplit(b, first, rest, |w|);
      PlainFieldsStand(w + first, fs[1..], rest, b);
    }
  }

  /** Records without compressed names in their RDATA: nothing in it can be disturbed by the
      length field, and no pointer can come last. */
  ghost predicate PlainRecord(r: Record)
  {
    r.rdata.Some? ==> NoCompressedNames(r.rdata.value)
  }

  lemma PlainRecordHarmless(w: bytes, r: Record)
    requires PlainRecord(r) && RecordBytes(w, r).Ok?
    ensures PatchHarmless(w, r) && !RecordInPointer(w, r)
  {
    if r.rdata.Some? {
      var octets := RecordBytes(w, r).value;
      var head, data := RecordParts(w, r, octets);
      PlainRDataStands(w, r.rdata.value, head, data, BeforeRData(w, r), w + octets);
    }
  }

  lemma PlainRDataStands(w: bytes, fs: seq<Field>, head: bytes, data: bytes, before: bytes, b: bytes)
    requires NoCompressedNames(fs) && FieldsBytes(before, fs) == Ok(data)
    requires before == w + head + [0, 0] && b == w + (head + Octets16(|data|)) + data
    ensures AllStand(before, fs, b) && !LastInPointer(before, fs)
  {
    OccursAfter(w + (head + Octets16(|data|)), data, b);
    PlainFieldsStand(before, fs, data, b);
  }

  lemma {:induction false} PlainRecordsHarmless(w: bytes, rs: seq<Record>)
    requires forall i :: 0 <= i < |rs| ==> PlainRecord(rs[i])
    ensures AllHarmless(w, rs) && !LastRecordInPointer(w, rs)
    decreases |rs|
  {
    if rs != [] && RecordBytes(w, rs[0]).Ok? {
      PlainRecordHarmless(w, rs[0]);
      PlainRecordsHarmless(w + RecordBytes(w, rs[0]).value, rs[1..]);
    }
  }

  /** Messages whose records hold addresses, texts, host information, plain octets or nothing
      decode to themselves, owner names compressed against any earlier octets. */
  lemma PlainMessageRoundTrip(m: Contents, b: bytes, rCode: nat)
    requires WellFormedMessage(m) && MessageBytes(m) == Ok(b) && |b| <= MAX_MSG_LEN
    requires forall i :: 0 <= i < |AllRecords(m)| ==> PlainRecord(AllRecords(m)[i])
    ensures ReadMessage(b, rCode) == Ok(m.(rCode := rCode))
  {
    PlainRecordsHarmless(BeforeRecords(m), AllRecords(m));
    MessageRoundTrip(m, b, rCode);
  }
}
