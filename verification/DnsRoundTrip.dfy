/** Exactly when a well-formed message decodes to itself (dnslib/message.cpp). */
module DnsRoundTrip {
  import opened Wrappers
  import opened DnsWire
  import opened DnsFields
  import opened DnsRecords
  import opened DnsMessage
  import opened DnsExact
  import opened DnsOverlaps

  lemma SectionsParts(b: bytes, p: nat, x: seq<Record>, y: seq<Record>, z: seq<Record>)
    requires p <= |b| && ReadSections(b, p, |x|, |y|, |z|).Ok?
    requires ReadSections(b, p, |x|, |y|, |z|).value.0 == (x, y, z)
    ensures ReadRecords(b, p, |x|).Ok? && ReadRecords(b, p, |x|).value.0 == x
    ensures var px := ReadRecords(b, p, |x|).value.1;
            && ReadRecords(b, px, |y|).Ok? && ReadRecords(b, px, |y|).value.0 == y
            && var py := ReadRecords(b, px, |y|).value.1;
               ReadRecords(b, py, |z|).Ok? && ReadRecords(b, py, |z|).value.0 == z
  {
  }

  /** Sections that read back as they were written were not harmed by any length. */
  lemma SectionsNeedCopies(w: bytes, x: seq<Record>, y: seq<Record>, z: seq<Record>, octets: bytes, b: bytes, p: nat)
    requires forall i :: 0 <= i < |(x + y) + z| ==> WellFormedRecord(((x + y) + z)[i])
    requires RecordsBytes(w, (x + y) + z) == Ok(octets) && w + octets == b && |b| <= 0x4000 && p == |w|
    requires ReadSections(b, p, |x|, |y|, |z|).Ok? && ReadSections(b, p, |x|, |y|, |z|).value.0 == (x, y, z)
    ensures AllHarmless(w, (x + y) + z)
  {
    RecordsConcat(w, x + y, z);
    RecordsConcat(w, x, y);
    var ox := RecordsBytes(w, x).value;
    var oy := RecordsBytes(w + ox, y).value;
    var oz := RecordsBytes(w + (ox + oy), z).value;
    ThreeParts(w, ox, oy, oz, b);
    SectionsWellFormed(x, y, z);
    SectionsParts(b, p, x, y, z);
    var px, py := p + |ox|, p + |ox| + |oy|;
    RecordsNeedCopies(w, x, ox, b, p, px);
    RecordsNeedCopies(w + ox, y, oy, b, px, py);
    RecordsNeedCopies(w + (ox + oy), z, oz, b, py, |b|);
    HarmlessTogether(w, x, y, ox);
    HarmlessTogether(w, x + y, z, ox + oy);
  }

  lemma ThreeParts(w: bytes, x: bytes, y: bytes, z: bytes, b: bytes)
    requires w + ((x + y) + z) == b
    ensures w + x <= b && (w + x) + y <= b && w + (x + y) + z == b && (w + x) + y == w + (x + y)
  {
    Regroup(w, x + y, z);
    Regroup(w, x, y);
  }

  lemma SectionsWellFormed(x: seq<Record>, y: seq<Record>, z: seq<Record>)
    requires forall i :: 0 <= i < |(x + y) + z| ==> WellFormedRecord(((x + y) + z)[i])
    ensures forall i :: 0 <= i < |x| ==> WellFormedRecord(x[i])
    ensures forall i :: 0 <= i < |y| ==> WellFormedRecord(y[i])
    ensures forall i :: 0 <= i < |z| ==> WellFormedRecord(z[i])
  {
    var all := (x + y) + z;
    assert forall i :: 0 <= i < |x| ==> x[i] == all[i];
    assert forall i :: 0 <= i < |y| ==> y[i] == all[|x| + i];
    assert forall i :: 0 <= i < |z| ==> z[i] == all[|x| + |y| + i];
  }

  lemma MessageParts(m: Contents, fs: seq<Field>, b: bytes, rCode: nat, p: nat, q: nat)
    requires |b| <= MAX_MSG_LEN && p <= q <= |b| && fs == HeaderFields(m)
    requires ReadFields(b, 0, HEADER_KINDS) == Ok((fs, p))
    requires ReadQuestions(b, p, |m.queries|) == Ok((m.queries, q))
    requires ReadMessage(b, rCode) == Ok(m.(rCode := rCode))
    ensures var sections := ReadSections(b, q, |m.answers|, |m.authorities|, |m.additional|);
            sections.Ok? && sections.value.0 == (m.answers, m.authorities, m.additional)
  {
    HeaderNumbers(m);
  }

  /** A message that decodes to itself was not harmed by any length. */
  lemma MessageNeedsCopies(m: Contents, b: bytes, rCode: nat)
    requires WellFormedMessage(m) && MessageBytes(m) == Ok(b) && |b| <= MAX_MSG_LEN
    requires ReadMessage(b, rCode) == Ok(m.(rCode := rCode))
    ensures AllHarmless(BeforeRecords(m), AllRecords(m))
  {
    var header := FieldsBytes([], HeaderFields(m)).value;
    var queries := QuestionsBytes(header, m.queries).value;
    var before := header + queries;
    var records := RecordsBytes(before, AllRecords(m)).value;
    RecordCount(before, AllRecords(m));
    QuestionCount(header, m.queries);
    HeaderRoundTrip(m, header, b);
    QuestionsRoundTrip(header, m.queries, queries, b, |header|, |before|);
    MessageParts(m, HeaderFields(m), b, rCode, |header|, |before|);
    SectionsNeedCopies(before, m.answers, m.authorities, m.additional, records, b, |before|);
  }

  /** Message round trip. Every well-formed message that fits 512 octets, its names compressed against any
      earlier octets and every RDLENGTH filled in after the fact, decodes to itself, RCODE apart,
      exactly when no copy that a name in some RDATA points to overlaps an octet of a length field
      that does not stay zero, and the message does not end in a compressed name's pointer. */
  lemma WellFormedReadsBack(m: Contents, b: bytes, rCode: nat)
    requires WellFormedMessage(m) && MessageBytes(m) == Ok(b) && |b| <= MAX_MSG_LEN
    ensures ReadMessage(b, rCode) == Ok(m.(rCode := rCode)) <==>
            AllLeftAlone(BeforeRecords(m), AllRecords(m)) && !MessageInPointer(m)
    ensures AllLeftAlone(BeforeRecords(m), AllRecords(m)) && MessageInPointer(m) ==>
              ReadMessage(b, rCode) == Err(PositionBehindBuffer)
  {
    AllHarmlessExactly(BeforeRecords(m), AllRecords(m));
    if AllHarmless(BeforeRecords(m), AllRecords(m)) {
      MessageRoundTrip(m, b, rCode);
    } else if ReadMessage(b, rCode) == Ok(m.(rCode := rCode)) {
      MessageNeedsCopies(m, b, rCode);
    }
  }
}
