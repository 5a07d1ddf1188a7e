/** Exactly which records and messages decode to themselves (dnslib/rr.cpp, dnslib/message.cpp). */
module DnsReadsBack {
  import opened Wrappers
  import opened Buffers
  import opened DnsWire
  import opened DnsFields
  import opened DnsRecords
  import opened DnsMessage
  import opened DnsExact
  import opened DnsOverlaps
  import opened DnsRoundTrip
  import opened DnsDecoded

  // ---------- records ----------

  /** A record reads back as itself exactly when it fits what the decoder can return, filling in its
      length leaves alone the copies that names in its RDATA point to, and it is not stuck at a pointer
      that is the last thing in the buffer. */
  lemma RecordReadsBack(w: bytes, r: Record, octets: bytes, b: bytes, p: nat, end: nat)
    requires RecordNamesProper(r) && RecordBytes(w, r) == Ok(octets)
    requires w + octets <= b && |b| <= 0x4000 && p == |w| && end == p + |octets|
    ensures ReadRecord(b, p) == Ok((r, end)) <==>
            WellFormedRecord(r) && PatchHarmless(w, r) && !(RecordInPointer(w, r) && end == |b|)
  {
    if ReadRecord(b, p) == Ok((r, end)) {
      RecordDecoded(b, p, r);
    }
    if WellFormedRecord(r) {
      WellFormedRecordReadsBack(w, r, octets, b, p, end);
    }
  }

  /** RDATA that was read has some octets, members that fit the type, and numbers and character strings
      within their width, whatever the buffer. */
  lemma RDataDecoded(b: bytes, p: nat)
    requires p <= |b| && ReadRecord(b, p).Ok? && ReadRecord(b, p).value.0.rdata.Some?
    ensures var r := ReadRecord(b, p).value.0;
            FitsType(r.rtype, r.rdata.value) && AllNarrow(r.rdata.value)
  {
    var head := ReadFields(b, p, HEAD_KINDS).value;
    RDataNarrow(b, head.1, RecordOf(head.0).rtype, NumberOf(head.0[4]));
  }

  /** RDATA that is there but has no octets is gone after decoding. */
  lemma EmptyRDataLost(w: bytes, r: Record, octets: bytes, b: bytes, p: nat, end: nat)
    requires AllWellFormed(HeadFields(r)) && RecordBytes(w, r) == Ok(octets)
    requires RDataBytes(BeforeRData(w, r), r) == Ok([])
    requires w + octets <= b && |b| <= 0x4000 && p == |w| && end == p + |octets|
    ensures ReadRecord(b, p) == Ok((r.(rdata := None), end))
  {
    var bare := r.(rdata := None);
    assert HeadFields(bare) == HeadFields(r);
    assert RecordBytes(w, bare) == RecordBytes(w, r);
    WellFormedRecordReadsBack(w, bare, octets, b, p, end);
  }

  /** A record with a character string of 256 octets or more is never what is read. */
  lemma LongTextLost(r: Record, i: nat, b: bytes, p: nat)
    requires r.rdata.Some? && i < |r.rdata.value| && r.rdata.value[i].Text? && |r.rdata.value[i].octets| >= 256
    requires p <= |b|
    ensures ReadRecord(b, p).Ok? ==> ReadRecord(b, p).value.0 != r
  {
    if ReadRecord(b, p).Ok? && ReadRecord(b, p).value.0.rdata.Some? {
      RDataDecoded(b, p);
      var fs := ReadRecord(b, p).value.0.rdata.value;
      assert i < |fs| ==> Narrow(fs[i]);
    }
  }

  // ---------- messages ----------

  lemma RCodeApart(m: Contents, n: Contents)
    requires n == m.(rCode := n.rCode)
    ensures WellFormedMessage(m) == WellFormedMessage(n) && MessageNamesProper(m) == MessageNamesProper(n)
  {
    assert AllRecords(m) == AllRecords(n);
  }

  /** Message round trip. A message that fits 512 octets, its names compressed against any earlier octets
      and every RDLENGTH filled in after the fact, decodes to itself, RCODE apart, exactly when it fits
      what the decoder can return, no copy that a name in some RDATA points to overlaps an octet of a
      length field that does not stay zero, and it does not end in a compressed name's pointer. */
  lemma MessageReadsBack(m: Contents, b: bytes, rCode: nat)
    requires MessageNamesProper(m) && MessageBytes(m) == Ok(b) && |b| <= MAX_MSG_LEN
    ensures ReadMessage(b, rCode) == Ok(m.(rCode := rCode)) <==>
            WellFormedMessage(m) && AllLeftAlone(BeforeRecords(m), AllRecords(m)) && !MessageInPointer(m)
  {
    var n := m.(rCode := rCode);
    RCodeApart(m, n);
    if ReadMessage(b, rCode) == Ok(n) {
      MessageDecoded(b, rCode, n);
    }
    if WellFormedMessage(m) {
      WellFormedReadsBack(m, b, rCode);
    }
  }

  /** Messages whose records hold addresses, texts, host information, plain octets or nothing decode to
      themselves exactly when they fit what the decoder can return. */
  lemma PlainMessageReadsBack(m: Contents, b: bytes, rCode: nat)
    requires MessageNamesProper(m) && MessageBytes(m) == Ok(b) && |b| <= MAX_MSG_LEN
    requires forall i :: 0 <= i < |AllRecords(m)| ==> PlainRecord(AllRecords(m)[i])
    ensures ReadMessage(b, rCode) == Ok(m.(rCode := rCode)) <==> WellFormedMessage(m)
  {
    var n := m.(rCode := rCode);
    RCodeApart(m, n);
    if ReadMessage(b, rCode) == Ok(n) {
      MessageDecoded(b, rCode, n);
    }
    if WellFormedMessage(m) {
      PlainMessageRoundTrip(m, b, rCode);
    }
  }

  // ---------- RCODE ----------

  /** Whatever is decoded, RCODE stays as it was. */
  lemma RCodeKept(b: bytes, rCode: nat)
    ensures ReadMessage(b, rCode).Ok? ==> ReadMessage(b, rCode).value.rCode == rCode
  {
  }

  /** A message that reads back otherwise decodes to itself exactly when its RCODE was there before. */
  lemma RCodeExactly(m: Contents, b: bytes, rCode: nat)
    requires MessageNamesProper(m) && MessageBytes(m) == Ok(b) && |b| <= MAX_MSG_LEN
    ensures ReadMessage(b, rCode) == Ok(m) <==>
            && WellFormedMessage(m) && AllLeftAlone(BeforeRecords(m), AllRecords(m)) && !MessageInPointer(m)
            && rCode == m.rCode
  {
    RCodeKept(b, rCode);
    MessageReadsBack(m, b, rCode);
  }
}
