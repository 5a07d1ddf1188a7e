/** Records and messages that are encoded and decode to others, each with the octets that show it
    (dnslib/rr.cpp, dnslib/buffer.cpp, dnslib/message.cpp). */
module DnsLost {
  import opened Wrappers
  import opened Buffers
  import opened DnsWire
  import opened DnsFields
  import opened DnsRecords
  import opened DnsMessage
  import opened DnsRoundTrip
  import opened DnsDecoded
  import opened DnsReadsBack
  import opened DnsMessageExamples

  /** A TXT record for the root with these character strings. */
  function RootTexts(texts: seq<Field>): Record
  {
    Record([], TYPE_TXT, 1, 0, Some(texts))
  }

  lemma RootTextsHead(w: bytes, texts: seq<Field>, data: bytes)
    requires FieldsBytes(w + [0, 0, 16, 0, 1, 0, 0, 0, 0] + [0, 0], texts) == Ok(data)
    ensures var r := RootTexts(texts);
            && RecordBytes(w, r) == Ok([0, 0, 16, 0, 1, 0, 0, 0, 0] + Octets16(|data|) + data)
            && AllWellFormed(HeadFields(r)) && RDataBytes(BeforeRData(w, r), r) == Ok(data)
  {
    var r := RootTexts(texts);
    HeadOctets(w, r, [0]);
    var head := [0] + (Octets16(TYPE_TXT) + (Octets16(1) + Octets32(0)));
    assert head == [0, 0, 16, 0, 1, 0, 0, 0, 0];
    RecordOctets(w, r, head, data);
    HeadOfRoot(r);
  }

  /** A TXT record to which no text was added is read back without RDATA. */
  lemma NoTextsLost()
    ensures var b: bytes := [0, 0, 16, 0, 1, 0, 0, 0, 0, 0, 0];
            && RecordBytes([], RootTexts([])) == Ok(b)
            && ReadRecord(b, 0) == Ok((RootTexts([]).(rdata := None), 11))
  {
    var b: bytes := [0, 0, 16, 0, 1, 0, 0, 0, 0, 0, 0];
    RootTextsHead([], [], []);
    assert [0, 0, 16, 0, 1, 0, 0, 0, 0] + Octets16(0) + [] == b && [] + b == b;
    EmptyRDataLost([], RootTexts([]), b, b, 0, 11);
  }

  function Zeros(n: nat): bytes
  {
    seq(n, i => 0)
  }

  /** A text of 256 zero octets is written behind a length octet of 0, and none is read as such a text. */
  lemma LongTextCut(b: bytes, p: nat)
    ensures RecordBytes([], RootTexts([Text(Zeros(256))])) ==
            Ok([0, 0, 16, 0, 1, 0, 0, 0, 0] + [1, 1] + [0] + Zeros(256))
    ensures p <= |b| && ReadRecord(b, p).Ok? ==> ReadRecord(b, p).value.0 != RootTexts([Text(Zeros(256))])
  {
    var data := [0] + Zeros(256);
    var w: bytes := [] + [0, 0, 16, 0, 1, 0, 0, 0, 0] + [0, 0];
    OneField(w, Text(Zeros(256)), data);
    RootTextsHead([], [Text(Zeros(256))], data);
    assert Octets16(257) == [1, 1];
    assert [0, 0, 16, 0, 1, 0, 0, 0, 0] + [1, 1] + ([0] + Zeros(256))
        == [0, 0, 16, 0, 1, 0, 0, 0, 0] + [1, 1] + [0] + Zeros(256);
    if p <= |b| {
      LongTextLost(RootTexts([Text(Zeros(256))]), 0, b, p);
    }
  }

  /** A bare header with the given identifier. */
  function Identified(id: nat): Contents
  {
    Contents(id, 0, 0, 0, 0, 0, 0, 0, [], [], [], [])
  }

  /** An identifier of 65536 is taken, and read back as 0. */
  lemma WideIdCut()
    ensures MessageBytes(Identified(0x1_0000)) == Ok(Zeros(12)) && ReadMessage(Zeros(12), 0) == Ok(Identified(0))
  {
    IdentifiedOctets(0x1_0000);
    IdentifiedOctets(0);
    var m := Identified(0);
    assert AllRecords(m) == [];
    PlainMessageReadsBack(m, Zeros(12), 0);
  }

  lemma IdentifiedOctets(id: nat)
    requires id % 0x1_0000 == 0
    ensures MessageBytes(Identified(id)) == Ok(Zeros(12))
  {
    var m := Identified(id);
    assert Octets16(0) == [0, 0] && Octets16(id) == [0, 0] && Flags(m) == 0;
    NumbersOctets([], [id, 0, 0, 0, 0, 0], HeaderFields(m), Zeros(12));
    assert AllRecords(m) == [];
    assert Zeros(12) + [] + [] == Zeros(12);
  }
}
