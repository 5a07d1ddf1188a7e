/** Records and messages that do not survive the round trip, each with the octets that show it
    (dnslib/rr.cpp, dnslib/message.cpp). */
module DnsMessageExamples {
  import opened Wrappers
  import opened Buffers
  import opened DnsWire
  import opened DnsCompression
  import opened DnsFields
  import opened DnsRecords
  import opened DnsMessage
  import opened DnsCodec
  import opened DnsExact
  import opened DnsOverlaps
  import opened DnsRoundTrip
  import opened DnsLimits
  import opened DnsUndecoded

  lemma FieldsCons(w: bytes, f: Field, rest: seq<Field>, first: bytes, others: bytes)
    requires FieldBytes(w, f) == Ok(first) && FieldsBytes(w + first, rest) == Ok(others)
    ensures FieldsBytes(w, [f] + rest) == Ok(first + others)
  {
    assert ([f] + rest)[1..] == rest;
  }

  lemma OneField(w: bytes, f: Field, first: bytes)
    requires FieldBytes(w, f) == Ok(first)
    ensures FieldsBytes(w, [f]) == Ok(first)
  {
    FieldsCons(w, f, [], first, []);
    assert [f] + [] == [f] && first + [] == first;
  }

  /** The head of a record, when it is known what its name is written as. */
  lemma HeadOctets(w: bytes, r: Record, name: bytes)
    requires NameBytes(w, r.name, true) == Ok(name)
    ensures FieldsBytes(w, HeadFields(r)) ==
            Ok(name + (Octets16(r.rtype) + (Octets16(r.rclass) + Octets32(r.ttl))))
  {
    var two, three := Octets16(r.rtype), Octets16(r.rclass);
    OneField(w + name + two + three, U32(r.ttl), Octets32(r.ttl));
    FieldsCons(w + name + two, U16(r.rclass), [U32(r.ttl)], three, Octets32(r.ttl));
    FieldsCons(w + name, U16(r.rtype), [U16(r.rclass)] + [U32(r.ttl)], two, three + Octets32(r.ttl));
    FieldsCons(w, Name(r.name, true), [U16(r.rtype)] + ([U16(r.rclass)] + [U32(r.ttl)]), name,
               two + (three + Octets32(r.ttl)));
    assert HeadFields(r) == [Name(r.name, true)] + ([U16(r.rtype)] + ([U16(r.rclass)] + [U32(r.ttl)]));
  }

  /** The octets of a record with RDATA, from those of its parts. */
  lemma RecordOctets(w: bytes, r: Record, head: bytes, data: bytes)
    requires FieldsBytes(w, HeadFields(r)) == Ok(head) && r.rdata.Some?
    requires FieldsBytes(w + head + [0, 0], r.rdata.value) == Ok(data)
    ensures RecordBytes(w, r) == Ok(head + Octets16(|data|) + data)
    ensures BeforeRData(w, r) == w + head + [0, 0] && RDataBytes(BeforeRData(w, r), r) == Ok(data)
  {
  }

  // ---------- a length that changes a name ----------

  /** An MX record with an exchange whose only label is a zero octet. */
  function ZeroExchange(): Record
  {
    Record([], TYPE_MX, 3, 1, Some([U16(0), Name([0], true)]))
  }

  function ZeroExchangeOctets(): bytes
  {
    [0, 0, 15, 0, 3, 0, 0, 0, 1, 0, 4, 0, 0, 192, 8]
  }

  lemma ZeroName(w: bytes)
    requires w == [0, 0, 15, 0, 3, 0, 0, 0, 1, 0, 0, 0, 0]
    ensures FinalTip(w, NameLabels([0]), true) == Some(8) && Depth(w, NameLabels([0]), true) == 0
    ensures NameLabels([0]) == [[0]] && Needle([[0]], true) == [1, 0, 0]
    ensures NameBytes(w, [0], true) == Ok([192, 8])
  {
    var value: bytes := [0];
    assert DotFrom(value, 0) == DotFrom(value, 1) == 1;
    assert value[0..1] == [0];
    assert LabelsFrom(value, 0) == [[0]];
    assert Needle([[0]], true) == [1, 0, 0];
    var tip := Tip(w, [1, 0, 0]);
    OccursAsSlice(w, [1, 0, 0], 8);
    assert w[8..11] == [1, 0, 0];
    forall u | 0 <= u < 8
      ensures !OccursAt(w, [1, 0, 0], u)
    {
      assert [1, 0, 0][0] != w[u];
    }
    assert tip == Some(8);
    assert PointerBytes(8) == [192, 8];
  }

  lemma ZeroExchangeBytes()
    ensures var r := ZeroExchange();
            && BeforeRData([], r) == [0, 0, 15, 0, 3, 0, 0, 0, 1, 0, 0]
            && RDataBytes(BeforeRData([], r), r) == Ok([0, 0, 192, 8])
            && RecordBytes([], r) == Ok(ZeroExchangeOctets())
  {
    var r := ZeroExchange();
    HeadOctets([], r, [0]);
    var head := [0] + (Octets16(TYPE_MX) + (Octets16(3) + Octets32(1)));
    assert head == [0, 0, 15, 0, 3, 0, 0, 0, 1];
    var before := [] + head + [0, 0];
    assert before == [0, 0, 15, 0, 3, 0, 0, 0, 1, 0, 0];
    ZeroName(before + [0, 0]);
    OneField(before + [0, 0], Name([0], true), [192, 8]);
    FieldsCons(before, U16(0), [Name([0], true)], [0, 0], [192, 8]);
    assert [U16(0)] + [Name([0], true)] == [U16(0), Name([0], true)];
    assert [0, 0] + [192, 8] == [0, 0, 192, 8];
    RecordOctets([], r, head, [0, 0, 192, 8]);
    assert head + Octets16(4) + [0, 0, 192, 8] == ZeroExchangeOctets();
  }

  /** The exchange becomes a pointer to the end of the TTL and the empty length field. Once the length
      is there, a label of four octets follows: the name is cut off at the end of the buffer, or
      reads as another one, and the record does not read back. */
  lemma LengthChangesName()
    ensures WellFormedRecord(ZeroExchange()) && RecordBytes([], ZeroExchange()) == Ok(ZeroExchangeOctets())
    ensures ReadName(ZeroExchangeOctets(), 13, [], true).name == Err(BehindBuffer)
    ensures ReadName(ZeroExchangeOctets() + [0], 13, [], true).name == Ok([0, DOT, 0, 0, 192, 8])
    ensures ReadRecord(ZeroExchangeOctets() + [0], 0) != Ok((ZeroExchange(), 15))
  {
    var r, octets := ZeroExchange(), ZeroExchangeOctets();
    ZeroExchangeBytes();
    ZeroName(BeforeRData([], r) + [0, 0]);
    ZeroExchangeFits();
    CutOff(octets);
    AnotherName(octets + [0]);
    HarmlessExactly([], r);
    NotLeftAlone();
    assert [] + octets <= octets + [0];
    WellFormedRecordReadsBack([], r, octets, octets + [0], 0, 15);
  }

  lemma ShortName(value: bytes)
    requires |value| == 1 && value[0] != DOT
    ensures ProperName(value) && !EndsInDot(value)
  {
    assert DotFrom(value, 0) == 1;
    assert LabelsFrom(value, 0) == [value[0..1]];
  }

  /** Records whose head has the root or a short name, and members that fit the type. */
  lemma ShortRecord(r: Record, fs: seq<Field>)
    requires r.rdata == Some(fs) && AllWellFormed(fs) && FitsType(r.rtype, fs)
    requires r.name == [] || (|r.name| == 1 && r.name[0] != DOT)
    requires r.rtype < 0x1_0000 && r.rclass < 0x1_0000 && r.ttl < 0x1_0000_0000
    ensures WellFormedRecord(r)
  {
    if r.name != [] {
      ShortName(r.name);
    }
    assert WellFormed(Name(r.name, true));
  }

  lemma ZeroExchangeFits()
    ensures WellFormedRecord(ZeroExchange())
  {
    var fs: seq<Field> := [U16(0), Name([0], true)];
    ShortName([0]);
    assert WellFormed(fs[0]) && WellFormed(fs[1]);
    assert KindsOf(fs) == [KindU16, KindName(true)];
    assert FitsType(TYPE_MX, fs);
    ShortRecord(ZeroExchange(), fs);
  }

  lemma NotLeftAlone()
    ensures !RecordLeftAlone([], ZeroExchange())
  {
    var r := ZeroExchange();
    ZeroExchangeBytes();
    var before := BeforeRData([], r);
    var w := before + [0, 0];
    ZeroName(w);
    assert !CopyAvoids(w, Name([0], true), 10);
    assert r.rdata.value[1..] == [Name([0], true)];
    assert Octets16(0) == [0, 0];
    assert !FieldsLeftAlone(w, r.rdata.value[1..], 9, 4);
  }

  lemma PointerAt13(b: bytes)
    requires ZeroExchangeOctets() <= b
    ensures ReadSegment(b, 13, true) == Segment([], Pointer(8, 15))
    ensures ReadItem(b, 8, true) == Label([0], 10)
  {
    assert b[8] == 1 && b[9] == 0 && b[13] == 192 && b[14] == 8;
    assert b[9..10] == [0];
  }

  lemma CutOff(b: bytes)
    requires b == ZeroExchangeOctets()
    ensures ReadName(b, 13, [], true).name == Err(BehindBuffer)
  {
    PointerAt13(b);
    assert ReadItem(b, 10, true) == Label([0, 0, 192, 8], 15) by {
      assert b[11..15] == [0, 0, 192, 8];
    }
    assert ReadSegment(b, 15, true) == Segment([], Fault(BehindBuffer, 15));
    assert [] + [13] == [13];
  }

  lemma AnotherName(b: bytes)
    requires b == ZeroExchangeOctets() + [0]
    ensures ReadName(b, 13, [], true).name == Ok([0, DOT, 0, 0, 192, 8])
  {
    PointerAt13(b);
    assert ReadItem(b, 10, true) == Label([0, 0, 192, 8], 15) by {
      assert b[11..15] == [0, 0, 192, 8];
    }
    var back: bytes := [0, 0, 192, 8];
    assert ReadSegment(b, 15, true) == Segment([], Root(16));
    PrependEnd([back], Root(16));
    assert ReadSegment(b, 10, true) == Segment([back], Root(16));
    assert ReadSegment(b, 8, true) == Segment([[0]] + [back], Root(16));
    JoinOne([0]);
    JoinSnoc([[0]], back);
    assert [0] + [DOT] + back == [0, DOT, 0, 0, 192, 8];
    assert [] + [13] == [13] && Join([]) == [];
  }

  // ---------- messages of one record ----------

  function OneRecord(r: Record): Contents
  {
    Contents(0, 0, 0, 0, 0, 0, 0, 0, [], [r], [], [])
  }

  function OneRecordHeader(): bytes
  {
    [0, 0, 0, 0, 0, 0, 0, 1, 0, 0, 0, 0]
  }

  lemma {:induction false} NumbersOctets(w: bytes, numbers: seq<nat>, fs: seq<Field>, octets: bytes)
    requires |fs| == |numbers| && |octets| == 2 * |numbers|
    requires forall i :: 0 <= i < |numbers| ==> fs[i] == U16(numbers[i])
    requires forall i :: 0 <= i < |numbers| ==> octets[2 * i..2 * i + 2] == Octets16(numbers[i])
    ensures FieldsBytes(w, fs) == Ok(octets)
    decreases |fs|
  {
    if fs != [] {
      var first, rest := octets[..2], octets[2..];
      assert first == octets[0..2] == octets[2 * 0..2 * 0 + 2];
      forall i | 0 <= i < |numbers| - 1
        ensures rest[2 * i..2 * i + 2] == Octets16(numbers[1..][i])
      {
        assert rest[2 * i..2 * i + 2] == octets[2 * (i + 1)..2 * (i + 1) + 2];
      }
      NumbersOctets(w + first, numbers[1..], fs[1..], rest);
      FieldsCons(w, fs[0], fs[1..], first, rest);
      assert fs == [fs[0]] + fs[1..] && octets == first + rest;
    }
  }

  lemma HeaderOctets(m: Contents, r: Record)
    requires m == OneRecord(r)
    ensures FieldsBytes([], HeaderFields(m)) == Ok(OneRecordHeader())
  {
    assert Octets16(0) == [0, 0] && Octets16(1) == [0, 1];
    NumbersOctets([], [0, 0, 0, 1, 0, 0], HeaderFields(m), OneRecordHeader());
  }

  lemma OneRecordOctets(r: Record, octets: bytes)
    requires RecordBytes(OneRecordHeader(), r) == Ok(octets)
    ensures MessageBytes(OneRecord(r)) == Ok(OneRecordHeader() + octets)
    ensures BeforeRecords(OneRecord(r)) == OneRecordHeader() && AllRecords(OneRecord(r)) == [r]
  {
    var m, w := OneRecord(r), OneRecordHeader();
    HeaderOctets(m, r);
    assert [r] + [] + [] == [r] && w + [] == w;
    assert RecordsBytes(w + octets, [r][1..]) == Ok([]);
    assert RecordsBytes(w, [r]) == Ok(octets + []);
    assert octets + [] == octets;
  }

  /** A CNAME record that names its owner again. */
  function NamesItself(): Record
  {
    Record([97], TYPE_CNAME, 1, 0, Some([Name([97], true)]))
  }

  function NamesItselfOctets(): bytes
  {
    [1, 97, 0, 0, 5, 0, 1, 0, 0, 0, 0, 0, 2, 192, 12]
  }

  lemma NewLetter(w: bytes)
    requires 97 !in w
    ensures NameBytes(w, [97], true) == Ok([1, 97, 0])
  {
    var value: bytes := [97];
    assert DotFrom(value, 0) == DotFrom(value, 1) == 1;
    assert value[0..1] == [97];
    assert LabelsFrom(value, 0) == [[97]];
    var needle := Needle([[97]], true);
    assert needle == [1, 97, 0];
    forall u | 0 <= u < |w| - |needle|
      ensures !OccursAt(w, needle, u)
    {
      assert w[u + 1] != needle[1];
    }
    assert Tip(w, needle) == None;
    assert [[97]][1..] == [] && Counted([97]) == [1, 97];
    assert CompressedBytes(w, [[97]], true) == [1, 97] + [0] == [1, 97, 0];
    assert ShortLabels([[97]]) && !EndsInDot(value);
  }

  lemma NamesItselfBytes(w: bytes, head: bytes, before: bytes)
    requires 97 !in w && head == [1, 97, 0, 0, 5, 0, 1, 0, 0, 0, 0] && before == w + head + [0, 0]
    requires NameBytes(before, [97], true) == Ok([192, 12])
    ensures var r := NamesItself();
            && RecordBytes(w, r) == Ok(NamesItselfOctets())
            && BeforeRData(w, r) == before && RDataBytes(before, r) == Ok([192, 12])
  {
    var r := NamesItself();
    NewLetter(w);
    HeadOctets(w, r, [1, 97, 0]);
    assert head == [1, 97, 0] + (Octets16(TYPE_CNAME) + (Octets16(1) + Octets32(0)));
    OneField(before, Name([97], true), [192, 12]);
    RecordOctets(w, r, head, [192, 12]);
    assert head + Octets16(2) + [192, 12] == NamesItselfOctets();
  }

  lemma LetterInPlace(w: bytes, before: bytes)
    requires w == OneRecordHeader() && before == w + [1, 97, 0, 0, 5, 0, 1, 0, 0, 0, 0] + [0, 0]
    ensures 97 !in w && |before| == 25 && NameBytes(before, [97], true) == Ok([192, 12])
    ensures NameLabels([97]) == [[97]] && |Needle([[97]], true)| == 3
    ensures FinalTip(before, [[97]], true) == Some(12) && Depth(before, [[97]], true) == 0
  {
    assert before[12..15] == [1, 97, 0];
    LetterA(before, 12);
    assert PointerBytes(12) == [192, 12];
  }

  lemma NamesItselfEnds(w: bytes, before: bytes)
    requires RecordBytes(w, NamesItself()).Ok? && BeforeRData(w, NamesItself()) == before && |before| == 25
    requires RDataBytes(before, NamesItself()) == Ok([192, 12])
    requires NameLabels([97]) == [[97]] && |Needle([[97]], true)| == 3
    requires FinalTip(before, [[97]], true) == Some(12) && Depth(before, [[97]], true) == 0
    ensures RecordLeftAlone(w, NamesItself()) && RecordInPointer(w, NamesItself())
  {
    var fs: seq<Field> := [Name([97], true)];
    assert [[97]][0..] == [[97]];
    assert CopyAvoids(before, fs[0], 23) && CopyAvoids(before, fs[0], 24);
    assert fs[1..] == [];
    assert FieldsLeftAlone(before, fs, 23, 2);
  }

  lemma NamesItselfFits()
    ensures WellFormedRecord(NamesItself())
  {
    var fs: seq<Field> := [Name([97], true)];
    ShortName([97]);
    assert WellFormed(fs[0]);
    assert KindsOf(fs) == [KindName(true)];
    ShortRecord(NamesItself(), fs);
  }

  /** A message that ends in a pointer is encoded, and then refused by the decoder. */
  lemma MessageEndsInPointer(rCode: nat)
    ensures var b := OneRecordHeader() + NamesItselfOctets();
            && MessageBytes(OneRecord(NamesItself())) == Ok(b)
            && ReadMessage(b, rCode) == Err(PositionBehindBuffer)
  {
    var r, w := NamesItself(), OneRecordHeader();
    var head: bytes := [1, 97, 0, 0, 5, 0, 1, 0, 0, 0, 0];
    var before := w + head + [0, 0];
    LetterInPlace(w, before);
    NamesItselfBytes(w, head, before);
    NamesItselfEnds(w, before);
    NamesItselfFits();
    OneRecordOctets(r, NamesItselfOctets());
    OneWellFormed(r);
    assert [r][1..] == [];
    assert AllLeftAlone(w, [r]) && LastRecordInPointer(w, [r]);
    WellFormedReadsBack(OneRecord(r), w + NamesItselfOctets(), rCode);
  }

  lemma OneWellFormed(r: Record)
    requires WellFormedRecord(r)
    ensures WellFormedMessage(OneRecord(r))
  {
    assert AllRecords(OneRecord(r)) == [r];
  }

  /** An address record for the root. */
  function RootAddress(): Record
  {
    Record([], TYPE_A, 1, 0, Some([Octets([10, 0, 0, 1])]))
  }

  function RootAddressOctets(): bytes
  {
    [0, 0, 1, 0, 1, 0, 0, 0, 0, 0, 4, 10, 0, 0, 1]
  }

  /** A message of 27 octets with RDATA at its end does not fit a buffer of 27 octets, for the encoder
      cannot come back to the end after filling in the length; 28 octets will do. */
  lemma RDataFillsBuffer()
    ensures var b := OneRecordHeader() + RootAddressOctets();
            && MessageBytes(OneRecord(RootAddress())) == Ok(b) && |b| == 27
            && Emitted(OneRecord(RootAddress()), 27) == None
            && Emitted(OneRecord(RootAddress()), 28) == Some(b)
  {
    var r, w := RootAddress(), OneRecordHeader();
    HeadOctets(w, r, [0]);
    var head := [0] + (Octets16(TYPE_A) + (Octets16(1) + Octets32(0)));
    assert head == [0, 0, 1, 0, 1, 0, 0, 0, 0];
    OneField(w + head + [0, 0], Octets([10, 0, 0, 1]), [10, 0, 0, 1]);
    RecordOctets(w, r, head, [10, 0, 0, 1]);
    assert head + Octets16(4) + [10, 0, 0, 1] == RootAddressOctets();
    OneRecordOctets(r, RootAddressOctets());
  }

  // ---------- what is not decoded ----------

  /** TCP on 10.0.0.1, and no port in the bitmap. */
  function NoServices(): Record
  {
    Record([], TYPE_WKS, 1, 0, Some(WksFields([10, 0, 0, 1], 6, [])))
  }

  function NoServicesOctets(): bytes
  {
    [0, 0, 11, 0, 1, 0, 0, 0, 0, 0, 5, 10, 0, 0, 1, 6]
  }

  /** Five octets of RDATA are written, and the decoder stops after four. */
  lemma WksRefused()
    ensures RecordBytes([], NoServices()) == Ok(NoServicesOctets())
    ensures ReadRecord(NoServicesOctets(), 0) == Err(WrongRDataSize)
  {
    var r := NoServices();
    HeadOctets([], r, [0]);
    var head := [0] + (Octets16(TYPE_WKS) + (Octets16(1) + Octets32(0)));
    assert head == [0, 0, 11, 0, 1, 0, 0, 0, 0];
    WksOctets([] + head + [0, 0], [10, 0, 0, 1], 6, []);
    assert [10, 0, 0, 1] + ([6] + []) == [10, 0, 0, 1, 6];
    RecordOctets([], r, head, [10, 0, 0, 1, 6]);
    assert head + Octets16(5) + [10, 0, 0, 1, 6] == NoServicesOctets();
    HeadOfRoot(r);
    assert [] + NoServicesOctets() == NoServicesOctets();
    WksNeverRead([], r, [10, 0, 0, 1], 6, [], NoServicesOctets(), NoServicesOctets());
  }

  lemma HeadOfRoot(r: Record)
    requires r.name == [] && r.rtype < 0x1_0000 && r.rclass < 0x1_0000 && r.ttl < 0x1_0000_0000
    ensures AllWellFormed(HeadFields(r))
  {
    assert WellFormed(Name(r.name, true));
  }

  /** A bare header with the given RCODE. */
  function Answer(rCode: nat): Contents
  {
    Contents(0, 0, 0, 0, 0, 0, 0, rCode, [], [], [], [])
  }

  /** NXDOMAIN is written, and read back as no error. */
  lemma RCodeLost()
    ensures var b: bytes := [0, 0, 0, 3, 0, 0, 0, 0, 0, 0, 0, 0];
            MessageBytes(Answer(3)) == Ok(b) && ReadMessage(b, 0) == Ok(Answer(0))
  {
    var m := Answer(3);
    var b: bytes := [0, 0, 0, 3, 0, 0, 0, 0, 0, 0, 0, 0];
    assert Octets16(0) == [0, 0] && Octets16(3) == [0, 3];
    assert Flags(m) == 3;
    NumbersOctets([], [0, 3, 0, 0, 0, 0], HeaderFields(m), b);
    assert AllRecords(m) == [];
    assert b + [] + [] == b;
    assert MessageBytes(m) == Ok(b);
    WellFormedReadsBack(m, b, 0);
  }
}
