/** Questions and resource records on the wire (dnslib/qs.cpp, dnslib/rr.cpp). */
module DnsRecords {
  import opened Wrappers
  import opened Buffers
  import opened DnsWire
  import opened DnsFields

  datatype Question = Question(name: bytes, qtype: nat, qclass: nat)

  /** The RDATA object of a record is given by its members, in wire order. */
  datatype Record = Record(name: bytes, rtype: nat, rclass: nat, ttl: nat, rdata: Option<seq<Field>>)

  // RDATA types, from enum eRDataType.
  const TYPE_A := 1
  const TYPE_NS := 2
  const TYPE_MD := 3
  const TYPE_MF := 4
  const TYPE_CNAME := 5
  const TYPE_SOA := 6
  const TYPE_MB := 7
  const TYPE_MG := 8
  const TYPE_MR := 9
  const TYPE_WKS := 11
  const TYPE_PTR := 12
  const TYPE_HINFO := 13
  const TYPE_MINFO := 14
  const TYPE_MX := 15
  const TYPE_TXT := 16
  const TYPE_AAAA := 28
  const TYPE_NAPTR := 35

  function QuestionFields(q: Question): seq<Field>
  {
    [Name(q.name, true), U16(q.qtype), U16(q.qclass)]
  }

  const QUESTION_KINDS: seq<Kind> := [KindName(true), KindU16, KindU16]

  function HeadFields(r: Record): seq<Field>
  {
    [Name(r.name, true), U16(r.rtype), U16(r.rclass), U32(r.ttl)]
  }

  const HEAD_KINDS: seq<Kind> := [KindName(true), KindU16, KindU16, KindU32, KindU16]

  /** The classes derived from RDataWithName. */
  predicate IsNameType(rtype: nat)
  {
    || rtype == TYPE_CNAME || rtype == TYPE_MB || rtype == TYPE_MD || rtype == TYPE_MF
    || rtype == TYPE_MG || rtype == TYPE_MR || rtype == TYPE_NS || rtype == TYPE_PTR
  }

  /** What the decode method of the RDATA class chosen for a type reads; WKS is decoded as an
      address, and every type not listed as `size` plain octets. Texts are read in a loop. */
  function Layout(rtype: nat, size: nat): seq<Kind>
  {
    if IsNameType(rtype) then [KindName(true)]
    else if rtype == TYPE_HINFO then [KindText, KindText]
    else if rtype == TYPE_MINFO then [KindName(true), KindName(true)]
    else if rtype == TYPE_MX then [KindU16, KindName(true)]
    else if rtype == TYPE_SOA then
      [KindName(true), KindName(true), KindU32, KindU32, KindU32, KindU32, KindU32]
    else if rtype == TYPE_A || rtype == TYPE_WKS then [KindOctets(4)]
    else if rtype == TYPE_AAAA then [KindOctets(16)]
    else if rtype == TYPE_NAPTR then [KindU16, KindU16, KindText, KindText, KindText, KindName(false)]
    else [KindOctets(size)]
  }

  // ---------- writing ----------

  function QuestionBytes(w: bytes, q: Question): Result<bytes, Error>
  {
    FieldsBytes(w, QuestionFields(q))
  }

  /** The octets of a record's RDATA, as they are written behind the empty length field. */
  function RDataBytes(w: bytes, r: Record): Result<bytes, Error>
  {
    if r.rdata.None? then Ok([]) else FieldsBytes(w, r.rdata.value)
  }

  /** A record behind `w`: the head is written with length 0, then the RDATA, and then the
      length is overwritten. */
  function RecordBytes(w: bytes, r: Record): Result<bytes, Error>
  {
    var head :- FieldsBytes(w, HeadFields(r));
    var data :- RDataBytes(w + head + [0, 0], r);
    Ok(head + Octets16(|data|) + data)
  }

  function QuestionsBytes(w: bytes, qs: seq<Question>): Result<bytes, Error>
    decreases |qs|
  {
    if qs == [] then Ok([])
    else
      var first :- QuestionBytes(w, qs[0]);
      var rest :- QuestionsBytes(w + first, qs[1..]);
      Ok(first + rest)
  }

  function RecordsBytes(w: bytes, rs: seq<Record>): Result<bytes, Error>
    decreases |rs|
  {
    if rs == [] then Ok([])
    else
      var first :- RecordBytes(w, rs[0]);
      var rest :- RecordsBytes(w + first, rs[1..]);
      Ok(first + rest)
  }

  // ---------- reading ----------

  function ReadQuestion(b: bytes, p: nat): (r: Result<(Question, nat), Error>)
    requires p <= |b|
    ensures r.Ok? ==> p <= r.value.1 <= |b|
  {
    var fields :- ReadFields(b, p, QUESTION_KINDS);
    Ok((QuestionOf(fields.0), fields.1))
  }

  function QuestionOf(fs: seq<Field>): Question
    requires |fs| == 3
  {
    Question(TextOf(fs[0]), NumberOf(fs[1]), NumberOf(fs[2]))
  }

  /** A record with the members of its head, and no RDATA yet. */
  function RecordOf(fs: seq<Field>): Record
    requires |fs| == 5
  {
    Record(TextOf(fs[0]), NumberOf(fs[1]), NumberOf(fs[2]), NumberOf(fs[3]), None)
  }

  /** Texts from `p` on, as long as less than the whole RDATA was read. */
  function ReadTexts(b: bytes, p: nat, stop: nat): (r: Result<(seq<Field>, nat), Error>)
    requires p <= |b|
    ensures r.Ok? ==> p <= r.value.1 <= |b|
    decreases |b| - p
  {
    if p >= stop then Ok(([], p))
    else
      var octets :- StringAt(b, p).0;
      var rest :- ReadTexts(b, StringAt(b, p).1, stop);
      Ok(([Text(octets)] + rest.0, rest.1))
  }

  function ReadRData(b: bytes, p: nat, rtype: nat, size: nat): (r: Result<(seq<Field>, nat), Error>)
    requires p <= |b|
    ensures r.Ok? ==> p <= r.value.1 <= |b|
  {
    if rtype == TYPE_TXT then ReadTexts(b, p, p + size) else ReadFields(b, p, Layout(rtype, size))
  }

  function ReadRecord(b: bytes, p: nat): (r: Result<(Record, nat), Error>)
    requires p <= |b|
    ensures r.Ok? ==> p <= r.value.1 <= |b|
  {
    var head :- ReadFields(b, p, HEAD_KINDS);
    var r := RecordOf(head.0);
    var size := NumberOf(head.0[4]);
    if size == 0 then Ok((r, head.1))
    else
      var data :- ReadRData(b, head.1, r.rtype, size);
      if data.1 - head.1 != size then Err(WrongRDataSize)
      else Ok((r.(rdata := Some(data.0)), data.1))
  }

  function ReadQuestions(b: bytes, p: nat, count: nat): (r: Result<(seq<Question>, nat), Error>)
    requires p <= |b|
    ensures r.Ok? ==> p <= r.value.1 <= |b|
    decreases count
  {
    if count == 0 then Ok(([], p))
    else
      var first :- ReadQuestion(b, p);
      var rest :- ReadQuestions(b, first.1, count - 1);
      Ok(([first.0] + rest.0, rest.1))
  }

  function ReadRecords(b: bytes, p: nat, count: nat): (r: Result<(seq<Record>, nat), Error>)
    requires p <= |b|
    ensures r.Ok? ==> p <= r.value.1 <= |b|
    decreases count
  {
    if count == 0 then Ok(([], p))
    else
      var first :- ReadRecord(b, p);
      var rest :- ReadRecords(b, first.1, count - 1);
      Ok(([first.0] + rest.0, rest.1))
  }

  // ---------- round trip ----------

  ghost predicate WellFormedQuestion(q: Question)
  {
    AllWellFormed(QuestionFields(q))
  }

  /** The members are those of the RDATA class that goes with the type, and there are some. */
  ghost predicate FitsType(rtype: nat, fs: seq<Field>)
  {
    && fs != []
    && if rtype == TYPE_TXT then forall i :: 0 <= i < |fs| ==> fs[i].Text?
       else KindsOf(fs) == Layout(rtype, OctetsSize(fs))
  }

  function OctetsSize(fs: seq<Field>): nat
  {
    if |fs| == 1 && fs[0].Octets? then |fs[0].octets| else 0
  }

  ghost predicate WellFormedRecord(r: Record)
  {
    && AllWellFormed(HeadFields(r))
    && (r.rdata.Some? ==> AllWellFormed(r.rdata.value) && FitsType(r.rtype, r.rdata.value))
  }

  /** Where the RDATA of a record starts, seen with the length field still empty. */
  ghost function BeforeRData(w: bytes, r: Record): bytes
    requires FieldsBytes(w, HeadFields(r)).Ok?
  {
    w + FieldsBytes(w, HeadFields(r)).value + [0, 0]
  }

  /** Overwriting the length field leaves alone the copies that names in the RDATA point to. */
  ghost predicate PatchHarmless(w: bytes, r: Record)
  {
    RecordBytes(w, r).Ok? && r.rdata.Some? ==>
      AllStand(BeforeRData(w, r), r.rdata.value, w + RecordBytes(w, r).value)
  }

  ghost predicate RecordInPointer(w: bytes, r: Record)
  {
    RecordBytes(w, r).Ok? && r.rdata.Some? && LastInPointer(BeforeRData(w, r), r.rdata.value)
  }

  lemma {:induction false} FieldsBytesSnoc(w: bytes, fs: seq<Field>, number: nat)
    requires FieldsBytes(w, fs).Ok?
    ensures FieldsBytes(w, fs + [U16(number)]) == Ok(FieldsBytes(w, fs).value + Octets16(number))
    decreases |fs|
  {
    var more := fs + [U16(number)];
    if fs == [] {
      assert more == [U16(number)] && more[1..] == [];
      assert Octets16(number) + [] == Octets16(number) && [] + Octets16(number) == Octets16(number);
    } else {
      var first := FieldBytes(w, fs[0]).value;
      assert more[0] == fs[0] && more[1..] == fs[1..] + [U16(number)];
      FieldsBytesSnoc(w + first, fs[1..], number);
      Regroup(first, FieldsBytes(w + first, fs[1..]).value, Octets16(number));
    }
  }

  lemma HeadFieldsFit(r: Record, size: nat)
    requires AllWellFormed(HeadFields(r)) && size < 0x1_0000
    ensures AllWellFormed(HeadFields(r) + [U16(size)]) && KindsOf(HeadFields(r) + [U16(size)]) == HEAD_KINDS
  {
  }

  /** The head of a record reads back with whatever length was put there in the end. */
  lemma HeadRoundTrip(w: bytes, r: Record, head: bytes, size: nat, b: bytes, p: nat, base: nat)
    requires AllWellFormed(HeadFields(r)) && size < 0x1_0000 && FieldsBytes(w, HeadFields(r)) == Ok(head)
    requires w + (head + Octets16(size)) <= b && |b| <= 0x4000 && p == |w| && base == p + |head| + 2
    ensures ReadFields(b, p, HEAD_KINDS) == Ok((HeadFields(r) + [U16(size)], base))
  {
    var fs := HeadFields(r) + [U16(size)];
    HeadFieldsFit(r, size);
    FieldsBytesSnoc(w, HeadFields(r), size);
    NotInPointer(w, fs);
    PlainRoundTrip(w, fs, head + Octets16(size), b, p, base);
  }

  lemma {:induction false} StandsLonger(w: bytes, fs: seq<Field>, b: bytes, longer: bytes)
    requires AllStand(w, fs, b) && b <= longer
    ensures AllStand(w, fs, longer)
    decreases |fs|
  {
    if fs != [] {
      StandsLonger(w + FieldBytes(w, fs[0]).value, fs[1..], b, longer);
    }
  }

  lemma {:induction false} TextsRoundTrip(w: bytes, fs: seq<Field>, b: bytes, stop: nat)
    requires AllWellFormed(fs) && (forall i :: 0 <= i < |fs| ==> fs[i].Text?)
    requires AllStand(w, fs, b) && FieldsBytes(w, fs).Ok? && stop == |w| + |FieldsBytes(w, fs).value|
    ensures stop <= |b| || fs == []
    ensures |w| <= |b| ==> ReadTexts(b, |w|, stop) == Ok((fs, stop))
    decreases |fs|
  {
    if fs != [] {
      var first := FieldBytes(w, fs[0]).value;
      TextAt(b, |w|, fs[0].octets);
      TextsRoundTrip(w + first, fs[1..], b, stop);
      assert fs == [fs[0]] + fs[1..];
    }
  }

  lemma RDataRoundTrip(w: bytes, rtype: nat, fs: seq<Field>, data: bytes, b: bytes, p: nat, size: nat, end: nat,
                       stuck: bool)
    requires AllWellFormed(fs) && FitsType(rtype, fs) && FieldsBytes(w, fs) == Ok(data)
    requires AllStand(w, fs, b) && p == |w| <= |b| <= 0x4000 && size == |data| && end == p + size
    requires stuck == (LastInPointer(w, fs) && end == |b|)
    ensures end <= |b|
    ensures ReadRData(b, p, rtype, size) == Got(stuck, fs, end)
  {
    FieldsRoundTrip(w, fs, data, b, p, end, stuck);
    if rtype == TYPE_TXT {
      TextRData(w, fs, data, b, p, size, end);
    } else {
      PlainSize(w, fs, data);
      LaidOutRData(rtype, fs, b, p, size, end, stuck);
    }
  }

  lemma TextRData(w: bytes, fs: seq<Field>, data: bytes, b: bytes, p: nat, size: nat, end: nat)
    requires AllWellFormed(fs) && FitsType(TYPE_TXT, fs) && FieldsBytes(w, fs) == Ok(data)
    requires AllStand(w, fs, b) && p == |w| <= |b| && size == |data| && end == p + size
    ensures ReadRData(b, p, TYPE_TXT, size) == Ok((fs, end)) && !LastInPointer(w, fs)
  {
    NotInPointer(w, fs);
    TextsRoundTrip(w, fs, b, end);
  }

  lemma LaidOutRData(rtype: nat, fs: seq<Field>, b: bytes, p: nat, size: nat, end: nat, stuck: bool)
    requires p <= |b| && rtype != TYPE_TXT && FitsType(rtype, fs)
    requires |fs| == 1 && fs[0].Octets? ==> size == |fs[0].octets|
    requires ReadFields(b, p, KindsOf(fs)) == Got(stuck, fs, end)
    ensures ReadRData(b, p, rtype, size) == Got(stuck, fs, end)
  {
    LayoutOfSize(rtype, fs, size);
  }

  lemma PlainSize(w: bytes, fs: seq<Field>, data: bytes)
    requires FieldsBytes(w, fs) == Ok(data)
    ensures |fs| == 1 && fs[0].Octets? ==> |data| == |fs[0].octets|
  {
    if |fs| == 1 && fs[0].Octets? {
      assert FieldsBytes(w + fs[0].octets, fs[1..]) == Ok([]);
    }
  }

  /** Only the types decoded as plain octets look at the size. */
  lemma LayoutOfSize(rtype: nat, fs: seq<Field>, size: nat)
    requires KindsOf(fs) == Layout(rtype, OctetsSize(fs))
    requires |fs| == 1 && fs[0].Octets? ==> size == |fs[0].octets|
    ensures KindsOf(fs) == Layout(rtype, size)
  {
    if |fs| == 1 {
      assert KindsOf(fs)[0] == KindOf(fs[0]);
    }
  }

  lemma RecordParts(w: bytes, r: Record, octets: bytes) returns (head: bytes, data: bytes)
    requires RecordBytes(w, r) == Ok(octets)
    ensures FieldsBytes(w, HeadFields(r)) == Ok(head) && BeforeRData(w, r) == w + head + [0, 0]
    ensures RDataBytes(BeforeRData(w, r), r) == Ok(data)
    ensures w + octets == w + (head + Octets16(|data|)) + data
  {
    head := FieldsBytes(w, HeadFields(r)).value;
    data := RDataBytes(w + head + [0, 0], r).value;
    Regroup(w, head + Octets16(|data|), data);
  }

  /** A record reads back with its RDLENGTH overwritten, unless its RDATA is stuck at a pointer
      that is the last thing in the buffer. */
  lemma RecordRoundTrip(w: bytes, r: Record, octets: bytes, b: bytes, p: nat, end: nat, stuck: bool)
    requires WellFormedRecord(r) && PatchHarmless(w, r) && RecordBytes(w, r) == Ok(octets)
    requires w + octets <= b && |b| <= 0x4000 && p == |w| && end == p + |octets|
    requires stuck == (RecordInPointer(w, r) && end == |b|)
    ensures ReadRecord(b, p) == Got(stuck, r, end)
  {
    var head, data := RecordParts(w, r, octets);
    var base, size := p + |head| + 2, |data|;
    assert w + (head + Octets16(size)) <= b;
    HeadRoundTrip(w, r, head, size, b, p, base);
    if r.rdata.Some? {
      RDataOfRecord(w, r, octets, data, b, base, size, end, stuck);
    }
    RecordFromParts(r, HeadFields(r) + [U16(size)], size, b, p, base, end, stuck);
  }

  lemma RDataOfRecord(w: bytes, r: Record, octets: bytes, data: bytes, b: bytes, base: nat, size: nat, end: nat,
                      stuck: bool)
    requires WellFormedRecord(r) && PatchHarmless(w, r) && RecordBytes(w, r) == Ok(octets)
    requires w + octets <= b && |b| <= 0x4000 && r.rdata.Some?
    requires RDataBytes(BeforeRData(w, r), r) == Ok(data)
    requires base == |BeforeRData(w, r)| && size == |data| && end == base + size
    requires stuck == (RecordInPointer(w, r) && end == |b|)
    ensures size != 0 && end <= |b|
    ensures ReadRData(b, base, r.rtype, size) == Got(stuck, r.rdata.value, end)
  {
    NextNotEmpty(BeforeRData(w, r), r.rdata.value);
    StandsLonger(BeforeRData(w, r), r.rdata.value, w + octets, b);
    RDataRoundTrip(BeforeRData(w, r), r.rtype, r.rdata.value, data, b, base, size, end, stuck);
  }

  lemma RecordFromParts(r: Record, fs: seq<Field>, size: nat, b: bytes, p: nat, base: nat, end: nat, stuck: bool)
    requires p <= base <= |b| && (size == 0 <==> r.rdata.None?) && end == base + size
    requires |fs| == 5 && fs[0] == Name(r.name, true) && fs[1] == U16(r.rtype) && fs[2] == U16(r.rclass)
    requires fs[3] == U32(r.ttl) && fs[4] == U16(size)
    requires ReadFields(b, p, HEAD_KINDS) == Ok((fs, base))
    requires if r.rdata.None? then !stuck else ReadRData(b, base, r.rtype, size) == Got(stuck, r.rdata.value, end)
    ensures ReadRecord(b, p) == Got(stuck, r, end)
  {
  }
}
