/** What the decoder can ever return: numbers within their fields, character strings below 256 octets,
    RDATA that is not empty and fits its type (dnslib/rr.cpp, dnslib/message.cpp). */
module DnsDecoded {
  import opened Wrappers
  import opened Buffers
  import opened DnsWire
  import opened DnsCompression
  import opened DnsFields
  import opened DnsRecords
  import opened DnsMessage

  /** What names are asked for. */
  ghost predicate NameProper(f: Field)
  {
    f.Name? ==> ProperName(f.text) && !EndsInDot(f.text)
  }

  ghost predicate NamesProper(fs: seq<Field>)
  {
    forall i :: 0 <= i < |fs| ==> NameProper(fs[i])
  }

  /** What a field that was read is, whatever the octets. */
  ghost predicate Narrow(f: Field)
  {
    !f.Name? ==> WellFormed(f)
  }

  ghost predicate AllNarrow(fs: seq<Field>)
  {
    forall i :: 0 <= i < |fs| ==> Narrow(fs[i])
  }

  lemma NarrowAndProper(fs: seq<Field>)
    requires AllNarrow(fs) && NamesProper(fs)
    ensures AllWellFormed(fs)
  {
    forall i | 0 <= i < |fs|
      ensures WellFormed(fs[i])
    {
      assert Narrow(fs[i]) && NameProper(fs[i]);
    }
  }

  lemma FieldNarrow(b: bytes, p: nat, kind: Kind)
    requires p <= |b| && kind != KindOctets(0) && ReadField(b, p, kind).Ok?
    ensures Narrow(ReadField(b, p, kind).value.0)
  {
  }

  lemma {:induction false} FieldsNarrow(b: bytes, p: nat, kinds: seq<Kind>)
    requires p <= |b| && KindOctets(0) !in kinds && ReadFields(b, p, kinds).Ok?
    ensures AllNarrow(ReadFields(b, p, kinds).value.0) && KindsOf(ReadFields(b, p, kinds).value.0) == kinds
    decreases |kinds|
  {
    if kinds != [] {
      var first := ReadField(b, p, kinds[0]).value;
      var rest := ReadFields(b, first.1, kinds[1..]).value;
      FieldNarrow(b, p, kinds[0]);
      FieldsNarrow(b, first.1, kinds[1..]);
      KindsCons(first.0, rest.0, kinds);
    }
  }

  lemma KindsCons(f: Field, fs: seq<Field>, kinds: seq<Kind>)
    requires kinds != [] && KindOf(f) == kinds[0] && KindsOf(fs) == kinds[1..] && Narrow(f) && AllNarrow(fs)
    ensures KindsOf([f] + fs) == kinds && AllNarrow([f] + fs)
  {
    assert kinds == [kinds[0]] + kinds[1..];
  }

  lemma {:induction false} TextsNarrow(b: bytes, p: nat, stop: nat)
    requires p <= |b| && ReadTexts(b, p, stop).Ok?
    ensures var fs := ReadTexts(b, p, stop).value.0;
            AllNarrow(fs) && (forall i :: 0 <= i < |fs| ==> fs[i].Text?) && (p < stop ==> fs != [])
    decreases |b| - p
  {
    if p < stop {
      TextsNarrow(b, StringAt(b, p).1, stop);
    }
  }

  lemma LayoutSizes(rtype: nat, size: nat)
    requires size > 0
    ensures KindOctets(0) !in Layout(rtype, size) && Layout(rtype, size) != []
  {
  }

  lemma FitsLayout(rtype: nat, size: nat, fs: seq<Field>)
    requires rtype != TYPE_TXT && size > 0 && KindsOf(fs) == Layout(rtype, size)
    ensures FitsType(rtype, fs)
  {
    LayoutSizes(rtype, size);
    assert |fs| == |KindsOf(fs)|;
    assert KindOf(fs[0]) == KindsOf(fs)[0];
  }

  lemma RDataNarrow(b: bytes, p: nat, rtype: nat, size: nat)
    requires p <= |b| && size > 0 && ReadRData(b, p, rtype, size).Ok?
    ensures AllNarrow(ReadRData(b, p, rtype, size).value.0) && FitsType(rtype, ReadRData(b, p, rtype, size).value.0)
  {
    if rtype == TYPE_TXT {
      TextsNarrow(b, p, p + size);
    } else {
      LayoutSizes(rtype, size);
      FieldsNarrow(b, p, Layout(rtype, size));
      FitsLayout(rtype, size, ReadFields(b, p, Layout(rtype, size)).value.0);
    }
  }

  // ---------- records and questions ----------

  ghost predicate RecordNamesProper(r: Record)
  {
    NamesProper(HeadFields(r)) && (r.rdata.Some? ==> NamesProper(r.rdata.value))
  }

  lemma HeadNarrow(fs: seq<Field>, r: Record)
    requires AllNarrow(fs) && KindsOf(fs) == HEAD_KINDS && |fs| == 5 && r == RecordOf(fs)
    ensures r.rtype < 0x1_0000 && r.rclass < 0x1_0000 && r.ttl < 0x1_0000_0000
  {
    assert KindOf(fs[1]) == KindsOf(fs)[1] && KindOf(fs[2]) == KindsOf(fs)[2] && KindOf(fs[3]) == KindsOf(fs)[3];
    assert Narrow(fs[1]) && Narrow(fs[2]) && Narrow(fs[3]);
  }

  lemma HeadWellFormed(r: Record)
    requires r.rtype < 0x1_0000 && r.rclass < 0x1_0000 && r.ttl < 0x1_0000_0000 && NamesProper(HeadFields(r))
    ensures AllWellFormed(HeadFields(r))
  {
    var fs := HeadFields(r);
    assert NameProper(fs[0]);
    assert AllNarrow(fs);
    NarrowAndProper(fs);
  }

  /** A record that was read is well-formed, as far as its names are. */
  lemma RecordDecoded(b: bytes, p: nat, r: Record)
    requires p <= |b| && ReadRecord(b, p).Ok? && ReadRecord(b, p).value.0 == r && RecordNamesProper(r)
    ensures WellFormedRecord(r)
  {
    var head := ReadFields(b, p, HEAD_KINDS).value;
    var size := NumberOf(head.0[4]);
    FieldsNarrow(b, p, HEAD_KINDS);
    HeadNarrow(head.0, RecordOf(head.0));
    if size > 0 {
      RDataNarrow(b, head.1, RecordOf(head.0).rtype, size);
      NarrowAndProper(r.rdata.value);
    }
    HeadWellFormed(r);
  }

  lemma QuestionDecoded(b: bytes, p: nat, q: Question)
    requires p <= |b| && ReadQuestion(b, p).Ok? && ReadQuestion(b, p).value.0 == q && NamesProper(QuestionFields(q))
    ensures WellFormedQuestion(q)
  {
    FieldsNarrow(b, p, QUESTION_KINDS);
    var fs := ReadFields(b, p, QUESTION_KINDS).value.0;
    assert KindOf(fs[1]) == KindsOf(fs)[1] && KindOf(fs[2]) == KindsOf(fs)[2];
    assert Narrow(fs[1]) && Narrow(fs[2]);
    var all := QuestionFields(q);
    assert NameProper(all[0]);
    assert AllNarrow(all);
    NarrowAndProper(all);
  }

  // ---------- lists ----------

  /** What holds of the first and can be said of the others, holds of each. */
  lemma {:induction false} EachHolds<T>(there: (nat, nat, seq<T>) -> bool, holds: T -> bool, p: nat, count: nat, xs: seq<T>,
                                        i: nat)
    requires there(p, count, xs) && i < |xs|
    requires forall at: nat, c: nat, ys: seq<T> {:trigger Begins(there, holds, at, c, ys)} ::
               there(at, c, ys) && ys != [] ==> Begins(there, holds, at, c, ys)
    ensures holds(xs[i])
    decreases count
  {
    assert Begins(there, holds, p, count, xs);
    if i > 0 {
      var next: nat, c: nat, ys :| there(next, c, ys) && c + 1 == count && ys == xs[1..];
      EachHolds(there, holds, next, count - 1, xs[1..], i - 1);
    }
  }

  ghost predicate Begins<T>(there: (nat, nat, seq<T>) -> bool, holds: T -> bool, at: nat, count: nat, ys: seq<T>)
    requires ys != []
  {
    count > 0 && holds(ys[0]) && exists next: nat, c: nat, zs :: there(next, c, zs) && c + 1 == count && zs == ys[1..]
  }

  /** What is known of a record that was read. */
  ghost predicate DecodedRecord(r: Record)
  {
    RecordNamesProper(r) ==> WellFormedRecord(r)
  }

  ghost predicate DecodedQuestion(q: Question)
  {
    NamesProper(QuestionFields(q)) ==> WellFormedQuestion(q)
  }

  ghost predicate RecordsThere(b: bytes, at: nat, count: nat, rs: seq<Record>)
  {
    at <= |b| && ReadRecords(b, at, count).Ok? && ReadRecords(b, at, count).value.0 == rs
  }

  lemma FirstRecord(b: bytes, at: nat, count: nat, rs: seq<Record>) returns (r: Record, next: nat)
    requires RecordsThere(b, at, count, rs) && rs != []
    ensures count > 0 && r == rs[0] && next <= |b|
    ensures ReadRecord(b, at).Ok? && ReadRecord(b, at).value.0 == r
    ensures ReadRecords(b, next, count - 1).Ok? && ReadRecords(b, next, count - 1).value.0 == rs[1..]
  {
    r, next := ReadRecord(b, at).value.0, ReadRecord(b, at).value.1;
    assert rs == [r] + ReadRecords(b, next, count - 1).value.0;
  }

  lemma RecordHolds(b: bytes, at: nat, r: Record)
    requires at <= |b| && ReadRecord(b, at).Ok? && ReadRecord(b, at).value.0 == r
    ensures DecodedRecord(r)
  {
    if RecordNamesProper(r) {
      RecordDecoded(b, at, r);
    }
  }

  lemma RecordsBegin(b: bytes, at: nat, count: nat, rs: seq<Record>, there: (nat, nat, seq<Record>) -> bool,
                     holds: Record -> bool)
    requires RecordsThere(b, at, count, rs) && rs != []
    requires forall p: nat, c: nat, xs :: there(p, c, xs) == RecordsThere(b, p, c, xs)
    requires forall x :: holds(x) == DecodedRecord(x)
    ensures Begins(there, holds, at, count, rs)
  {
    var r, next := FirstRecord(b, at, count, rs);
    RecordHolds(b, at, r);
    assert there(next, count - 1, rs[1..]);
  }

  lemma RecordsDecoded(b: bytes, p: nat, count: nat, rs: seq<Record>, i: nat)
    requires RecordsThere(b, p, count, rs) && i < |rs|
    ensures DecodedRecord(rs[i])
  {
    var there := (at: nat, c: nat, xs: seq<Record>) => RecordsThere(b, at, c, xs);
    var holds := (x: Record) => DecodedRecord(x);
    forall at: nat, c: nat, xs: seq<Record> | there(at, c, xs) && xs != []
      ensures Begins(there, holds, at, c, xs)
    {
      RecordsBegin(b, at, c, xs, there, holds);
    }
    EachHolds(there, holds, p, count, rs, i);
  }

  ghost predicate QuestionsThere(b: bytes, at: nat, count: nat, rs: seq<Question>)
  {
    at <= |b| && ReadQuestions(b, at, count).Ok? && ReadQuestions(b, at, count).value.0 == rs
  }

  lemma FirstQuestion(b: bytes, at: nat, count: nat, rs: seq<Question>) returns (r: Question, next: nat)
    requires QuestionsThere(b, at, count, rs) && rs != []
    ensures count > 0 && r == rs[0] && next <= |b|
    ensures ReadQuestion(b, at).Ok? && ReadQuestion(b, at).value.0 == r
    ensures ReadQuestions(b, next, count - 1).Ok? && ReadQuestions(b, next, count - 1).value.0 == rs[1..]
  {
    r, next := ReadQuestion(b, at).value.0, ReadQuestion(b, at).value.1;
    assert rs == [r] + ReadQuestions(b, next, count - 1).value.0;
  }

  lemma QuestionHolds(b: bytes, at: nat, r: Question)
    requires at <= |b| && ReadQuestion(b, at).Ok? && ReadQuestion(b, at).value.0 == r
    ensures DecodedQuestion(r)
  {
    if NamesProper(QuestionFields(r)) {
      QuestionDecoded(b, at, r);
    }
  }

  lemma QuestionsBegin(b: bytes, at: nat, count: nat, rs: seq<Question>, there: (nat, nat, seq<Question>) -> bool,
                       holds: Question -> bool)
    requires QuestionsThere(b, at, count, rs) && rs != []
    requires forall p: nat, c: nat, xs :: there(p, c, xs) == QuestionsThere(b, p, c, xs)
    requires forall x :: holds(x) == DecodedQuestion(x)
    ensures Begins(there, holds, at, count, rs)
  {
    var r, next := FirstQuestion(b, at, count, rs);
    QuestionHolds(b, at, r);
    assert there(next, count - 1, rs[1..]);
  }

  lemma QuestionsDecoded(b: bytes, p: nat, count: nat, rs: seq<Question>, i: nat)
    requires QuestionsThere(b, p, count, rs) && i < |rs|
    ensures DecodedQuestion(rs[i])
  {
    var there := (at: nat, c: nat, xs: seq<Question>) => QuestionsThere(b, at, c, xs);
    var holds := (x: Question) => DecodedQuestion(x);
    forall at: nat, c: nat, xs: seq<Question> | there(at, c, xs) && xs != []
      ensures Begins(there, holds, at, c, xs)
    {
      QuestionsBegin(b, at, c, xs, there, holds);
    }
    EachHolds(there, holds, p, count, rs, i);
  }

  // ---------- messages ----------

  /** All names of a message are proper and have no final dot. */
  ghost predicate MessageNamesProper(m: Contents)
  {
    && (forall i :: 0 <= i < |m.queries| ==> NamesProper(QuestionFields(m.queries[i])))
    && (forall i :: 0 <= i < |AllRecords(m)| ==> RecordNamesProper(AllRecords(m)[i]))
  }

  lemma SectionsThere(b: bytes, p: nat, an: nat, ns: nat, ar: nat, m: Contents) returns (px: nat, py: nat)
    requires p <= |b| && ReadSections(b, p, an, ns, ar).Ok?
    requires ReadSections(b, p, an, ns, ar).value.0 == (m.answers, m.authorities, m.additional)
    ensures RecordsThere(b, p, an, m.answers) && RecordsThere(b, px, ns, m.authorities)
    ensures RecordsThere(b, py, ar, m.additional)
  {
    px := ReadRecords(b, p, an).value.1;
    py := ReadRecords(b, px, ns).value.1;
  }

  ghost predicate AllDecoded(rs: seq<Record>)
  {
    forall i :: 0 <= i < |rs| ==> DecodedRecord(rs[i])
  }

  lemma SectionDecoded(b: bytes, p: nat, count: nat, rs: seq<Record>, decoded: bool)
    requires RecordsThere(b, p, count, rs) && decoded == AllDecoded(rs)
    ensures decoded
  {
    forall i | 0 <= i < |rs|
      ensures DecodedRecord(rs[i])
    {
      RecordsDecoded(b, p, count, rs, i);
    }
  }

  lemma SectionsDecoded(b: bytes, p: nat, an: nat, ns: nat, ar: nat, m: Contents, x: bool, y: bool, z: bool)
    requires p <= |b| && ReadSections(b, p, an, ns, ar).Ok?
    requires ReadSections(b, p, an, ns, ar).value.0 == (m.answers, m.authorities, m.additional)
    requires x == AllDecoded(m.answers) && y == AllDecoded(m.authorities) && z == AllDecoded(m.additional)
    ensures x && y && z
  {
    var px, py := SectionsThere(b, p, an, ns, ar, m);
    SectionDecoded(b, p, an, m.answers, x);
    SectionDecoded(b, px, ns, m.authorities, y);
    SectionDecoded(b, py, ar, m.additional, z);
  }

  lemma DecodedTogether(m: Contents, i: nat)
    requires AllDecoded(m.answers) && AllDecoded(m.authorities) && AllDecoded(m.additional) && i < |AllRecords(m)|
    requires RecordNamesProper(AllRecords(m)[i])
    ensures WellFormedRecord(AllRecords(m)[i])
  {
    var r, n, k := AllRecords(m)[i], |m.answers|, |m.answers| + |m.authorities|;
    if i < n {
      assert DecodedRecord(m.answers[i]);
    } else if i < k {
      assert DecodedRecord(m.authorities[i - n]);
    } else {
      assert DecodedRecord(m.additional[i - k]);
    }
  }

  lemma IdNarrow(b: bytes, fs: seq<Field>, end: nat)
    requires ReadFields(b, 0, HEADER_KINDS) == Ok((fs, end))
    ensures |fs| == 6 && NumberOf(fs[0]) < 0x1_0000
  {
    FieldsNarrow(b, 0, HEADER_KINDS);
    assert KindOf(fs[0]) == KindsOf(fs)[0] && Narrow(fs[0]);
  }

  /** A message that was read is well-formed, as far as its names are. */
  lemma MessageDecoded(b: bytes, rCode: nat, m: Contents)
    requires ReadMessage(b, rCode) == Ok(m) && MessageNamesProper(m)
    ensures WellFormedMessage(m)
  {
    var header := ReadFields(b, 0, HEADER_KINDS).value;
    var numbers := Numbers(header.0);
    var queries := ReadQuestions(b, header.1, numbers[2]).value;
    IdNarrow(b, header.0, header.1);
    forall i | 0 <= i < |m.queries|
      ensures WellFormedQuestion(m.queries[i])
    {
      QuestionsDecoded(b, header.1, numbers[2], m.queries, i);
    }
    SectionsDecoded(b, queries.1, numbers[3], numbers[4], numbers[5], m, AllDecoded(m.answers), AllDecoded(m.authorities),
                    AllDecoded(m.additional));
    forall i | 0 <= i < |AllRecords(m)|
      ensures WellFormedRecord(AllRecords(m)[i])
    {
      DecodedTogether(m, i);
    }
  }
}
