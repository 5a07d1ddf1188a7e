/** Exactly when records and messages read back, with every RDLENGTH filled in after the fact
    (dnslib/rr.cpp, dnslib/message.cpp). */
module DnsExact {
  import opened Wrappers
  import opened Buffers
  import opened DnsWire
  import opened DnsCompression
  import opened DnsFields
  import opened DnsRecords
  import opened DnsMessage
  import opened DnsCopies

  // ---------- records ----------

  lemma FilledIn(w: bytes, head: bytes, data: bytes, before: bytes, b: bytes, base: nat)
    requires before == w + head + [0, 0] && base == |before| && w + (head + Octets16(|data|)) + data <= b
    ensures OnlyZeros(before + data, b) && OccursAt(b, data, base)
  {
    var c := w + (head + Octets16(|data|)) + data;
    assert c == (w + head) + Octets16(|data|) + data;
    OccursAfter(w + (head + Octets16(|data|)), data, b);
    forall i | 0 <= i < |before + data|
      ensures (before + data)[i] == b[i] || (before + data)[i] == 0
    {
      assert b[i] == c[i];
    }
  }

  lemma OccursShorter(c: bytes, b: bytes, octets: bytes, p: nat)
    requires c <= b && OccursAt(b, octets, p) && p + |octets| <= |c|
    ensures OccursAt(c, octets, p)
  {
  }

  lemma FieldStandsShorter(w: bytes, f: Field, octets: bytes, c: bytes, b: bytes)
    requires WellFormed(f) && Stands(w, f, b) && FieldBytes(w, f) == Ok(octets) && c <= b && |w| + |octets| <= |c|
    ensures Stands(w, f, c)
  {
    OccursShorter(c, b, octets, |w|);
    if f.Name? && f.compressed {
      var labels := NameLabels(f.text);
      ProperNameBytes(w, f.text);
      if FinalTip(w, labels, true).Some? {
        CompressedShape(w, labels, true);
        OccursShorter(c, b, Needle(labels[Depth(w, labels, true)..], true), FinalTip(w, labels, true).value);
      }
    }
  }

  /** What fields need lies before their end. */
  lemma {:induction false} StandsShorter(w: bytes, fs: seq<Field>, octets: bytes, c: bytes, b: bytes)
    requires AllWellFormed(fs) && AllStand(w, fs, b) && FieldsBytes(w, fs) == Ok(octets)
    requires c <= b && |w| + |octets| <= |c|
    ensures AllStand(w, fs, c)
    decreases |fs|
  {
    if fs != [] {
      var first := FieldBytes(w, fs[0]).value;
      FieldsTail(fs);
      FieldStandsShorter(w, fs[0], first, c, b);
      StandsShorter(w + first, fs[1..], FieldsBytes(w + first, fs[1..]).value, c, b);
    }
  }

  /** The RDATA of a record that reads back was read where it stands. */
  lemma RDataReads(r: Record, fs: seq<Field>, size: nat, b: bytes, p: nat, base: nat)
    requires p <= base <= |b| && r.rdata.Some? && |fs| == 5 && fs[1] == U16(r.rtype) && fs[4] == U16(size)
    requires ReadFields(b, p, HEAD_KINDS) == Ok((fs, base))
    requires ReadRecord(b, p).Ok? && ReadRecord(b, p).value.0 == r
    ensures ReadRData(b, base, r.rtype, size).Ok? && ReadRData(b, base, r.rtype, size).value.0 == r.rdata.value
  {
  }

  /** RDATA that reads back as it was written stands. */
  lemma RDataNeedsCopies(before: bytes, rtype: nat, fs: seq<Field>, data: bytes, b: bytes, base: nat, size: nat)
    requires AllWellFormed(fs) && FitsType(rtype, fs) && FieldsBytes(before, fs) == Ok(data) && size == |data|
    requires OnlyZeros(before + data, b) && OccursAt(b, data, base) && base == |before| && |b| <= 0x4000
    requires ReadRData(b, base, rtype, size).Ok? && ReadRData(b, base, rtype, size).value.0 == fs
    ensures AllStand(before, fs, b)
  {
    if rtype == TYPE_TXT {
      PlainFieldsStand(before, fs, data, b);
    } else {
      PlainSize(before, fs, data);
      LayoutOfSize(rtype, fs, size);
      FieldsNeedCopies(before, fs, data, b, base);
    }
  }

  /** A record that reads back as it was written was not harmed by its length. */
  lemma RecordNeedsCopies(w: bytes, r: Record, octets: bytes, b: bytes, p: nat)
    requires WellFormedRecord(r) && RecordBytes(w, r) == Ok(octets)
    requires w + octets <= b && |b| <= 0x4000 && p == |w|
    requires ReadRecord(b, p).Ok? && ReadRecord(b, p).value.0 == r
    ensures PatchHarmless(w, r)
  {
    if r.rdata.Some? {
      var head, data := RecordParts(w, r, octets);
      var before, base, size := BeforeRData(w, r), p + |head| + 2, |data|;
      assert w + (head + Octets16(size)) <= b;
      HeadRoundTrip(w, r, head, size, b, p, base);
      RDataReads(r, HeadFields(r) + [U16(size)], size, b, p, base);
      FilledIn(w, head, data, before, b, base);
      RDataNeedsCopies(before, r.rtype, r.rdata.value, data, b, base, size);
      StandsShorter(before, r.rdata.value, data, w + octets, b);
    }
  }

  /** A well-formed record reads back as itself exactly when filling in its length leaves alone the copies that
      names in its RDATA point to, and it is not stuck at a pointer that is the last thing in the
      buffer. */
  lemma WellFormedRecordReadsBack(w: bytes, r: Record, octets: bytes, b: bytes, p: nat, end: nat)
    requires WellFormedRecord(r) && RecordBytes(w, r) == Ok(octets)
    requires w + octets <= b && |b| <= 0x4000 && p == |w| && end == p + |octets|
    ensures ReadRecord(b, p) == Ok((r, end)) <==> PatchHarmless(w, r) && !(RecordInPointer(w, r) && end == |b|)
  {
    if PatchHarmless(w, r) {
      RecordRoundTrip(w, r, octets, b, p, end, RecordInPointer(w, r) && end == |b|);
    } else if ReadRecord(b, p) == Ok((r, end)) {
      RecordNeedsCopies(w, r, octets, b, p);
    }
  }

  // ---------- lists of records ----------

  lemma FirstRecordReads(b: bytes, p: nat, rs: seq<Record>)
    requires p <= |b| && rs != []
    requires ReadRecords(b, p, |rs|).Ok? && ReadRecords(b, p, |rs|).value.0 == rs
    ensures ReadRecord(b, p).Ok? && ReadRecord(b, p).value.0 == rs[0]
  {
    var first := ReadRecord(b, p);
    var rest := ReadRecords(b, first.value.1, |rs| - 1);
    assert rs == [first.value.0] + rest.value.0;
  }

  lemma OtherRecordsRead(b: bytes, p: nat, rs: seq<Record>, next: nat)
    requires p <= next <= |b| && rs != [] && ReadRecord(b, p) == Ok((rs[0], next))
    requires ReadRecords(b, p, |rs|).Ok? && ReadRecords(b, p, |rs|).value.0 == rs
    ensures ReadRecords(b, next, |rs| - 1).Ok? && ReadRecords(b, next, |rs| - 1).value.0 == rs[1..]
    ensures ReadRecords(b, p, |rs|).value.1 == ReadRecords(b, next, |rs| - 1).value.1
  {
    var rest := ReadRecords(b, next, |rs| - 1);
    assert rs == [rs[0]] + rest.value.0;
  }

  lemma HarmlessCons(w: bytes, rs: seq<Record>, first: bytes)
    requires rs != [] && RecordBytes(w, rs[0]) == Ok(first)
    requires PatchHarmless(w, rs[0]) && AllHarmless(w + first, rs[1..])
    ensures AllHarmless(w, rs)
  {
  }

  /** Records that read back as they were written were not harmed, and end where they were put. */
  lemma {:induction false} RecordsNeedCopies(w: bytes, rs: seq<Record>, octets: bytes, b: bytes, p: nat, end: nat)
    requires (forall i :: 0 <= i < |rs| ==> WellFormedRecord(rs[i])) && RecordsBytes(w, rs) == Ok(octets)
    requires w + octets <= b && |b| <= 0x4000 && p == |w| && end == p + |octets|
    requires ReadRecords(b, p, |rs|).Ok? && ReadRecords(b, p, |rs|).value.0 == rs
    ensures AllHarmless(w, rs) && ReadRecords(b, p, |rs|).value.1 == end
    decreases |rs|
  {
    if rs != [] {
      var first := RecordBytes(w, rs[0]).value;
      var rest := RecordsBytes(w + first, rs[1..]).value;
      var next := p + |first|;
      Regroup(w, first, rest);
      FirstRecordReads(b, p, rs);
      RecordNeedsCopies(w, rs[0], first, b, p);
      RecordRoundTrip(w, rs[0], first, b, p, next, RecordInPointer(w, rs[0]) && next == |b|);
      OtherRecordsRead(b, p, rs, next);
      RecordsNeedCopies(w + first, rs[1..], rest, b, next, end);
      HarmlessCons(w, rs, first);
    }
  }

  lemma FirstHarmless(w: bytes, rs: seq<Record>, first: bytes)
    requires rs != [] && AllHarmless(w, rs) && RecordBytes(w, rs[0]) == Ok(first)
    ensures PatchHarmless(w, rs[0]) && AllHarmless(w + first, rs[1..])
  {
  }

  lemma {:induction false} HarmlessTogether(w: bytes, x: seq<Record>, y: seq<Record>, octets: bytes)
    requires AllHarmless(w, x) && RecordsBytes(w, x) == Ok(octets) && AllHarmless(w + octets, y)
    ensures AllHarmless(w, x + y)
    decreases |x|
  {
    if x == [] {
      assert x + y == y && w + octets == w;
    } else {
      var first := RecordBytes(w, x[0]).value;
      var rest := RecordsBytes(w + first, x[1..]).value;
      FirstHarmless(w, x, first);
      assert (x + y)[0] == x[0] && (x + y)[1..] == x[1..] + y;
      Regroup(w, first, rest);
      HarmlessTogether(w + first, x[1..], y, rest);
      HarmlessCons(w, x + y, first);
    }
  }
}
