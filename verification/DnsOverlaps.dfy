/** Which length fields harm which names: the copy a pointer leads to must not overlap an octet that
    filling in a length changes (dnslib/rr.cpp). */
module DnsOverlaps {
  import opened Wrappers
  import opened Buffers
  import opened DnsWire
  import opened DnsCompression
  import opened DnsFields
  import opened DnsRecords
  import opened DnsMessage

  /** The copy a compressed name points to does not extend over position `at`. */
  ghost predicate CopyAvoids(w: bytes, f: Field, at: nat)
  {
    f.Name? && f.compressed ==>
      var labels := NameLabels(f.text);
      var tip := FinalTip(w, labels, true);
      tip.Some? ==> at < tip.value || tip.value + |Needle(labels[Depth(w, labels, true)..], true)| <= at
  }

  /** Writing `size` over the two zeros at `q` changes no octet of the copy. */
  ghost predicate LeftAlone(w: bytes, f: Field, q: nat, size: nat)
  {
    && (size / 256 % 256 != 0 ==> CopyAvoids(w, f, q))
    && (size % 256 != 0 ==> CopyAvoids(w, f, q + 1))
  }

  ghost predicate FieldsLeftAlone(w: bytes, fs: seq<Field>, q: nat, size: nat)
    decreases |fs|
  {
    fs != [] ==>
      LeftAlone(w, fs[0], q, size)
      && (FieldBytes(w, fs[0]).Ok? ==> FieldsLeftAlone(w + FieldBytes(w, fs[0]).value, fs[1..], q, size))
  }

  /** Of `a`, the two zeros at `q` were overwritten by `size`. */
  ghost predicate Filled(a: bytes, c: bytes, q: nat, size: nat)
  {
    && |a| == |c| && q + 2 <= |a| && a[q] == 0 && a[q + 1] == 0
    && c[q] == size / 256 % 256 && c[q + 1] == size % 256
    && forall i :: 0 <= i < |a| && i != q && i != q + 1 ==> c[i] == a[i]
  }

  lemma CopyExactly(a: bytes, c: bytes, q: nat, size: nat, needle: bytes, tip: nat)
    requires Filled(a, c, q, size) && OccursAt(a, needle, tip)
    ensures OccursAt(c, needle, tip) <==>
            && (size / 256 % 256 != 0 ==> q < tip || tip + |needle| <= q)
            && (size % 256 != 0 ==> q + 1 < tip || tip + |needle| <= q + 1)
  {
    if size / 256 % 256 != 0 && tip <= q < tip + |needle| {
      assert needle[q - tip] == a[tip + (q - tip)] != c[tip + (q - tip)];
    } else if size % 256 != 0 && tip <= q + 1 < tip + |needle| {
      assert needle[q + 1 - tip] == a[tip + (q + 1 - tip)] != c[tip + (q + 1 - tip)];
    }
  }

  lemma BehindStays(a: bytes, c: bytes, q: nat, size: nat, octets: bytes, p: nat)
    requires Filled(a, c, q, size) && OccursAt(a, octets, p) && q + 2 <= p
    ensures OccursAt(c, octets, p)
  {
  }

  lemma FieldExactly(w: bytes, f: Field, a: bytes, c: bytes, q: nat, size: nat)
    requires Stands(w, f, a) && Filled(a, c, q, size) && q + 2 <= |w|
    ensures Stands(w, f, c) <==> LeftAlone(w, f, q, size)
  {
    BehindStays(a, c, q, size, FieldBytes(w, f).value, |w|);
    if f.Name? && f.compressed {
      var labels := NameLabels(f.text);
      if FinalTip(w, labels, true).Some? {
        CopyExactly(a, c, q, size, Needle(labels[Depth(w, labels, true)..], true), FinalTip(w, labels, true).value);
      }
    }
  }

  lemma {:induction false} FieldsExactly(w: bytes, fs: seq<Field>, a: bytes, c: bytes, q: nat, size: nat)
    requires AllStand(w, fs, a) && Filled(a, c, q, size) && q + 2 <= |w|
    ensures AllStand(w, fs, c) <==> FieldsLeftAlone(w, fs, q, size)
    decreases |fs|
  {
    if fs != [] {
      FieldExactly(w, fs[0], a, c, q, size);
      FieldsExactly(w + FieldBytes(w, fs[0]).value, fs[1..], a, c, q, size);
    }
  }

  // ---------- records ----------

  /** No copy that a name in the RDATA points to overlaps an octet of the length field that does not
      stay zero. */
  ghost predicate RecordLeftAlone(w: bytes, r: Record)
  {
    RecordBytes(w, r).Ok? && r.rdata.Some? ==>
      FieldsLeftAlone(BeforeRData(w, r), r.rdata.value, |BeforeRData(w, r)| - 2,
                      |RDataBytes(BeforeRData(w, r), r).value|)
  }

  lemma LengthFilled(w: bytes, head: bytes, data: bytes, a: bytes, c: bytes, q: nat)
    requires a == w + head + [0, 0] + data && c == w + (head + Octets16(|data|)) + data && q == |w + head|
    ensures Filled(a, c, q, |data|)
  {
    assert a == (w + head) + [0, 0] + data;
    assert c == (w + head) + Octets16(|data|) + data;
    assert a[q] == [0, 0][0] && a[q + 1] == [0, 0][1];
    assert c[q] == Octets16(|data|)[0] && c[q + 1] == Octets16(|data|)[1];
  }

  /** Filling in the length of a record does no harm exactly when it leaves those copies alone. */
  lemma HarmlessExactly(w: bytes, r: Record)
    requires WellFormedRecord(r)
    ensures PatchHarmless(w, r) <==> RecordLeftAlone(w, r)
  {
    if RecordBytes(w, r).Ok? && r.rdata.Some? {
      var octets := RecordBytes(w, r).value;
      var head, data := RecordParts(w, r, octets);
      var before, q := BeforeRData(w, r), |w + head|;
      PrefixStands(before, r.rdata.value, before + data);
      LengthFilled(w, head, data, before + data, w + octets, q);
      FieldsExactly(before, r.rdata.value, before + data, w + octets, q, |data|);
    }
  }

  ghost predicate AllLeftAlone(w: bytes, rs: seq<Record>)
    decreases |rs|
  {
    rs != [] && RecordBytes(w, rs[0]).Ok? ==>
      RecordLeftAlone(w, rs[0]) && AllLeftAlone(w + RecordBytes(w, rs[0]).value, rs[1..])
  }

  lemma {:induction false} AllHarmlessExactly(w: bytes, rs: seq<Record>)
    requires forall i :: 0 <= i < |rs| ==> WellFormedRecord(rs[i])
    ensures AllHarmless(w, rs) <==> AllLeftAlone(w, rs)
    decreases |rs|
  {
    if rs != [] && RecordBytes(w, rs[0]).Ok? {
      HarmlessExactly(w, rs[0]);
      AllHarmlessExactly(w + RecordBytes(w, rs[0]).value, rs[1..]);
    }
  }
}
