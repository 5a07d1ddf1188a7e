/** What is written and never decoded: WKS records (dnslib/rr.cpp). */
module DnsUndecoded {
  import opened Wrappers
  import opened Buffers
  import opened DnsWire
  import opened DnsFields
  import opened DnsRecords
  import opened DnsMessage
  import opened DnsOverlaps
  import opened DnsRoundTrip

  // ---------- WKS ----------

  lemma AddressRead(b: bytes, p: nat, size: nat)
    requires p + size <= |b|
    ensures ReadRData(b, p, TYPE_WKS, size) ==
            if p + 4 <= |b| then Ok(([Octets(b[p..p + 4])], p + 4)) else Err(BehindBuffer)
  {
    var kinds := Layout(TYPE_WKS, size);
    assert kinds == [KindOctets(4)];
    assert ReadFields(b, p, kinds) ==
           if p + 4 <= |b| then Ok(([Octets(b[p..p + 4])] + [], p + 4)) else Err(BehindBuffer) by {
      if p + 4 <= |b| {
        assert ReadFields(b, p + 4, kinds[1..]) == Ok(([], p + 4));
      }
    }
    assert p + 4 <= |b| ==> [Octets(b[p..p + 4])] + [] == [Octets(b[p..p + 4])];
  }

  lemma WksFromParts(r: Record, fs: seq<Field>, size: nat, b: bytes, p: nat, base: nat)
    requires r.rtype == TYPE_WKS && p <= base && base + size <= |b| && size > 0
    requires |fs| == 5 && fs[1] == U16(r.rtype) && fs[4] == U16(size)
    requires ReadFields(b, p, HEAD_KINDS) == Ok((fs, base))
    ensures ReadRecord(b, p).Ok? <==> size == 4
    ensures size > 4 ==> ReadRecord(b, p) == Err(WrongRDataSize)
  {
    AddressRead(b, base, size);
  }

  /** WKS records are decoded as addresses: one reads back, whatever its RDATA, exactly when that has
      four octets. */
  lemma WksExactly(w: bytes, r: Record, head: bytes, data: bytes, b: bytes)
    requires r.rtype == TYPE_WKS && AllWellFormed(HeadFields(r)) && FieldsBytes(w, HeadFields(r)) == Ok(head)
    requires 0 < |data| < 0x1_0000 && w + (head + Octets16(|data|)) + data <= b && |b| <= 0x4000
    ensures ReadRecord(b, |w|).Ok? <==> |data| == 4
    ensures |data| > 4 ==> ReadRecord(b, |w|) == Err(WrongRDataSize)
  {
    var size, base := |data|, |w| + |head| + 2;
    var front := w + (head + Octets16(size));
    assert front <= front + data <= b;
    HeadRoundTrip(w, r, head, size, b, |w|, base);
    WksFromParts(r, HeadFields(r) + [U16(size)], size, b, |w|, base);
  }

  /** What the encoder of a WKS record writes: the address, the protocol and the bitmap. */
  function WksFields(address: bytes, protocol: byte, bitmap: bytes): seq<Field>
  {
    [Octets(address), Octets([protocol]), Octets(bitmap)]
  }

  lemma WksOctets(w: bytes, address: bytes, protocol: byte, bitmap: bytes)
    ensures FieldsBytes(w, WksFields(address, protocol, bitmap)) == Ok(address + ([protocol] + bitmap))
  {
    var fs := WksFields(address, protocol, bitmap);
    var v := w + address + [protocol];
    assert FieldsBytes(v + bitmap, fs[1..][1..][1..]) == Ok([]);
    assert bitmap + [] == bitmap;
    assert FieldsBytes(v, fs[1..][1..]) == Ok(bitmap);
    assert FieldsBytes(w + address, fs[1..]) == Ok([protocol] + bitmap);
  }

  /** So no record that the encoder of WKS wrote is decoded. */
  lemma WksNeverRead(w: bytes, r: Record, address: bytes, protocol: byte, bitmap: bytes, octets: bytes, b: bytes)
    requires r.rtype == TYPE_WKS && r.rdata == Some(WksFields(address, protocol, bitmap)) && |address| == 4
    requires AllWellFormed(HeadFields(r)) && RecordBytes(w, r) == Ok(octets) && w + octets <= b && |b| <= 0x4000
    ensures ReadRecord(b, |w|) == Err(WrongRDataSize)
  {
    var head, data := RecordParts(w, r, octets);
    WksOctets(BeforeRData(w, r), address, protocol, bitmap);
    assert data == address + ([protocol] + bitmap);
    WksExactly(w, r, head, data, b);
  }
}
