/** What nla_reserve stores when the length does not fit sixteen bits (libnl/lib/attr.c). */
module NlAttributeCuts {
  import opened Wrappers
  import opened NlAttributes

  lemma CutNumber(n: nat)
    ensures Number(LittleEndian16(n)[0], LittleEndian16(n)[1]) == n % 0x1_0000
  {
    var q := n / 256;
    assert n == 256 * q + n % 256;
    assert q == 256 * (q / 256) + q % 256;
  }

  lemma CutPad(payload: nat, len: nat)
    requires len == AttrSize(payload) % 0x1_0000 && len < HDRLEN
    ensures payload > 0 && PadLen(payload) == if len == 0 then 0 else HDRLEN - len
  {
    var k := AttrSize(payload) / 0x1_0000;
    assert AttrSize(payload) + 3 == 4 * (0x4000 * k) + len + 3;
  }

  lemma HeaderNumbers(len: nat, attrType: nat, h: bytes)
    requires h == Header(len, attrType)
    ensures LenAt(h) == len % 0x1_0000 && TypeAt(h) == attrType % 0x1_0000
    ensures h[1] == len / 256 % 256 && h[2] == attrType % 256
  {
    CutNumber(len);
    CutNumber(attrType);
  }

  /** `r` is the header `h` with its octets from `len` on cleared, unless `len` is zero. */
  ghost predicate Wiped(h: bytes, len: nat, r: bytes)
  {
    && |h| == |r| == HDRLEN
    && forall i :: 0 <= i < HDRLEN ==> r[i] == if 0 < len <= i then 0 else h[i]
  }

  lemma ReservedWiped(attrType: nat, payload: nat, len: nat, pad: nat, h: bytes)
    requires len == AttrSize(payload) % 0x1_0000 && len < HDRLEN && h == Header(len, attrType)
    requires payload > 0 && pad == PadLen(payload) && pad == if len == 0 then 0 else HDRLEN - len
    ensures Wiped(h, len, ReservedHeader(attrType, payload))
  {
    var r := ReservedHeader(attrType, payload);
    assert forall i :: 0 <= i < HDRLEN ==> r[i] == if len <= i < len + pad then 0 else h[i];
  }

  lemma WipedNumbers(h: bytes, len: nat, r: bytes)
    requires Wiped(h, len, r) && len < HDRLEN && h[1] == 0
    ensures LenAt(r) == LenAt(h)
    ensures TypeAt(r) == if len == 1 || len == 2 then 0 else if len == 3 then h[2] else TypeAt(h)
  {
  }

  lemma UncutHeader(attrType: nat, payload: nat, len: nat)
    requires len == AttrSize(payload) % 0x1_0000 && len >= HDRLEN
    ensures ReservedHeader(attrType, payload) == Header(len, attrType)
  {
  }

  lemma ShortCut(attrType: nat, len: nat, whole: bytes, h: bytes)
    requires len < HDRLEN && whole == Header(len, attrType) && Wiped(whole, len, h)
    ensures LenAt(h) == len
    ensures TypeAt(h) ==
            if len == 1 || len == 2 then 0 else if len == 3 then attrType % 256 else attrType % 0x1_0000
  {
    HeaderNumbers(len, attrType, whole);
    WipedNumbers(whole, len, h);
  }

  lemma LongCut(attrType: nat, len: nat, h: bytes)
    requires len < 0x1_0000 && h == Header(len, attrType)
    ensures LenAt(h) == len && TypeAt(h) == attrType % 0x1_0000
  {
    HeaderNumbers(len, attrType, h);
  }

  /** The length stored is the true length modulo 65536. When that leaves 1, 2 or 3, clearing the
      padding wipes out the type, or its upper octet. */
  lemma CutHeader(attrType: nat, payload: nat, len: nat, h: bytes)
    requires len == AttrSize(payload) % 0x1_0000 && h == ReservedHeader(attrType, payload)
    ensures LenAt(h) == len
    ensures TypeAt(h) ==
            if len == 1 || len == 2 then 0 else if len == 3 then attrType % 256 else attrType % 0x1_0000
  {
    if len < HDRLEN {
      CutPad(payload, len);
      ReservedWiped(attrType, payload, len, PadLen(payload), Header(len, attrType));
      ShortCut(attrType, len, Header(len, attrType), h);
    } else {
      UncutHeader(attrType, payload, len);
      LongCut(attrType, len, h);
    }
  }
}
