/** Names at the limits of the encoder and of the wire format (dnslib/buffer.cpp). */
module DnsLimits {
  import opened Wrappers
  import opened Buffers
  import opened DnsWire
  import opened DnsCompression

  // ---------- the local array of the encoder ----------

  lemma {:induction false} WireSize(value: bytes, from: nat)
    requires from < |value|
    ensures |WireLabels(LabelsFrom(value, from))| == |value| - from + if EndsInDot(value) then 0 else 1
    ensures |LabelsFrom(value, from)| <= |value| - from + if EndsInDot(value) then 0 else 1
    decreases |value| - from
  {
    var end := DotFrom(value, from);
    assert [value[from..end]][1..] == [];
    if end + 1 < |value| {
      WireSize(value, end + 1);
      assert ([value[from..end]] + LabelsFrom(value, end + 1))[1..] == LabelsFrom(value, end + 1);
    }
  }

  /** The wire form of a text that putDnsDomainName does not refuse for its length needs more than the
      256 octets of the local array exactly when the text has 255 octets and no final dot; the array
      of offsets is always long enough. */
  lemma LayoutSize(value: bytes)
    requires 0 < |value| <= MAX_DOMAIN_LEN
    ensures |Needle(LabelsFrom(value, 0), !EndsInDot(value))| > MAX_DOMAIN_LEN + 1 <==> OverrunsLayout(value)
    ensures |LabelsFrom(value, 0)| <= MAX_DOMAIN_LEN + 1
  {
    WireSize(value, 0);
  }

  /** Four labels of 63 letters. */
  function FourLabels(): (value: bytes)
    ensures |value| == MAX_DOMAIN_LEN
  {
    seq(MAX_DOMAIN_LEN, i => if i % 64 == 63 then DOT else 97)
  }

  lemma {:induction false} FullLabels(value: bytes, from: nat)
    requires value == FourLabels() && from < 255 && from % 64 == 0
    ensures ProperLabels(LabelsFrom(value, from)) && |LabelsFrom(value, from)| == (256 - from) / 64
    decreases 255 - from
  {
    assert from + 63 < |value| ==> value[from + 63] == DOT;
    assert DotFrom(value, from) == from + 63;
    if from < 192 {
      FullLabels(value, from + 64);
    }
  }

  /** A name made of four labels of the full length passes every check, and then overruns the array. */
  lemma FullNameOverruns(w: bytes, compress: bool)
    ensures ProperLabels(LabelsFrom(FourLabels(), 0)) && |LabelsFrom(FourLabels(), 0)| == 4
    ensures NameBytes(w, FourLabels(), compress) == Err(LayoutOverrun)
  {
    FullLabels(FourLabels(), 0);
    assert FourLabels()[254] == 97;
  }

  // ---------- offsets of more than fourteen bits ----------

  /** Where the only 97 follows the only 1, a search for that label ends there. */
  lemma OnlyTip(w: bytes, labels: seq<bytes>, root: bool, t: nat)
    requires |Needle(labels, root)| >= 2 && Needle(labels, root)[1] == 97
    requires t < |w| - |Needle(labels, root)| && OccursAt(w, Needle(labels, root), t)
    requires forall i :: 0 <= i <= t ==> w[i] != 97
    ensures Tip(w, Needle(labels, root)) == Some(t)
  {
    var needle := Needle(labels, root);
    forall u | 0 <= u < t
      ensures !OccursAt(w, needle, u)
    {
      assert w[u + 1] != needle[1];
    }
  }

  lemma LetterA(w: bytes, t: nat)
    requires t + 4 <= |w| && w[t..t + 3] == [1, 97, 0] && forall i :: 0 <= i <= t ==> w[i] != 97
    ensures NameBytes(w, [97], true) == Ok(PointerBytes(t))
    ensures NameLabels([97]) == [[97]] && FinalTip(w, [[97]], true) == Some(t) && Depth(w, [[97]], true) == 0
    ensures |Needle([[97]], true)| == 3
  {
    var value: bytes := [97];
    assert DotFrom(value, 0) == DotFrom(value, 1) == 1;
    assert value[0..1] == [97];
    assert Needle([[97]], true) == [1, 97, 0];
    OccursAsSlice(w, Needle([[97]], true), t);
    OnlyTip(w, [[97]], true, t);
  }

  /** Behind 16384 octets the name "a" is found again, and the pointer to it is the octets 0, 0: the
      name reads back as the root. */
  lemma OffsetTooLarge()
    ensures var w := Zeros(0x4000) + [1, 97, 0, 0];
            && NameBytes(w, [97], true) == Ok([0, 0])
            && ReadName(w + [0, 0], |w|, [], true) == Reading(Ok([]), |w| + 1, [])
  {
    var w := Zeros(0x4000) + [1, 97, 0, 0];
    LetterA(w, 0x4000);
    assert PointerBytes(0x4000) == [0, 0];
    var b := w + [0, 0];
    assert b[|w|] == 0;
    assert ReadSegment(b, |w|, true) == Segment([], Root(|w| + 1));
    assert Join([]) == [];
  }

  // ---------- final dots ----------

  /** A label, and a pointer straight to a root octet: the text gets a final dot. */
  lemma RootPointerDot()
    ensures ReadName([0, 1, 97, 192, 0, 0], 1, [], true) == Reading(Ok([97, DOT]), 5, [])
  {
    var b: bytes := [0, 1, 97, 192, 0, 0];
    assert ReadSegment(b, 3, true) == Segment([], Pointer(0, 5));
    assert b[2..3] == [97];
    assert ReadItem(b, 1, true) == Label([97], 3);
    PrependEnd([[97]], Pointer(0, 5));
    JoinOne([97]);
    assert ReadSegment(b, 0, true) == Segment([], Root(1));
    assert [] + [1] == [1] && Join([]) == [];
    assert ReadName(b, 0, [1], true).name == Ok([]);
    assert [97] + [DOT] + [] == [97, DOT];
  }

  /** Without compression a name with a final dot is written without its root octet. It reads back
      exactly when a zero happens to follow, and then the reader stops behind that zero. */
  lemma FinalDotUncompressed(w: bytes, value: bytes, octets: bytes, b: bytes, links: bool)
    requires ProperName(value) && EndsInDot(value) && NameBytes(w, value, false) == Ok(octets) && w + octets <= b
    ensures var end := |w + octets|;
            && (ReadName(b, |w|, [], links).name == Ok(NameText(value)) <==> end < |b| && b[end] == 0)
            && (end < |b| && b[end] == 0 ==> ReadName(b, |w|, [], links).pos == end + 1)
  {
    var labels, end := NameLabels(value), |w + octets|;
    JoinNameLabels(value);
    assert octets == WireLabels(labels) + [] == WireLabels(labels);
    OccursAfter(w, octets, b);
    ReadWireLabels(b, |w|, labels, end, links);
    LabelsNotEmpty(value, 0);
    if end < |b| && b[end] == 0 {
      PrependEnd(labels, Root(end + 1));
    } else {
      GoesOn(b, |w|, labels, end, links);
    }
  }

  lemma GoesOn(b: bytes, p: nat, labels: seq<bytes>, end: nat, links: bool)
    requires p <= |b| && end <= |b| && ProperLabels(labels) && labels != []
    requires ReadSegment(b, p, links) == Prepend(labels, ReadSegment(b, end, links))
    requires end == |b| || b[end] != 0
    ensures ReadName(b, p, [], links).name != Ok(Join(labels))
  {
    var rest := ReadSegment(b, end, links);
    ProperRest(labels, rest.labels);
    JoinLonger(labels, rest.labels);
    assert rest.labels != [] || !rest.tail.Root?;
    if links {
      LongerText(b, p, [], labels, rest);
    } else {
      NoLinks(b, p);
    }
  }

  lemma {:induction false} NoLinks(b: bytes, p: nat)
    requires p <= |b|
    ensures !ReadSegment(b, p, false).tail.Pointer?
    decreases |b| - p
  {
    var item := ReadItem(b, p, false);
    if item.Label? {
      NoLinks(b, item.next);
    }
  }
}
