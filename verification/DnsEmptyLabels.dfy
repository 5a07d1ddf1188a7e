/** Names with an empty label, such as two dots in a row: putDnsDomainName takes them and writes a root octet
    in the middle (dnslib/buffer.cpp). */
module DnsEmptyLabels {
  import opened Wrappers
  import opened Buffers
  import opened DnsWire
  import opened DnsNames
  import opened DnsCompression

  /** Label number `e` is the first empty one. */
  ghost predicate EmptyAt(labels: seq<bytes>, e: nat)
  {
    e < |labels| && labels[e] == [] && ProperLabels(labels[..e])
  }

  lemma {:induction false} FirstEmpty(labels: seq<bytes>) returns (e: nat)
    requires ShortLabels(labels) && !ProperLabels(labels)
    ensures EmptyAt(labels, e)
    decreases |labels|
  {
    if labels[0] == [] {
      e := 0;
    } else {
      var rest := labels[1..];
      assert ShortLabels(rest);
      assert !ProperLabels(rest) by {
        var i :| 0 <= i < |labels| && !(1 <= |labels[i]| <= MAX_LABEL_LEN);
        assert labels[i] == rest[i - 1];
      }
      var n := FirstEmpty(rest);
      e := n + 1;
      forall i | 0 <= i < e
        ensures 1 <= |labels[..e][i]| <= MAX_LABEL_LEN
      {
        assert i > 0 ==> labels[..e][i] == rest[..n][i - 1];
      }
    }
  }

  /** The names the writer takes without being proper are those with an empty label. */
  lemma TakenNotProper(w: bytes, value: bytes, compress: bool) returns (e: nat)
    requires NameBytes(w, value, compress).Ok? && !ProperName(value)
    ensures value != [] && EmptyAt(LabelsFrom(value, 0), e)
  {
    e := FirstEmpty(LabelsFrom(value, 0));
  }

  // ---------- lengths ----------

  lemma {:induction false} JoinLength(labels: seq<bytes>)
    requires ProperLabels(labels)
    ensures |Join(labels)| == |WireLabels(labels)| - if labels == [] then 0 else 1
    decreases |labels|
  {
    if labels != [] {
      var rest := labels[1..];
      assert labels == [labels[0]] + rest;
      ProperParts(labels[0], rest);
      JoinCons(labels[0], rest);
      JoinLength(rest);
    }
  }

  /** The labels before an empty one, with a dot each, and its own dot are all in the text. */
  lemma {:induction false} EmptyIsLonger(value: bytes, from: nat, e: nat)
    requires from < |value| && EmptyAt(LabelsFrom(value, from), e)
    ensures |WireLabels(LabelsFrom(value, from)[..e])| < |value| - from
    decreases |value| - from
  {
    var end, labels := DotFrom(value, from), LabelsFrom(value, from);
    if e > 0 {
      var rest := LabelsFrom(value, end + 1);
      assert labels == [value[from..end]] + rest;
      var front: seq<bytes> := labels[..e];
      assert front[1..] == rest[..e - 1] && front[0] == value[from..end];
      assert front == [front[0]] + rest[..e - 1];
      ProperParts(front[0], rest[..e - 1]);
      EmptyIsLonger(value, end + 1, e - 1);
    }
  }

  // ---------- reading ----------

  /** Where labels stand that have an empty one among them, the reader stops there. */
  lemma ReadToEmpty(b: bytes, p: nat, labels: seq<bytes>, e: nat, more: bytes, links: bool)
    requires EmptyAt(labels, e) && OccursAt(b, WireLabels(labels) + more, p)
    ensures p + |WireLabels(labels[..e])| < |b|
    ensures ReadSegment(b, p, links) == Segment(labels[..e], Root(p + |WireLabels(labels[..e])| + 1))
  {
    var front, back := labels[..e], labels[e + 1..];
    assert labels == front + ([[]] + back);
    assert ([[]] + back)[1..] == back;
    WireLabelsConcat(front, [[]] + back);
    assert Counted([]) == [0];
    Regroup(WireLabels(front), [0] + WireLabels(back), more);
    OccursSplit(b, WireLabels(front), [0] + WireLabels(back) + more, p);
    var at := p + |WireLabels(front)|;
    assert b[at] == ([0] + WireLabels(back) + more)[0];
    ReadWireLabels(b, p, front, at, links);
    PrependEnd(front, Root(at + 1));
  }

  /** Written without a pointer, such a name reads as what is before the empty label, and the reader stops
      behind the root octet in the middle. */
  lemma EmptyLabelUncompressed(w: bytes, value: bytes, e: nat, octets: bytes, b: bytes, links: bool)
    requires value != [] && EmptyAt(LabelsFrom(value, 0), e)
    requires NameBytes(w, value, false) == Ok(octets) && w + octets <= b
    ensures var front := LabelsFrom(value, 0)[..e];
            && ReadName(b, |w|, [], links) == Reading(Ok(Join(front)), |w| + |WireLabels(front)| + 1, [])
            && |Join(front)| < |value| && |WireLabels(front)| < |octets|
  {
    var labels := LabelsFrom(value, 0);
    OccursAfter(w, octets, b);
    EmptyIsLonger(value, 0, e);
    ReadsUpToEmpty(b, |w|, labels, e, if EndsInDot(value) then [] else [0], links);
    ShorterFront(labels, e);
  }

  lemma ReadsUpToEmpty(b: bytes, p: nat, labels: seq<bytes>, e: nat, more: bytes, links: bool)
    requires EmptyAt(labels, e) && OccursAt(b, WireLabels(labels) + more, p) && |WireLabels(labels[..e])| <= MAX_DOMAIN_LEN
    ensures ReadName(b, p, [], links) == Reading(Ok(Join(labels[..e])), p + |WireLabels(labels[..e])| + 1, [])
    ensures |Join(labels[..e])| <= |WireLabels(labels[..e])|
  {
    ReadToEmpty(b, p, labels, e, more, links);
    JoinLength(labels[..e]);
  }

  lemma ShorterFront(labels: seq<bytes>, e: nat)
    requires e < |labels|
    ensures |WireLabels(labels[..e])| < |WireLabels(labels)|
  {
    assert labels == labels[..e] + labels[e..];
    WireLabelsConcat(labels[..e], labels[e..]);
  }

  // ---------- compressed names ----------

  lemma SlicesOfEmpty(labels: seq<bytes>, e: nat, k: nat)
    requires EmptyAt(labels, e) && k <= |labels|
    ensures k > e ==> EmptyAt(labels[..k], e) && labels[..k][..e] == labels[..e]
    ensures k <= e ==> EmptyAt(labels[k..], e - k) && labels[k..][..e - k] == labels[k..e] && ProperLabels(labels[..k])
    ensures k <= e ==> labels[..e] == labels[..k] + labels[k..e] && ProperLabels(labels[k..e])
  {
    if k > e {
      assert labels[..k][..e] == labels[..e];
    } else {
      var front := labels[..e];
      assert labels[k..][..e - k] == labels[k..e] == front[k..] && labels[..k] == front[..k];
      ProperSlices(front, k);
    }
  }

  /** What a name of these labels reads as through a pointer. */
  lemma TextLength(front: seq<bytes>, back: seq<bytes>)
    requires ProperLabels(front) && ProperLabels(back)
    ensures |Extend(Join(front), Join(back))| <= |WireLabels(front + back)|
  {
    JoinLength(front);
    JoinLength(back);
    JoinEmpty(front);
    WireLabelsConcat(front, back);
  }

  /** The pointer comes at the empty label or before. */
  lemma PointedBefore(b: bytes, p: nat, labels: seq<bytes>, e: nat, k: nat, tip: nat, more: bytes, end: nat)
    requires EmptyAt(labels, e) && k <= e && tip < 0x1_0000 && |Join(labels[k..e])| <= MAX_DOMAIN_LEN
    requires OccursAt(b, WireLabels(labels[..k]) + PointerBytes(tip), p) && end == p + |WireLabels(labels[..k])| + 2
    requires OccursAt(b, WireLabels(labels[k..]) + more, tip)
    ensures var r := ReadName(b, p, [], true);
            r.name.Ok? && r.pos == end ==> |r.name.value| <= |WireLabels(labels[..e])|
  {
    SlicesOfEmpty(labels, e, k);
    ReadFront(b, p, labels[..k], tip, end - 2);
    ReadPointer(b, end - 2, tip);
    if tip >= 0x4000 {
      WrongEnd(b, p, labels[..k], end);
    } else {
      PrependEnd(labels[..k], Pointer(tip, end));
      ReadToEmpty(b, tip, labels[k..], e - k, more, true);
      ReadThroughPointer(b, p, labels[..k], tip, end, labels[k..e]);
      TextLength(labels[..k], labels[k..e]);
    }
  }

  /** No pointer comes before the empty label. */
  lemma WrittenThrough(b: bytes, p: nat, labels: seq<bytes>, e: nat, k: nat, more: bytes)
    requires EmptyAt(labels, e) && e < k <= |labels| && OccursAt(b, WireLabels(labels[..k]) + more, p)
    ensures var r := ReadName(b, p, [], true);
            r.name.Ok? ==> |r.name.value| <= |WireLabels(labels[..e])|
  {
    SlicesOfEmpty(labels, e, k);
    ReadToEmpty(b, p, labels[..k], e, more, true);
    JoinLength(labels[..e]);
  }

  /** A name with an empty label never reads back, whatever was written before it and whatever follows:
      if the reader stops where the writer stopped, the text is a shorter one. */
  lemma EmptyLabelLost(w: bytes, value: bytes, octets: bytes, b: bytes)
    requires !ProperName(value) && NameBytes(w, value, true) == Ok(octets) && w + octets <= b && |b| <= 0x1_0000
    ensures var r := ReadName(b, |w|, [], true);
            r.name.Ok? && r.pos == |w + octets| ==> |r.name.value| < |value|
  {
    var e := TakenNotProper(w, value, true);
    EmptyIsLonger(value, 0, e);
    EmptyLabelShortens(w, LabelsFrom(value, 0), !EndsInDot(value), e, b);
  }

  lemma EmptyLabelShortens(w: bytes, labels: seq<bytes>, root: bool, e: nat, b: bytes)
    requires EmptyAt(labels, e) && |WireLabels(labels[..e])| <= MAX_DOMAIN_LEN
    requires w + CompressedBytes(w, labels, root) <= b && |b| <= 0x1_0000
    ensures var r := ReadName(b, |w|, [], true);
            r.name.Ok? && r.pos == |w + CompressedBytes(w, labels, root)| ==> |r.name.value| <= |WireLabels(labels[..e])|
  {
    var k, tip := Depth(w, labels, root), FinalTip(w, labels, root);
    PrefixIntact(w, labels, root, b);
    CompressedShape(w, labels, root);
    if k > e {
      WrittenThrough(b, |w|, labels, e, k, Ending(tip));
    } else {
      SlicesOfEmpty(labels, e, k);
      JoinLength(labels[k..e]);
      WireLabelsConcat(labels[..k], labels[k..e]);
      PointedBefore(b, |w|, labels, e, k, tip.value, if root then [0] else [], |w + CompressedBytes(w, labels, root)|);
    }
  }

  /** Name round trip for every name the writer takes that has no final dot: it reads back as itself exactly
      when none of its labels is empty and its pointer, if there is one, is readable. */
  lemma NameReadsBack(w: bytes, value: bytes, octets: bytes, b: bytes, end: nat)
    requires NameBytes(w, value, true) == Ok(octets) && !EndsInDot(value)
    requires w + octets <= b && |b| <= 0x1_0000 && end == |w + octets|
    ensures ReadsBack(b, |w|, value, end) <==> ProperName(value) && Readable(w, NameLabels(value), true, b, end)
  {
    if ProperName(value) {
      NameRoundTrip(w, value, b);
    } else {
      EmptyLabelLost(w, value, octets, b);
    }
  }

  /** "a..b": the octets of "a", a root octet and the octets of "b" are written, and "a" is read. */
  lemma TwoDots()
    ensures NameBytes([], [97, DOT, DOT, 98], true) == Ok([1, 97, 0, 1, 98, 0])
    ensures ReadName([1, 97, 0, 1, 98, 0], 0, [], true) == Reading(Ok([97]), 3, [])
  {
    TwoDotsLabels([97, DOT, DOT, 98]);
    TwoDotsBytes([[97], [], [98]]);
    TwoDotsRead([1, 97, 0, 1, 98, 0]);
  }

  lemma TwoDotsLabels(value: bytes)
    requires value == [97, DOT, DOT, 98]
    ensures LabelsFrom(value, 0) == [[97], [], [98]]
  {
    assert DotFrom(value, 3) == DotFrom(value, 4) == 4 && DotFrom(value, 2) == 2;
    assert DotFrom(value, 0) == DotFrom(value, 1) == 1;
    assert value[3..4] == [98] && value[2..2] == [] && value[0..1] == [97];
    assert LabelsFrom(value, 3) == [[98]];
    assert LabelsFrom(value, 2) == [[]] + [[98]] == [[], [98]];
    assert LabelsFrom(value, 0) == [[97]] + [[], [98]];
  }

  lemma TwoDotsRead(b: bytes)
    requires b == [1, 97, 0, 1, 98, 0]
    ensures ReadName(b, 0, [], true) == Reading(Ok([97]), 3, [])
  {
    assert ReadSegment(b, 2, true) == Segment([], Root(3));
    assert b[1..2] == [97];
    assert ReadItem(b, 0, true) == Label([97], 2);
    PrependEnd([[97]], Root(3));
    JoinOne([97]);
  }

  lemma TwoDotsBytes(labels: seq<bytes>)
    requires labels == [[97], [], [98]]
    ensures CompressedBytes([], labels, true) == [1, 97, 0, 1, 98, 0]
  {
    assert labels[1..] == [[], [98]] && [[], [98]][1..] == [[98]] && [[98]][1..] == [];
    assert Counted([97]) == [1, 97] && Counted([98]) == [1, 98] && Counted([]) == [0];
    var w1: bytes := [1, 97];
    var w2: bytes := [1, 97, 0];
    var w3: bytes := [1, 97, 0, 1, 98];
    assert WireLabels([[98]]) == [1, 98] && Needle([[98]], true) == [1, 98, 0];
    assert WireLabels([[], [98]]) == [0, 1, 98] && |Needle([[], [98]], true)| == 4;
    assert Tip(w2, Needle([[98]], true)) == None;
    assert CompressedBytes(w3, [], true) == [0];
    assert w2 + [1, 98] == w3 && w1 + [0] == w2 && [] + [1, 97] == w1;
    assert CompressedBytes(w2, [[98]], true) == [1, 98] + [0];
    assert CompressedBytes(w1, [[], [98]], true) == [0] + ([1, 98] + [0]);
    assert CompressedBytes([], labels, true) == [1, 97] + ([0] + ([1, 98] + [0]));
  }
}
