/** Writing a compressed name and reading it back. */
module DnsCompression {
  import opened Wrappers
  import opened DnsWire
  import opened DnsNames

  /** A name as section 2.3.4 of RFC 1035 limits it, with or without a final dot: labels of 1
      to 63 octets, and short enough for the writer's layout; or the root, as the empty text. */
  ghost predicate ProperName(value: bytes)
  {
    value != [] ==> |NameText(value)| < MAX_DOMAIN_LEN && ProperLabels(LabelsFrom(value, 0))
  }

  /** The name without its final dot. */
  function NameText(value: bytes): bytes
  {
    if EndsInDot(value) then value[..|value| - 1] else value
  }

  function NameLabels(value: bytes): seq<bytes>
  {
    if value == [] then [] else LabelsFrom(value, 0)
  }

  lemma {:induction false} JoinCons(octets: bytes, rest: seq<bytes>)
    requires 1 <= |octets| <= MAX_LABEL_LEN && ProperLabels(rest)
    ensures Join([octets] + rest) == octets + if rest == [] then [] else [DOT] + Join(rest)
  {
    assert Join([octets]) == Extend(Join([octets][..0]), octets) == octets;
    JoinConcat([octets], rest);
    JoinEmpty(rest);
    if rest == [] {
      assert [octets] + rest == [octets];
    } else {
      Regroup(octets, [DOT], Join(rest));
    }
  }

  lemma ProperParts(octets: bytes, rest: seq<bytes>)
    requires ProperLabels([octets] + rest)
    ensures 1 <= |octets| <= MAX_LABEL_LEN && ProperLabels(rest)
  {
    var all := [octets] + rest;
    assert all[0] == octets;
    assert forall i :: 0 <= i < |rest| ==> rest[i] == all[i + 1];
  }

  lemma TextSplit(value: bytes, from: nat, end: nat, size: nat)
    requires from <= end < size <= |value| && value[end] == DOT
    ensures value[from..size] == value[from..end] + ([DOT] + value[end + 1..size])
  {
  }

  /** The labels of the text from `from` on: those of the part before the next dot and those
      of the part after it. */
  lemma LabelsStep(value: bytes, from: nat, size: nat)
    requires from < |value| && size == |NameText(value)|
    ensures var end := DotFrom(value, from);
            if end >= size then end == size && LabelsFrom(value, from) == [value[from..size]]
            else end + 1 < |value| && LabelsFrom(value, from) == [value[from..end]] + LabelsFrom(value, end + 1)
  {
    assert size == |value| || (size == |value| - 1 && value[size] == DOT);
    assert size == |value| ==> value[size - 1] != DOT;
    LabelsStepAt(value, from, size, DotFrom(value, from));
  }

  lemma LabelsStepAt(value: bytes, from: nat, size: nat, end: nat)
    requires from < |value| && end == DotFrom(value, from)
    requires if size == |value| then value[size - 1] != DOT else size == |value| - 1 && value[size] == DOT
    ensures if end >= size then end == size && LabelsFrom(value, from) == [value[from..size]]
            else end + 1 < |value| && LabelsFrom(value, from) == [value[from..end]] + LabelsFrom(value, end + 1)
  {
  }

  lemma JoinOne(octets: bytes)
    ensures Join([octets]) == octets
  {
    assert Join([octets][..0]) == [];
  }

  lemma JoinStep(value: bytes, from: nat, end: nat, size: nat, rest: seq<bytes>)
    requires from <= end < size <= |value| && value[end] == DOT
    requires ProperLabels([value[from..end]] + rest) && rest != [] && Join(rest) == value[end + 1..size]
    ensures Join([value[from..end]] + rest) == value[from..size]
  {
    ProperParts(value[from..end], rest);
    JoinCons(value[from..end], rest);
    TextSplit(value, from, end, size);
  }

  /** Joining undoes splitting. */
  lemma {:induction false} JoinLabelsFrom(value: bytes, from: nat, size: nat)
    requires from < |value| && size == |NameText(value)| && ProperLabels(LabelsFrom(value, from))
    ensures from <= size && Join(LabelsFrom(value, from)) == value[from..size]
    decreases |value| - from
  {
    var end := DotFrom(value, from);
    LabelsStep(value, from, size);
    if end >= size {
      JoinOne(value[from..size]);
    } else {
      var rest := LabelsFrom(value, end + 1);
      ProperParts(value[from..end], rest);
      JoinLabelsFrom(value, end + 1, size);
      LabelsNotEmpty(value, end + 1);
      JoinStep(value, from, end, size, rest);
    }
  }

  lemma LabelsNotEmpty(value: bytes, from: nat)
    requires from <= |value|
    ensures LabelsFrom(value, from) != []
  {
  }

  lemma JoinNameLabels(value: bytes)
    requires ProperName(value)
    ensures Join(NameLabels(value)) == NameText(value) && ProperLabels(NameLabels(value))
  {
    if value != [] {
      JoinLabelsFrom(value, 0, |NameText(value)|);
    }
  }

  lemma ReadCounted(b: bytes, p: nat, octets: bytes, links: bool)
    requires 1 <= |octets| <= MAX_LABEL_LEN && OccursAt(b, Counted(octets), p)
    ensures p + |Counted(octets)| <= |b|
    ensures ReadSegment(b, p, links) == Prepend([octets], ReadSegment(b, p + |Counted(octets)|, links))
  {
    var next := p + 1 + |octets|;
    assert b[p] == Counted(octets)[0] == |octets|;
    assert forall k :: 0 <= k < |octets| ==> octets[k] == Counted(octets)[k + 1];
    assert b[p + 1..next] == octets;
    assert ReadItem(b, p, links) == Label(octets, next);
  }

  /** Labels that stand at `p` in wire form are what the reader finds there. */
  lemma {:induction false} ReadWireLabels(b: bytes, p: nat, labels: seq<bytes>, end: nat, links: bool)
    requires ProperLabels(labels) && OccursAt(b, WireLabels(labels), p) && end == p + |WireLabels(labels)|
    ensures end <= |b|
    ensures ReadSegment(b, p, links) == Prepend(labels, ReadSegment(b, end, links))
    decreases |labels|
  {
    if labels == [] {
      PrependNothing(ReadSegment(b, p, links));
    } else {
      ReadHeadLabel(b, p, labels, links);
      var next := p + |Counted(labels[0])|;
      ReadWireLabels(b, next, labels[1..], end, links);
      PrependTwice(labels, ReadSegment(b, p, links), ReadSegment(b, next, links), ReadSegment(b, end, links));
    }
  }

  lemma ReadHeadLabel(b: bytes, p: nat, labels: seq<bytes>, links: bool)
    requires labels != [] && ProperLabels(labels) && OccursAt(b, WireLabels(labels), p)
    ensures ProperLabels(labels[1..])
    ensures OccursAt(b, WireLabels(labels[1..]), p + |Counted(labels[0])|)
    ensures |WireLabels(labels)| == |Counted(labels[0])| + |WireLabels(labels[1..])|
    ensures ReadSegment(b, p, links) == Prepend([labels[0]], ReadSegment(b, p + |Counted(labels[0])|, links))
  {
    var head, rest := Counted(labels[0]), WireLabels(labels[1..]);
    assert WireLabels(labels) == head + rest;
    OccursSplit(b, head, rest, p);
    ReadCounted(b, p, labels[0], links);
  }

  lemma PrependTwice(labels: seq<bytes>, whole: Segment, part: Segment, last: Segment)
    requires labels != [] && whole == Prepend([labels[0]], part) && part == Prepend(labels[1..], last)
    ensures whole == Prepend(labels, last)
  {
    Regroup([labels[0]], labels[1..], last.labels);
    assert labels == [labels[0]] + labels[1..];
  }

  lemma OccursSplit(b: bytes, x: bytes, y: bytes, p: nat)
    requires OccursAt(b, x + y, p)
    ensures OccursAt(b, x, p) && OccursAt(b, y, p + |x|)
  {
    assert forall k :: 0 <= k < |x| ==> x[k] == (x + y)[k];
    assert forall k :: 0 <= k < |y| ==> y[k] == (x + y)[|x| + k];
  }

  /** A complete uncompressed name is read as its labels. */
  lemma ReadNeedle(b: bytes, p: nat, labels: seq<bytes>, links: bool)
    requires ProperLabels(labels) && OccursAt(b, Needle(labels, true), p)
    ensures ReadSegment(b, p, links) == Segment(labels, Root(p + |Needle(labels, true)|))
  {
    OccursSplit(b, WireLabels(labels), [0], p);
    var q := p + |WireLabels(labels)|;
    ReadWireLabels(b, p, labels, q, links);
    assert b[q] == [0][0];
    PrependEnd(labels, Root(q + 1));
  }

  // ---------- the shape of a compressed name ----------

  /** How many labels the writer puts down before a pointer (or before the root octet). */
  function Depth(w: bytes, labels: seq<bytes>, root: bool): (k: nat)
    ensures k <= |labels|
    decreases labels
  {
    if labels == [] || Tip(w, Needle(labels, root)).Some? then 0
    else 1 + Depth(w + Counted(labels[0]), labels[1..], root)
  }

  /** The position the pointer leads to, when there is one. */
  function FinalTip(w: bytes, labels: seq<bytes>, root: bool): Option<nat>
    decreases labels
  {
    if labels == [] then None
    else
      match Tip(w, Needle(labels, root))
      case Some(tip) => Some(tip)
      case None => FinalTip(w + Counted(labels[0]), labels[1..], root)
  }

  function Ending(tip: Option<nat>): bytes
  {
    if tip.Some? then PointerBytes(tip.value) else [0]
  }

  /** A compressed name is some whole labels and an ending; the ending points at a copy of the
      labels left out (with the root octet, when that was looked for), strictly inside what was
      written before. */
  lemma {:induction false} CompressedShape(w: bytes, labels: seq<bytes>, root: bool)
    ensures var k, tip := Depth(w, labels, root), FinalTip(w, labels, root);
            && CompressedBytes(w, labels, root) == WireLabels(labels[..k]) + Ending(tip)
            && (tip.None? ==> k == |labels|)
            && (tip.Some? ==>
                  && k < |labels|
                  && tip.value + |Needle(labels[k..], root)| < |w + WireLabels(labels[..k])|
                  && OccursAt(w + WireLabels(labels[..k]), Needle(labels[k..], root), tip.value))
    decreases labels
  {
    if labels == [] || Tip(w, Needle(labels, root)).Some? {
      assert w + WireLabels(labels[..0]) == w && labels[0..] == labels;
      assert WireLabels(labels[..0]) + Ending(FinalTip(w, labels, root)) == Ending(FinalTip(w, labels, root));
    } else {
      var head, rest := labels[0], labels[1..];
      var k := Depth(w + Counted(head), rest, root);
      CompressedShape(w + Counted(head), rest, root);
      SlicesOfCons(labels, k);
      Regroup(Counted(head), WireLabels(rest[..k]), Ending(FinalTip(w, labels, root)));
      Regroup(w, Counted(head), WireLabels(rest[..k]));
    }
  }

  lemma SlicesOfCons(labels: seq<bytes>, k: nat)
    requires k < |labels|
    ensures labels[k + 1..] == labels[1..][k..]
    ensures WireLabels(labels[..k + 1]) == Counted(labels[0]) + WireLabels(labels[1..][..k])
  {
    assert labels[..k + 1][1..] == labels[1..][..k];
  }

  // ---------- reading it back ----------

  lemma OccursInPrefix(w: bytes, b: bytes, needle: bytes, t: nat)
    requires w <= b && OccursAt(w, needle, t)
    ensures OccursAt(b, needle, t)
  {
  }

  lemma OccursAfter(w: bytes, x: bytes, b: bytes)
    requires w + x <= b
    ensures OccursAt(b, x, |w|)
  {
    assert forall k :: 0 <= k < |x| ==> x[k] == (w + x)[|w| + k];
  }

  lemma ProperSlices(labels: seq<bytes>, k: nat)
    requires ProperLabels(labels) && k <= |labels|
    ensures ProperLabels(labels[..k]) && ProperLabels(labels[k..])
    ensures labels == labels[..k] + labels[k..]
  {
  }

  /** In `b`, the copy is still there that the pointer of the written name leads to. */
  ghost predicate Intact(w: bytes, labels: seq<bytes>, root: bool, b: bytes)
  {
    FinalTip(w, labels, root).Some? ==>
      OccursAt(b, Needle(labels[Depth(w, labels, root)..], root), FinalTip(w, labels, root).value)
  }

  /** Whatever is written behind a name leaves the copy it points to alone. */
  lemma PrefixIntact(w: bytes, labels: seq<bytes>, root: bool, b: bytes)
    requires w + CompressedBytes(w, labels, root) <= b
    ensures Intact(w, labels, root, b) && OccursAt(b, CompressedBytes(w, labels, root), |w|)
  {
    var front := WireLabels(labels[..Depth(w, labels, root)]);
    OccursAfter(w, CompressedBytes(w, labels, root), b);
    CompressedShape(w, labels, root);
    if FinalTip(w, labels, root).Some? {
      var tip := FinalTip(w, labels, root).value;
      Regroup(w, front, PointerBytes(tip));
      assert w + front <= b;
      OccursInPrefix(w + front, b, Needle(labels[Depth(w, labels, root)..], root), tip);
    }
  }

  /** A name written without a pointer. */
  lemma ReadUncompressed(w: bytes, labels: seq<bytes>, root: bool, b: bytes)
    requires ProperLabels(labels) && FinalTip(w, labels, root).None?
    requires OccursAt(b, CompressedBytes(w, labels, root), |w|)
    ensures ReadSegment(b, |w|, true) == Segment(labels, Root(|w + CompressedBytes(w, labels, root)|))
  {
    CompressedShape(w, labels, root);
    assert labels[..|labels|] == labels;
    ReadNeedle(b, |w|, labels, true);
  }

  /** A compressed name: its first labels, and then the pointer at `at`. */
  lemma ReadCompressed(w: bytes, labels: seq<bytes>, root: bool, b: bytes, p: nat, k: nat, tip: nat, at: nat)
    requires ProperLabels(labels) && FinalTip(w, labels, root) == Some(tip) && k == Depth(w, labels, root)
    requires OccursAt(b, CompressedBytes(w, labels, root), p) && at == p + |WireLabels(labels[..k])|
    ensures OccursAt(b, PointerBytes(tip), at)
    ensures ReadSegment(b, p, true) == Prepend(labels[..k], ReadSegment(b, at, true))
  {
    CompressedShape(w, labels, root);
    ProperSlices(labels, k);
    ReadFront(b, p, labels[..k], tip, at);
  }

  lemma CompressedLength(w: bytes, labels: seq<bytes>, root: bool)
    requires FinalTip(w, labels, root).Some?
    ensures |w + CompressedBytes(w, labels, root)| == |w| + |WireLabels(labels[..Depth(w, labels, root)])| + 2
  {
    CompressedShape(w, labels, root);
  }

  lemma ReadFront(b: bytes, p: nat, front: seq<bytes>, tip: nat, at: nat)
    requires ProperLabels(front) && OccursAt(b, WireLabels(front) + PointerBytes(tip), p)
    requires at == p + |WireLabels(front)|
    ensures OccursAt(b, PointerBytes(tip), at)
    ensures ReadSegment(b, p, true) == Prepend(front, ReadSegment(b, at, true))
  {
    OccursSplit(b, WireLabels(front), PointerBytes(tip), p);
    ReadWireLabels(b, p, front, at, true);
  }

  lemma ReadCopy(b: bytes, tip: nat, labels: seq<bytes>, root: bool, copyEnd: nat)
    requires ProperLabels(labels) && OccursAt(b, Needle(labels, root), tip) && copyEnd == tip + |WireLabels(labels)|
    ensures copyEnd <= |b| && ReadSegment(b, tip, true) == Prepend(labels, ReadSegment(b, copyEnd, true))
    ensures root ==> copyEnd < |b| && b[copyEnd] == 0
  {
    NeedleParts(b, tip, labels, root, copyEnd);
    ReadWireLabels(b, tip, labels, copyEnd, true);
  }

  lemma NeedleParts(b: bytes, tip: nat, labels: seq<bytes>, root: bool, copyEnd: nat)
    requires OccursAt(b, Needle(labels, root), tip) && copyEnd == tip + |WireLabels(labels)|
    ensures OccursAt(b, WireLabels(labels), tip)
    ensures root ==> copyEnd < |b| && b[copyEnd] == 0
  {
    var ending: bytes := if root then [0] else [];
    OccursSplit(b, WireLabels(labels), ending, tip);
    assert root ==> ending[0] == 0;
  }

  /** Where the copy ends that a pointer leads to. */
  function CopyEnd(w: bytes, labels: seq<bytes>, root: bool): nat
    requires FinalTip(w, labels, root).Some?
  {
    FinalTip(w, labels, root).value + |WireLabels(labels[Depth(w, labels, root)..])|
  }

  /** The pointer of a compressed name leads to the labels left out, complete and strictly
      before it. */
  lemma ReadTarget(w: bytes, labels: seq<bytes>, root: bool, b: bytes)
    requires ProperLabels(labels) && FinalTip(w, labels, root).Some? && Intact(w, labels, root, b)
    ensures var k, tip, copyEnd := Depth(w, labels, root), FinalTip(w, labels, root).value, CopyEnd(w, labels, root);
            && k < |labels|
            && tip <= copyEnd < |w + CompressedBytes(w, labels, root)| - 2
            && copyEnd <= |b| && ReadSegment(b, tip, true) == Prepend(labels[k..], ReadSegment(b, copyEnd, true))
            && (root ==> copyEnd < |b| && b[copyEnd] == 0)
  {
    var k, tip := Depth(w, labels, root), FinalTip(w, labels, root).value;
    CompressedShape(w, labels, root);
    ProperSlices(labels, k);
    ReadCopy(b, tip, labels[k..], root, CopyEnd(w, labels, root));
  }

  /** The octets of a pointer, whatever the offset they were made from. */
  lemma ReadPointer(b: bytes, p: nat, tip: nat)
    requires OccursAt(b, PointerBytes(tip), p) && tip < 0x1_0000
    ensures tip < 0x4000 ==> ReadSegment(b, p, true) == Segment([], Pointer(tip, p + 2))
    ensures tip >= 0x4000 ==>
              var s := ReadSegment(b, p, true);
              match s.tail
              case Fault(_, _) => true
              case Root(next) => next != p + 2
              case Pointer(_, next) => next != p + 2
  {
    var octets := PointerBytes(tip);
    assert b[p] == octets[0] && b[p + 1] == octets[1];
    if tip < 0x4000 {
      assert ReadItem(b, p, true) == Last(Pointer(tip, p + 2));
    } else {
      assert b[p] == tip / 256 - 64;
      var item := ReadItem(b, p, true);
      assert item.Label? ==> item.next >= p + 2;
    }
  }

  ghost predicate ReadsBack(b: bytes, p: nat, text: bytes, end: nat)
    requires p <= |b|
  {
    ReadName(b, p, [], true) == Reading(Ok(text), end, [])
  }

  /** What it takes for the written name to be readable: no pointer, or an offset of fourteen
      bits to a copy that ends at the root, with something left in the buffer behind it. */
  ghost predicate Readable(w: bytes, labels: seq<bytes>, root: bool, b: bytes, end: nat)
  {
    match FinalTip(w, labels, root)
    case None => true
    case Some(tip) =>
      tip < 0x4000 && end < |b| && (root || (CopyEnd(w, labels, root) < |b| && b[CopyEnd(w, labels, root)] == 0))
  }

  /** Name compression round trip, section 4.1.4 of RFC 1035. In any buffer of up to 65536
      octets with any octets `w` already written, a proper name written after them reads back
      as itself (less a final dot), with the reader stopping where the writer stopped, exactly
      when it was written without a pointer, or the pointer's offset fits in fourteen bits, the
      pointer is not the last thing in the buffer and, for a name with a final dot, the copy
      found happens to be a whole name. */
  lemma NameRoundTrip(w: bytes, value: bytes, b: bytes)
    requires ProperName(value) && NameBytes(w, value, true).Ok?
    requires w + NameBytes(w, value, true).value <= b && |b| <= 0x1_0000
    ensures var end := |w + NameBytes(w, value, true).value|;
            ReadsBack(b, |w|, NameText(value), end) <==> Readable(w, NameLabels(value), !EndsInDot(value), b, end)
  {
    JoinNameLabels(value);
    PrefixIntact(w, NameLabels(value), !EndsInDot(value), b);
    LabelsRoundTrip(w, NameLabels(value), !EndsInDot(value), b);
  }

  lemma LabelsRoundTrip(w: bytes, labels: seq<bytes>, root: bool, b: bytes)
    requires ProperLabels(labels) && |Join(labels)| <= MAX_DOMAIN_LEN
    requires OccursAt(b, CompressedBytes(w, labels, root), |w|) && Intact(w, labels, root, b) && |b| <= 0x1_0000
    ensures var end := |w + CompressedBytes(w, labels, root)|;
            ReadsBack(b, |w|, Join(labels), end) <==> Readable(w, labels, root, b, end)
  {
    if FinalTip(w, labels, root).None? {
      ReadUncompressed(w, labels, root, b);
    } else {
      PointedRoundTrip(w, labels, root, b, |w + CompressedBytes(w, labels, root)|, FinalTip(w, labels, root).value);
    }
  }

  lemma PointedRoundTrip(w: bytes, labels: seq<bytes>, root: bool, b: bytes, end: nat, tip: nat)
    requires ProperLabels(labels) && |Join(labels)| <= MAX_DOMAIN_LEN
    requires OccursAt(b, CompressedBytes(w, labels, root), |w|) && Intact(w, labels, root, b) && |b| <= 0x1_0000
    requires end == |w + CompressedBytes(w, labels, root)| && FinalTip(w, labels, root) == Some(tip)
    ensures ReadsBack(b, |w|, Join(labels), end) <==> Readable(w, labels, root, b, end)
  {
    PointsBack(w, labels, root, b, end, tip);
    PointerRoundTrip(b, |w|, labels, Depth(w, labels, root), tip, CopyEnd(w, labels, root), end);
    assert root ==> b[CopyEnd(w, labels, root)] == 0 by { ReadTarget(w, labels, root, b); }
  }

  /** The segment at `p` ends, just before `end`, in a pointer to `tip`, and the labels it
      leaves out stand there, up to `copyEnd`. */
  ghost predicate Pointed(b: bytes, p: nat, labels: seq<bytes>, k: nat, tip: nat, copyEnd: nat, end: nat)
  {
    && k < |labels| && p + 2 <= end <= |b| && tip <= copyEnd < |b|
    && OccursAt(b, PointerBytes(tip), end - 2)
    && ReadSegment(b, p, true) == Prepend(labels[..k], ReadSegment(b, end - 2, true))
    && ReadSegment(b, tip, true) == Prepend(labels[k..], ReadSegment(b, copyEnd, true))
  }

  lemma PointsBack(w: bytes, labels: seq<bytes>, root: bool, b: bytes, end: nat, tip: nat)
    requires ProperLabels(labels)
    requires OccursAt(b, CompressedBytes(w, labels, root), |w|) && Intact(w, labels, root, b)
    requires end == |w + CompressedBytes(w, labels, root)| && FinalTip(w, labels, root) == Some(tip)
    ensures Pointed(b, |w|, labels, Depth(w, labels, root), tip, CopyEnd(w, labels, root), end)
  {
    var k, copyEnd := Depth(w, labels, root), CopyEnd(w, labels, root);
    var at := |w| + |WireLabels(labels[..k])|;
    CompressedLength(w, labels, root);
    ReadCompressed(w, labels, root, b, |w|, k, tip, at);
    TargetParts(w, labels, root, b, k, tip, copyEnd, end);
    PointedParts(b, |w|, labels, k, tip, copyEnd, end, at);
  }

  lemma TargetParts(w: bytes, labels: seq<bytes>, root: bool, b: bytes, k: nat, tip: nat, copyEnd: nat, end: nat)
    requires ProperLabels(labels) && FinalTip(w, labels, root) == Some(tip) && Intact(w, labels, root, b)
    requires k == Depth(w, labels, root) && copyEnd == CopyEnd(w, labels, root)
    requires end == |w + CompressedBytes(w, labels, root)| <= |b|
    ensures k < |labels| && tip <= copyEnd < |b|
    ensures ReadSegment(b, tip, true) == Prepend(labels[k..], ReadSegment(b, copyEnd, true))
  {
    ReadTarget(w, labels, root, b);
  }

  lemma PointedParts(b: bytes, p: nat, labels: seq<bytes>, k: nat, tip: nat, copyEnd: nat, end: nat, at: nat)
    requires k < |labels| && p <= at && at + 2 == end <= |b| && tip <= copyEnd < |b|
    requires OccursAt(b, PointerBytes(tip), at)
    requires ReadSegment(b, p, true) == Prepend(labels[..k], ReadSegment(b, at, true))
    requires ReadSegment(b, tip, true) == Prepend(labels[k..], ReadSegment(b, copyEnd, true))
    ensures Pointed(b, p, labels, k, tip, copyEnd, end)
  {
  }

  lemma PointerRoundTrip(b: bytes, p: nat, labels: seq<bytes>, k: nat, tip: nat, copyEnd: nat, end: nat)
    requires ProperLabels(labels) && |Join(labels)| <= MAX_DOMAIN_LEN && |b| <= 0x1_0000
    requires Pointed(b, p, labels, k, tip, copyEnd, end)
    ensures ReadsBack(b, p, Join(labels), end) <==> tip < 0x4000 && end < |b| && b[copyEnd] == 0
  {
    ReadPointer(b, end - 2, tip);
    if tip >= 0x4000 {
      WrongEnd(b, p, labels[..k], end);
    } else {
      PrependEnd(labels[..k], Pointer(tip, end));
      FollowPointer(b, p, labels, k, tip, copyEnd, end);
    }
  }

  lemma FollowPointer(b: bytes, p: nat, labels: seq<bytes>, k: nat, tip: nat, copyEnd: nat, end: nat)
    requires ProperLabels(labels) && |Join(labels)| <= MAX_DOMAIN_LEN && k < |labels|
    requires p <= |b| && tip < |b| && copyEnd < |b|
    requires ReadSegment(b, p, true) == Segment(labels[..k], Pointer(tip, end))
    requires ReadSegment(b, tip, true) == Prepend(labels[k..], ReadSegment(b, copyEnd, true))
    ensures ReadsBack(b, p, Join(labels), end) <==> end < |b| && b[copyEnd] == 0
  {
    ProperSlices(labels, k);
    if b[copyEnd] == 0 {
      PrependEnd(labels[k..], Root(copyEnd + 1));
      CompressedReads(b, p, labels, k, tip, end);
    } else {
      WrongText(b, p, labels[..k], labels[k..], tip, end, ReadSegment(b, copyEnd, true));
    }
  }

  lemma WrongEnd(b: bytes, p: nat, labels: seq<bytes>, end: nat)
    requires p <= |b| && 2 <= end <= |b|
    requires ReadSegment(b, p, true) == Prepend(labels, ReadSegment(b, end - 2, true))
    requires match ReadSegment(b, end - 2, true).tail
             case Fault(_, _) => true
             case Root(next) => next != end
             case Pointer(_, next) => next != end
    ensures !(ReadName(b, p, [], true).name.Ok? && ReadName(b, p, [], true).pos == end)
  {
  }

  /** A pointer to labels that go on reads as a longer text, if it reads at all. */
  lemma WrongText(b: bytes, p: nat, front: seq<bytes>, back: seq<bytes>, tip: nat, end: nat, rest: Segment)
    requires p <= |b| && tip < |b| && ProperLabels(front) && ProperLabels(back) && back != []
    requires ReadSegment(b, p, true) == Segment(front, Pointer(tip, end))
    requires ReadSegment(b, tip, true) == Prepend(back, rest)
    requires rest.labels != [] || !rest.tail.Root?
    ensures ReadName(b, p, [], true).name != Ok(Join(front + back))
  {
    if ReadName(b, p, [], true).name.Ok? {
      var sub := TextThroughPointer(b, p, front, tip, end);
      LongerText(b, tip, [p], back, rest);
      JoinConcat(front, back);
    }
  }

  lemma TextThroughPointer(b: bytes, p: nat, front: seq<bytes>, tip: nat, end: nat) returns (sub: bytes)
    requires p <= |b| && tip < |b| && ReadSegment(b, p, true) == Segment(front, Pointer(tip, end))
    requires ReadName(b, p, [], true).name.Ok?
    ensures ReadName(b, tip, [p], true).name == Ok(sub)
    ensures ReadName(b, p, [], true).name == Ok(Extend(Join(front), sub))
  {
    assert [] + [p] == [p];
    sub := ReadName(b, tip, [p], true).name.value;
  }

  lemma LongerText(b: bytes, p: nat, visited: seq<nat>, labels: seq<bytes>, rest: Segment)
    requires p <= |b| && Distinct(visited) && Bounded(visited, |b| + 1)
    requires ProperLabels(labels) && labels != []
    requires ReadSegment(b, p, true) == Prepend(labels, rest)
    requires rest.labels != [] || !rest.tail.Root?
    ensures ReadName(b, p, visited, true).name.Ok? ==>
              |ReadName(b, p, visited, true).name.value| > |Join(labels)|
  {
    ProperRest(labels, rest.labels);
    JoinLonger(labels, rest.labels);
    if ReadName(b, p, visited, true).name.Ok? {
      TextAtLeast(b, p, visited);
    }
  }

  lemma TextAtLeast(b: bytes, p: nat, visited: seq<nat>)
    requires p <= |b| && Distinct(visited) && Bounded(visited, |b| + 1)
    requires ReadName(b, p, visited, true).name.Ok? && Join(ReadSegment(b, p, true).labels) != []
    ensures !ReadSegment(b, p, true).tail.Fault?
    ensures |ReadName(b, p, visited, true).name.value| >=
            |Join(ReadSegment(b, p, true).labels)| + if ReadSegment(b, p, true).tail.Pointer? then 1 else 0
  {
  }

  lemma JoinLonger(a: seq<bytes>, b: seq<bytes>)
    requires ProperLabels(a) && ProperLabels(b) && a != []
    ensures |Join(a + b)| >= |Join(a)| + if b == [] then 0 else 1
    ensures Join(a + b) != []
  {
    JoinConcat(a, b);
    JoinEmpty(a);
    assert b == [] ==> a + b == a;
  }

  lemma ProperRest(a: seq<bytes>, b: seq<bytes>)
    requires ProperLabels(a + b)
    ensures ProperLabels(b)
  {
    assert forall i :: 0 <= i < |b| ==> b[i] == (a + b)[|a| + i];
  }

  lemma CompressedReads(b: bytes, p: nat, labels: seq<bytes>, k: nat, tip: nat, end: nat)
    requires ProperLabels(labels) && k < |labels| && p <= |b| && tip < |b| && |Join(labels)| <= MAX_DOMAIN_LEN
    requires ReadSegment(b, p, true) == Segment(labels[..k], Pointer(tip, end))
    requires ReadSegment(b, tip, true).labels == labels[k..] && ReadSegment(b, tip, true).tail.Root?
    ensures ReadsBack(b, p, Join(labels), end) <==> end < |b|
  {
    ProperSlices(labels, k);
    JoinConcat(labels[..k], labels[k..]);
    ReadThroughPointer(b, p, labels[..k], tip, end, labels[k..]);
  }

  lemma ReadThroughPointer(b: bytes, p: nat, front: seq<bytes>, tip: nat, end: nat, back: seq<bytes>)
    requires p <= |b| && tip < |b| && |Join(back)| <= MAX_DOMAIN_LEN
    requires ReadSegment(b, p, true) == Segment(front, Pointer(tip, end))
    requires ReadSegment(b, tip, true).labels == back && ReadSegment(b, tip, true).tail.Root?
    ensures ReadName(b, p, [], true) ==
            if end >= |b| then Reading(Err(PositionBehindBuffer), ReadSegment(b, tip, true).tail.next, [p])
            else Finish(Extend(Join(front), Join(back)), end, [])
  {
    assert [] + [p] == [p];
    assert tip !in [p];
    ReadRoot(b, tip, [p], back);
  }

  lemma ReadRoot(b: bytes, p: nat, visited: seq<nat>, labels: seq<bytes>)
    requires p <= |b| && p !in visited && Distinct(visited) && Bounded(visited, |b| + 1)
    requires ReadSegment(b, p, true).labels == labels && ReadSegment(b, p, true).tail.Root?
    ensures ReadName(b, p, visited, true) == Finish(Join(labels), ReadSegment(b, p, true).tail.next, visited)
  {
  }

  /** A pointer that is the last thing in the buffer is followed, but then refused. */
  lemma PointerAtEndRefused(w: bytes, labels: seq<bytes>, b: bytes)
    requires ProperLabels(labels) && |Join(labels)| <= MAX_DOMAIN_LEN && |b| <= 0x4000
    requires OccursAt(b, CompressedBytes(w, labels, true), |w|) && Intact(w, labels, true, b)
    requires FinalTip(w, labels, true).Some? && |w + CompressedBytes(w, labels, true)| == |b|
    ensures ReadName(b, |w|, [], true).name == Err(PositionBehindBuffer)
  {
    PointsBack(w, labels, true, b, |b|, FinalTip(w, labels, true).value);
    ReadTarget(w, labels, true, b);
    RefusedAtEnd(b, |w|, labels, Depth(w, labels, true), FinalTip(w, labels, true).value, CopyEnd(w, labels, true));
  }

  lemma JoinSuffix(labels: seq<bytes>, k: nat)
    requires ProperLabels(labels) && k <= |labels|
    ensures |Join(labels[k..])| <= |Join(labels)|
  {
    ProperSlices(labels, k);
    JoinConcat(labels[..k], labels[k..]);
    assert k == |labels| ==> labels[k..] == [];
  }

  lemma RefusedAtEnd(b: bytes, p: nat, labels: seq<bytes>, k: nat, tip: nat, copyEnd: nat)
    requires ProperLabels(labels) && |Join(labels)| <= MAX_DOMAIN_LEN && |b| <= 0x4000
    requires Pointed(b, p, labels, k, tip, copyEnd, |b|) && b[copyEnd] == 0
    ensures ReadName(b, p, [], true).name == Err(PositionBehindBuffer)
  {
    ReadPointer(b, |b| - 2, tip);
    PrependEnd(labels[..k], Pointer(tip, |b|));
    PrependEnd(labels[k..], Root(copyEnd + 1));
    JoinSuffix(labels, k);
    RefusedThroughPointer(b, p, labels[..k], tip, labels[k..]);
  }

  lemma RefusedThroughPointer(b: bytes, p: nat, front: seq<bytes>, tip: nat, back: seq<bytes>)
    requires p <= |b| && tip < |b| && |Join(back)| <= MAX_DOMAIN_LEN
    requires ReadSegment(b, p, true) == Segment(front, Pointer(tip, |b|))
    requires ReadSegment(b, tip, true).labels == back && ReadSegment(b, tip, true).tail.Root?
    ensures ReadName(b, p, [], true).name == Err(PositionBehindBuffer)
  {
    ReadThroughPointer(b, p, front, tip, |b|, back);
  }

  /** Without compression a proper name always reads back, links allowed or not. */
  lemma UncompressedRoundTrip(w: bytes, value: bytes, b: bytes, links: bool)
    requires ProperName(value) && !EndsInDot(value) && NameBytes(w, value, false).Ok?
    requires w + NameBytes(w, value, false).value <= b
    ensures ReadName(b, |w|, [], links) == Reading(Ok(value), |w + NameBytes(w, value, false).value|, [])
  {
    JoinNameLabels(value);
    OccursAfter(w, Needle(NameLabels(value), true), b);
    ReadNeedle(b, |w|, NameLabels(value), links);
  }
}
