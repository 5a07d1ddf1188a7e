/** What a name needs to read back when zeros before it are overwritten: the copy its pointer leads to
    (dnslib/buffer.cpp, dnslib/rr.cpp). */
module DnsCopies {
  import opened Wrappers
  import opened DnsWire
  import opened DnsNames
  import opened DnsCompression
  import opened DnsFields

  // ---------- a copy in which zeros were overwritten ----------

  /** `b` begins like `a`, except that some of the zeros of `a` were overwritten. */
  ghost predicate OnlyZeros(a: bytes, b: bytes)
  {
    |a| <= |b| && forall i :: 0 <= i < |a| ==> a[i] == b[i] || a[i] == 0
  }

  ghost predicate SameLengths(xs: seq<bytes>, ys: seq<bytes>)
  {
    |xs| == |ys| && forall i :: 0 <= i < |xs| ==> |xs[i]| == |ys[i]|
  }

  /** Length octets are not zero, so that labels of the same lengths stand where labels stood. */
  lemma {:induction false} LabelsStay(a: bytes, b: bytes, p: nat, labels: seq<bytes>) returns (xs: seq<bytes>)
    requires OnlyZeros(a, b) && ProperLabels(labels) && OccursAt(a, WireLabels(labels), p)
    ensures SameLengths(xs, labels) && ProperLabels(xs)
    ensures OccursAt(b, WireLabels(xs), p) && |WireLabels(xs)| == |WireLabels(labels)|
    decreases |labels|
  {
    if labels == [] {
      xs := [];
    } else {
      var head, rest := labels[0], labels[1..];
      var next := p + |Counted(head)|;
      OccursSplit(a, Counted(head), WireLabels(rest), p);
      var ys := LabelsStay(a, b, next, rest);
      var x := b[p + 1..next];
      LabelStays(a, b, p, head, x, next);
      xs := [x] + ys;
      OccursJoined(b, Counted(x), WireLabels(ys), p, next);
      assert xs[1..] == ys;
    }
  }

  lemma LabelStays(a: bytes, b: bytes, p: nat, head: bytes, x: bytes, next: nat)
    requires OnlyZeros(a, b) && 1 <= |head| <= MAX_LABEL_LEN && OccursAt(a, Counted(head), p)
    requires next == p + |Counted(head)| && x == b[p + 1..next]
    ensures |x| == |head| && OccursAt(b, Counted(x), p)
  {
    assert a[p] == Counted(head)[0] == |head|;
    assert b[p..next] == [b[p]] + x == Counted(x);
    OccursAsSlice(b, Counted(x), p);
  }

  lemma OccursJoined(b: bytes, x: bytes, y: bytes, p: nat, next: nat)
    requires OccursAt(b, x, p) && next == p + |x| && OccursAt(b, y, next)
    ensures OccursAt(b, x + y, p)
  {
    assert forall k :: |x| <= k < |x| + |y| ==> (x + y)[k] == y[k - |x|] == b[next + (k - |x|)];
  }

  lemma JoinOneMore(fx: seq<bytes>, x: bytes, fy: seq<bytes>, y: bytes)
    requires |Join(fx)| == |Join(fy)| && |x| == |y| && (Join(fx) == Join(fy) ==> fx == fy)
    ensures |Join(fx + [x])| == |Join(fy + [y])|
    ensures Join(fx + [x]) == Join(fy + [y]) ==> fx + [x] == fy + [y]
  {
    JoinSnoc(fx, x);
    JoinSnoc(fy, y);
    ExtendParts(Join(fx), x, Join(fy), y);
  }

  lemma WithoutLast(xs: seq<bytes>, ys: seq<bytes>, n: nat)
    requires SameLengths(xs, ys) && |xs| == n + 1
    ensures SameLengths(xs[..n], ys[..n]) && |xs[n]| == |ys[n]|
    ensures xs == xs[..n] + [xs[n]] && ys == ys[..n] + [ys[n]]
  {
  }

  /** Texts of labels of the same lengths have the same length, and are equal only if the labels are. */
  lemma {:induction false} JoinSameLengths(xs: seq<bytes>, ys: seq<bytes>)
    requires SameLengths(xs, ys)
    ensures |Join(xs)| == |Join(ys)|
    ensures Join(xs) == Join(ys) ==> xs == ys
    decreases |xs|
  {
    if xs != [] {
      var n := |xs| - 1;
      WithoutLast(xs, ys, n);
      JoinSameLengths(xs[..n], ys[..n]);
      JoinOneMore(xs[..n], xs[n], ys[..n], ys[n]);
    }
  }

  lemma ExtendParts(a: bytes, x: bytes, b: bytes, y: bytes)
    requires |a| == |b| && |x| == |y|
    ensures |Extend(a, x)| == |Extend(b, y)|
    ensures Extend(a, x) == Extend(b, y) ==> a == b && x == y
  {
    if a != [] && Extend(a, x) == Extend(b, y) {
      var n := |a|;
      assert a == Extend(a, x)[..n] && b == Extend(b, y)[..n];
      assert x == Extend(a, x)[n + 1..] && y == Extend(b, y)[n + 1..];
    }
  }

  lemma ExtendSame(a: bytes, x: bytes, y: bytes)
    requires Extend(a, x) == Extend(a, y)
    ensures x == y
  {
    if a != [] {
      assert x == Extend(a, x)[|a| + 1..] && y == Extend(a, y)[|a| + 1..];
    }
  }

  // ---------- names ----------

  /** The labels the pointer leads to: as many, and as long, as when it was written. */
  lemma ReadOverwritten(a: bytes, b: bytes, tip: nat, back: seq<bytes>, copyEnd: nat) returns (xs: seq<bytes>)
    requires OnlyZeros(a, b) && ProperLabels(back) && OccursAt(a, Needle(back, true), tip)
    requires copyEnd == tip + |WireLabels(back)|
    ensures SameLengths(xs, back) && ProperLabels(xs)
    ensures copyEnd < |b| && ReadSegment(b, tip, true) == Prepend(xs, ReadSegment(b, copyEnd, true))
    ensures xs == back && b[copyEnd] == 0 ==> OccursAt(b, Needle(back, true), tip)
  {
    OccursSplit(a, WireLabels(back), [0], tip);
    xs := LabelsStay(a, b, tip, back);
    ReadWireLabels(b, tip, xs, copyEnd, true);
    if xs == back && b[copyEnd] == 0 {
      OccursJoined(b, WireLabels(back), [0], tip, copyEnd);
    }
  }

  /** A text that is the one written shows that the copy still stands. */
  lemma CopyNeeded(a: bytes, b: bytes, p: nat, front: seq<bytes>, back: seq<bytes>, tip: nat, end: nat)
    requires OnlyZeros(a, b) && ProperLabels(front) && ProperLabels(back) && back != []
    requires OccursAt(a, Needle(back, true), tip) && p <= |b| && tip < |b|
    requires ReadSegment(b, p, true) == Segment(front, Pointer(tip, end))
    requires ReadName(b, p, [], true).name == Ok(Join(front + back))
    ensures OccursAt(b, Needle(back, true), tip)
  {
    var sub := TextThroughPointer(b, p, front, tip, end);
    JoinConcat(front, back);
    ExtendSame(Join(front), sub, Join(back));
    var copyEnd := tip + |WireLabels(back)|;
    var xs := ReadOverwritten(a, b, tip, back, copyEnd);
    JoinSameLengths(xs, back);
    SameTextSameCopy(b, p, tip, xs, copyEnd, sub);
  }

  lemma SameTextSameCopy(b: bytes, p: nat, tip: nat, xs: seq<bytes>, copyEnd: nat, sub: bytes)
    requires p <= |b| && tip <= |b| && copyEnd < |b| && ProperLabels(xs) && xs != []
    requires ReadSegment(b, tip, true) == Prepend(xs, ReadSegment(b, copyEnd, true))
    requires ReadName(b, tip, [p], true).name == Ok(sub) && |sub| == |Join(xs)|
    ensures sub == Join(xs) && b[copyEnd] == 0
  {
    var rest := ReadSegment(b, copyEnd, true);
    if rest.labels != [] || !rest.tail.Root? {
      LongerText(b, tip, [p], xs, rest);
    } else {
      assert xs + [] == xs;
      ReadRoot(b, tip, [p], xs);
    }
  }

  lemma PrefixOnlyZeros(a: bytes, more: bytes, b: bytes)
    requires OnlyZeros(a + more, b)
    ensures OnlyZeros(a, b)
  {
    assert forall i :: 0 <= i < |a| ==> a[i] == (a + more)[i];
  }

  /** A compressed name that reads back still has the copy its pointer leads to. */
  lemma NameNeedsCopy(w: bytes, labels: seq<bytes>, b: bytes)
    requires ProperLabels(labels) && |b| <= 0x4000
    requires OnlyZeros(w + CompressedBytes(w, labels, true), b)
    requires OccursAt(b, CompressedBytes(w, labels, true), |w|)
    requires ReadName(b, |w|, [], true).name == Ok(Join(labels))
    ensures Intact(w, labels, true, b)
  {
    if FinalTip(w, labels, true).Some? {
      var k, tip := Depth(w, labels, true), FinalTip(w, labels, true).value;
      var front, back := labels[..k], labels[k..];
      CompressedShape(w, labels, true);
      ProperSlices(labels, k);
      Regroup(w, WireLabels(front), PointerBytes(tip));
      PrefixOnlyZeros(w + WireLabels(front), PointerBytes(tip), b);
      PointerThere(w, labels, b, k, tip, |w| + |WireLabels(front)|);
      CopyNeeded(w + WireLabels(front), b, |w|, front, back, tip, |w| + |WireLabels(front)| + 2);
    }
  }

  lemma PointerThere(w: bytes, labels: seq<bytes>, b: bytes, k: nat, tip: nat, at: nat)
    requires ProperLabels(labels) && FinalTip(w, labels, true) == Some(tip) && k == Depth(w, labels, true)
    requires OccursAt(b, CompressedBytes(w, labels, true), |w|) && at == |w| + |WireLabels(labels[..k])|
    requires tip < |b| <= 0x4000
    ensures ReadSegment(b, |w|, true) == Segment(labels[..k], Pointer(tip, at + 2))
  {
    ReadCompressed(w, labels, true, b, |w|, k, tip, at);
    ReadPointer(b, at, tip);
    PrependEnd(labels[..k], Pointer(tip, at + 2));
  }

  // ---------- fields ----------

  lemma FieldNeedsCopy(w: bytes, f: Field, octets: bytes, b: bytes, p: nat)
    requires WellFormed(f) && FieldBytes(w, f) == Ok(octets) && OccursAt(b, octets, p) && p == |w|
    requires OnlyZeros(w + octets, b) && |b| <= 0x4000
    requires ReadField(b, p, KindOf(f)).Ok? && ReadField(b, p, KindOf(f)).value.0 == f
    ensures Stands(w, f, b)
  {
    if f.Name? && f.compressed {
      JoinNameLabels(f.text);
      ProperNameBytes(w, f.text);
      NameNeedsCopy(w, NameLabels(f.text), b);
    }
  }

  /** Fields that read back as they were written all stand. */
  lemma {:induction false} FieldsNeedCopies(w: bytes, fs: seq<Field>, octets: bytes, b: bytes, p: nat)
    requires AllWellFormed(fs) && FieldsBytes(w, fs) == Ok(octets) && OccursAt(b, octets, p) && p == |w|
    requires OnlyZeros(w + octets, b) && |b| <= 0x4000
    requires ReadFields(b, p, KindsOf(fs)).Ok? && ReadFields(b, p, KindsOf(fs)).value.0 == fs
    ensures AllStand(w, fs, b)
    decreases |fs|
  {
    if fs != [] {
      var first := FieldBytes(w, fs[0]).value;
      var rest := FieldsBytes(w + first, fs[1..]).value;
      var next := p + |first|;
      FieldsTail(fs);
      OccursSplit(b, first, rest, p);
      Regroup(w, first, rest);
      PrefixOnlyZeros(w + first, rest, b);
      FirstReads(b, p, fs);
      FieldNeedsCopy(w, fs[0], first, b, p);
      FieldRoundTrip(w, fs[0], first, b, p, next, EndsInPointer(w, fs[0]) && next == |b|);
      FieldsNeedCopies(w + first, fs[1..], rest, b, next);
    }
  }

  lemma FirstReads(b: bytes, p: nat, fs: seq<Field>)
    requires p <= |b| && fs != [] && KindsOf(fs) == [KindOf(fs[0])] + KindsOf(fs[1..])
    requires ReadFields(b, p, KindsOf(fs)).Ok? && ReadFields(b, p, KindsOf(fs)).value.0 == fs
    ensures var first := ReadField(b, p, KindOf(fs[0]));
            && first.Ok? && first.value.0 == fs[0]
            && ReadFields(b, first.value.1, KindsOf(fs[1..])).Ok?
            && ReadFields(b, first.value.1, KindsOf(fs[1..])).value.0 == fs[1..]
  {
    var first := ReadField(b, p, KindOf(fs[0]));
    var rest := ReadFields(b, first.value.1, KindsOf(fs[1..]));
    assert KindsOf(fs)[1..] == KindsOf(fs[1..]);
    assert fs == [first.value.0] + rest.value.0;
  }
}
