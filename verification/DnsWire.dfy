/** The wire form of domain names, section 4.1.4 of RFC 1035, as values. */
module DnsWire {
  import opened Wrappers
  import opened Buffers

  const DOT: byte := 46
  const MAX_LABEL_LEN := 63
  const MAX_DOMAIN_LEN := 255

  // The exceptions thrown by the codec, one constructor per message text. LayoutOverrun is none of
  // them: it stands for a write behind the end of the encoder's local array, after which nothing is
  // promised.
  datatype Error =
    | BehindBuffer
    | PositionBehindBuffer
    | EndlessLoop
    | LinkNotAllowed
    | LabelTooLong
    | DecodedNameTooLong
    | NameTooLong
    | MessageTooLong
    | MessageNotEmpty
    | WrongRDataSize
    | LayoutOverrun

  // ---------- text form ----------

  /** The labels joined with dots. */
  function Join(labels: seq<bytes>): bytes
  {
    if labels == [] then [] else Extend(Join(labels[..|labels| - 1]), labels[|labels| - 1])
  }

  /** The decoder's way of appending: a dot only when something is there already. */
  function Extend(domain: bytes, more: bytes): bytes
  {
    if domain == [] then more else domain + [DOT] + more
  }

  lemma JoinSnoc(labels: seq<bytes>, more: bytes)
    ensures Join(labels + [more]) == Extend(Join(labels), more)
  {
    assert (labels + [more])[..|labels|] == labels;
  }

  lemma {:induction false} JoinEmpty(labels: seq<bytes>)
    requires ProperLabels(labels)
    ensures Join(labels) == [] <==> labels == []
  {
    if labels != [] {
      JoinEmpty(labels[..|labels| - 1]);
    }
  }

  /** Position of the first dot at or after `from`, or the length. */
  function DotFrom(value: bytes, from: nat): (i: nat)
    requires from <= |value|
    ensures from <= i <= |value|
    ensures i < |value| ==> value[i] == DOT
    ensures forall k :: from <= k < i ==> value[k] != DOT
    decreases |value| - from
  {
    if from == |value| || value[from] == DOT then from else DotFrom(value, from + 1)
  }

  /** The labels of the part of `value` from `from` on; a final dot opens no label. */
  function LabelsFrom(value: bytes, from: nat): seq<bytes>
    requires from <= |value|
    decreases |value| - from
  {
    var end := DotFrom(value, from);
    if end + 1 >= |value| then [value[from..end]]
    else [value[from..end]] + LabelsFrom(value, end + 1)
  }

  predicate EndsInDot(value: bytes)
  {
    value != [] && value[|value| - 1] == DOT
  }

  // ---------- wire form ----------

  predicate ShortLabels(labels: seq<bytes>)
  {
    forall i :: 0 <= i < |labels| ==> |labels[i]| <= MAX_LABEL_LEN
  }

  predicate ProperLabels(labels: seq<bytes>)
  {
    forall i :: 0 <= i < |labels| ==> 1 <= |labels[i]| <= MAX_LABEL_LEN
  }

  /** Octets preceded by their number, which is stored in one octet: a label of a name, or a
      character string of section 3.3 of RFC 1035. */
  function Counted(octets: bytes): bytes
  {
    [|octets| % 256] + octets
  }

  function WireLabels(labels: seq<bytes>): bytes
  {
    if labels == [] then [] else Counted(labels[0]) + WireLabels(labels[1..])
  }

  lemma {:induction false} WireLabelsConcat(a: seq<bytes>, b: seq<bytes>)
    ensures WireLabels(a + b) == WireLabels(a) + WireLabels(b)
  {
    if a == [] {
      assert a + b == b;
    } else {
      WireLabelsConcat(a[1..], b);
      assert (a + b)[1..] == a[1..] + b;
      Regroup(Counted(a[0]), WireLabels(a[1..]), WireLabels(b));
    }
  }

  lemma WireLabelsSnoc(labels: seq<bytes>, more: bytes)
    ensures WireLabels(labels + [more]) == WireLabels(labels) + Counted(more)
  {
    WireLabelsConcat(labels, [more]);
    assert [more][1..] == [];
  }

  /** What the writer searches for: the labels, and the root's zero octet unless the
      text ended in a dot. */
  function Needle(labels: seq<bytes>, root: bool): bytes
  {
    WireLabels(labels) + if root then [0] else []
  }

  function PointerBytes(tip: nat): (r: bytes)
    ensures |r| == 2
  {
    Octets16(0xC000 + tip)
  }

  predicate OccursAt(w: bytes, needle: bytes, t: nat)
  {
    t + |needle| <= |w| && forall k :: 0 <= k < |needle| ==> needle[k] == w[t + k]
  }

  lemma OccursAsSlice(w: bytes, needle: bytes, t: nat)
    requires t + |needle| <= |w|
    ensures OccursAt(w, needle, t) <==> w[t..t + |needle|] == needle
  {
    if w[t..t + |needle|] == needle {
      assert forall k :: 0 <= k < |needle| ==> needle[k] == w[t..t + |needle|][k];
    }
  }

  /** First position at or after `from` where `needle` occurs in `w`, tried only below
      |w| - |needle|. */
  function TipFrom(w: bytes, needle: bytes, from: nat): (r: Option<nat>)
    ensures r.Some? ==> from <= r.value < |w| - |needle| && OccursAt(w, needle, r.value)
    ensures forall t :: from <= t < |w| - |needle| && (r.None? || t < r.value) ==> !OccursAt(w, needle, t)
    decreases |w| - from
  {
    if from >= |w| - |needle| then None
    else if OccursAt(w, needle, from) then Some(from)
    else TipFrom(w, needle, from + 1)
  }

  function Tip(w: bytes, needle: bytes): Option<nat>
  {
    TipFrom(w, needle, 0)
  }

  /** The octets appended for `labels` when `w` is what the buffer already holds. */
  function CompressedBytes(w: bytes, labels: seq<bytes>, root: bool): bytes
    decreases labels
  {
    if labels == [] then [0]
    else
      match Tip(w, Needle(labels, root))
      case Some(tip) => PointerBytes(tip)
      case None =>
        Counted(labels[0]) + CompressedBytes(w + Counted(labels[0]), labels[1..], root)
  }

  /** The wire form of the name, laid out in a local array of MAX_DOMAIN_LEN + 1 octets, does not fit
      there: the root octet behind the last label would be one too many. */
  predicate OverrunsLayout(value: bytes)
  {
    |value| == MAX_DOMAIN_LEN && !EndsInDot(value)
  }

  /** The octets putDnsDomainName appends, or the exception it throws before writing. */
  function NameBytes(w: bytes, value: bytes, compress: bool): Result<bytes, Error>
  {
    if |value| > MAX_DOMAIN_LEN then Err(NameTooLong)
    else if value == [] then Ok([0])
    else
      var labels := LabelsFrom(value, 0);
      if !ShortLabels(labels) then Err(LabelTooLong)
      else if OverrunsLayout(value) then Err(LayoutOverrun)
      else if compress then Ok(CompressedBytes(w, labels, !EndsInDot(value)))
      else Ok(Needle(labels, !EndsInDot(value)))
  }

  // ---------- reading ----------

  /** How a run of labels ends: at the root, at a pointer, or in an exception. */
  datatype Tail =
    | Root(next: nat)
    | Pointer(target: nat, next: nat)
    | Fault(error: Error, at: nat)

  datatype Segment = Segment(labels: seq<bytes>, tail: Tail)

  /** The single label at `p`, or the end of the run of labels. */
  datatype Item = Label(octets: bytes, next: nat) | Last(tail: Tail)

  function ReadItem(b: bytes, p: nat, links: bool): (i: Item)
    requires p <= |b|
    ensures i.Label? ==> p + 2 <= i.next <= |b| && 1 <= |i.octets| <= MAX_LABEL_LEN
    ensures i.Last? && i.tail.Root? ==> p < i.tail.next <= |b|
    ensures i.Last? && i.tail.Pointer? ==> p + 2 <= i.tail.next <= |b|
    ensures i.Last? && i.tail.Fault? ==> p <= i.tail.at <= |b| && i.tail.error != EndlessLoop
  {
    if p >= |b| then Last(Fault(BehindBuffer, p))
    else if b[p] == 0 then Last(Root(p + 1))
    else if b[p] >= 192 then
      if !links then Last(Fault(LinkNotAllowed, p + 1))
      else if p + 1 >= |b| then Last(Fault(BehindBuffer, p + 1))
      else Last(Pointer((b[p] as int - 192) * 256 + b[p + 1], p + 2))
    else if b[p] > MAX_LABEL_LEN then Last(Fault(LabelTooLong, p + 1))
    else if p + 1 + b[p] > |b| then Last(Fault(BehindBuffer, p + 1))
    else Label(b[p + 1..p + 1 + b[p]], p + 1 + b[p])
  }

  function ItemEnd(i: Item): nat
  {
    match i
    case Label(_, next) => next
    case Last(Root(next)) => next
    case Last(Pointer(_, next)) => next
    case Last(Fault(_, at)) => at
  }

  /** The labels that stand at `p`, up to and including what ends them. */
  function ReadSegment(b: bytes, p: nat, links: bool): (s: Segment)
    requires p <= |b|
    ensures s.tail.Root? ==> p < s.tail.next <= |b|
    ensures s.tail.Pointer? ==> p + 2 <= s.tail.next <= |b|
    ensures s.tail.Fault? ==> p <= s.tail.at <= |b| && s.tail.error != EndlessLoop
    ensures ProperLabels(s.labels)
    decreases |b| - p
  {
    match ReadItem(b, p, links)
    case Last(tail) => Segment([], tail)
    case Label(octets, next) => Prepend([octets], ReadSegment(b, next, links))
  }

  function Prepend(labels: seq<bytes>, s: Segment): Segment
  {
    Segment(labels + s.labels, s.tail)
  }

  lemma PrependNothing(s: Segment)
    ensures Prepend([], s) == s
  {
    assert [] + s.labels == s.labels;
  }

  lemma PrependEnd(labels: seq<bytes>, tail: Tail)
    ensures Prepend(labels, Segment([], tail)) == Segment(labels, tail)
  {
    assert labels + [] == labels;
  }

  lemma PrependStep(labels: seq<bytes>, more: bytes, s: Segment)
    ensures Prepend(labels, Prepend([more], s)) == Prepend(labels + [more], s)
  {
    assert labels + ([more] + s.labels) == (labels + [more]) + s.labels;
  }

  /** What reading a segment yields: the text so far with the link to follow, if any. */
  function SegmentResult(s: Segment): (Result<(bytes, Option<nat>), Error>, nat)
  {
    match s.tail
    case Root(next) => (Ok((Join(s.labels), None)), next)
    case Pointer(target, next) => (Ok((Join(s.labels), Some(target))), next)
    case Fault(error, at) => (Err(error), at)
  }

  predicate Bounded(s: seq<nat>, n: nat)
  {
    forall i :: 0 <= i < |s| ==> s[i] < n
  }

  /** At most n distinct positions lie below n: what makes following
      pointers terminate. */
  lemma {:induction false} DistinctFits(s: seq<nat>, n: nat)
    requires Distinct(s) && Bounded(s, n)
    ensures |s| <= n
  {
    if s != [] {
      var k := MaxIndex(s);
      var rest := s[..k] + s[k + 1..];
      DistinctFits(rest, s[k]);
    }
  }

  lemma MaxIndex(s: seq<nat>) returns (k: nat)
    requires s != []
    ensures k < |s|
    ensures forall i :: 0 <= i < |s| ==> s[i] <= s[k]
  {
    k := 0;
    for j := 1 to |s|
      invariant k < |s|
      invariant forall i :: 0 <= i < j ==> s[i] <= s[k]
    {
      if s[j] > s[k] {
        k := j;
      }
    }
  }

  /** What getDnsDomainName leaves: its result, the cursor and the visited positions. */
  datatype Reading = Reading(name: Result<bytes, Error>, pos: nat, visited: seq<nat>)

  function Finish(domain: bytes, pos: nat, visited: seq<nat>): Reading
  {
    if |domain| > MAX_DOMAIN_LEN then Reading(Err(DecodedNameTooLong), pos, visited)
    else Reading(Ok(domain), pos, visited)
  }

  /** Decoding at `p` with the positions in `visited` already on the stack. */
  function ReadName(b: bytes, p: nat, visited: seq<nat>, links: bool): (r: Reading)
    requires p <= |b| && Distinct(visited) && Bounded(visited, |b| + 1)
    ensures r.pos <= |b|
    ensures r.name.Ok? ==> r.visited == visited
    ensures Distinct(r.visited) && Bounded(r.visited, |b| + 1)
    decreases |b| + 1 - |visited|
  {
    if p in visited then Reading(Err(EndlessLoop), p, [])
    else
      var segment := ReadSegment(b, p, links);
      var domain := Join(segment.labels);
      match segment.tail
      case Fault(error, at) => Reading(Err(error), at, visited + [p])
      case Root(next) => Finish(domain, next, visited)
      case Pointer(target, next) =>
        if target >= |b| then Reading(Err(PositionBehindBuffer), next, visited + [p])
        else
          DistinctFits(visited + [p], |b| + 1);
          var linked := ReadName(b, target, visited + [p], true);
          if linked.name.Err? then linked
          else if next >= |b| then Reading(Err(PositionBehindBuffer), linked.pos, visited + [p])
          else Finish(Extend(domain, linked.name.value), next, visited)
  }

  /** Reading a character string at `p`: its octets or the exception, and the new cursor. */
  function StringAt(b: bytes, p: nat): (Result<bytes, Error>, nat)
    requires p <= |b|
  {
    if p == |b| then (Err(BehindBuffer), p)
    else if p + 1 + b[p] > |b| then (Err(BehindBuffer), p + 1)
    else (Ok(b[p + 1..p + 1 + b[p]]), p + 1 + b[p])
  }
}
