/** The fields that questions and resource records are made of (dnslib/rr.cpp, dnslib/qs.cpp). */
module DnsFields {
  import opened Wrappers
  import opened Buffers
  import opened DnsWire
  import opened DnsCompression

  /** A member of a question, a record or an RDATA object, as it goes on the wire. */
  datatype Field =
    | U16(number: nat)
    | U32(number: nat)
    | Octets(octets: bytes)
    | Text(octets: bytes)
    | Name(text: bytes, compressed: bool)

  /** What the decoder of a message part asks the buffer for. */
  datatype Kind =
    | KindU16
    | KindU32
    | KindOctets(size: nat)
    | KindText
    | KindName(links: bool)

  function KindOf(f: Field): Kind
  {
    match f
    case U16(_) => KindU16
    case U32(_) => KindU32
    case Octets(octets) => KindOctets(|octets|)
    case Text(_) => KindText
    case Name(_, compressed) => KindName(compressed)
  }

  function KindsOf(fs: seq<Field>): seq<Kind>
  {
    seq(|fs|, i requires 0 <= i < |fs| => KindOf(fs[i]))
  }

  /** The octets a field appends to what is already written. */
  function FieldBytes(w: bytes, f: Field): Result<bytes, Error>
  {
    match f
    case U16(number) => Ok(Octets16(number))
    case U32(number) => Ok(Octets32(number))
    case Octets(octets) => Ok(octets)
    case Text(octets) => Ok(Counted(octets))
    case Name(text, compressed) => NameBytes(w, text, compressed)
  }

  function FieldsBytes(w: bytes, fs: seq<Field>): Result<bytes, Error>
    decreases |fs|
  {
    if fs == [] then Ok([])
    else
      var first :- FieldBytes(w, fs[0]);
      var rest :- FieldsBytes(w + first, fs[1..]);
      Ok(first + rest)
  }

  /** Reading one field at `p`, with no name being decoded: the field and where it ends. */
  function ReadField(b: bytes, p: nat, kind: Kind): (r: Result<(Field, nat), Error>)
    requires p <= |b|
    ensures r.Ok? ==> p <= r.value.1 <= |b| && KindOf(r.value.0) == kind
  {
    match kind
    case KindU16 => if p + 2 <= |b| then Ok((U16(Number16(b, p)), p + 2)) else Err(BehindBuffer)
    case KindU32 => if p + 4 <= |b| then Ok((U32(Number32(b, p)), p + 4)) else Err(BehindBuffer)
    case KindOctets(size) => if p + size <= |b| then Ok((Octets(b[p..p + size]), p + size)) else Err(BehindBuffer)
    case KindText =>
      var octets :- StringAt(b, p).0;
      Ok((Text(octets), StringAt(b, p).1))
    case KindName(links) =>
      var text :- ReadName(b, p, [], links).name;
      Ok((Name(text, links), ReadName(b, p, [], links).pos))
  }

  function ReadFields(b: bytes, p: nat, kinds: seq<Kind>): (r: Result<(seq<Field>, nat), Error>)
    requires p <= |b|
    ensures r.Ok? ==> p <= r.value.1 <= |b| && |r.value.0| == |kinds|
    decreases |kinds|
  {
    if kinds == [] then Ok(([], p))
    else
      var first :- ReadField(b, p, kinds[0]);
      var rest :- ReadFields(b, first.1, kinds[1..]);
      Ok(([first.0] + rest.0, rest.1))
  }

  /** The number in a field that is one, and the text in a name. */
  function NumberOf(f: Field): nat
  {
    match f
    case U16(number) => number
    case U32(number) => number
    case _ => 0
  }

  function TextOf(f: Field): bytes
  {
    if f.Name? then f.text else []
  }

  // ---------- round trip ----------

  /** A field whose value survives the width it is written in. */
  ghost predicate WellFormed(f: Field)
  {
    match f
    case U16(number) => number < 0x1_0000
    case U32(number) => number < 0x1_0000_0000
    case Octets(octets) => octets != []
    case Text(octets) => |octets| < 256
    case Name(text, _) => ProperName(text) && !EndsInDot(text)
  }

  ghost predicate AllWellFormed(fs: seq<Field>)
  {
    forall i :: 0 <= i < |fs| ==> WellFormed(fs[i])
  }

  /** The field, written after `w`, is a name that ends in a pointer. */
  ghost predicate EndsInPointer(w: bytes, f: Field)
  {
    f.Name? && f.compressed && FinalTip(w, NameLabels(f.text), true).Some?
  }

  /** In `b`, the field stands where it was written, and so does the copy its pointer needs. */
  ghost predicate Stands(w: bytes, f: Field, b: bytes)
  {
    && FieldBytes(w, f).Ok? && OccursAt(b, FieldBytes(w, f).value, |w|)
    && (f.Name? && f.compressed ==> Intact(w, NameLabels(f.text), true, b))
  }

  /** What reading something yields that ends at `end`: the thing itself, or, when it is stuck
      at a pointer that is the last thing in the buffer, the exception setPos throws. */
  function Got<T>(stuck: bool, x: T, end: nat): Result<(T, nat), Error>
  {
    if stuck then Err(PositionBehindBuffer) else Ok((x, end))
  }

  /** A field reads back as itself, unless it is stuck at its pointer. */
  lemma FieldRoundTrip(w: bytes, f: Field, octets: bytes, b: bytes, p: nat, end: nat, stuck: bool)
    requires WellFormed(f) && Stands(w, f, b) && FieldBytes(w, f) == Ok(octets) && |b| <= 0x4000
    requires p == |w| && end == p + |octets|
    requires stuck == (EndsInPointer(w, f) && end == |b|)
    ensures end <= |b|
    ensures ReadField(b, p, KindOf(f)) == Got(stuck, f, end)
  {
    match f
    case U16(number) => NumberAt16(b, |w|, number);
    case U32(number) => NumberAt32(b, |w|, number);
    case Octets(_) => assert b[|w|..|w| + |octets|] == octets;
    case Text(text) => TextAt(b, |w|, text);
    case Name(text, compressed) =>
      JoinNameLabels(text);
      if compressed {
        ProperNameBytes(w, text);
        CompressedRoundTrip(w, NameLabels(text), b);
      } else {
        WholeNameRoundTrip(b, |w|, NameLabels(text));
      }
  }

  lemma ProperNameBytes(w: bytes, text: bytes)
    requires ProperName(text) && !EndsInDot(text)
    ensures NameBytes(w, text, true) == Ok(CompressedBytes(w, NameLabels(text), true))
    ensures |text| <= MAX_DOMAIN_LEN && NameText(text) == text
  {
  }

  lemma WholeNameRoundTrip(b: bytes, p: nat, labels: seq<bytes>)
    requires ProperLabels(labels) && |Join(labels)| <= MAX_DOMAIN_LEN && OccursAt(b, Needle(labels, true), p)
    ensures ReadName(b, p, [], false) == Reading(Ok(Join(labels)), p + |Needle(labels, true)|, [])
  {
    ReadNeedle(b, p, labels, false);
  }

  lemma CompressedRoundTrip(w: bytes, labels: seq<bytes>, b: bytes)
    requires ProperLabels(labels) && |Join(labels)| <= MAX_DOMAIN_LEN && |b| <= 0x4000
    requires OccursAt(b, CompressedBytes(w, labels, true), |w|) && Intact(w, labels, true, b)
    ensures var end := |w + CompressedBytes(w, labels, true)|;
            if FinalTip(w, labels, true).Some? && end == |b|
            then ReadName(b, |w|, [], true).name == Err(PositionBehindBuffer)
            else ReadName(b, |w|, [], true) == Reading(Ok(Join(labels)), end, [])
  {
    if FinalTip(w, labels, true).Some? && |w + CompressedBytes(w, labels, true)| == |b| {
      PointerAtEndRefused(w, labels, b);
    } else {
      LabelsRoundTrip(w, labels, true, b);
      if FinalTip(w, labels, true).Some? {
        ReadTarget(w, labels, true, b);
      }
    }
  }

  lemma NumberAt16(b: bytes, p: nat, number: nat)
    requires number < 0x1_0000 && OccursAt(b, Octets16(number), p)
    ensures Number16(b, p) == number
  {
    assert b[p] == Octets16(number)[0] && b[p + 1] == Octets16(number)[1];
  }

  lemma NumberAt32(b: bytes, p: nat, number: nat)
    requires number < 0x1_0000_0000 && OccursAt(b, Octets32(number), p)
    ensures Number32(b, p) == number
  {
    var octets := Octets32(number);
    assert b[p] == octets[0] && b[p + 1] == octets[1] && b[p + 2] == octets[2] && b[p + 3] == octets[3];
    FourDigits(number);
  }

  lemma FourDigits(number: nat)
    requires number < 0x1_0000_0000
    ensures number / 0x100_0000 % 256 * 0x100_0000 + number / 0x1_0000 % 256 * 0x1_0000 + number / 256 % 256 * 256
            + number % 256 == number
  {
    var q := number / 256;
    var r := q / 256;
    assert r == number / 0x1_0000;
    assert r / 256 == number / 0x100_0000 < 256;
  }

  lemma TextAt(b: bytes, p: nat, octets: bytes)
    requires |octets| < 256 && OccursAt(b, Counted(octets), p)
    ensures StringAt(b, p) == (Ok(octets), p + |Counted(octets)|)
  {
    assert b[p] == Counted(octets)[0];
    assert forall k :: 0 <= k < |octets| ==> octets[k] == Counted(octets)[k + 1];
    assert b[p + 1..p + 1 + |octets|] == octets;
  }

  /** Every field stands in `b` where it was written. */
  ghost predicate AllStand(w: bytes, fs: seq<Field>, b: bytes)
    decreases |fs|
  {
    fs != [] ==> Stands(w, fs[0], b) && AllStand(w + FieldBytes(w, fs[0]).value, fs[1..], b)
  }

  /** The last of the fields is a name that ends in a pointer. */
  ghost predicate LastInPointer(w: bytes, fs: seq<Field>)
    decreases |fs|
  {
    fs != [] && if |fs| == 1 then EndsInPointer(w, fs[0])
                else FieldBytes(w, fs[0]).Ok? && LastInPointer(w + FieldBytes(w, fs[0]).value, fs[1..])
  }

  lemma FieldsTail(fs: seq<Field>)
    requires fs != [] && AllWellFormed(fs)
    ensures WellFormed(fs[0]) && AllWellFormed(fs[1..])
    ensures KindsOf(fs) == [KindOf(fs[0])] + KindsOf(fs[1..])
    ensures KindsOf(fs)[1..] == KindsOf(fs[1..])
  {
  }

  lemma FieldNotEmpty(w: bytes, f: Field)
    requires WellFormed(f) && FieldBytes(w, f).Ok?
    ensures FieldBytes(w, f).value != []
  {
    if f.Name? && f.text != [] && !f.compressed {
      assert Needle(LabelsFrom(f.text, 0), true) != [];
    }
  }

  /** Fields read back in order, unless the last of them is stuck at its pointer. */
  lemma {:induction false} FieldsRoundTrip(w: bytes, fs: seq<Field>, octets: bytes, b: bytes, p: nat, end: nat, stuck: bool)
    requires AllWellFormed(fs) && AllStand(w, fs, b) && FieldsBytes(w, fs) == Ok(octets) && |b| <= 0x4000
    requires p == |w| <= |b| && end == p + |octets|
    requires stuck == (LastInPointer(w, fs) && end == |b|)
    ensures end <= |b|
    ensures ReadFields(b, p, KindsOf(fs)) == Got(stuck, fs, end)
    decreases |fs|
  {
    if fs != [] {
      var first := FieldBytes(w, fs[0]).value;
      var rest := FieldsBytes(w + first, fs[1..]).value;
      var next := p + |first|;
      var s0 := EndsInPointer(w, fs[0]) && next == |b|;
      var s1 := stuck && |fs| > 1;
      FieldsTail(fs);
      if |fs| > 1 {
        NextNotEmpty(w + first, fs[1..]);
      }
      FieldRoundTrip(w, fs[0], first, b, p, next, s0);
      FieldsRoundTrip(w + first, fs[1..], rest, b, next, end, s1);
      ReadFieldsStep(b, p, fs, next, end, s0, s1, stuck);
    }
  }

  lemma ReadFieldsStep(b: bytes, p: nat, fs: seq<Field>, next: nat, end: nat, stuck: bool, later: bool, either: bool)
    requires either == (stuck || later)
    requires fs != [] && p <= next <= |b| && KindsOf(fs) == [KindOf(fs[0])] + KindsOf(fs[1..])
    requires ReadField(b, p, KindOf(fs[0])) == Got(stuck, fs[0], next)
    requires ReadFields(b, next, KindsOf(fs[1..])) == Got(later, fs[1..], end)
    ensures ReadFields(b, p, KindsOf(fs)) == Got(either, fs, end)
  {
    assert fs == [fs[0]] + fs[1..];
    assert KindsOf(fs)[1..] == KindsOf(fs[1..]);
  }

  lemma NextNotEmpty(w: bytes, fs: seq<Field>)
    requires fs != [] && AllWellFormed(fs) && FieldsBytes(w, fs).Ok?
    ensures FieldsBytes(w, fs).value != []
  {
    FieldsTail(fs);
    FieldNotEmpty(w, fs[0]);
  }

  /** Fields stand in whatever the written octets are a prefix of. */
  lemma {:induction false} PrefixStands(w: bytes, fs: seq<Field>, b: bytes)
    requires FieldsBytes(w, fs).Ok? && w + FieldsBytes(w, fs).value <= b
    requires AllWellFormed(fs)
    ensures AllStand(w, fs, b)
    decreases |fs|
  {
    if fs != [] {
      var first, rest := FieldBytes(w, fs[0]).value, FieldsBytes(w + FieldBytes(w, fs[0]).value, fs[1..]).value;
      FieldsTail(fs);
      Regroup(w, first, rest);
      PrefixStands(w + first, fs[1..], b);
      FieldStands(w, fs[0], b);
    }
  }

  lemma FieldStands(w: bytes, f: Field, b: bytes)
    requires WellFormed(f) && FieldBytes(w, f).Ok? && w + FieldBytes(w, f).value <= b
    ensures Stands(w, f, b)
  {
    OccursAfter(w, FieldBytes(w, f).value, b);
    if f.Name? && f.compressed {
      PrefixIntact(w, NameLabels(f.text), true, b);
    }
  }

  /** Fields whose last is not a pointer read back from any buffer they are written in. */
  lemma PlainRoundTrip(w: bytes, fs: seq<Field>, octets: bytes, b: bytes, p: nat, end: nat)
    requires AllWellFormed(fs) && FieldsBytes(w, fs) == Ok(octets) && !LastInPointer(w, fs)
    requires w + octets <= b && |b| <= 0x4000 && p == |w| && end == p + |octets|
    ensures ReadFields(b, p, KindsOf(fs)) == Ok((fs, end))
  {
    PrefixStands(w, fs, b);
    FieldsRoundTrip(w, fs, octets, b, p, end, false);
  }

  lemma {:induction false} NotInPointer(w: bytes, fs: seq<Field>)
    requires fs != [] ==> !fs[|fs| - 1].Name?
    ensures !LastInPointer(w, fs)
    decreases |fs|
  {
    if |fs| > 1 && FieldBytes(w, fs[0]).Ok? {
      NotInPointer(w + FieldBytes(w, fs[0]).value, fs[1..]);
    }
  }
}
