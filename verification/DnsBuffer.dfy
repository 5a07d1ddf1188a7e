/** The cursor over a byte array that reads and writes DNS messages (dnslib/buffer.cpp). */
module DnsBuffer {
  import opened Wrappers
  import opened Buffers
  import opened DnsWire

  /** An array `a` written up to `p` became `b` by writing `octets` from `p` to `q`. */
  ghost predicate Grown(a: bytes, p: nat, b: bytes, q: nat, octets: bytes)
  {
    && |a| == |b| && p <= q <= |a| && q == p + |octets|
    && b[..q] == a[..p] + octets && b[q..] == a[q..]
  }

  /** Writing `octets` either succeeds exactly when there is room, or spoils only the part from
      `p` on. */
  ghost predicate GrownIfRoom(a: bytes, p: nat, b: bytes, q: nat, octets: bytes, ok: bool)
  {
    && |a| == |b|
    && if p + |octets| <= |a| then ok && Grown(a, p, b, q, octets)
       else !ok && p <= q <= |a| && b[..p] == a[..p]
  }

  lemma SplitAt(s: bytes, i: nat, j: nat)
    requires i <= j <= |s|
    ensures s[..j] == s[..i] + s[i..j]
  {
  }

  lemma GrownThen(a: bytes, p: nat, b: bytes, q: nat, c: bytes, r: nat, first: bytes, second: bytes, ok: bool)
    requires Grown(a, p, b, q, first) && GrownIfRoom(b, q, c, r, second, ok)
    ensures GrownIfRoom(a, p, c, r, first + second, ok)
  {
    if ok {
      GrownTwice(a, p, b, q, c, r, first, second);
    } else {
      assert c[..p] == c[..q][..p] == b[..q][..p] == a[..p];
    }
  }

  lemma GrownNoFurther(a: bytes, p: nat, b: bytes, q: nat, octets: bytes, more: bytes)
    requires GrownIfRoom(a, p, b, q, octets, false) && octets <= more
    ensures GrownIfRoom(a, p, b, q, more, false)
  {
  }

  lemma GrownTwice(a: bytes, p: nat, b: bytes, q: nat, c: bytes, r: nat, first: bytes, second: bytes)
    requires Grown(a, p, b, q, first) && Grown(b, q, c, r, second)
    ensures Grown(a, p, c, r, first + second)
  {
    Regroup(a[..p], first, second);
    assert c[r..] == b[r..] == b[q..][r - q..] == a[q..][r - q..] == a[r..];
  }

  class Buffer {
    const data: array<byte>
    var pos: nat
    var visited: seq<nat>

    ghost predicate Valid()
      reads this
    {
      pos <= data.Length && Distinct(visited) && Bounded(visited, data.Length + 1)
    }

    /** The octets before the cursor. */
    ghost function Written(): bytes
      requires Valid()
      reads this, data
    {
      data[..pos]
    }

    constructor (buffer: array<byte>)
      ensures Valid() && data == buffer && pos == 0 && visited == []
    {
      data, pos, visited := buffer, 0, [];
    }

    /** The cursor moved over `octets`, which now stand there; nothing else changed. */
    twostate predicate Appended(octets: bytes)
      requires old(Valid()) && Valid()
      reads this, data
    {
      Grown(old(data[..]), old(pos), data[..], pos, octets) && visited == old(visited)
    }

    /** An append that succeeds exactly when there is room for it. */
    twostate predicate AppendedIfRoom(octets: bytes, new r: Result<(), Error>)
      requires old(Valid()) && Valid()
      reads this, data
    {
      && GrownIfRoom(old(data[..]), old(pos), data[..], pos, octets, r.Ok?)
      && (r.Err? ==> r.error == BehindBuffer)
      && visited == old(visited)
    }

    /** A failed append: nothing before the old cursor was touched. */
    twostate predicate Spoiled()
      requires old(Valid()) && Valid()
      reads this, data
    {
      old(pos) <= pos && data[..old(pos)] == old(data[..pos]) && visited == old(visited)
    }

    method CheckAvailableSpace(additionalSpace: nat) returns (r: Result<(), Error>)
      requires Valid()
      ensures r == if pos + additionalSpace > data.Length then Err(BehindBuffer) else Ok(())
    {
      if pos + additionalSpace > data.Length {
        return Err(BehindBuffer);
      }
      return Ok(());
    }

    method Get8Bits() returns (r: Result<byte, Error>)
      requires Valid()
      modifies `pos
      ensures Valid()
      ensures if old(pos) < data.Length
              then r == Ok(data[old(pos)]) && pos == old(pos) + 1
              else r == Err(BehindBuffer) && pos == old(pos)
    {
      var _ :- CheckAvailableSpace(1);
      r := Ok(data[pos]);
      pos := pos + 1;
    }

    method Put8Bits(value: byte) returns (r: Result<(), Error>)
      requires Valid()
      modifies this, data
      ensures Valid()
      ensures AppendedIfRoom([value], r)
    {
      var _ :- CheckAvailableSpace(1);
      data[pos] := value;
      pos := pos + 1;
      r := Ok(());
    }

    method SetPos(newPos: nat) returns (r: Result<(), Error>)
      requires Valid()
      modifies `pos
      ensures Valid()
      ensures if newPos < data.Length then r.Ok? && pos == newPos
              else r == Err(PositionBehindBuffer) && pos == old(pos)
    {
      if newPos >= data.Length {
        return Err(PositionBehindBuffer);
      }
      pos := newPos;
      r := Ok(());
    }

    method GetBytes(count: nat) returns (r: Result<bytes, Error>)
      requires Valid()
      modifies `pos
      ensures Valid()
      ensures if old(pos) + count <= data.Length
              then r == Ok(data[old(pos)..old(pos) + count]) && pos == old(pos) + count
              else r == Err(BehindBuffer) && pos == old(pos)
    {
      var _ :- CheckAvailableSpace(count);
      r := Ok(data[pos..pos + count]);
      pos := pos + count;
    }

    method PutBytes(octets: bytes) returns (r: Result<(), Error>)
      requires Valid()
      modifies this, data
      ensures Valid()
      ensures AppendedIfRoom(octets, r)
    {
      if |octets| == 0 {
        return Ok(());
      }
      var _ :- CheckAvailableSpace(|octets|);
      ghost var before := data[..];
      for i := 0 to |octets|
        invariant pos == old(pos) && visited == old(visited)
        invariant data[..pos] == before[..pos]
        invariant data[pos..pos + i] == octets[..i]
        invariant data[pos + i..] == before[pos + i..]
      {
        data[pos + i] := octets[i];
        assert data[pos..pos + i + 1] == data[pos..pos + i] + [data[pos + i]];
        assert data[pos + i + 1..] == data[pos + i..][1..];
      }
      SplitAt(data[..], pos, pos + |octets|);
      pos := pos + |octets|;
      r := Ok(());
    }

    /** One turn of the reading loop: the control octet and what it announces. */
    method GetItem(compressionAllowed: bool) returns (item: Item)
      requires Valid()
      modifies `pos
      ensures Valid()
      ensures item == ReadItem(data[..], old(pos), compressionAllowed) && pos == ItemEnd(item)
    {
      var octet := Get8Bits();
      if octet.Err? {
        return Last(Fault(octet.error, pos));
      }
      var ctrlCode: int := octet.value;
      if ctrlCode == 0 {
        return Last(Root(pos));
      } else if ctrlCode / 64 == 3 {
        if !compressionAllowed {
          return Last(Fault(LinkNotAllowed, pos));
        }
        var ctrlCode2 := Get8Bits();
        if ctrlCode2.Err? {
          return Last(Fault(ctrlCode2.error, pos));
        }
        return Last(Pointer(ctrlCode % 64 * 256 + ctrlCode2.value, pos));
      } else {
        if ctrlCode > MAX_LABEL_LEN {
          return Last(Fault(LabelTooLong, pos));
        }
        var octets := GetBytes(ctrlCode);
        if octets.Err? {
          return Last(Fault(octets.error, pos));
        }
        return Label(octets.value, pos);
      }
    }

    /** The reading loop: labels up to the root octet (None) or a pointer (its target). */
    method GetLabels(compressionAllowed: bool) returns (r: Result<(bytes, Option<nat>), Error>)
      requires Valid()
      modifies `pos
      ensures Valid()
      ensures (r, pos) == SegmentResult(old(ReadSegment(data[..], pos, compressionAllowed)))
    {
      var domain: bytes := [];
      ghost var b := data[..];
      ghost var whole := ReadSegment(b, pos, compressionAllowed);
      ghost var labels: seq<bytes> := [];
      PrependNothing(whole);
      while true
        invariant pos <= data.Length
        invariant whole == Prepend(labels, ReadSegment(b, pos, compressionAllowed))
        invariant domain == Join(labels)
        decreases data.Length - pos
      {
        var item := GetItem(compressionAllowed);
        match item {
          case Last(tail) =>
            PrependEnd(labels, tail);
            match tail {
              case Root(_) => return Ok((domain, None));
              case Pointer(target, _) => return Ok((domain, Some(target)));
              case Fault(error, _) => return Err(error);
            }
          case Label(octets, _) =>
            domain := Extend(domain, octets);
            JoinSnoc(labels, octets);
            PrependStep(labels, octets, ReadSegment(b, pos, compressionAllowed));
            labels := labels + [octets];
        }
      }
    }

    /** Reads the name a pointer leads to and comes back to where the pointer ended. */
    method GetLinkedName(linkAddr: nat) returns (r: Result<bytes, Error>)
      requires Valid()
      modifies this
      ensures Valid()
      ensures var p := old(pos);
              if linkAddr >= data.Length then r == Err(PositionBehindBuffer) && pos == p && visited == old(visited)
              else
                var linked := old(ReadName(data[..], linkAddr, visited, true));
                if linked.name.Err? then Reading(r, pos, visited) == linked
                else if p >= data.Length
                then Reading(r, pos, visited) == linked.(name := Err(PositionBehindBuffer))
                else Reading(r, pos, visited) == linked.(pos := p)
      decreases data.Length + 1 - |visited|, 2
    {
      DistinctFits(visited, data.Length + 1);
      var savedPos := pos;
      var _ :- SetPos(linkAddr);
      var linkDomain :- GetDnsDomainName(true);
      var _ :- SetPos(savedPos);
      r := Ok(linkDomain);
    }

    method GetDnsDomainName(compressionAllowed: bool) returns (r: Result<bytes, Error>)
      requires Valid()
      modifies this
      ensures Valid()
      ensures Reading(r, pos, visited) == old(ReadName(data[..], pos, visited, compressionAllowed))
      decreases data.Length + 1 - |visited|, 1
    {
      if pos in visited {
        visited := [];
        return Err(EndlessLoop);
      }
      DistinctFits(visited + [pos], data.Length + 1);
      visited := visited + [pos];

      var labels :- GetLabels(compressionAllowed);
      var domain := labels.0;
      if labels.1.Some? {
        var linkDomain :- GetLinkedName(labels.1.value);
        domain := Extend(domain, linkDomain);
      }
      visited := visited[..|visited| - 1];
      if |domain| > MAX_DOMAIN_LEN {
        return Err(DecodedNameTooLong);
      }
      return Ok(domain);
    }

    /** Completes the label that ends at `ix`: its length octet, its offset and, when the text
        ends without a dot, the root octet, for which the array may be too short. */
    static method EndLabel(value: bytes, domain: array<byte>, labelIndexes: seq<nat>, labelLenPos: nat, ix: nat,
                           ghost all: seq<bytes>, ghost done: seq<bytes>, ghost wire: bytes)
      returns (r: Result<seq<nat>, Error>, size: nat)
      requires labelLenPos < |value| <= MAX_DOMAIN_LEN && ix == DotFrom(value, labelLenPos)
      requires LaidOut(all, LabelsFrom(value, labelLenPos), done, labelLenPos, wire, labelIndexes)
      requires domain.Length == MAX_DOMAIN_LEN + 1 && Filling(domain[..], wire, value, labelLenPos, ix)
      modifies domain
      ensures size <= domain.Length
      ensures r.Err? ==> LayoutOf(value, all) == Err(r.error)
      ensures r.Ok? && ix + 1 >= |value| ==> LayoutOf(value, all) == Ok((domain[..size], r.value))
      ensures r.Ok? && ix + 1 < |value| ==>
                && size == ix + 1
                && LaidOut(all, LabelsFrom(value, ix + 1), done + [value[labelLenPos..ix]], ix + 1,
                           domain[..size], r.value)
    {
      ghost var more := value[labelLenPos..ix];
      ghost var after := if ix + 1 < |value| then LabelsFrom(value, ix + 1) else [];
      LabelAt(value, labelLenPos, ix);
      CloseLabel(all, after, done, more, labelLenPos, wire, labelIndexes);
      size := ix + 1;
      if ix - labelLenPos > MAX_LABEL_LEN {
        return Err(LabelTooLong), size;
      }
      assert ix + 1 >= |value| ==> EndsInDot(value) == (ix < |value|);
      domain[labelLenPos] := ix - labelLenPos;
      LengthOctet(domain[..], wire, value, labelLenPos, ix, more);
      if ix == |value| {
        if size == domain.Length {
          return Err(LayoutOverrun), size;
        }
        domain[size] := 0;
        assert domain[..size + 1] == domain[..size] + [0];
        size := size + 1;
      }
      r := Ok(labelIndexes + [labelLenPos]);
    }

    /** Turns "blue.ims.cz" into |4|blue|3|ims|2|cz|0|, with the offset of each label, in a local
        array of MAX_DOMAIN_LEN + 1 octets. */
    static method LayOut(value: bytes) returns (r: Result<(bytes, seq<nat>), Error>)
      requires 0 < |value| <= MAX_DOMAIN_LEN
      ensures r == LayoutOf(value, LabelsFrom(value, 0))
    {
      var domain := new byte[MAX_DOMAIN_LEN + 1];
      var labelIndexes: seq<nat> := [];
      var labelLenPos, ix := 0, 0;
      ghost var all, dot := LabelsFrom(value, 0), DotFrom(value, 0);
      ghost var rest, done: seq<bytes>, wire: bytes, layout := all, [], [], domain[..];
      while true
        invariant labelLenPos <= ix <= |value| && labelLenPos < |value|
        invariant ix <= dot == DotFrom(value, labelLenPos) && rest == LabelsFrom(value, labelLenPos)
        invariant LaidOut(all, rest, done, labelLenPos, wire, labelIndexes)
        invariant layout == domain[..] && Filling(layout, wire, value, labelLenPos, ix)
        decreases |value| - ix
      {
        if ix == |value| || value[ix] == DOT {
          var ended, size := EndLabel(value, domain, labelIndexes, labelLenPos, ix, all, done, wire);
          if ended.Err? {
            return Err(ended.error);
          }
          // A dot at the very end opens no further label.
          if ix + 1 >= |value| {
            return Ok((domain[..size], ended.value));
          }
          done, wire, labelIndexes := done + [value[labelLenPos..ix]], domain[..size], ended.value;
          labelLenPos := ix + 1;
          dot, rest := DotFrom(value, labelLenPos), LabelsFrom(value, labelLenPos);
          NextLabel(domain[..], wire, value, labelLenPos);
        } else {
          domain[ix + 1] := value[ix];
          NextOctet(layout, domain[..], wire, value, labelLenPos, ix);
        }
        layout, ix := domain[..], ix + 1;
      }
    }

    /** Looks for `subDomain` in the octets already written. */
    method FindTip(subDomain: bytes) returns (tip: Option<nat>)
      requires Valid()
      ensures tip == Tip(Written(), subDomain)
    {
      ghost var w := Written();
      if pos > |subDomain| {
        for buffPos := 0 to pos - |subDomain|
          invariant TipFrom(w, subDomain, buffPos) == Tip(w, subDomain)
        {
          OccursAsSlice(w, subDomain, buffPos);
          assert w[buffPos..buffPos + |subDomain|] == data[buffPos..buffPos + |subDomain|];
          if data[buffPos..buffPos + |subDomain|] == subDomain {
            return Some(buffPos);
          }
        }
      }
      return None;
    }

    method Put16Bits(value: nat) returns (r: Result<(), Error>)
      requires Valid()
      modifies this, data
      ensures Valid()
      ensures AppendedIfRoom(Octets16(value), r)
    {
      var _ :- CheckAvailableSpace(2);
      ghost var before := data[..];
      data[pos] := value / 256 % 256;
      pos := pos + 1;
      data[pos] := value % 256;
      pos := pos + 1;
      assert data[..pos] == before[..pos - 2] + Octets16(value);
      r := Ok(());
    }

    /** One turn of the writing loop: the pointer that ends the name, or one more label. */
    method PutLabel(domain: bytes, labelIndexes: seq<nat>, i: nat, ghost labels: seq<bytes>, ghost root: bool)
      returns (r: Result<(), Error>, found: bool)
      requires Valid() && i < |labels| == |labelIndexes|
      requires ShortLabels(labels) && domain == Needle(labels, root) && labelIndexes == Offsets(labels)
      modifies this, data
      ensures Valid()
      ensures var tip := Tip(old(Written()), Needle(labels[i..], root));
              found == tip.Some? && AppendedIfRoom(TurnBytes(tip, labels[i]), r)
    {
      SubDomain(labels, root, i);
      var subDomain := domain[labelIndexes[i]..];
      var tip := FindTip(subDomain);
      found := tip.Some?;
      if found {
        r := Put16Bits(0xC000 + tip.value);
      } else {
        r := PutBytes(subDomain[..subDomain[0] as int + 1]);
      }
    }

    method PutDnsDomainName(value: bytes, compressionAllowed: bool) returns (r: Result<(), Error>)
      requires Valid()
      modifies this, data
      ensures Valid()
      ensures match NameBytes(old(Written()), value, compressionAllowed)
              case Ok(octets) => AppendedIfRoom(octets, r)
              case Err(error) => r == Err(error) && unchanged(this) && unchanged(data)
    {
      if |value| > MAX_DOMAIN_LEN {
        return Err(NameTooLong);
      }
      if |value| == 0 {
        r := Put8Bits(0);
        return;
      }
      var layout :- LayOut(value);
      if compressionAllowed {
        r := PutLabels(layout.0, layout.1, LabelsFrom(value, 0), !EndsInDot(value));
      } else {
        r := PutBytes(layout.0);
      }
    }

    method Put32Bits(value: nat) returns (r: Result<(), Error>)
      requires Valid()
      modifies this, data
      ensures Valid()
      ensures AppendedIfRoom(Octets32(value), r)
    {
      var _ :- CheckAvailableSpace(4);
      ghost var before := data[..];
      data[pos] := value / 0x100_0000 % 256;
      data[pos + 1] := value / 0x1_0000 % 256;
      data[pos + 2] := value / 256 % 256;
      data[pos + 3] := value % 256;
      pos := pos + 4;
      assert data[..pos] == before[..pos - 4] + Octets32(value);
      r := Ok(());
    }

    method Get16Bits() returns (r: Result<nat, Error>)
      requires Valid()
      modifies `pos
      ensures Valid()
      ensures if old(pos) + 2 <= data.Length
              then r == Ok(Number16(data[..], old(pos))) && pos == old(pos) + 2
              else r == Err(BehindBuffer) && pos == old(pos)
    {
      var _ :- CheckAvailableSpace(2);
      r := Ok(data[pos] as int * 256 + data[pos + 1]);
      pos := pos + 2;
    }

    method Get32Bits() returns (r: Result<nat, Error>)
      requires Valid()
      modifies `pos
      ensures Valid()
      ensures if old(pos) + 4 <= data.Length
              then r == Ok(Number32(data[..], old(pos))) && pos == old(pos) + 4
              else r == Err(BehindBuffer) && pos == old(pos)
    {
      var _ :- CheckAvailableSpace(4);
      r := Ok(data[pos] as int * 0x100_0000 + data[pos + 1] as int * 0x1_0000 + data[pos + 2] as int * 256 + data[pos + 3]);
      pos := pos + 4;
    }

    method GetDnsCharacterString() returns (r: Result<bytes, Error>)
      requires Valid()
      modifies `pos
      ensures Valid()
      ensures (r, pos) == StringAt(data[..], old(pos))
    {
      var stringLen :- Get8Bits();
      if stringLen == 0 {
        assert data[..][pos..pos] == [];
        return Ok([]);
      }
      r := GetBytes(stringLen);
    }

    method PutDnsCharacterString(value: bytes) returns (r: Result<(), Error>)
      requires Valid()
      modifies this, data
      ensures Valid()
      ensures AppendedIfRoom(Counted(value), r)
    {
      ghost var before, start := data[..], pos;
      r := Put8Bits(|value| % 256);
      if r.Err? {
        GrownNoFurther(before, start, data[..], pos, [|value| % 256], Counted(value));
        return;
      }
      ghost var here, at := data[..], pos;
      r := PutBytes(value);
      GrownThen(before, start, here, at, data[..], pos, [|value| % 256], value, r.Ok?);
    }

    /** One turn of the writing loop, added to what was written from `start` on. */
    method PutTurn(domain: bytes, labelIndexes: seq<nat>, i: nat, ghost labels: seq<bytes>, ghost root: bool,
                   ghost before: bytes, ghost start: nat, ghost out: bytes, ghost all: bytes)
      returns (r: Result<(), Error>, found: bool, ghost more: bytes)
      requires Valid() && i < |labels| == |labelIndexes|
      requires ShortLabels(labels) && domain == Needle(labels, root) && labelIndexes == Offsets(labels)
      requires Grown(before, start, data[..], pos, out)
      requires all == out + CompressedBytes(Written(), labels[i..], root)
      modifies this, data
      ensures Valid() && visited == old(visited) && (r.Err? ==> r.error == BehindBuffer)
      ensures if found || r.Err? then GrownIfRoom(before, start, data[..], pos, all, r.Ok?)
              else Grown(before, start, data[..], pos, more)
                   && all == more + CompressedBytes(Written(), labels[i + 1..], root)
    {
      ghost var here, at := data[..], pos;
      r, found := PutLabel(domain, labelIndexes, i, labels, root);
      ghost var turn := TurnBytes(Tip(here[..at], Needle(labels[i..], root)), labels[i]);
      more := out + turn;
      assert labels[i..][1..] == labels[i + 1..];
      CompressedTurn(here[..at], labels[i..], root, out, all);
      GrownThen(before, start, here, at, data[..], pos, out, turn, r.Ok?);
      if r.Err? && !found {
        GrownNoFurther(before, start, data[..], pos, more, all);
      }
    }

    /** Writes the labels one by one until the rest of the name is found in the buffer. */
    method PutLabels(domain: bytes, labelIndexes: seq<nat>, ghost labels: seq<bytes>, ghost root: bool)
      returns (r: Result<(), Error>)
      requires Valid()
      requires ShortLabels(labels) && domain == Needle(labels, root) && labelIndexes == Offsets(labels)
      modifies this, data
      ensures Valid()
      ensures AppendedIfRoom(CompressedBytes(old(Written()), labels, root), r)
    {
      ghost var before, start := data[..], pos;
      ghost var out: bytes := [];
      ghost var all := CompressedBytes(before[..start], labels, root);
      OffsetsLength(labels);
      assert labels[0..] == labels;
      for i := 0 to |labelIndexes|
        invariant Valid() && visited == old(visited)
        invariant Grown(before, start, data[..], pos, out)
        invariant all == out + CompressedBytes(Written(), labels[i..], root)
      {
        var found;
        r, found, out := PutTurn(domain, labelIndexes, i, labels, root, before, start, out, all);
        if found || r.Err? {
          return;
        }
      }
      ghost var here, at := data[..], pos;
      r := Put8Bits(0);
      GrownThen(before, start, here, at, data[..], pos, out, [0], r.Ok?);
    }
  }

  /** What one turn of the writing loop puts down. */
  function TurnBytes(tip: Option<nat>, octets: bytes): bytes
  {
    if tip.Some? then PointerBytes(tip.value) else Counted(octets)
  }

  lemma CompressedTurn(w: bytes, labels: seq<bytes>, root: bool, out: bytes, all: bytes)
    requires labels != [] && all == out + CompressedBytes(w, labels, root)
    ensures var tip := Tip(w, Needle(labels, root));
            var turn := TurnBytes(tip, labels[0]);
            && all == (if tip.Some? then out + turn else out + turn + CompressedBytes(w + turn, labels[1..], root))
            && out + turn <= all
  {
    var tip := Tip(w, Needle(labels, root));
    if tip.None? {
      var turn := Counted(labels[0]);
      Regroup(out, turn, CompressedBytes(w + turn, labels[1..], root));
    }
  }

  /** Offset of each label in the wire form. */
  function Offsets(labels: seq<bytes>): seq<nat>
  {
    if labels == [] then [] else Offsets(labels[..|labels| - 1]) + [|WireLabels(labels[..|labels| - 1])|]
  }

  /** What the first loop makes of a text with these labels: their wire form and offsets, the exception
      for a label that is too long, or a write behind the end of the local array. */
  function LayoutOf(value: bytes, labels: seq<bytes>): Result<(bytes, seq<nat>), Error>
  {
    if !ShortLabels(labels) then Err(LabelTooLong)
    else if OverrunsLayout(value) then Err(LayoutOverrun)
    else Ok((Needle(labels, !EndsInDot(value)), Offsets(labels)))
  }

  /** Of `all` labels, `done` are laid out, with their offsets, and `rest` remain. */
  ghost predicate LaidOut(all: seq<bytes>, rest: seq<bytes>, done: seq<bytes>, start: nat,
                          wire: bytes, offsets: seq<nat>)
  {
    && ShortLabels(done)
    && all == done + rest
    && wire == WireLabels(done) && start == |wire|
    && offsets == Offsets(done)
  }

  /** The array holds the labels done, a place for the next length octet, and the octets of the next
      label so far. */
  ghost predicate Filling(domain: bytes, wire: bytes, value: bytes, start: nat, ix: nat)
  {
    && start == |wire| <= ix <= |value| && ix < |domain|
    && domain[..start] == wire && domain[start + 1..ix + 1] == value[start..ix]
  }

  lemma NextLabel(domain: bytes, wire: bytes, value: bytes, start: nat)
    requires start < |value| && start < |domain| && wire == domain[..start]
    ensures Filling(domain, wire, value, start, start)
  {
  }

  lemma NextOctet(before: bytes, after: bytes, wire: bytes, value: bytes, start: nat, ix: nat)
    requires Filling(before, wire, value, start, ix) && ix < |value| && ix + 1 < |before|
    requires after == before[ix + 1 := value[ix]]
    ensures Filling(after, wire, value, start, ix + 1)
  {
    assert after[start + 1..ix + 2] == before[start + 1..ix + 1] + [value[ix]];
  }

  lemma LengthOctet(domain: bytes, wire: bytes, value: bytes, start: nat, ix: nat, octets: bytes)
    requires Filling(domain, wire, value, start, ix) && octets == value[start..ix]
    requires |octets| <= MAX_LABEL_LEN && domain[start] == |octets|
    ensures domain[..ix + 1] == wire + Counted(octets)
  {
    assert domain[..ix + 1] == domain[..start] + [domain[start]] + domain[start + 1..ix + 1];
  }

  lemma {:induction false} OffsetsLength(labels: seq<bytes>)
    ensures |Offsets(labels)| == |labels|
  {
    if labels != [] {
      OffsetsLength(labels[..|labels| - 1]);
    }
  }

  lemma {:induction false} OffsetAt(labels: seq<bytes>, i: nat)
    requires i < |labels| == |Offsets(labels)|
    ensures Offsets(labels)[i] == |WireLabels(labels[..i])|
  {
    var front := labels[..|labels| - 1];
    OffsetsLength(front);
    if i < |front| {
      OffsetAt(front, i);
      assert front[..i] == labels[..i];
    }
  }

  /** The part of the layout from label `i` on is the layout of the remaining labels. */
  lemma SubDomain(labels: seq<bytes>, root: bool, i: nat)
    requires i < |labels| == |Offsets(labels)| && ShortLabels(labels)
    ensures Offsets(labels)[i] <= |Needle(labels, root)|
    ensures Needle(labels, root)[Offsets(labels)[i]..] == Needle(labels[i..], root)
    ensures Counted(labels[i]) <= Needle(labels[i..], root)
    ensures |Counted(labels[i])| == Needle(labels[i..], root)[0] as int + 1
  {
    OffsetAt(labels, i);
    NeedleSplit(labels, i, root);
    NeedleHead(labels[i..], root);
  }

  lemma NeedleSplit(labels: seq<bytes>, i: nat, root: bool)
    requires i <= |labels|
    ensures Needle(labels, root) == WireLabels(labels[..i]) + Needle(labels[i..], root)
  {
    WireLabelsConcat(labels[..i], labels[i..]);
    assert labels == labels[..i] + labels[i..];
    Regroup(WireLabels(labels[..i]), WireLabels(labels[i..]), if root then [0] else []);
  }

  lemma NeedleHead(labels: seq<bytes>, root: bool)
    requires labels != [] && ShortLabels(labels)
    ensures Needle(labels, root) == Counted(labels[0]) + Needle(labels[1..], root)
    ensures |Counted(labels[0])| == Needle(labels, root)[0] as int + 1
  {
    Regroup(Counted(labels[0]), WireLabels(labels[1..]), if root then [0] else []);
  }

  lemma OffsetsSnoc(labels: seq<bytes>, more: bytes)
    ensures Offsets(labels + [more]) == Offsets(labels) + [|WireLabels(labels)|]
  {
    assert (labels + [more])[..|labels|] == labels;
  }

  lemma LabelAt(value: bytes, start: nat, ix: nat)
    requires start <= |value| && ix == DotFrom(value, start)
    ensures LabelsFrom(value, start) ==
            [value[start..ix]] + if ix + 1 < |value| then LabelsFrom(value, ix + 1) else []
  {
  }

  /** One more label is laid out. */
  lemma CloseLabel(all: seq<bytes>, after: seq<bytes>, done: seq<bytes>, more: bytes, start: nat,
                   wire: bytes, offsets: seq<nat>)
    requires LaidOut(all, [more] + after, done, start, wire, offsets)
    ensures |more| > MAX_LABEL_LEN ==> !ShortLabels(all)
    ensures |more| <= MAX_LABEL_LEN ==>
              && LaidOut(all, after, done + [more], start + 1 + |more|, wire + Counted(more), offsets + [start])
              && (after == [] ==>
                    ShortLabels(all) && Needle(all, true) == wire + Counted(more) + [0]
                    && Needle(all, false) == wire + Counted(more) && Offsets(all) == offsets + [start])
  {
    if |more| > MAX_LABEL_LEN {
      assert all[|done|] == more;
    } else {
      WireLabelsSnoc(done, more);
      OffsetsSnoc(done, more);
      Regroup(done, [more], after);
      assert after == [] ==> done + [more] + after == done + [more];
    }
  }
}
