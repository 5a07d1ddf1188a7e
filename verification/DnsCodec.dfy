/** Encoding and decoding messages through a buffer (dnslib/message.cpp, rr.cpp, qs.cpp). */
module DnsCodec {
  import opened Wrappers
  import opened Buffers
  import opened DnsWire
  import opened DnsBuffer
  import opened DnsFields
  import opened DnsRecords
  import opened DnsMessage

  // ---------- fields ----------

  method PutField(buffer: Buffer, f: Field) returns (r: Result<(), Error>)
    requires buffer.Valid()
    modifies buffer, buffer.data
    ensures buffer.Valid()
    ensures match FieldBytes(old(buffer.Written()), f)
            case Ok(octets) => buffer.AppendedIfRoom(octets, r)
            case Err(error) => r == Err(error) && buffer.Spoiled()
  {
    match f {
      case U16(number) => r := buffer.Put16Bits(number);
      case U32(number) => r := buffer.Put32Bits(number);
      case Octets(octets) => r := buffer.PutBytes(octets);
      case Text(octets) => r := buffer.PutDnsCharacterString(octets);
      case Name(text, compressed) => r := buffer.PutDnsDomainName(text, compressed);
    }
  }

  /** `whole` is `done` followed by `rest`, when that succeeded. */
  ghost predicate Follows(whole: Result<bytes, Error>, done: bytes, rest: Result<bytes, Error>)
  {
    if rest.Ok? then whole == Ok(done + rest.value) else whole.Err?
  }

  lemma FollowsFromStart(whole: Result<bytes, Error>)
    ensures Follows(whole, [], whole)
  {
    assert whole.Ok? ==> [] + whole.value == whole.value;
  }

  /** Appends the octets of `whole`, or fails; it succeeds when there is room for all of them. */
  twostate predicate AppendedAll(buffer: Buffer, whole: Result<bytes, Error>, new r: Result<(), Error>)
    requires old(buffer.Valid()) && buffer.Valid()
    reads buffer, buffer.data
  {
    if whole.Ok? then buffer.AppendedIfRoom(whole.value, r) else r.Err? && buffer.Spoiled()
  }

  lemma FieldsFollow(w: bytes, fs: seq<Field>, whole: Result<bytes, Error>, done: bytes, first: bytes)
    requires fs != [] && Follows(whole, done, FieldsBytes(w, fs)) && FieldBytes(w, fs[0]) == Ok(first)
    ensures Follows(whole, done + first, FieldsBytes(w + first, fs[1..]))
    ensures whole.Ok? ==> done + first <= whole.value
  {
    var rest := FieldsBytes(w + first, fs[1..]);
    if rest.Ok? {
      Regroup(done, first, rest.value);
    }
  }

  method PutFields(buffer: Buffer, fs: seq<Field>) returns (r: Result<(), Error>)
    requires buffer.Valid()
    modifies buffer, buffer.data
    ensures buffer.Valid()
    ensures AppendedAll(buffer, FieldsBytes(old(buffer.Written()), fs), r)
  {
    ghost var before, start := buffer.data[..], buffer.pos;
    ghost var whole := FieldsBytes(buffer.Written(), fs);
    ghost var done: bytes := [];
    assert fs[0..] == fs;
    FollowsFromStart(whole);
    for i := 0 to |fs|
      invariant buffer.Valid() && buffer.visited == old(buffer.visited)
      invariant Grown(before, start, buffer.data[..], buffer.pos, done)
      invariant Follows(whole, done, FieldsBytes(buffer.Written(), fs[i..]))
    {
      ghost var here, at := buffer.data[..], buffer.pos;
      ghost var first := FieldBytes(here[..at], fs[i]);
      assert fs[i..][0] == fs[i] && fs[i..][1..] == fs[i + 1..];
      r := PutField(buffer, fs[i]);
      if first.Err? {
        assert buffer.data[..start] == buffer.data[..at][..start];
      } else {
        FieldsFollow(here[..at], fs[i..], whole, done, first.value);
        GrownThen(before, start, here, at, buffer.data[..], buffer.pos, done, first.value, r.Ok?);
        if r.Err? && whole.Ok? {
          GrownNoFurther(before, start, buffer.data[..], buffer.pos, done + first.value, whole.value);
        }
      }
      if r.Err? {
        return;
      }
      done := done + first.value;
    }
    assert done + [] == done;
    r := Ok(());
  }

  method GetField(buffer: Buffer, kind: Kind) returns (r: Result<Field, Error>)
    requires buffer.Valid() && buffer.visited == []
    modifies buffer
    ensures buffer.Valid()
    ensures match ReadField(buffer.data[..], old(buffer.pos), kind)
            case Ok(field) => r == Ok(field.0) && buffer.pos == field.1 && buffer.visited == []
            case Err(error) => r == Err(error)
  {
    match kind {
      case KindU16 =>
        var number :- buffer.Get16Bits();
        r := Ok(U16(number));
      case KindU32 =>
        var number :- buffer.Get32Bits();
        r := Ok(U32(number));
      case KindOctets(size) =>
        var octets :- buffer.GetBytes(size);
        r := Ok(Octets(octets));
      case KindText =>
        var octets :- buffer.GetDnsCharacterString();
        r := Ok(Text(octets));
      case KindName(links) =>
        var text :- buffer.GetDnsDomainName(links);
        r := Ok(Name(text, links));
    }
  }

  /** `whole` is `done` followed by what is read from `rest` on. */
  ghost predicate ReadFollows<T>(whole: Result<(seq<T>, nat), Error>, done: seq<T>, rest: Result<(seq<T>, nat), Error>)
  {
    if rest.Ok? then whole == Ok((done + rest.value.0, rest.value.1)) else whole == Err(rest.error)
  }

  lemma ReadFollowsFromStart<T>(whole: Result<(seq<T>, nat), Error>)
    ensures ReadFollows(whole, [], whole)
  {
    assert whole.Ok? ==> [] + whole.value.0 == whole.value.0;
  }

  lemma ReadFieldsFollow(b: bytes, p: nat, kinds: seq<Kind>, whole: Result<(seq<Field>, nat), Error>,
                         done: seq<Field>, first: Field, next: nat)
    requires kinds != [] && p <= |b| && ReadFollows(whole, done, ReadFields(b, p, kinds))
    requires ReadField(b, p, kinds[0]) == Ok((first, next))
    ensures ReadFollows(whole, done + [first], ReadFields(b, next, kinds[1..]))
  {
    var rest := ReadFields(b, next, kinds[1..]);
    if rest.Ok? {
      Regroup(done, [first], rest.value.0);
    }
  }

  method GetFields(buffer: Buffer, kinds: seq<Kind>) returns (r: Result<seq<Field>, Error>)
    requires buffer.Valid() && buffer.visited == []
    modifies buffer
    ensures buffer.Valid()
    ensures match ReadFields(buffer.data[..], old(buffer.pos), kinds)
            case Ok(fields) => r == Ok(fields.0) && buffer.pos == fields.1 && buffer.visited == []
            case Err(error) => r == Err(error)
  {
    ghost var b := buffer.data[..];
    ghost var whole := ReadFields(b, buffer.pos, kinds);
    var done: seq<Field> := [];
    assert kinds[0..] == kinds;
    ReadFollowsFromStart(whole);
    for i := 0 to |kinds|
      invariant buffer.Valid() && buffer.visited == []
      invariant ReadFollows(whole, done, ReadFields(b, buffer.pos, kinds[i..]))
    {
      ghost var at := buffer.pos;
      assert kinds[i..][0] == kinds[i] && kinds[i..][1..] == kinds[i + 1..];
      var field :- GetField(buffer, kinds[i]);
      ReadFieldsFollow(b, at, kinds[i..], whole, done, field, buffer.pos);
      done := done + [field];
    }
    assert done + [] == done;
    r := Ok(done);
  }

  // ---------- records ----------

  /** Where a record may end: setPos refuses to come back to the end of the buffer, so RDATA must
      not fill it. */
  predicate RecordFits(r: Record, end: nat, size: nat)
  {
    end < size || (end == size && r.rdata.None?)
  }

  /** The placeholder at `p`, two octets long, was overwritten by `number`. */
  ghost predicate Patched(before: bytes, p: nat, after: bytes, number: nat)
  {
    && |before| == |after| && p + 2 <= |before|
    && after[..p] == before[..p] && after[p..p + 2] == Octets16(number) && after[p + 2..] == before[p + 2..]
  }

  /** Writes the length over the placeholder and comes back; fails when there is nowhere in the
      buffer to come back to. */
  method PatchLength(buffer: Buffer, at: nat, size: nat) returns (r: Result<(), Error>)
    requires buffer.Valid() && at + 2 <= buffer.pos
    modifies buffer, buffer.data
    ensures buffer.Valid() && buffer.visited == old(buffer.visited)
    ensures Patched(old(buffer.data[..]), at, buffer.data[..], size)
    ensures if old(buffer.pos) < buffer.data.Length then r.Ok? && buffer.pos == old(buffer.pos)
            else r == Err(PositionBehindBuffer) && at <= buffer.pos
  {
    var lastPos := buffer.pos;
    ghost var before := buffer.data[..];
    var moved := buffer.SetPos(at);
    var put := buffer.Put16Bits(size);
    assert moved.Ok? && put.Ok?;
    ghost var after := buffer.data[..];
    assert after[..at] == after[..at + 2][..at] && after[at..at + 2] == after[..at + 2][at..];
    r := buffer.SetPos(lastPos);
  }

  /** `octets` stand from `p` to `q`, and the rest of the buffer is as it was. */
  ghost predicate Laid(before: bytes, p: nat, after: bytes, q: nat, octets: bytes)
  {
    q == p + |octets| <= |before| && after == before[..p] + octets + before[q..]
  }

  lemma PatchLaid(a: bytes, p: nat, b: bytes, q: nat, c: bytes, data: bytes)
    requires p >= 2 && Grown(a, p, b, q, data) && Patched(b, p - 2, c, |data|)
    ensures Laid(a, p - 2, c, q, Octets16(|data|) + data)
  {
    var at := p - 2;
    assert c == c[..at] + c[at..p] + c[p..];
    assert b[p..] == (b[..q] + b[q..])[p..] == data + a[q..];
    assert b[..at] == b[..q][..at] == a[..at];
  }

  /** The RDATA behind a length field that still has to be filled in, and its length. */
  method PutRData(buffer: Buffer, data: seq<Field>) returns (r: Result<(), Error>)
    requires buffer.Valid() && buffer.pos >= 2
    modifies buffer, buffer.data
    ensures buffer.Valid() && buffer.visited == old(buffer.visited)
    ensures var octets := FieldsBytes(old(buffer.Written()), data);
            if octets.Ok? && old(buffer.pos) + |octets.value| < buffer.data.Length
            then r.Ok? && Laid(old(buffer.data[..]), old(buffer.pos) - 2, buffer.data[..], buffer.pos,
                               Octets16(|octets.value|) + octets.value)
            else r.Err? && old(buffer.pos) - 2 <= buffer.pos
                 && buffer.data[..old(buffer.pos) - 2] == old(buffer.data[..buffer.pos - 2])
  {
    ghost var a, p := buffer.data[..], buffer.pos;
    ghost var octets := FieldsBytes(buffer.Written(), data);
    var lengthPos := buffer.pos - 2;
    r := PutFields(buffer, data);
    if r.Err? {
      assert buffer.data[..p - 2] == buffer.data[..p][..p - 2];
      return;
    }
    ghost var b, q := buffer.data[..], buffer.pos;
    var rDataSize := buffer.pos - lengthPos - 2;
    r := PatchLength(buffer, lengthPos, rDataSize);
    PatchLaid(a, p, b, q, buffer.data[..], octets.value);
    if r.Err? {
      assert buffer.data[..p - 2] == a[..p - 2];
    }
  }

  lemma LaidRecord(a: bytes, p: nat, b: bytes, q: nat, c: bytes, r: nat, head: bytes, rest: bytes)
    requires Grown(a, p, b, q + 2, head + [0, 0]) && Laid(b, q, c, r, rest) && q == p + |head| && q + 2 <= r
    ensures Grown(a, p, c, r, head + rest)
  {
    assert b[..q] == b[..q + 2][..q] == a[..p] + head;
    Regroup(a[..p], head, rest);
    assert b[r..] == b[q + 2..][r - q - 2..] == a[q + 2..][r - q - 2..] == a[r..];
  }

  /** A record up to its length field, which is still zero. */
  method PutHead(buffer: Buffer, record: Record) returns (r: Result<(), Error>)
    requires buffer.Valid()
    modifies buffer, buffer.data
    ensures buffer.Valid() && buffer.visited == old(buffer.visited)
    ensures var head := FieldsBytes(old(buffer.Written()), HeadFields(record));
            if head.Ok? then GrownIfRoom(old(buffer.data[..]), old(buffer.pos), buffer.data[..], buffer.pos,
                                         head.value + [0, 0], r.Ok?)
            else r.Err? && buffer.Spoiled()
  {
    ghost var a, start := buffer.data[..], buffer.pos;
    ghost var head := FieldsBytes(a[..start], HeadFields(record));
    r := PutFields(buffer, HeadFields(record));
    if r.Err? {
      if head.Ok? {
        GrownNoFurther(a, start, buffer.data[..], buffer.pos, head.value, head.value + [0, 0]);
      }
      return;
    }
    ghost var b1, p1 := buffer.data[..], buffer.pos;
    r := buffer.Put16Bits(0);
    GrownThen(a, start, b1, p1, buffer.data[..], buffer.pos, head.value, [0, 0], r.Ok?);
  }

  /** What a record appends to `w` in a buffer of `size` octets, when it can be encoded there. */
  ghost function Emit(w: bytes, r: Record, size: nat): Option<bytes>
  {
    var octets := RecordBytes(w, r);
    if octets.Ok? && RecordFits(r, |w| + |octets.value|, size) then Some(octets.value) else None
  }

  /** Appended `octets`, when there are any to append; otherwise failed. */
  twostate predicate AppendedOrNot(buffer: Buffer, octets: Option<bytes>, new r: Result<(), Error>)
    requires old(buffer.Valid()) && buffer.Valid()
    reads buffer, buffer.data
  {
    if octets.Some? then r.Ok? && buffer.Appended(octets.value) else r.Err? && buffer.Spoiled()
  }

  /** What a record without RDATA appends, and one with RDATA. */
  lemma EmitBare(w: bytes, r: Record, size: nat, head: bytes)
    requires FieldsBytes(w, HeadFields(r)) == Ok(head) && r.rdata.None?
    ensures Emit(w, r, size) == if |w| + |head + [0, 0]| <= size then Some(head + [0, 0]) else None
  {
    assert Octets16(0) == [0, 0] && head + Octets16(0) + [] == head + [0, 0];
  }

  lemma EmitFull(w: bytes, r: Record, size: nat, head: bytes, before: bytes)
    requires FieldsBytes(w, HeadFields(r)) == Ok(head) && r.rdata.Some? && before == w + (head + [0, 0])
    ensures Emit(w, r, size) ==
            var data := FieldsBytes(before, r.rdata.value);
            if data.Ok? && |before| + |data.value| < size
            then Some(head + (Octets16(|data.value|) + data.value)) else None
  {
    Regroup(w, head, [0, 0]);
    var data := FieldsBytes(before, r.rdata.value);
    if data.Ok? {
      Regroup(head, Octets16(|data.value|), data.value);
    }
  }

  /** The RDATA of a record whose head was written from `start` on. */
  method PutBody(buffer: Buffer, data: seq<Field>, ghost a: bytes, ghost start: nat, ghost head: bytes)
    returns (r: Result<(), Error>)
    requires buffer.Valid() && Grown(a, start, buffer.data[..], buffer.pos, head + [0, 0])
    modifies buffer, buffer.data
    ensures buffer.Valid() && buffer.visited == old(buffer.visited)
    ensures var octets := FieldsBytes(old(buffer.Written()), data);
            if octets.Ok? && old(buffer.pos) + |octets.value| < buffer.data.Length
            then r.Ok? && Grown(a, start, buffer.data[..], buffer.pos,
                                head + (Octets16(|octets.value|) + octets.value))
            else r.Err? && start <= buffer.pos && buffer.data[..start] == a[..start]
  {
    ghost var b, p := buffer.data[..], buffer.pos;
    ghost var octets := FieldsBytes(b[..p], data);
    r := PutRData(buffer, data);
    if r.Err? {
      assert buffer.data[..start] == buffer.data[..p - 2][..start] == b[..p][..start];
    } else {
      LaidRecord(a, start, b, p - 2, buffer.data[..], buffer.pos, head, Octets16(|octets.value|) + octets.value);
    }
  }

  method EncodeRecord(buffer: Buffer, record: Record) returns (r: Result<(), Error>)
    requires buffer.Valid()
    modifies buffer, buffer.data
    ensures buffer.Valid()
    ensures AppendedOrNot(buffer, Emit(old(buffer.Written()), record, buffer.data.Length), r)
  {
    ghost var a, start, size := buffer.data[..], buffer.pos, buffer.data.Length;
    ghost var head := FieldsBytes(a[..start], HeadFields(record));
    r := PutHead(buffer, record);
    if head.Ok? {
      if record.rdata.None? {
        EmitBare(a[..start], record, size, head.value);
      } else {
        EmitFull(a[..start], record, size, head.value, a[..start] + (head.value + [0, 0]));
      }
    }
    if r.Ok? && record.rdata.Some? {
      r := PutBody(buffer, record.rdata.value, a, start, head.value);
    }
  }

  ghost function EmitAll(w: bytes, rs: seq<Record>, size: nat): Option<bytes>
    decreases |rs|
  {
    if rs == [] then Some([])
    else
      var first := Emit(w, rs[0], size);
      if first.None? then None else After(first.value, EmitAll(w + first.value, rs[1..], size))
  }

  ghost function After(done: bytes, rest: Option<bytes>): Option<bytes>
  {
    if rest.Some? then Some(done + rest.value) else None
  }

  /** Where a list of records may end. */
  predicate RecordsFit(rs: seq<Record>, end: nat, size: nat)
  {
    end < size || (end == size && (rs == [] || rs[|rs| - 1].rdata.None?))
  }

  /** Only the end of the last record matters. */
  lemma {:induction false} EmitAllExact(w: bytes, rs: seq<Record>, size: nat)
    requires |w| <= size
    ensures EmitAll(w, rs, size) ==
            var octets := RecordsBytes(w, rs);
            if octets.Ok? && RecordsFit(rs, |w| + |octets.value|, size) then Some(octets.value) else None
    decreases |rs|
  {
    if rs != [] && RecordBytes(w, rs[0]).Ok? {
      var next := w + RecordBytes(w, rs[0]).value;
      if |next| <= size {
        EmitAllExact(next, rs[1..], size);
      }
      if |rs| > 1 && RecordBytes(next, rs[1]).Ok? {
        RecordNotEmpty(next, rs[1]);
      }
      RestNotEmpty(next, rs[1..]);
    }
  }

  lemma RestNotEmpty(w: bytes, rs: seq<Record>)
    ensures RecordsBytes(w, rs).Ok? && rs != [] ==> RecordsBytes(w, rs).value != []
  {
    if RecordsBytes(w, rs).Ok? && rs != [] {
      RecordNotEmpty(w, rs[0]);
    }
  }

  lemma {:induction false} EmitAllConcat(w: bytes, a: seq<Record>, b: seq<Record>, size: nat)
    ensures EmitAll(w, a + b, size) ==
            var first := EmitAll(w, a, size);
            if first.None? then None else After(first.value, EmitAll(w + first.value, b, size))
    decreases |a|
  {
    if a == [] {
      assert a + b == b && w + [] == w;
      assert forall x: bytes :: [] + x == x;
    } else {
      assert (a + b)[0] == a[0] && (a + b)[1..] == a[1..] + b;
      var first := Emit(w, a[0], size);
      if first.Some? {
        EmitAllConcat(w + first.value, a[1..], b, size);
        var rest := EmitAll(w + first.value, a[1..], size);
        if rest.Some? {
          AfterTwice(w, first.value, rest.value, EmitAll(w + first.value + rest.value, b, size));
        }
      }
    }
  }

  lemma AfterNothing(rest: Option<bytes>)
    ensures After([], rest) == rest
  {
    assert rest.Some? ==> [] + rest.value == rest.value;
  }

  lemma AfterTwice(w: bytes, a: bytes, b: bytes, rest: Option<bytes>)
    ensures After(a, After(b, rest)) == After(a + b, rest) && w + (a + b) == w + a + b
  {
    if rest.Some? {
      Regroup(a, b, rest.value);
    }
  }

  method EncodeRecords(buffer: Buffer, records: seq<Record>) returns (r: Result<(), Error>)
    requires buffer.Valid()
    modifies buffer, buffer.data
    ensures buffer.Valid()
    ensures AppendedOrNot(buffer, EmitAll(old(buffer.Written()), records, buffer.data.Length), r)
  {
    ghost var a, start, size := buffer.data[..], buffer.pos, buffer.data.Length;
    ghost var w := buffer.Written();
    ghost var done: bytes := [];
    assert records[0..] == records;
    AfterNothing(EmitAll(w, records, size));
    for i := 0 to |records|
      invariant buffer.Valid() && buffer.visited == old(buffer.visited)
      invariant EmitAll(w, records, size) == After(done, EmitAll(buffer.Written(), records[i..], size))
      invariant Grown(a, start, buffer.data[..], buffer.pos, done)
    {
      ghost var here, at := buffer.data[..], buffer.pos;
      ghost var first := Emit(here[..at], records[i], size);
      assert records[i..][0] == records[i] && records[i..][1..] == records[i + 1..];
      r := EncodeRecord(buffer, records[i]);
      if r.Err? {
        assert buffer.data[..start] == buffer.data[..at][..start];
        return;
      }
      GrownTwice(a, start, here, at, buffer.data[..], buffer.pos, done, first.value);
      AfterTwice(w, done, first.value, EmitAll(buffer.Written(), records[i + 1..], size));
      done := done + first.value;
    }
    assert done + [] == done;
    r := Ok(());
  }

  // ---------- questions ----------

  lemma QuestionsFollow(w: bytes, qs: seq<Question>, whole: Result<bytes, Error>, done: bytes, first: bytes)
    requires qs != [] && Follows(whole, done, QuestionsBytes(w, qs)) && QuestionBytes(w, qs[0]) == Ok(first)
    ensures Follows(whole, done + first, QuestionsBytes(w + first, qs[1..]))
    ensures whole.Ok? ==> done + first <= whole.value
  {
    var rest := QuestionsBytes(w + first, qs[1..]);
    if rest.Ok? {
      Regroup(done, first, rest.value);
    }
  }

  method EncodeQuestions(buffer: Buffer, queries: seq<Question>) returns (r: Result<(), Error>)
    requires buffer.Valid()
    modifies buffer, buffer.data
    ensures buffer.Valid()
    ensures AppendedAll(buffer, QuestionsBytes(old(buffer.Written()), queries), r)
  {
    ghost var before, start := buffer.data[..], buffer.pos;
    ghost var whole := QuestionsBytes(buffer.Written(), queries);
    ghost var done: bytes := [];
    assert queries[0..] == queries;
    FollowsFromStart(whole);
    for i := 0 to |queries|
      invariant buffer.Valid() && buffer.visited == old(buffer.visited)
      invariant Grown(before, start, buffer.data[..], buffer.pos, done)
      invariant Follows(whole, done, QuestionsBytes(buffer.Written(), queries[i..]))
    {
      ghost var here, at := buffer.data[..], buffer.pos;
      ghost var first := QuestionBytes(here[..at], queries[i]);
      assert queries[i..][0] == queries[i] && queries[i..][1..] == queries[i + 1..];
      r := PutFields(buffer, QuestionFields(queries[i]));
      if first.Err? {
        assert buffer.data[..start] == buffer.data[..at][..start];
      } else {
        QuestionsFollow(here[..at], queries[i..], whole, done, first.value);
        GrownThen(before, start, here, at, buffer.data[..], buffer.pos, done, first.value, r.Ok?);
        if r.Err? && whole.Ok? {
          GrownNoFurther(before, start, buffer.data[..], buffer.pos, done + first.value, whole.value);
        }
      }
      if r.Err? {
        return;
      }
      done := done + first.value;
    }
    assert done + [] == done;
    r := Ok(());
  }

  method DecodeQuestion(buffer: Buffer) returns (r: Result<Question, Error>)
    requires buffer.Valid() && buffer.visited == []
    modifies buffer
    ensures buffer.Valid()
    ensures match ReadQuestion(buffer.data[..], old(buffer.pos))
            case Ok(question) => r == Ok(question.0) && buffer.pos == question.1 && buffer.visited == []
            case Err(error) => r == Err(error)
  {
    var fs :- GetFields(buffer, QUESTION_KINDS);
    r := Ok(QuestionOf(fs));
  }

  // ---------- decoding records ----------

  lemma ReadTextsFollow(b: bytes, p: nat, stop: nat, whole: Result<(seq<Field>, nat), Error>,
                        done: seq<Field>, octets: bytes, next: nat)
    requires p < stop && p <= next <= |b| && ReadFollows(whole, done, ReadTexts(b, p, stop))
    requires StringAt(b, p) == (Ok(octets), next)
    ensures ReadFollows(whole, done + [Text(octets)], ReadTexts(b, next, stop))
  {
    var rest := ReadTexts(b, next, stop);
    if rest.Ok? {
      Regroup(done, [Text(octets)], rest.value.0);
    }
  }

  method GetTexts(buffer: Buffer, size: nat) returns (r: Result<seq<Field>, Error>)
    requires buffer.Valid() && buffer.visited == []
    modifies buffer
    ensures buffer.Valid()
    ensures match ReadTexts(buffer.data[..], old(buffer.pos), old(buffer.pos) + size)
            case Ok(fields) => r == Ok(fields.0) && buffer.pos == fields.1 && buffer.visited == []
            case Err(error) => r == Err(error)
  {
    ghost var b := buffer.data[..];
    var posStart := buffer.pos;
    ghost var whole := ReadTexts(b, posStart, posStart + size);
    var texts: seq<Field> := [];
    ReadFollowsFromStart(whole);
    while buffer.pos - posStart < size
      invariant buffer.Valid() && buffer.visited == [] && posStart <= buffer.pos
      invariant ReadFollows(whole, texts, ReadTexts(b, buffer.pos, posStart + size))
      decreases buffer.data.Length - buffer.pos
    {
      ghost var at := buffer.pos;
      var octets :- buffer.GetDnsCharacterString();
      ReadTextsFollow(b, at, posStart + size, whole, texts, octets, buffer.pos);
      texts := texts + [Text(octets)];
    }
    assert texts + [] == texts;
    r := Ok(texts);
  }

  method GetRData(buffer: Buffer, rtype: nat, size: nat) returns (r: Result<seq<Field>, Error>)
    requires buffer.Valid() && buffer.visited == []
    modifies buffer
    ensures buffer.Valid()
    ensures match ReadRData(buffer.data[..], old(buffer.pos), rtype, size)
            case Ok(fields) => r == Ok(fields.0) && buffer.pos == fields.1 && buffer.visited == []
            case Err(error) => r == Err(error)
  {
    if rtype == TYPE_TXT {
      r := GetTexts(buffer, size);
    } else {
      r := GetFields(buffer, Layout(rtype, size));
    }
  }

  method DecodeRecord(buffer: Buffer) returns (r: Result<Record, Error>)
    requires buffer.Valid() && buffer.visited == []
    modifies buffer
    ensures buffer.Valid()
    ensures match ReadRecord(buffer.data[..], old(buffer.pos))
            case Ok(record) => r == Ok(record.0) && buffer.pos == record.1 && buffer.visited == []
            case Err(error) => r == Err(error)
  {
    var fs :- GetFields(buffer, HEAD_KINDS);
    var record := RecordOf(fs);
    var size := NumberOf(fs[4]);
    if size > 0 {
      var bPos := buffer.pos;
      var data :- GetRData(buffer, record.rtype, size);
      if buffer.pos - bPos != size {
        return Err(WrongRDataSize);
      }
      record := record.(rdata := Some(data));
    }
    r := Ok(record);
  }

  lemma ReadRecordsFollow(b: bytes, p: nat, count: nat, whole: Result<(seq<Record>, nat), Error>,
                          done: seq<Record>, first: Record, next: nat)
    requires p <= |b| && count > 0 && ReadFollows(whole, done, ReadRecords(b, p, count))
    requires ReadRecord(b, p) == Ok((first, next))
    ensures ReadFollows(whole, done + [first], ReadRecords(b, next, count - 1))
  {
    var rest := ReadRecords(b, next, count - 1);
    if rest.Ok? {
      Regroup(done, [first], rest.value.0);
    }
  }

  method DecodeRecords(buffer: Buffer, count: nat) returns (r: Result<seq<Record>, Error>)
    requires buffer.Valid() && buffer.visited == []
    modifies buffer
    ensures buffer.Valid()
    ensures match ReadRecords(buffer.data[..], old(buffer.pos), count)
            case Ok(records) => r == Ok(records.0) && buffer.pos == records.1 && buffer.visited == []
            case Err(error) => r == Err(error)
  {
    ghost var b := buffer.data[..];
    ghost var whole := ReadRecords(b, buffer.pos, count);
    var list: seq<Record> := [];
    ReadFollowsFromStart(whole);
    for i := 0 to count
      invariant buffer.Valid() && buffer.visited == []
      invariant ReadFollows(whole, list, ReadRecords(b, buffer.pos, count - i))
    {
      ghost var at := buffer.pos;
      var record :- DecodeRecord(buffer);
      ReadRecordsFollow(b, at, count - i, whole, list, record, buffer.pos);
      list := list + [record];
    }
    assert list + [] == list;
    r := Ok(list);
  }

  lemma ReadQuestionsFollow(b: bytes, p: nat, count: nat, whole: Result<(seq<Question>, nat), Error>,
                            done: seq<Question>, first: Question, next: nat)
    requires p <= |b| && count > 0 && ReadFollows(whole, done, ReadQuestions(b, p, count))
    requires ReadQuestion(b, p) == Ok((first, next))
    ensures ReadFollows(whole, done + [first], ReadQuestions(b, next, count - 1))
  {
    var rest := ReadQuestions(b, next, count - 1);
    if rest.Ok? {
      Regroup(done, [first], rest.value.0);
    }
  }

  lemma ReadQuestionsFail(b: bytes, p: nat, count: nat, whole: Result<(seq<Question>, nat), Error>,
                          done: seq<Question>, error: Error)
    requires p <= |b| && count > 0 && ReadFollows(whole, done, ReadQuestions(b, p, count))
    requires ReadQuestion(b, p) == Err(error)
    ensures whole == Err(error)
  {
  }

  lemma ReadQuestionsDone(b: bytes, p: nat, whole: Result<(seq<Question>, nat), Error>, done: seq<Question>)
    requires p <= |b| && ReadFollows(whole, done, ReadQuestions(b, p, 0))
    ensures whole == Ok((done, p))
  {
    assert done + [] == done;
  }

  /** One more question behind those in `list`. */
  method DecodeNextQuestion(buffer: Buffer, list: seq<Question>, ghost count: nat,
                            ghost whole: Result<(seq<Question>, nat), Error>)
    returns (r: Result<seq<Question>, Error>)
    requires buffer.Valid() && buffer.visited == [] && count > 0
    requires ReadFollows(whole, list, ReadQuestions(buffer.data[..], buffer.pos, count))
    modifies buffer
    ensures buffer.Valid()
    ensures if r.Ok?
            then buffer.visited == []
                 && ReadFollows(whole, r.value, ReadQuestions(buffer.data[..], buffer.pos, count - 1))
            else whole == Err(r.error)
  {
    ghost var b, at := buffer.data[..], buffer.pos;
    var question := DecodeQuestion(buffer);
    if question.Err? {
      ReadQuestionsFail(b, at, count, whole, list, question.error);
      return Err(question.error);
    }
    ReadQuestionsFollow(b, at, count, whole, list, question.value, buffer.pos);
    return Ok(list + [question.value]);
  }

  method DecodeQuestions(buffer: Buffer, count: nat) returns (r: Result<seq<Question>, Error>)
    requires buffer.Valid() && buffer.visited == []
    modifies buffer
    ensures buffer.Valid()
    ensures match ReadQuestions(buffer.data[..], old(buffer.pos), count)
            case Ok(questions) => r == Ok(questions.0) && buffer.pos == questions.1 && buffer.visited == []
            case Err(error) => r == Err(error)
  {
    ghost var whole := ReadQuestions(buffer.data[..], buffer.pos, count);
    var list: seq<Question> := [];
    ReadFollowsFromStart(whole);
    for i := 0 to count
      invariant buffer.Valid() && buffer.visited == []
      invariant ReadFollows(whole, list, ReadQuestions(buffer.data[..], buffer.pos, count - i))
    {
      r := DecodeNextQuestion(buffer, list, count - i, whole);
      if r.Err? {
        return;
      }
      list := r.value;
    }
    ReadQuestionsDone(buffer.data[..], buffer.pos, whole, list);
    r := Ok(list);
  }

  // ---------- messages ----------

  /** What encoding a message leaves at the start of a buffer of `size` octets. */
  ghost function Emitted(m: Contents, size: nat): Option<bytes>
  {
    var b := MessageBytes(m);
    if b.Ok? && RecordsFit(AllRecords(m), |b.value|, size) then Some(b.value) else None
  }

  /** The same, part by part. */
  ghost function EmittedParts(fields: seq<Field>, queries: seq<Question>, records: seq<Record>, size: nat): Option<bytes>
  {
    var first := FieldsBytes([], fields);
    if first.Err? || |first.value| > size then None
    else
      var second := QuestionsBytes(first.value, queries);
      if second.Err? || |first.value + second.value| > size then None
      else After(first.value + second.value, EmitAll(first.value + second.value, records, size))
  }

  lemma EmittedInParts(fields: seq<Field>, queries: seq<Question>, records: seq<Record>, size: nat)
    ensures EmittedParts(fields, queries, records, size) ==
            var b := PartsBytes(fields, queries, records);
            if b.Ok? && RecordsFit(records, |b.value|, size) then Some(b.value) else None
  {
    var first := FieldsBytes([], fields);
    if first.Ok? {
      var second := QuestionsBytes(first.value, queries);
      if second.Ok? && |first.value + second.value| <= size {
        EmitAllExact(first.value + second.value, records, size);
      }
    }
  }

  lemma EmitSections(w: bytes, x: seq<Record>, y: seq<Record>, z: seq<Record>, size: nat)
    ensures EmitAll(w, x + y + z, size) ==
            var ox := EmitAll(w, x, size);
            if ox.None? then None else
              var oy := EmitAll(w + ox.value, y, size);
              if oy.None? then None else
                After(ox.value + oy.value, EmitAll(w + ox.value + oy.value, z, size))
  {
    EmitAllConcat(w, x + y, z, size);
    EmitAllConcat(w, x, y, size);
    var ox := EmitAll(w, x, size);
    if ox.Some? {
      var oy := EmitAll(w + ox.value, y, size);
      if oy.Some? {
        Regroup(w, ox.value, oy.value);
      }
    }
  }

  lemma GrownFromStart(a: bytes, b: bytes, q: nat, octets: bytes)
    requires Grown(a, 0, b, q, octets)
    ensures q == |octets| <= |b| && b == octets + a[|octets|..]
  {
    assert a[..0] + octets == octets && b == b[..q] + b[q..];
  }

  class Message {
    var mId: nat
    var mQr: nat
    var mOpCode: nat
    var mAA: nat
    var mTC: nat
    var mRD: nat
    var mRA: nat
    var mRCode: nat
    var mQueries: seq<Question>
    var mAnswers: seq<Record>
    var mAuthorities: seq<Record>
    var mAdditional: seq<Record>

    function Value(): Contents
      reads this
    {
      Contents(mId, mQr, mOpCode, mAA, mTC, mRD, mRA, mRCode, mQueries, mAnswers, mAuthorities, mAdditional)
    }

    constructor ()
      ensures Value() == Contents(0, 0, 0, 0, 0, 0, 0, 0, [], [], [], [])
    {
      mId, mQr, mOpCode, mAA, mTC, mRD, mRA, mRCode := 0, 0, 0, 0, 0, 0, 0, 0;
      mQueries, mAnswers, mAuthorities, mAdditional := [], [], [], [];
    }

    method RemoveAllRecords()
      modifies this
      ensures Value() == old(Value()).(queries := [], answers := [], authorities := [], additional := [])
    {
      mQueries, mAnswers, mAuthorities, mAdditional := [], [], [], [];
    }

    method DecodeHeader(buff: Buffer) returns (r: Result<seq<nat>, Error>)
      requires buff.Valid() && buff.visited == []
      modifies this, buff
      ensures buff.Valid()
      ensures match ReadFields(buff.data[..], old(buff.pos), HEADER_KINDS)
              case Ok((fs, end)) =>
                && r == Ok(Numbers(fs)) && |fs| == 6 && buff.pos == end && buff.visited == []
                && Value() == Assemble(r.value[0], r.value[1], old(mRCode), old(mQueries),
                                       (old(mAnswers), old(mAuthorities), old(mAdditional)))
              case Err(error) => r == Err(error)
    {
      var fs :- GetFields(buff, HEADER_KINDS);
      var numbers := Numbers(fs);
      SetHeader(numbers[0], numbers[1]);
      r := Ok(numbers);
    }

    method SetHeader(id: nat, fields: nat)
      modifies this
      ensures Value() == Assemble(id, fields, old(mRCode), old(mQueries),
                                  (old(mAnswers), old(mAuthorities), old(mAdditional)))
    {
      mId := id;
      mQr, mOpCode := fields / 0x8000 % 2, fields / 0x800 % 16;
      mAA, mTC, mRD, mRA := fields / 0x400 % 2, fields / 0x200 % 2, fields / 0x100 % 2, fields / 0x80 % 2;
    }

    method DecodeSections(buff: Buffer, anCount: nat, nsCount: nat, arCount: nat) returns (r: Result<(), Error>)
      requires buff.Valid() && buff.visited == []
      modifies this, buff
      ensures buff.Valid()
      ensures match ReadSections(buff.data[..], old(buff.pos), anCount, nsCount, arCount)
              case Ok((sections, end)) =>
                && r.Ok? && buff.pos == end
                && Value() == old(Value()).(answers := sections.0, authorities := sections.1, additional := sections.2)
              case Err(error) => r == Err(error)
    {
      mAnswers :- DecodeRecords(buff, anCount);
      mAuthorities :- DecodeRecords(buff, nsCount);
      mAdditional :- DecodeRecords(buff, arCount);
      r := Ok(());
    }

    method Decode(buffer: array<byte>) returns (r: Result<(), Error>)
      modifies this
      ensures match ReadMessage(buffer[..], old(mRCode))
              case Ok(m) => r.Ok? && Value() == m
              case Err(error) => r == Err(error)
    {
      if buffer.Length > MAX_MSG_LEN {
        return Err(MessageTooLong);
      }
      var buff := new Buffer(buffer);
      RemoveAllRecords();
      var counts :- DecodeHeader(buff);
      mQueries :- DecodeQuestions(buff, counts[2]);
      var _ :- DecodeSections(buff, counts[3], counts[4], counts[5]);
      if buff.pos != buffer.Length {
        return Err(MessageNotEmpty);
      }
      r := Ok(());
    }

    method EncodeSections(buff: Buffer) returns (r: Result<(), Error>)
      requires buff.Valid()
      modifies buff, buff.data
      ensures buff.Valid()
      ensures AppendedOrNot(buff, EmitAll(old(buff.Written()), AllRecords(Value()), buff.data.Length), r)
    {
      ghost var a, start, w, size := buff.data[..], buff.pos, buff.Written(), buff.data.Length;
      EmitSections(w, mAnswers, mAuthorities, mAdditional, size);
      r := EncodeRecords(buff, mAnswers);
      if r.Err? { return; }
      ghost var b, p := buff.data[..], buff.pos;
      ghost var answers := EmitAll(w, mAnswers, size).value;
      r := EncodeRecords(buff, mAuthorities);
      if r.Err? {
        assert buff.data[..start] == buff.data[..p][..start];
        return;
      }
      ghost var c, q := buff.data[..], buff.pos;
      ghost var authorities := EmitAll(b[..p], mAuthorities, size).value;
      GrownTwice(a, start, b, p, c, q, answers, authorities);
      r := EncodeRecords(buff, mAdditional);
      if r.Err? {
        assert buff.data[..start] == buff.data[..q][..start];
        return;
      }
      GrownTwice(a, start, c, q, buff.data[..], buff.pos, answers + authorities,
                 EmitAll(c[..q], mAdditional, size).value);
    }

    method Encode(buffer: array<byte>) returns (r: Result<(), Error>, validSize: nat)
      modifies buffer
      ensures match Emitted(Value(), buffer.Length)
              case Some(octets) =>
                && r.Ok? && validSize == |octets| <= buffer.Length
                && buffer[..] == octets + old(buffer[|octets|..])
              case None => r.Err? && validSize == 0
    {
      validSize := 0;
      var buff := new Buffer(buffer);
      ghost var size, a := buffer.Length, buffer[..];
      ghost var m := Value();
      EmittedInParts(HeaderFields(m), m.queries, AllRecords(m), size);
      assert a[..0] == [];
      r := PutFields(buff, HeaderFields(Value()));
      if r.Err? { return; }
      ghost var header := FieldsBytes([], HeaderFields(m)).value;
      ghost var b, p := buffer[..], buff.pos;
      assert buff.Written() == header;
      r := EncodeQuestions(buff, mQueries);
      if r.Err? { return; }
      ghost var queries := QuestionsBytes(header, m.queries).value;
      ghost var c, q := buffer[..], buff.pos;
      GrownTwice(a, 0, b, p, c, q, header, queries);
      r := EncodeSections(buff);
      if r.Err? { return; }
      GrownTwice(a, 0, c, q, buffer[..], buff.pos, header + queries, EmitAll(c[..q], AllRecords(m), size).value);
      validSize := buff.pos;
      GrownFromStart(a, buffer[..], validSize, Emitted(m, size).value);
    }
  }
}
