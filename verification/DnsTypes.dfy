/** What RDATA each type of record has, member by member (dnslib/rr.cpp, section 3.3 of RFC 1035,
    RFC 3596 and RFC 3403). */
module DnsTypes {
  import opened Wrappers
  import opened Buffers
  import opened DnsWire
  import opened DnsFields
  import opened DnsRecords

  /** Behind `w`, the buffer holds the head of the record, RDLENGTH, and, from `p` on, the octets `data`. */
  ghost predicate OnWire(w: bytes, r: Record, head: bytes, data: bytes, b: bytes, p: nat)
  {
    && AllWellFormed(HeadFields(r)) && FieldsBytes(w, HeadFields(r)) == Ok(head) && p == |w| + |head| + 2
    && 0 < |data| < 0x1_0000 && p + |data| <= |b| <= 0x4000 && w + (head + Octets16(|data|)) + data <= b
  }

  /** What is read of RDATA with `size` octets at `p`, once its members were read, or were not. */
  function Sized(r: Record, p: nat, size: nat, members: Result<(seq<Field>, nat), Error>): Result<(Record, nat), Error>
  {
    if members.Err? then Err(members.error)
    else if members.value.1 != p + size then Err(WrongRDataSize)
    else Ok((r.(rdata := Some(members.value.0)), members.value.1))
  }

  lemma HeadOnWire(w: bytes, r: Record, head: bytes, data: bytes, b: bytes, p: nat)
    requires OnWire(w, r, head, data, b, p)
    ensures ReadFields(b, |w|, HEAD_KINDS) == Ok((HeadFields(r) + [U16(|data|)], p))
    ensures p + |data| <= |b| && b[p..p + |data|] == data
  {
    var front := w + (head + Octets16(|data|));
    assert front <= front + data <= b && |front| == p;
    HeadRoundTrip(w, r, head, |data|, b, |w|, p);
  }

  lemma RecordRead(w: bytes, r: Record, head: bytes, data: bytes, b: bytes, p: nat)
    returns (got: Result<(Record, nat), Error>)
    requires OnWire(w, r, head, data, b, p)
    ensures ReadRecord(b, |w|) == got && got == Sized(r, p, |data|, ReadRData(b, p, r.rtype, |data|))
    ensures p + |data| <= |b| && b[p..p + |data|] == data
  {
    HeadOnWire(w, r, head, data, b, p);
    FromParts(r, HeadFields(r) + [U16(|data|)], |data|, b, |w|, p);
    got := ReadRecord(b, |w|);
  }

  lemma FromParts(r: Record, fs: seq<Field>, size: nat, b: bytes, p: nat, base: nat)
    requires p <= base && base + size <= |b| && size > 0
    requires fs == HeadFields(r) + [U16(size)] && ReadFields(b, p, HEAD_KINDS) == Ok((fs, base))
    ensures ReadRecord(b, p) == Sized(r, base, size, ReadRData(b, base, r.rtype, size))
  {
  }

  /** So a record is read exactly when its members are, and end where RDLENGTH says. */
  lemma SizedExactly(r: Record, p: nat, size: nat, members: Result<(seq<Field>, nat), Error>)
    ensures Sized(r, p, size, members).Ok? <==> members.Ok? && members.value.1 == p + size
    ensures Sized(r, p, size, members).Ok? ==>
              Sized(r, p, size, members) == Ok((r.(rdata := Some(members.value.0)), p + size))
  {
  }

  // ---------- members ----------

  function NameAt(b: bytes, p: nat, links: bool): (f: Result<(Field, nat), Error>)
    requires p <= |b|
    ensures f.Ok? ==> p <= f.value.1 <= |b|
  {
    var n := ReadName(b, p, [], links);
    if n.name.Err? then Err(n.name.error)
    else
      assert ReadField(b, p, KindName(links)).Ok?;
      Ok((Name(n.name.value, links), n.pos))
  }

  function TextAt(b: bytes, p: nat): (f: Result<(Field, nat), Error>)
    requires p <= |b|
    ensures f.Ok? ==> p <= f.value.1 <= |b|
  {
    if p == |b| || p + 1 + b[p] > |b| then Err(BehindBuffer) else Ok((Text(b[p + 1..p + 1 + b[p]]), p + 1 + b[p]))
  }

  function ShortAt(b: bytes, p: nat): (f: Result<(Field, nat), Error>)
    requires p <= |b|
    ensures f.Ok? ==> p <= f.value.1 <= |b|
  {
    if p + 2 > |b| then Err(BehindBuffer) else Ok((U16(b[p] as int * 0x100 + b[p + 1]), p + 2))
  }

  function LongAt(b: bytes, p: nat): (f: Result<(Field, nat), Error>)
    requires p <= |b|
    ensures f.Ok? ==> p <= f.value.1 <= |b|
  {
    if p + 4 > |b| then Err(BehindBuffer)
    else Ok((U32(b[p] as int * 0x100_0000 + b[p + 1] as int * 0x1_0000 + b[p + 2] as int * 0x100 + b[p + 3]), p + 4))
  }

  /** One member, and then the others. */
  function Then(first: Field, rest: Result<(seq<Field>, nat), Error>): Result<(seq<Field>, nat), Error>
  {
    if rest.Err? then rest else Ok(([first] + rest.value.0, rest.value.1))
  }

  lemma MemberThen(b: bytes, p: nat, kind: Kind, kinds: seq<Kind>, member: Result<(Field, nat), Error>)
    requires p <= |b| && ReadField(b, p, kind) == member
    ensures member.Err? ==> ReadFields(b, p, [kind] + kinds) == Err(member.error)
    ensures member.Ok? ==> ReadFields(b, p, [kind] + kinds) == Then(member.value.0, ReadFields(b, member.value.1, kinds))
  {
    assert ([kind] + kinds)[1..] == kinds;
  }

  /** The last member. */
  function Last(member: Result<(Field, nat), Error>): Result<(seq<Field>, nat), Error>
  {
    if member.Err? then Err(member.error) else Ok(([member.value.0], member.value.1))
  }

  lemma LastMember(b: bytes, p: nat, kind: Kind, member: Result<(Field, nat), Error>)
    requires p <= |b| && ReadField(b, p, kind) == member
    ensures ReadFields(b, p, [kind]) == Last(member)
  {
    MemberThen(b, p, kind, [], member);
    assert [kind] + [] == [kind];
    if member.Ok? {
      assert ReadFields(b, member.value.1, []) == Ok(([], member.value.1));
      assert [member.value.0] + [] == [member.value.0];
    }
  }

  lemma TwoMembers(b: bytes, p: nat, k: Kind, l: Kind, x: Result<(Field, nat), Error>, y: Result<(Field, nat), Error>)
    requires p <= |b| && ReadField(b, p, k) == x
    requires x.Ok? ==> x.value.1 <= |b| && ReadField(b, x.value.1, l) == y
    ensures x.Err? ==> ReadFields(b, p, [k, l]) == Err(x.error)
    ensures x.Ok? && y.Err? ==> ReadFields(b, p, [k, l]) == Err(y.error)
    ensures x.Ok? && y.Ok? ==> ReadFields(b, p, [k, l]) == Ok(([x.value.0, y.value.0], y.value.1))
  {
    assert [k] + [l] == [k, l];
    MemberThen(b, p, k, [l], x);
    if x.Ok? {
      LastMember(b, x.value.1, l, y);
      assert y.Ok? ==> [x.value.0] + [y.value.0] == [x.value.0, y.value.0];
    }
  }

  lemma MoreMembers(b: bytes, p: nat, k: Kind, kinds: seq<Kind>, x: Result<(Field, nat), Error>,
                    rest: Result<(seq<Field>, nat), Error>)
    requires p <= |b| && ReadField(b, p, k) == x && (x.Ok? ==> x.value.1 <= |b| && ReadFields(b, x.value.1, kinds) == rest)
    ensures x.Err? ==> ReadFields(b, p, [k] + kinds) == Err(x.error)
    ensures x.Ok? ==> ReadFields(b, p, [k] + kinds) == Then(x.value.0, rest)
  {
    MemberThen(b, p, k, kinds, x);
  }

  lemma LaidOut(b: bytes, p: nat, rtype: nat, size: nat, kinds: seq<Kind>, members: Result<(seq<Field>, nat), Error>)
    requires p <= |b| && rtype != TYPE_TXT && Layout(rtype, size) == kinds && ReadFields(b, p, kinds) == members
    ensures ReadRData(b, p, rtype, size) == members
  {
  }

  lemma MembersRead(b: bytes, p: nat)
    requires p <= |b|
    ensures ReadField(b, p, KindU16) == ShortAt(b, p) && ReadField(b, p, KindU32) == LongAt(b, p)
    ensures ReadField(b, p, KindText) == TextAt(b, p)
    ensures ReadField(b, p, KindName(true)) == NameAt(b, p, true) && ReadField(b, p, KindName(false)) == NameAt(b, p, false)
  {
  }

  // ---------- addresses and plain octets ----------

  lemma OctetsRead(b: bytes, p: nat, rtype: nat, size: nat, n: nat)
    requires p <= |b| && rtype != TYPE_TXT && Layout(rtype, size) == [KindOctets(n)]
    ensures ReadRData(b, p, rtype, size) ==
            if p + n <= |b| then Ok(([Octets(b[p..p + n])], p + n)) else Err(BehindBuffer)
  {
    LastMember(b, p, KindOctets(n), ReadField(b, p, KindOctets(n)));
  }

  lemma PlainRead(got: Result<(Record, nat), Error>, r: Record, b: bytes, p: nat, data: bytes, n: nat)
    requires r.rtype != TYPE_TXT && Layout(r.rtype, |data|) == [KindOctets(n)]
    requires p + |data| <= |b| && b[p..p + |data|] == data && got == Sized(r, p, |data|, ReadRData(b, p, r.rtype, |data|))
    ensures got.Ok? <==> |data| == n
    ensures |data| == n ==> got == Ok((r.(rdata := Some([Octets(data)])), p + n))
    ensures |data| > n ==> got == Err(WrongRDataSize)
  {
    OctetsRead(b, p, r.rtype, |data|, n);
  }

  lemma AddressGot(got: Result<(Record, nat), Error>, r: Record, b: bytes, p: nat, data: bytes)
    requires r.rtype == 1
    requires p + |data| <= |b| && b[p..p + |data|] == data && got == Sized(r, p, |data|, ReadRData(b, p, r.rtype, |data|))
    ensures got.Ok? <==> |data| == 4
    ensures |data| == 4 ==> got == Ok((r.(rdata := Some([Octets(data)])), p + 4))
    ensures |data| > 4 ==> got == Err(WrongRDataSize)
  {
    assert Layout(r.rtype, |data|) == [KindOctets(4)];
    PlainRead(got, r, b, p, data, 4);
  }

  /** An A record is read exactly when its RDATA has four octets, and they are its address. */
  lemma AddressExactly(w: bytes, r: Record, head: bytes, data: bytes, b: bytes, p: nat)
    requires r.rtype == 1 && OnWire(w, r, head, data, b, p)
    ensures ReadRecord(b, |w|).Ok? <==> |data| == 4
    ensures |data| == 4 ==> ReadRecord(b, |w|) == Ok((r.(rdata := Some([Octets(data)])), p + 4))
    ensures |data| > 4 ==> ReadRecord(b, |w|) == Err(WrongRDataSize)
  {
    var got := RecordRead(w, r, head, data, b, p);
    AddressGot(got, r, b, p, data);
  }

  lemma LongAddressGot(got: Result<(Record, nat), Error>, r: Record, b: bytes, p: nat, data: bytes)
    requires r.rtype == 28
    requires p + |data| <= |b| && b[p..p + |data|] == data && got == Sized(r, p, |data|, ReadRData(b, p, r.rtype, |data|))
    ensures got.Ok? <==> |data| == 16
    ensures |data| == 16 ==> got == Ok((r.(rdata := Some([Octets(data)])), p + 16))
    ensures |data| > 16 ==> got == Err(WrongRDataSize)
  {
    assert Layout(r.rtype, |data|) == [KindOctets(16)];
    PlainRead(got, r, b, p, data, 16);
  }

  /** So is an AAAA record, with sixteen. */
  lemma LongAddressExactly(w: bytes, r: Record, head: bytes, data: bytes, b: bytes, p: nat)
    requires r.rtype == 28 && OnWire(w, r, head, data, b, p)
    ensures ReadRecord(b, |w|).Ok? <==> |data| == 16
    ensures |data| == 16 ==> ReadRecord(b, |w|) == Ok((r.(rdata := Some([Octets(data)])), p + 16))
    ensures |data| > 16 ==> ReadRecord(b, |w|) == Err(WrongRDataSize)
  {
    var got := RecordRead(w, r, head, data, b, p);
    LongAddressGot(got, r, b, p, data);
  }

  lemma OtherGot(got: Result<(Record, nat), Error>, r: Record, b: bytes, p: nat, data: bytes)
    requires r.rtype !in {1, 2, 3, 4, 5, 6, 7, 8, 9, 11, 12, 13, 14, 15, 16, 28, 35}
    requires p + |data| <= |b| && b[p..p + |data|] == data && got == Sized(r, p, |data|, ReadRData(b, p, r.rtype, |data|))
    ensures got == Ok((r.(rdata := Some([Octets(data)])), p + |data|))
  {
    assert Layout(r.rtype, |data|) == [KindOctets(|data|)];
    PlainRead(got, r, b, p, data, |data|);
  }

  /** Records of a type that has no RDATA class are always read, with all their octets. */
  lemma OtherTypesExactly(w: bytes, r: Record, head: bytes, data: bytes, b: bytes, p: nat)
    requires r.rtype !in {1, 2, 3, 4, 5, 6, 7, 8, 9, 11, 12, 13, 14, 15, 16, 28, 35} && OnWire(w, r, head, data, b, p)
    ensures ReadRecord(b, |w|) == Ok((r.(rdata := Some([Octets(data)])), p + |data|))
  {
    var got := RecordRead(w, r, head, data, b, p);
    OtherGot(got, r, b, p, data);
  }

  // ---------- names ----------

  /** NS, MD, MF, CNAME, MB, MG, MR and PTR records: one name, pointers followed. */
  lemma NameTypesExactly(w: bytes, r: Record, head: bytes, data: bytes, b: bytes, p: nat)
    requires r.rtype in {2, 3, 4, 5, 7, 8, 9, 12} && OnWire(w, r, head, data, b, p)
    ensures ReadRecord(b, |w|) == Sized(r, p, |data|, OneNameAt(b, p))
  {
    var got := RecordRead(w, r, head, data, b, p);
    OneNameRead(b, p, r.rtype, |data|);
  }

  function OneNameAt(b: bytes, p: nat): Result<(seq<Field>, nat), Error>
    requires p <= |b|
  {
    var name :- NameAt(b, p, true);
    Ok(([name.0], name.1))
  }

  lemma OneNameRead(b: bytes, p: nat, rtype: nat, size: nat)
    requires p <= |b| && rtype in {2, 3, 4, 5, 7, 8, 9, 12}
    ensures ReadRData(b, p, rtype, size) == OneNameAt(b, p)
  {
    assert Layout(rtype, size) == [KindName(true)];
    MembersRead(b, p);
    LastMember(b, p, KindName(true), NameAt(b, p, true));
  }

  /** MINFO records: two names. */
  lemma MailboxesExactly(w: bytes, r: Record, head: bytes, data: bytes, b: bytes, p: nat)
    requires r.rtype == 14 && OnWire(w, r, head, data, b, p)
    ensures ReadRecord(b, |w|) == Sized(r, p, |data|, TwoNamesAt(b, p))
  {
    var got := RecordRead(w, r, head, data, b, p);
    TwoNamesRead(b, p, |data|);
  }

  function TwoNamesAt(b: bytes, p: nat): Result<(seq<Field>, nat), Error>
    requires p <= |b|
  {
    var rMailBx :- NameAt(b, p, true);
    var eMailBx :- NameAt(b, rMailBx.1, true);
    Ok(([rMailBx.0, eMailBx.0], eMailBx.1))
  }

  lemma TwoNamesRead(b: bytes, p: nat, size: nat)
    requires p <= |b|
    ensures ReadRData(b, p, 14, size) == TwoNamesAt(b, p)
  {
    TwoNamesInTurn(b, p);
    LaidOut(b, p, 14, size, [KindName(true), KindName(true)], TwoNamesAt(b, p));
  }

  lemma TwoNamesInTurn(b: bytes, p: nat)
    requires p <= |b|
    ensures ReadFields(b, p, [KindName(true), KindName(true)]) == TwoNamesAt(b, p)
  {
    var first := NameAt(b, p, true);
    MembersRead(b, p);
    if first.Ok? {
      MembersRead(b, first.value.1);
    }
    TwoMembers(b, p, KindName(true), KindName(true), first, if first.Ok? then NameAt(b, first.value.1, true) else first);
  }

  /** HINFO records: two character strings. */
  lemma HostExactly(w: bytes, r: Record, head: bytes, data: bytes, b: bytes, p: nat)
    requires r.rtype == 13 && OnWire(w, r, head, data, b, p)
    ensures ReadRecord(b, |w|) == Sized(r, p, |data|, TwoTextsAt(b, p))
  {
    var got := RecordRead(w, r, head, data, b, p);
    TwoTextsRead(b, p, |data|);
  }

  function TwoTextsAt(b: bytes, p: nat): Result<(seq<Field>, nat), Error>
    requires p <= |b|
  {
    var cpu :- TextAt(b, p);
    var os :- TextAt(b, cpu.1);
    Ok(([cpu.0, os.0], os.1))
  }

  lemma TwoTextsRead(b: bytes, p: nat, size: nat)
    requires p <= |b|
    ensures ReadRData(b, p, 13, size) == TwoTextsAt(b, p)
  {
    TwoTextsInTurn(b, p);
    LaidOut(b, p, 13, size, [KindText, KindText], TwoTextsAt(b, p));
  }

  lemma TwoTextsInTurn(b: bytes, p: nat)
    requires p <= |b|
    ensures ReadFields(b, p, [KindText, KindText]) == TwoTextsAt(b, p)
  {
    var first := TextAt(b, p);
    MembersRead(b, p);
    if first.Ok? {
      MembersRead(b, first.value.1);
    }
    TwoMembers(b, p, KindText, KindText, first, if first.Ok? then TextAt(b, first.value.1) else first);
  }

  /** MX records: a preference of sixteen bits, and a name. */
  lemma ExchangeExactly(w: bytes, r: Record, head: bytes, data: bytes, b: bytes, p: nat)
    requires r.rtype == 15 && OnWire(w, r, head, data, b, p)
    ensures ReadRecord(b, |w|) == Sized(r, p, |data|, ExchangeAt(b, p))
  {
    var got := RecordRead(w, r, head, data, b, p);
    ExchangeRead(b, p, |data|);
  }

  function ExchangeAt(b: bytes, p: nat): Result<(seq<Field>, nat), Error>
    requires p <= |b|
  {
    var preference :- ShortAt(b, p);
    var exchange :- NameAt(b, preference.1, true);
    Ok(([preference.0, exchange.0], exchange.1))
  }

  lemma ExchangeRead(b: bytes, p: nat, size: nat)
    requires p <= |b|
    ensures ReadRData(b, p, 15, size) == ExchangeAt(b, p)
  {
    ExchangeInTurn(b, p);
    LaidOut(b, p, 15, size, [KindU16, KindName(true)], ExchangeAt(b, p));
  }

  lemma ExchangeInTurn(b: bytes, p: nat)
    requires p <= |b|
    ensures ReadFields(b, p, [KindU16, KindName(true)]) == ExchangeAt(b, p)
  {
    var first := ShortAt(b, p);
    MembersRead(b, p);
    if first.Ok? {
      MembersRead(b, first.value.1);
    }
    TwoMembers(b, p, KindU16, KindName(true), first, if first.Ok? then NameAt(b, first.value.1, true) else first);
  }

  /** SOA records: two names, and five numbers of 32 bits. */
  lemma AuthorityExactly(w: bytes, r: Record, head: bytes, data: bytes, b: bytes, p: nat)
    requires r.rtype == 6 && OnWire(w, r, head, data, b, p)
    ensures ReadRecord(b, |w|) == Sized(r, p, |data|, AuthorityAt(b, p))
  {
    var got := RecordRead(w, r, head, data, b, p);
    AuthorityRead(b, p, |data|);
  }

  function AuthorityAt(b: bytes, p: nat): Result<(seq<Field>, nat), Error>
    requires p <= |b|
  {
    var mName :- NameAt(b, p, true);
    var rName :- NameAt(b, mName.1, true);
    var numbers :- FiveAt(b, rName.1);
    Ok(([mName.0, rName.0] + numbers.0, numbers.1))
  }

  function FiveAt(b: bytes, p: nat): Result<(seq<Field>, nat), Error>
    requires p <= |b|
  {
    var serial :- LongAt(b, p);
    var refresh :- LongAt(b, serial.1);
    var retry :- LongAt(b, refresh.1);
    var expire :- LongAt(b, retry.1);
    var minimum :- LongAt(b, expire.1);
    Ok(([serial.0, refresh.0, retry.0, expire.0, minimum.0], minimum.1))
  }

  function Longs(n: nat): seq<Kind>
  {
    if n == 0 then [] else [KindU32] + Longs(n - 1)
  }

  function LongsAt(b: bytes, p: nat, n: nat): seq<Field>
    requires p + 4 * n <= |b|
    decreases n
  {
    if n == 0 then [] else [LongAt(b, p).value.0] + LongsAt(b, p + 4, n - 1)
  }

  lemma LongRead(b: bytes, p: nat)
    requires p <= |b|
    ensures ReadField(b, p, KindU32) == LongAt(b, p)
  {
  }

  lemma {:induction false} LongsRead(b: bytes, p: nat, n: nat)
    requires p <= |b|
    ensures ReadFields(b, p, Longs(n)) ==
            if p + 4 * n <= |b| then Ok((LongsAt(b, p, n), p + 4 * n)) else Err(BehindBuffer)
    decreases n
  {
    if n > 0 {
      LongRead(b, p);
      if p + 4 <= |b| {
        LongsRead(b, p + 4, n - 1);
        MoreMembers(b, p, KindU32, Longs(n - 1), LongAt(b, p), ReadFields(b, p + 4, Longs(n - 1)));
      } else {
        MoreMembers(b, p, KindU32, Longs(n - 1), LongAt(b, p), Err(BehindBuffer));
      }
    }
  }

  lemma FiveLongs(b: bytes, p: nat)
    requires p + 20 <= |b|
    ensures FiveAt(b, p) == Ok((LongsAt(b, p, 5), p + 20))
  {
    var a, c, d, e, f := LongAt(b, p), LongAt(b, p + 4), LongAt(b, p + 8), LongAt(b, p + 12), LongAt(b, p + 16);
    assert a.Ok? && a.value.1 == p + 4 && c.Ok? && c.value.1 == p + 8 && d.Ok? && d.value.1 == p + 12;
    assert e.Ok? && e.value.1 == p + 16 && f.Ok? && f.value.1 == p + 20;
    assert FiveAt(b, p) == Ok(([a.value.0, c.value.0, d.value.0, e.value.0, f.value.0], p + 20));
    assert LongsAt(b, p + 20, 0) == [];
    assert LongsAt(b, p + 16, 1) == [f.value.0];
    assert LongsAt(b, p + 12, 2) == [e.value.0, f.value.0];
    assert LongsAt(b, p + 8, 3) == [d.value.0, e.value.0, f.value.0];
    assert LongsAt(b, p + 4, 4) == [c.value.0, d.value.0, e.value.0, f.value.0];
    assert LongsAt(b, p, 5) == [a.value.0] + LongsAt(b, p + 4, 4);
    assert LongsAt(b, p, 5) == [a.value.0, c.value.0, d.value.0, e.value.0, f.value.0];
  }

  lemma FiveInTurn(b: bytes, p: nat)
    requires p <= |b|
    ensures ReadFields(b, p, Longs(5)) == FiveAt(b, p)
  {
    LongsRead(b, p, 5);
    if p + 20 <= |b| {
      FiveLongs(b, p);
    }
  }

  lemma AuthorityInTurn(b: bytes, p: nat)
    requires p <= |b|
    ensures ReadFields(b, p, [KindName(true)] + ([KindName(true)] + Longs(5))) == AuthorityAt(b, p)
  {
    var first := NameAt(b, p, true);
    MembersRead(b, p);
    if first.Err? {
      MoreMembers(b, p, KindName(true), [KindName(true)] + Longs(5), first, Err(first.error));
    } else {
      var q := first.value.1;
      var second := NameAt(b, q, true);
      MembersRead(b, q);
      var five: Result<(seq<Field>, nat), Error> := if second.Ok? then FiveAt(b, second.value.1) else Err(second.error);
      if second.Ok? {
        FiveInTurn(b, second.value.1);
      }
      MoreMembers(b, q, KindName(true), Longs(5), second, five);
      AuthorityJoined(b, p, first, second, five);
      MoreMembers(b, p, KindName(true), [KindName(true)] + Longs(5), first,
                  if second.Err? then Err(second.error) else Then(second.value.0, five));
    }
  }

  lemma AuthorityJoined(b: bytes, p: nat, first: Result<(Field, nat), Error>, second: Result<(Field, nat), Error>,
                        five: Result<(seq<Field>, nat), Error>)
    requires p <= |b| && first == NameAt(b, p, true) && first.Ok? && second == NameAt(b, first.value.1, true)
    requires if second.Ok? then five == FiveAt(b, second.value.1) else five == Err(second.error)
    ensures AuthorityAt(b, p) ==
            if second.Err? then Err(second.error) else Then(first.value.0, Then(second.value.0, five))
  {
    if second.Ok? && five.Ok? {
      assert [first.value.0] + ([second.value.0] + five.value.0) == [first.value.0, second.value.0] + five.value.0;
    }
  }

  lemma AuthorityKinds(size: nat)
    ensures Layout(6, size) == [KindName(true)] + ([KindName(true)] + Longs(5))
  {
    assert Longs(0) == [];
    assert Longs(1) == [KindU32];
    assert Longs(2) == [KindU32, KindU32];
    assert Longs(3) == [KindU32, KindU32, KindU32];
  }

  lemma AuthorityRead(b: bytes, p: nat, size: nat)
    requires p <= |b|
    ensures ReadRData(b, p, 6, size) == AuthorityAt(b, p)
  {
    AuthorityKinds(size);
    AuthorityInTurn(b, p);
    LaidOut(b, p, 6, size, [KindName(true)] + ([KindName(true)] + Longs(5)), AuthorityAt(b, p));
  }

  /** NAPTR records: two numbers of sixteen bits, three character strings, and a name without pointers. */
  lemma AuthorityPointerExactly(w: bytes, r: Record, head: bytes, data: bytes, b: bytes, p: nat)
    requires r.rtype == 35 && OnWire(w, r, head, data, b, p)
    ensures ReadRecord(b, |w|) == Sized(r, p, |data|, PointerAt(b, p))
  {
    var got := RecordRead(w, r, head, data, b, p);
    PointerRead(b, p, |data|);
  }

  function PointerAt(b: bytes, p: nat): Result<(seq<Field>, nat), Error>
    requires p <= |b|
  {
    var order :- ShortAt(b, p);
    var preference :- ShortAt(b, order.1);
    var rule :- RuleAt(b, preference.1);
    Ok(([order.0, preference.0] + rule.0, rule.1))
  }

  function RuleAt(b: bytes, p: nat): Result<(seq<Field>, nat), Error>
    requires p <= |b|
  {
    var flags :- TextAt(b, p);
    var services :- TextAt(b, flags.1);
    var rest :- RuleEndAt(b, services.1);
    Ok(([flags.0, services.0] + rest.0, rest.1))
  }

  function RuleEndAt(b: bytes, p: nat): Result<(seq<Field>, nat), Error>
    requires p <= |b|
  {
    var regExp :- TextAt(b, p);
    var replacement :- NameAt(b, regExp.1, false);
    Ok(([regExp.0, replacement.0], replacement.1))
  }

  lemma RuleEndInTurn(b: bytes, p: nat)
    requires p <= |b|
    ensures ReadFields(b, p, [KindText, KindName(false)]) == RuleEndAt(b, p)
  {
    var first := TextAt(b, p);
    MembersRead(b, p);
    if first.Ok? {
      MembersRead(b, first.value.1);
    }
    TwoMembers(b, p, KindText, KindName(false), first, if first.Ok? then NameAt(b, first.value.1, false) else first);
  }

  /** Two members, and then the others. */
  lemma TwoThen(b: bytes, p: nat, k: Kind, kinds: seq<Kind>, x: Result<(Field, nat), Error>, y: Result<(Field, nat), Error>,
                rest: Result<(seq<Field>, nat), Error>)
    requires p <= |b| && ReadField(b, p, k) == x && (x.Ok? ==> x.value.1 <= |b| && ReadField(b, x.value.1, k) == y)
    requires x.Ok? && y.Ok? ==> y.value.1 <= |b| && ReadFields(b, y.value.1, kinds) == rest
    ensures x.Err? ==> ReadFields(b, p, [k] + ([k] + kinds)) == Err(x.error)
    ensures x.Ok? && y.Err? ==> ReadFields(b, p, [k] + ([k] + kinds)) == Err(y.error)
    ensures x.Ok? && y.Ok? && rest.Err? ==> ReadFields(b, p, [k] + ([k] + kinds)) == rest
    ensures x.Ok? && y.Ok? && rest.Ok? ==>
              ReadFields(b, p, [k] + ([k] + kinds)) == Ok(([x.value.0, y.value.0] + rest.value.0, rest.value.1))
  {
    if x.Err? {
      MoreMembers(b, p, k, [k] + kinds, x, Err(x.error));
    } else {
      MoreMembers(b, x.value.1, k, kinds, y, rest);
      MoreMembers(b, p, k, [k] + kinds, x, if y.Err? then Err(y.error) else Then(y.value.0, rest));
      if y.Ok? && rest.Ok? {
        assert [x.value.0] + ([y.value.0] + rest.value.0) == [x.value.0, y.value.0] + rest.value.0;
      }
    }
  }

  lemma RuleInTurn(b: bytes, p: nat)
    requires p <= |b|
    ensures ReadFields(b, p, [KindText] + ([KindText] + [KindText, KindName(false)])) == RuleAt(b, p)
  {
    var x := TextAt(b, p);
    var y := if x.Ok? then TextAt(b, x.value.1) else x;
    MembersRead(b, p);
    if x.Ok? {
      MembersRead(b, x.value.1);
    }
    if x.Ok? && y.Ok? {
      RuleEndInTurn(b, y.value.1);
      TwoThen(b, p, KindText, [KindText, KindName(false)], x, y, RuleEndAt(b, y.value.1));
    } else {
      TwoThen(b, p, KindText, [KindText, KindName(false)], x, y, Err(BehindBuffer));
    }
  }

  function RuleKinds(): seq<Kind>
  {
    [KindText] + ([KindText] + [KindText, KindName(false)])
  }

  lemma PointerInTurn(b: bytes, p: nat)
    requires p <= |b|
    ensures ReadFields(b, p, [KindU16] + ([KindU16] + RuleKinds())) == PointerAt(b, p)
  {
    var x := ShortAt(b, p);
    var y := if x.Ok? then ShortAt(b, x.value.1) else x;
    MembersRead(b, p);
    if x.Ok? {
      MembersRead(b, x.value.1);
    }
    if x.Ok? && y.Ok? {
      RuleInTurn(b, y.value.1);
      TwoThen(b, p, KindU16, RuleKinds(), x, y, RuleAt(b, y.value.1));
    } else {
      TwoThen(b, p, KindU16, RuleKinds(), x, y, Err(BehindBuffer));
    }
  }

  lemma PointerRead(b: bytes, p: nat, size: nat)
    requires p <= |b|
    ensures ReadRData(b, p, 35, size) == PointerAt(b, p)
  {
    PointerInTurn(b, p);
    LaidOut(b, p, 35, size, [KindU16] + ([KindU16] + RuleKinds()), PointerAt(b, p));
  }

  // ---------- texts ----------

  /** TXT records: character strings up to the end of the RDATA. */
  lemma TextTypeExactly(w: bytes, r: Record, head: bytes, data: bytes, b: bytes, p: nat, stop: nat)
    requires r.rtype == 16 && OnWire(w, r, head, data, b, p) && stop == p + |data|
    ensures ReadRecord(b, |w|) == Sized(r, p, |data|, TextsAt(b, p, stop))
  {
    var got := RecordRead(w, r, head, data, b, p);
    TextTypeRead(b, p, |data|, stop);
  }

  lemma TextTypeRead(b: bytes, p: nat, size: nat, stop: nat)
    requires p <= |b| && stop == p + size
    ensures ReadRData(b, p, 16, size) == TextsAt(b, p, stop)
  {
    TextsRead(b, p, stop);
  }

  function TextsAt(b: bytes, p: nat, stop: nat): Result<(seq<Field>, nat), Error>
    requires p <= |b|
    decreases |b| - p
  {
    if p >= stop then Ok(([], p))
    else
      var first :- TextAt(b, p);
      Then(first.0, TextsAt(b, first.1, stop))
  }

  lemma {:induction false} TextsRead(b: bytes, p: nat, stop: nat)
    requires p <= |b|
    ensures ReadTexts(b, p, stop) == TextsAt(b, p, stop)
    decreases |b| - p
  {
    if p < stop {
      var first := TextAt(b, p);
      if first.Ok? {
        TextsRead(b, first.value.1, stop);
      }
    }
  }
}
