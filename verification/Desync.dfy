/** The packets of a desync attack, and what the server reassembles from them
    (desync.cpp, dpitunnel-cli.cpp). */
module Desync {
  import opened Wrappers
  import opened Buffers
  import opened Checksums
  import opened ForgedPackets

  datatype ZeroAttack = ZeroNone | ZeroFake | ZeroRst | ZeroRstAck

  datatype FirstAttack = FirstNone | Disorder | DisorderFake | Split | SplitFake

  /** wrong_seq_drift_seq is -10000 and wrong_seq_drift_ack -66000; as unsigned numbers they wrap around. */
  const WRONG_SEQ := U32 - 10000
  const WRONG_ACK := U32 - 66000

  /** The profile, with the TTL and the segment size of the connection, and what tcp_get_auto_ttl gives when
      auto_ttl is set. */
  datatype Profile = Profile(zero: ZeroAttack, first: FirstAttack, wrongSeq: bool, ttl: nat, fakeTtl: nat,
                             autoTtl: Option<nat>, minTtl: nat, window: nat, maxSeg: nat)

  /** A TCP segment as the receiver sees it: sequence number, payload, whether it is a fake, and flags other
      than the usual ones. */
  datatype Segment = Segment(seqNo: nat, data: bytes, fake: bool, flags: Option<byte>)

  /** How far fakes are moved on from the initial sequence number. */
  function Drift(p: Profile): nat
  {
    if p.wrongSeq then WRONG_SEQ else 0
  }

  function FakeSeq(isn: nat, p: Profile): nat
  {
    (isn + Drift(p)) % U32
  }

  function Real(isn: nat, data: bytes, from: nat, to: nat): Segment
    requires from <= to <= |data|
  {
    Segment((isn + from) % U32, data[from..to], false, None)
  }

  // ---------- what is to be sent ----------

  function ZeroPlan(isn: nat, p: Profile, fake: bytes): seq<Segment>
  {
    match p.zero
    case ZeroNone => []
    case ZeroFake => [Segment(FakeSeq(isn, p), fake, true, None)]
    case ZeroRst => [Segment(FakeSeq(isn, p), [], true, Some(4))]
    case ZeroRstAck => [Segment(FakeSeq(isn, p), [], true, Some(20))]
  }

  function FirstPlan(isn: nat, p: Profile, data: bytes, split: nat): seq<Segment>
    requires split <= |data|
  {
    var fake := Segment(FakeSeq(isn, p), Zeros(split), true, None);
    var first, second := Real(isn, data, 0, split), Real(isn, data, split, |data|);
    match p.first
    case FirstNone => [Real(isn, data, 0, |data|)]
    case Disorder => [second, first]
    case DisorderFake => [second, fake, first, fake]
    case Split => [first, second]
    case SplitFake => [fake, first, fake, second]
  }

  function Plan(isn: nat, p: Profile, fake: bytes, data: bytes, split: nat): seq<Segment>
    requires split <= |data|
  {
    ZeroPlan(isn, p, fake) + FirstPlan(isn, p, data, split)
  }

  /** The plan, segment by segment: what goes before the data, and in which order the parts of the data and
      the runs of zeros go that stand in for the first part. */
  lemma PlanWrittenOut(isn: nat, p: Profile, fake: bytes, data: bytes, split: nat)
    requires isn < U32 && split <= |data|
    ensures var f := if p.wrongSeq then (isn + 0x1_0000_0000 - 10000) % 0x1_0000_0000 else isn;
            var zeros := Segment(f, Zeros(split), true, None);
            var first := Segment(isn, data[..split], false, None);
            var second := Segment((isn + split) % 0x1_0000_0000, data[split..], false, None);
            var whole := Segment(isn, data, false, None);
            && Plan(isn, p, fake, data, split) == ZeroPlan(isn, p, fake) + FirstPlan(isn, p, data, split)
            && (p.zero == ZeroNone ==> ZeroPlan(isn, p, fake) == [])
            && (p.zero == ZeroFake ==> ZeroPlan(isn, p, fake) == [Segment(f, fake, true, None)])
            && (p.zero == ZeroRst ==> ZeroPlan(isn, p, fake) == [Segment(f, [], true, Some(0x04))])
            && (p.zero == ZeroRstAck ==> ZeroPlan(isn, p, fake) == [Segment(f, [], true, Some(0x14))])
            && (p.first == FirstNone ==> FirstPlan(isn, p, data, split) == [whole])
            && (p.first == Disorder ==> FirstPlan(isn, p, data, split) == [second, first])
            && (p.first == DisorderFake ==> FirstPlan(isn, p, data, split) == [second, zeros, first, zeros])
            && (p.first == Split ==> FirstPlan(isn, p, data, split) == [first, second])
            && (p.first == SplitFake ==> FirstPlan(isn, p, data, split) == [zeros, first, zeros, second])
  {
    assert data[0..split] == data[..split] && data[split..|data|] == data[split..] && data[0..|data|] == data;
    assert isn % U32 == isn;
  }

  // ---------- sending it ----------

  ghost predicate GoodPacket(packet: bytes)
  {
    |packet| >= HEADERS && IpSumOk(packet, IP_HDRLEN) && TcpSumOk(packet, IP_HDRLEN)
  }

  /** The captured packet has no IP options, so that its TCP header is where the forged packets have
      theirs. */
  predicate NoOptions(raw: bytes)
  {
    HeaderLen(Resized(raw)) == IP_HDRLEN
  }

  /** The number the server expects first: what it acknowledged in its SYN, ACK packet. */
  function InitialSeq(raw: bytes): (n: nat)
    ensures n < U32
  {
    Number32(Resized(raw), 28)
  }

  /** The packets carry the beginning of a plan. */
  ghost predicate Follows(sent: seq<bytes>, plan: seq<Segment>, raw: bytes, p: Profile)
  {
    |sent| <= |plan| && forall i :: 0 <= i < |sent| ==> Carries(sent[i], plan[i], Resized(raw), p)
  }

  /** The time to live of fakes: what auto_ttl found, or the profile's, or that of the connection. */
  function FakeTtl(p: Profile): nat
  {
    (if p.autoTtl.Some? then p.autoTtl.value else if p.fakeTtl != 0 then p.fakeTtl else p.ttl) % 256
  }

  /** The packet goes the way of the client's packets, answering the captured one `raw`, and is the segment:
      a real one has the connection's time to live and window, or the window that the profile asks for. */
  ghost predicate Carries(packet: bytes, s: Segment, raw: bytes, p: Profile)
    requires |raw| == HEADERS
  {
    && GoodPacket(packet) && Number32(packet, 24) == s.seqNo && packet[HEADERS..] == s.data
    && packet[8] == (if !s.fake then p.ttl else if p.autoTtl.Some? then p.autoTtl.value else if p.fakeTtl != 0 then p.fakeTtl
                     else p.ttl) % 256
    && FlagsFilled(packet[33], raw[33], s.flags)
    && Number32(packet, 28) == (Number32(raw, 24) + if s.fake && p.wrongSeq then 0x1_0000_0000 - 66000 else 1) % 0x1_0000_0000
    && Number16(packet, 34) == (if s.fake || p.window == 0 then p.maxSeg else p.window) % 0x1_0000
    && packet[12..16] == raw[16..20] && packet[16..20] == raw[12..16]
    && packet[20..22] == raw[22..24] && packet[22..24] == raw[20..22]
  }

  /** What is sent when, and whether it was. */
  datatype Wire = Wire(ids: nat -> nat, up: nat -> bool)

  /** What form_packet is asked for, for a segment `add` behind the initial sequence number. */
  function ArgsOf(p: Profile, s: Segment, add: nat, id: nat): Args
  {
    if s.fake
    then Args(id, FakeTtl(p), add, if p.wrongSeq then WRONG_ACK else 1, p.maxSeg, true, s.flags)
    else Args(id, p.ttl, add, 1, if p.window == 0 then p.maxSeg else p.window, true, s.flags)
  }

  /** The packet for a segment `add` behind the initial sequence number. */
  method Form(raw: bytes, p: Profile, s: Segment, add: nat, id: nat) returns (packet: bytes)
    requires |s.data| <= MAX_DATA && NoOptions(raw) && s.seqNo == (InitialSeq(raw) + add) % U32
    ensures Carries(packet, s, Resized(raw), p)
  {
    var formed := FormPacket(raw, s.data, ArgsOf(p, s, add, id));
    packet := formed.value;
    CarriesSegment(packet, Resized(raw), p, s, add, id);
  }

  lemma CarriesSegment(packet: bytes, raw: bytes, p: Profile, s: Segment, add: nat, id: nat)
    requires |raw| == HEADERS && s.seqNo == (Number32(raw, 28) + add) % U32
    requires Formed(packet, raw, s.data, ArgsOf(p, s, add, id), IP_HDRLEN)
    requires IpFilled(packet, raw, ArgsOf(p, s, add, id))
    requires TcpFilled(packet, IP_HDRLEN, TcpAt(raw, s.data, IP_HDRLEN), ArgsOf(p, s, add, id))
    ensures Carries(packet, s, raw, p)
  {
    PlainTcp(raw, s.data);
    WindowWritten(packet, ArgsOf(p, s, add, id).window);
  }

  lemma WindowWritten(packet: bytes, window: nat)
    requires |packet| >= HEADERS && packet[34] == window / 256 % 256 && packet[35] == window % 256
    ensures Number16(packet, 34) == window % 0x1_0000
  {
  }

  lemma PlainTcp(raw: bytes, data: bytes)
    requires |raw| == HEADERS
    ensures var tcp := TcpAt(raw, data, IP_HDRLEN);
            && Number32(tcp, 8) == Number32(raw, 28) && Number32(tcp, 4) == Number32(raw, 24) && tcp[13] == raw[33]
            && tcp[..2] == raw[20..22] && tcp[2..4] == raw[22..24]
  {
    var tcp := TcpAt(raw, data, IP_HDRLEN);
    assert forall i :: 0 <= i < TCP_HDRLEN ==> tcp[i] == raw[20 + i];
  }

  /** The fake or reset packet before the data. */
  method SendZero(raw: bytes, p: Profile, fake: bytes, wire: Wire) returns (sent: seq<bytes>, ok: bool)
    requires |fake| <= MAX_DATA && NoOptions(raw)
    ensures Follows(sent, ZeroPlan(InitialSeq(raw), p, fake), raw, p)
    ensures ok ==> |sent| == |ZeroPlan(InitialSeq(raw), p, fake)|
  {
    var packet;
    sent, ok := [], true;
    var seqNo := FakeSeq(InitialSeq(raw), p);
    match p.zero {
      case ZeroNone => return;
      case ZeroFake =>
        packet := Form(raw, p, Segment(seqNo, fake, true, None), Drift(p), wire.ids(0));
        sent := sent + [packet];
      case ZeroRst =>
        packet := Form(raw, p, Segment(seqNo, [], true, Some(4)), Drift(p), wire.ids(0));
        sent := sent + [packet];
      case ZeroRstAck =>
        packet := Form(raw, p, Segment(seqNo, [], true, Some(20)), Drift(p), wire.ids(0));
        sent := sent + [packet];
    }
    ok := wire.up(0);
  }

  /** The second part first. */
  method SendDisorder(raw: bytes, p: Profile, data: bytes, split: nat, wire: Wire, ghost plan: seq<Segment>)
    returns (sent: seq<bytes>, ok: bool)
    requires split <= |data| <= MAX_DATA && NoOptions(raw) && (p.first == Disorder || p.first == DisorderFake)
    requires plan == FirstPlan(InitialSeq(raw), p, data, split)
    ensures Follows(sent, plan, raw, p) && (ok ==> |sent| == |plan|)
  {
    var isn := InitialSeq(raw);
    var fake := Segment(FakeSeq(isn, p), Zeros(split), true, None);
    var packet;
    var faking := p.first == DisorderFake;
    packet := Form(raw, p, Real(isn, data, split, |data|), split, wire.ids(1));
    sent := [packet];
    if !wire.up(1) { return sent, false; }
    if faking {
      packet := Form(raw, p, fake, Drift(p), wire.ids(2));
      sent := sent + [packet];
      if !wire.up(2) { return sent, false; }
    }
    packet := Form(raw, p, Real(isn, data, 0, split), 0, wire.ids(2));
    sent := sent + [packet];
    if !wire.up(3) { return sent, false; }
    if faking {
      packet := Form(raw, p, fake, Drift(p), wire.ids(2));
      sent := sent + [packet];
      if !wire.up(4) { return sent, false; }
    }
    ok := true;
  }

  /** Both parts in order. */
  method SendSplit(raw: bytes, p: Profile, data: bytes, split: nat, wire: Wire, ghost plan: seq<Segment>)
    returns (sent: seq<bytes>, ok: bool)
    requires split <= |data| <= MAX_DATA && NoOptions(raw) && (p.first == Split || p.first == SplitFake)
    requires plan == FirstPlan(InitialSeq(raw), p, data, split)
    ensures Follows(sent, plan, raw, p) && (ok ==> |sent| == |plan|)
  {
    var isn := InitialSeq(raw);
    var fake := Segment(FakeSeq(isn, p), Zeros(split), true, None);
    var packet;
    var faking := p.first == SplitFake;
    sent := [];
    if faking {
      packet := Form(raw, p, fake, Drift(p), wire.ids(2));
      sent := sent + [packet];
      if !wire.up(2) { return sent, false; }
    }
    packet := Form(raw, p, Real(isn, data, 0, split), 0, wire.ids(2));
    sent := sent + [packet];
    if !wire.up(3) { return sent, false; }
    if faking {
      packet := Form(raw, p, fake, Drift(p), wire.ids(2));
      sent := sent + [packet];
      if !wire.up(4) { return sent, false; }
    }
    packet := Form(raw, p, Real(isn, data, split, |data|), split, wire.ids(1));
    sent := sent + [packet];
    ok := wire.up(5);
  }

  /** How far away the server is, going by the time to live of its packet, which began at 128 or 64. */
  function Hops(ttl: nat): nat
  {
    if 98 < ttl < 128 then 128 - ttl else if 34 < ttl < 64 then 64 - ttl else 0
  }

  /** min_ttl, unless auto_ttl is set, leaves the attack out: no fakes, and the data in one piece. */
  predicate LeftOut(raw: bytes, p: Profile)
  {
    p.autoTtl.None? && p.minTtl != 0 && 0 < Hops(Resized(raw)[8]) && p.minTtl % 256 <= Hops(Resized(raw)[8])
  }

  /** The attack is left out exactly when min_ttl is set without auto_ttl, and the captured packet has come
      at least that many hops, and at most 29, since it was sent with 128 or 64. */
  lemma LeftOutExactly(raw: bytes, p: Profile)
    ensures var ttl, least := Resized(raw)[8], p.minTtl % 256;
            LeftOut(raw, p) <==>
            && p.autoTtl.None? && p.minTtl > 0
            && ((99 <= ttl <= 127 && ttl + least <= 128) || (35 <= ttl <= 63 && ttl + least <= 64))
  {
  }

  /** The option is described as the least TTL for which fakes are sent, and it is the other way round: with 3,
      a server ten hops away gets none, and one a single hop away does. */
  lemma MinTtlReversed(raw: bytes, p: Profile)
    requires p.autoTtl.None? && p.minTtl == 3
    ensures Resized(raw)[8] == 54 ==> LeftOut(raw, p)
    ensures Resized(raw)[8] == 63 ==> !LeftOut(raw, p)
  {
    LeftOutExactly(raw, p);
  }

  /** do_desync_attack: the packets of one kind of attack after another. Sending may fail at any
      packet; what was sent until then is the beginning of the plan. Without an attack the data are sent
      in one piece, and failure is reported. */
  method Attack(raw: bytes, p: Profile, fake: bytes, data: bytes, split: nat, wire: Wire)
    returns (sent: seq<bytes>, ok: bool)
    requires split <= |data| <= MAX_DATA && |fake| <= MAX_DATA && NoOptions(raw)
    ensures LeftOut(raw, p) ==> Follows(sent, [Real(InitialSeq(raw), data, 0, |data|)], raw, p) && |sent| == 1 && !ok
    ensures !LeftOut(raw, p) ==> Follows(sent, Plan(InitialSeq(raw), p, fake, data, split), raw, p)
    ensures ok ==> |sent| == |Plan(InitialSeq(raw), p, fake, data, split)|
  {
    var isn := InitialSeq(raw);
    var whole := Real(isn, data, 0, |data|);
    if LeftOut(raw, p) {
      var packet := Form(raw, p, whole, 0, wire.ids(0));
      return [packet], false;
    }
    sent, ok := SendZero(raw, p, fake, wire);
    if !ok { return; }
    var more;
    match p.first {
      case FirstNone =>
        var packet := Form(raw, p, whole, 0, wire.ids(1));
        more := [packet];
        ok := wire.up(1);
      case Disorder => more, ok := SendDisorder(raw, p, data, split, wire, FirstPlan(isn, p, data, split));
      case DisorderFake => more, ok := SendDisorder(raw, p, data, split, wire, FirstPlan(isn, p, data, split));
      case Split => more, ok := SendSplit(raw, p, data, split, wire, FirstPlan(isn, p, data, split));
      case SplitFake => more, ok := SendSplit(raw, p, data, split, wire, FirstPlan(isn, p, data, split));
    }
    FollowsBoth(sent, more, ZeroPlan(isn, p, fake), FirstPlan(isn, p, data, split), raw, p);
    sent := sent + more;
  }

  lemma FollowsBoth(a: seq<bytes>, b: seq<bytes>, first: seq<Segment>, second: seq<Segment>, raw: bytes, p: Profile)
    requires Follows(a, first, raw, p) && |a| == |first| && Follows(b, second, raw, p)
    ensures Follows(a + b, first + second, raw, p)
  {
  }

  // ---------- what the server reassembles ----------

  /** The octet that some segment of an arrival order last put at position `k`. */
  function Arrived(isn: nat, arrivals: seq<Segment>, k: nat): Option<byte>
    decreases |arrivals|
  {
    if arrivals == [] then None
    else
      var last := arrivals[|arrivals| - 1];
      var i := (k + isn - last.seqNo) % U32;
      if i < |last.data| then Some(last.data[i]) else Arrived(isn, arrivals[..|arrivals| - 1], k)
  }

  /** Where a segment reaches into the first `n` positions, it has the right octets. */
  ghost predicate Agrees(isn: nat, s: Segment, data: bytes)
  {
    forall k :: 0 <= k < |data| && OctetFor(isn, s, k) < |s.data| ==> s.data[OctetFor(isn, s, k)] == data[k]
  }

  function OctetFor(isn: nat, s: Segment, k: nat): nat
  {
    (k + isn - s.seqNo) % U32
  }

  ghost predicate Covered(isn: nat, arrivals: seq<Segment>, k: nat)
  {
    exists j :: 0 <= j < |arrivals| && OctetFor(isn, arrivals[j], k) < |arrivals[j].data|
  }

  /** Segments that agree with the data give the data, in whatever order they arrive, and however
      often. */
  lemma {:induction false} AnyOrder(isn: nat, arrivals: seq<Segment>, data: bytes, k: nat)
    requires k < |data| && Covered(isn, arrivals, k)
    requires forall j :: 0 <= j < |arrivals| ==> Agrees(isn, arrivals[j], data)
    ensures Arrived(isn, arrivals, k) == Some(data[k])
    decreases |arrivals|
  {
    var last, less := arrivals[|arrivals| - 1], arrivals[..|arrivals| - 1];
    if OctetFor(isn, last, k) < |last.data| {
      assert Agrees(isn, last, data);
    } else {
      var j :| 0 <= j < |arrivals| && OctetFor(isn, arrivals[j], k) < |arrivals[j].data|;
      assert less[j] == arrivals[j];
      AnyOrder(isn, less, data, k);
    }
  }

  lemma RealOctet(isn: nat, data: bytes, from: nat, to: nat, k: nat)
    requires isn < U32 && from <= to <= |data| <= MAX_DATA && k < |data|
    ensures OctetFor(isn, Real(isn, data, from, to), k) == if k >= from then k - from else U32 + k - from
  {
    var sum := isn + from;
    if sum < U32 {
      assert sum % U32 == sum;
    } else {
      assert sum % U32 == sum - U32;
    }
  }

  /** A real segment holds exactly the positions from `from` to `to`, with the right octets. */
  lemma RealAgrees(isn: nat, data: bytes, from: nat, to: nat)
    requires isn < U32 && from <= to <= |data| <= MAX_DATA
    ensures Agrees(isn, Real(isn, data, from, to), data)
    ensures forall k :: 0 <= k < |data| ==>
                          (OctetFor(isn, Real(isn, data, from, to), k) < to - from <==> from <= k < to)
  {
    forall k | 0 <= k < |data|
      ensures OctetFor(isn, Real(isn, data, from, to), k) == if k >= from then k - from else U32 + k - from
    {
      RealOctet(isn, data, from, to, k);
    }
  }

  /** A fake with a wrong sequence number lies before the data, and misses all of it exactly when it
      has at most 10000 octets. */
  lemma FakeMisses(isn: nat, fake: bytes, n: nat, k: nat)
    requires isn < U32 && 0 < n <= MAX_DATA && k < n && |fake| <= MAX_DATA
    ensures OctetFor(isn, Segment((isn + WRONG_SEQ) % U32, fake, true, None), k) == k + 10000
    ensures |fake| <= 10000 ==> OctetFor(isn, Segment((isn + WRONG_SEQ) % U32, fake, true, None), k) >= |fake|
    ensures |fake| > 10000 ==> OctetFor(isn, Segment((isn + WRONG_SEQ) % U32, fake, true, None), 0) < |fake|
  {
    WrongOctet(isn, k);
    WrongOctet(isn, 0);
  }

  lemma WrongOctet(isn: nat, k: nat)
    requires isn < U32 && k < MAX_DATA
    ensures (k + isn - (isn + WRONG_SEQ) % U32) % U32 == k + 10000
  {
    if isn < 10000 {
      assert (isn + WRONG_SEQ) % U32 == isn + WRONG_SEQ;
    } else {
      assert (isn + WRONG_SEQ) % U32 == isn - 10000;
    }
  }

  // ---------- main results ----------

  /** Which positions the real segments of a plan hold. */
  ghost predicate Holds(isn: nat, s: Segment, k: nat)
  {
    !s.fake && OctetFor(isn, s, k) < |s.data|
  }

  /** The real segments tile the data: for every first attack and split position, each position is
      in exactly one of them. */
  lemma RealSegmentsTile(isn: nat, p: Profile, data: bytes, split: nat, k: nat)
    requires isn < U32 && split <= |data| <= MAX_DATA && k < |data|
    ensures var plan := FirstPlan(isn, p, data, split);
            && (exists j :: 0 <= j < |plan| && Holds(isn, plan[j], k))
            && (forall i, j :: 0 <= i < j < |plan| ==> !(Holds(isn, plan[i], k) && Holds(isn, plan[j], k)))
  {
    var plan := FirstPlan(isn, p, data, split);
    RealAgrees(isn, data, 0, |data|);
    RealAgrees(isn, data, 0, split);
    RealAgrees(isn, data, split, |data|);
    var first, second := Real(isn, data, 0, split), Real(isn, data, split, |data|);
    assert Holds(isn, first, k) <==> k < split;
    assert Holds(isn, second, k) <==> split <= k;
    match p.first {
      case FirstNone => assert Holds(isn, plan[0], k);
      case Disorder => assert Holds(isn, plan[if k < split then 1 else 0], k);
      case DisorderFake => assert Holds(isn, plan[if k < split then 2 else 0], k);
      case Split => assert Holds(isn, plan[if k < split then 0 else 1], k);
      case SplitFake => assert Holds(isn, plan[if k < split then 1 else 3], k);
    }
  }

  lemma FirstMembers(isn: nat, p: Profile, data: bytes, split: nat, s: Segment)
    requires split <= |data| && s in FirstPlan(isn, p, data, split)
    ensures if s.fake then s == Segment(FakeSeq(isn, p), Zeros(split), true, None)
            else s == Real(isn, data, 0, |data|) || s == Real(isn, data, 0, split) || s == Real(isn, data, split, |data|)
  {
  }

  lemma RealMemberAgrees(isn: nat, p: Profile, data: bytes, split: nat, s: Segment)
    requires isn < U32 && split <= |data| <= MAX_DATA && s in FirstPlan(isn, p, data, split) && !s.fake
    ensures Agrees(isn, s, data)
  {
    FirstMembers(isn, p, data, split, s);
    if s == Real(isn, data, 0, |data|) {
      RealAgrees(isn, data, 0, |data|);
    } else if s == Real(isn, data, 0, split) {
      RealAgrees(isn, data, 0, split);
    } else {
      RealAgrees(isn, data, split, |data|);
    }
  }

  /** A fake of `n` octets leaves the stream alone: it has none, or lies before the data. */
  predicate Misses(p: Profile, n: nat)
  {
    n == 0 || (p.wrongSeq && n <= 10000)
  }

  /** Every fake that the profile sends does. */
  predicate FakesMiss(p: Profile, fake: bytes, split: nat)
  {
    && (p.zero == ZeroFake ==> Misses(p, |fake|))
    && (p.first == DisorderFake || p.first == SplitFake ==> Misses(p, split))
  }

  /** The arrivals are the segments of a plan, in any order, each at least once. */
  ghost predicate ArrivalsOf(arrivals: seq<Segment>, plan: seq<Segment>)
  {
    forall s :: s in arrivals <==> s in plan
  }

  lemma AgreedStream(isn: nat, p: Profile, fake: bytes, data: bytes, split: nat, arrivals: seq<Segment>, k: nat)
    requires isn < U32 && split <= |data| <= MAX_DATA && k < |data|
    requires ArrivalsOf(arrivals, Plan(isn, p, fake, data, split))
    requires forall s :: s in Plan(isn, p, fake, data, split) ==> Agrees(isn, s, data)
    ensures Arrived(isn, arrivals, k) == Some(data[k])
  {
    forall j | 0 <= j < |arrivals|
      ensures Agrees(isn, arrivals[j], data)
    {
      assert arrivals[j] in arrivals;
    }
    CoveredByReal(isn, p, data, split, arrivals, k);
    AnyOrder(isn, arrivals, data, k);
  }

  /** Whatever the order of arrival, the segments of the plan give the data. */
  ghost predicate AlwaysArrives(isn: nat, plan: seq<Segment>, data: bytes)
  {
    forall arrivals, k :: ArrivalsOf(arrivals, plan) && 0 <= k < |data| ==> Arrived(isn, arrivals, k) == Some(data[k])
  }

  lemma LastSegmentWins(isn: nat, plan: seq<Segment>, data: bytes, s: Segment)
    requires s in plan && !Agrees(isn, s, data)
    ensures !AlwaysArrives(isn, plan, data)
  {
    var k :| 0 <= k < |data| && OctetFor(isn, s, k) < |s.data| && s.data[OctetFor(isn, s, k)] != data[k];
    var arrivals := plan + [s];
    assert ArrivalsOf(arrivals, plan);
    assert Arrived(isn, arrivals, k) == Some(s.data[OctetFor(isn, s, k)]);
  }

  /** The server reassembles exactly the data from everything that was sent, whatever the order of
      arrival, if and only if every segment agrees with the data: a fake that does not may come last. */
  lemma AgreementExactly(isn: nat, p: Profile, fake: bytes, data: bytes, split: nat)
    requires isn < U32 && split <= |data| <= MAX_DATA
    ensures AlwaysArrives(isn, Plan(isn, p, fake, data, split), data) <==>
            forall s :: s in Plan(isn, p, fake, data, split) ==> Agrees(isn, s, data)
  {
    var plan := Plan(isn, p, fake, data, split);
    forall s | s in plan && !Agrees(isn, s, data)
      ensures !AlwaysArrives(isn, plan, data)
    {
      LastSegmentWins(isn, plan, data, s);
    }
    if forall s :: s in plan ==> Agrees(isn, s, data) {
      forall arrivals, k | ArrivalsOf(arrivals, plan) && 0 <= k < |data|
        ensures Arrived(isn, arrivals, k) == Some(data[k])
      {
        AgreedStream(isn, p, fake, data, split, arrivals, k);
      }
    }
  }

  /** How many octets of a fake lie before the data. */
  function Shift(p: Profile): nat
  {
    if p.wrongSeq then 10000 else 0
  }

  lemma FakeOctet(isn: nat, p: Profile, fake: bytes, k: nat)
    requires isn < U32 && k < MAX_DATA
    ensures OctetFor(isn, Segment(FakeSeq(isn, p), fake, true, None), k) == k + Shift(p)
  {
    if p.wrongSeq {
      WrongOctet(isn, k);
    } else {
      assert (isn + 0) % U32 == isn;
    }
  }

  /** What reaches into the data of a fake with these octets is what stands there anyway. */
  ghost predicate Matches(p: Profile, fake: bytes, data: bytes)
  {
    forall k :: 0 <= k < |data| && k + Shift(p) < |fake| ==> fake[k + Shift(p)] == data[k]
  }

  lemma FakeAgreesExactly(isn: nat, p: Profile, fake: bytes, data: bytes)
    requires isn < U32 && |data| <= MAX_DATA
    ensures Agrees(isn, Segment(FakeSeq(isn, p), fake, true, None), data) <==> Matches(p, fake, data)
  {
    var s := Segment(FakeSeq(isn, p), fake, true, None);
    forall k | 0 <= k < |data|
      ensures OctetFor(isn, s, k) == k + Shift(p)
    {
      FakeOctet(isn, p, fake, k);
    }
  }

  /** The fakes a profile sends do no harm: the fake request has the octets of the data where it reaches
      into them, and so has the run of zeros that stands in for the first part. */
  ghost predicate FakesFit(p: Profile, fake: bytes, data: bytes, split: nat)
  {
    && (p.zero == ZeroFake ==> Matches(p, fake, data))
    && (p.first == DisorderFake || p.first == SplitFake ==>
          forall k :: 0 <= k < |data| && k + Shift(p) < split ==> data[k] == 0)
  }

  lemma ZerosMatch(p: Profile, data: bytes, split: nat)
    ensures Matches(p, Zeros(split), data) <==>
            forall k :: 0 <= k < |data| && k + Shift(p) < split ==> data[k] == 0
  {
    if Matches(p, Zeros(split), data) {
      forall k | 0 <= k < |data| && k + Shift(p) < split
        ensures data[k] == 0
      {
        assert Zeros(split)[k + Shift(p)] == data[k];
      }
    }
  }

  lemma FitsExactly(isn: nat, p: Profile, fake: bytes, data: bytes, split: nat)
    requires isn < U32 && split <= |data| <= MAX_DATA
    ensures (forall s :: s in Plan(isn, p, fake, data, split) ==> Agrees(isn, s, data)) <==>
            FakesFit(p, fake, data, split)
  {
    var plan := Plan(isn, p, fake, data, split);
    var request := Segment(FakeSeq(isn, p), fake, true, None);
    var zeros := Segment(FakeSeq(isn, p), Zeros(split), true, None);
    FakeAgreesExactly(isn, p, fake, data);
    FakeAgreesExactly(isn, p, Zeros(split), data);
    ZerosMatch(p, data, split);
    assert p.zero == ZeroFake ==> plan[0] == request;
    FirstFake(isn, p, data, split);
    forall s | s in plan && FakesFit(p, fake, data, split)
      ensures Agrees(isn, s, data)
    {
      if s in FirstPlan(isn, p, data, split) {
        FirstMembers(isn, p, data, split, s);
        if !s.fake {
          RealMemberAgrees(isn, p, data, split, s);
        }
      }
    }
  }

  lemma FirstFake(isn: nat, p: Profile, data: bytes, split: nat)
    requires split <= |data|
    ensures (exists s :: s in FirstPlan(isn, p, data, split) && s.fake) <==> p.first == DisorderFake || p.first == SplitFake
    ensures forall s :: s in FirstPlan(isn, p, data, split) && s.fake ==>
                          s == Segment(FakeSeq(isn, p), Zeros(split), true, None)
  {
    var plan := FirstPlan(isn, p, data, split);
    assert p.first == DisorderFake ==> plan[1].fake && plan[1] in plan;
    assert p.first == SplitFake ==> plan[0].fake && plan[0] in plan;
  }

  /** The stream comes through in whatever order everything arrives, if and only if the fakes the
      profile sends fit the data. */
  lemma StreamExactly(isn: nat, p: Profile, fake: bytes, data: bytes, split: nat)
    requires isn < U32 && split <= |data| <= MAX_DATA
    ensures AlwaysArrives(isn, Plan(isn, p, fake, data, split), data) <==> FakesFit(p, fake, data, split)
  {
    AgreementExactly(isn, p, fake, data, split);
    FitsExactly(isn, p, fake, data, split);
  }

  /** So it does when those fakes are empty, or have wrong sequence numbers and at most 10000 octets. */
  lemma StreamPreserved(isn: nat, p: Profile, fake: bytes, data: bytes, split: nat, arrivals: seq<Segment>, k: nat)
    requires isn < U32 && split <= |data| <= MAX_DATA && k < |data| && FakesMiss(p, fake, split)
    requires ArrivalsOf(arrivals, Plan(isn, p, fake, data, split))
    ensures Arrived(isn, arrivals, k) == Some(data[k])
  {
    FitsExactly(isn, p, fake, data, split);
    AgreedStream(isn, p, fake, data, split, arrivals, k);
  }

  /** A fake request of one octet with the right sequence number and another octet than the data. */
  lemma FakeSpoilsStream(isn: nat)
    requires isn < U32
    ensures !AlwaysArrives(isn, Plan(isn, Profile(ZeroFake, FirstNone, false, 64, 1, None, 0, 0, 1460), [1], [2], 0), [2])
  {
    var p := Profile(ZeroFake, FirstNone, false, 64, 1, None, 0, 0, 1460);
    StreamExactly(isn, p, [1], [2], 0);
    assert Shift(p) == 0 && [1][0 + Shift(p)] != [2][0];
  }

  /** Without the fakes, on any profile. */
  lemma RealStreamPreserved(isn: nat, p: Profile, data: bytes, split: nat, arrivals: seq<Segment>, k: nat)
    requires isn < U32 && split <= |data| <= MAX_DATA && k < |data|
    requires forall s :: s in arrivals <==> s in FirstPlan(isn, p, data, split) && !s.fake
    ensures Arrived(isn, arrivals, k) == Some(data[k])
  {
    forall j | 0 <= j < |arrivals|
      ensures Agrees(isn, arrivals[j], data)
    {
      assert arrivals[j] in arrivals;
      RealMemberAgrees(isn, p, data, split, arrivals[j]);
    }
    CoveredByReal(isn, p, data, split, arrivals, k);
    AnyOrder(isn, arrivals, data, k);
  }

  lemma CoveredByReal(isn: nat, p: Profile, data: bytes, split: nat, arrivals: seq<Segment>, k: nat)
    requires isn < U32 && split <= |data| <= MAX_DATA && k < |data|
    requires forall s :: s in FirstPlan(isn, p, data, split) && !s.fake ==> s in arrivals
    ensures Covered(isn, arrivals, k)
  {
    RealSegmentsTile(isn, p, data, split, k);
    var plan := FirstPlan(isn, p, data, split);
    var j :| 0 <= j < |plan| && Holds(isn, plan[j], k);
    assert plan[j] in arrivals;
  }

  /** Where the data is split: in the middle of the server name, or where the user says. */
  function SplitPos(atSni: bool, sniStart: nat, sniLen: nat, wanted: nat, lastChar: nat): (split: nat)
    ensures split <= lastChar
  {
    if atSni && !(sniStart + sniLen > lastChar || sniStart == 0 || sniLen == 0) then sniStart + sniLen / 2
    else if wanted < lastChar then wanted else lastChar
  }

  /** A server name that lies inside what was received is cut within, its first half before the cut; otherwise
      the cut is where the user says, or at the end if that comes first. */
  lemma SplitPosExactly(atSni: bool, sniStart: nat, sniLen: nat, wanted: nat, lastChar: nat)
    ensures var split := SplitPos(atSni, sniStart, sniLen, wanted, lastChar);
            if atSni && sniStart > 0 && sniLen > 0 && sniStart + sniLen <= lastChar
            then sniStart <= split < sniStart + sniLen && 2 * (split - sniStart) <= sniLen <= 2 * (split - sniStart) + 1
            else split <= wanted && (split == wanted || split == lastChar)
  {
  }

  function Total(sizes: seq<nat>): nat
  {
    if sizes == [] then 0 else sizes[0] + Total(sizes[1..])
  }

  /** The zero-filled sends after the attack move the kernel's sequence number on by exactly the
      length of the data. */
  function SyncSends(p: Profile, lastChar: nat, split: nat): (sizes: seq<nat>)
    requires split <= lastChar
    ensures Total(sizes) == lastChar
  {
    assert Total([lastChar]) == lastChar + Total([]);
    assert Total([lastChar - split]) == lastChar - split + Total([]);
    assert [split, lastChar - split][1..] == [lastChar - split];
    if p.first == FirstNone then [lastChar] else [split, lastChar - split]
  }

  /** One send, or one for each part. */
  lemma SyncSendsExactly(p: Profile, lastChar: nat, split: nat)
    requires split <= lastChar
    ensures if p.first.FirstNone? then SyncSends(p, lastChar, split) == [lastChar]
            else |SyncSends(p, lastChar, split)| == 2 && SyncSends(p, lastChar, split)[0] == split
  {
  }
}
