/** Forged TCP packets and their checksums (desync.cpp, RawSocket/CheckSum.cpp). */
module ForgedPackets {
  import opened Wrappers
  import opened Buffers
  import opened Checksums

  const IP_HDRLEN := 20
  const TCP_HDRLEN := 20
  const HEADERS := 40
  const MAX_DATA := 65495

  /** Where the TCP header begins, according to the ihl of the IP header. */
  function HeaderLen(b: bytes): (n: nat)
    requires |b| > 0
    ensures n % 4 == 0 && n <= 60
  {
    b[0] % 16 * 4
  }

  /** The IP header ends, and the TCP header fits behind it, inside the packet. */
  predicate HeadersInside(b: bytes, hdr: nat)
  {
    IP_HDRLEN <= hdr && hdr % 4 == 0 && hdr + TCP_HDRLEN <= |b|
  }

  /** The pseudo header of a packet whose IP header has `hdr` octets. */
  function PseudoHeader(b: bytes, hdr: nat): (r: bytes)
    requires |b| >= HEADERS
    ensures |r| == 12
  {
    [0, 6] + Octets16(if Number16(b, 2) >= hdr then Number16(b, 2) - hdr else 0) + b[12..20]
  }

  /** Section 3.1 of RFC 793: zero, protocol 6, the length of the TCP header and data, and both addresses. */
  lemma PseudoHeaderExactly(b: bytes, hdr: nat)
    requires HEADERS <= |b| < 0x1_0000 && b[2..4] == Octets16(|b|) && hdr <= |b|
    ensures var tcpLength := |b| - hdr;
            PseudoHeader(b, hdr) == [0, 6, tcpLength / 256, tcpLength % 256] + b[12..16] + b[16..20]
  {
    assert b[2] == b[2..4][0] && b[3] == b[2..4][1];
    assert b[12..16] + b[16..20] == b[12..20];
  }

  /** Summing the IP header again, checksum included, gives all ones. */
  ghost predicate IpSumOk(b: bytes, hdr: nat)
    requires hdr <= |b|
  {
    Fold(WordSum(b[..hdr])) == 0xFFFF
  }

  /** Summing the pseudo header and the TCP segment again gives all ones. */
  ghost predicate TcpSumOk(b: bytes, hdr: nat)
    requires |b| >= HEADERS && hdr <= |b|
  {
    Fold(WordSum(PseudoHeader(b, hdr)) + WordSum(b[hdr..])) == 0xFFFF
  }

  /** What form_packet is asked for; without flags PSH and ACK are set. */
  datatype Args = Args(id: nat, ttl: nat, seqAdd: nat, ackAdd: nat, window: nat, swap: bool, flags: Option<byte>)

  // ---------- storing checksums ----------

  lemma SmallSum(b: bytes)
    requires |b| <= HEADERS + MAX_DATA
    ensures WordSum(b) <= 0xFFFF * 0x8000
  {
    WordSumBound(b);
  }

  lemma StoredSum(b: bytes, at: nat, base: nat, after: bytes)
    requires at % 2 == 0 && at + 2 <= |b| <= HEADERS + MAX_DATA && b[at] == 0 && b[at + 1] == 0 && base <= 0xFFFF * 6
    requires after == Overwritten(b, at, Octets16(Checksum(base + WordSum(b))))
    ensures Fold(base + WordSum(after)) == 0xFFFF
  {
    SmallSum(b);
    PatchedSum(b, at, Checksum(base + WordSum(b)));
    ChecksumCompletes(base + WordSum(b));
  }

  lemma OverwrittenPart(b: bytes, at: nat, octets: bytes, low: nat, high: nat)
    requires low <= at && at + |octets| <= high <= |b|
    ensures Overwritten(b, at, octets)[low..high] == Overwritten(b[low..high], at - low, octets)
  {
  }

  lemma OverwrittenElsewhere(b: bytes, at: nat, octets: bytes, low: nat, high: nat)
    requires at + |octets| <= |b| && low <= high <= |b| && (high <= at || at + |octets| <= low)
    ensures |Overwritten(b, at, octets)| == |b| && Overwritten(b, at, octets)[low..high] == b[low..high]
  {
  }

  lemma IpStored(b: bytes, after: bytes, hdr: nat)
    requires HeadersInside(b, hdr) && |b| <= HEADERS + MAX_DATA && b[10] == 0 && b[11] == 0
    requires after == Overwritten(b, 10, Octets16(Checksum(WordSum(b[..hdr]))))
    ensures |after| == |b| && IpSumOk(after, hdr)
  {
    var check := Octets16(Checksum(WordSum(b[..hdr])));
    OverwrittenPart(b, 10, check, 0, hdr);
    StoredSum(b[..hdr], 10, 0, after[..hdr]);
  }

  lemma TcpStored(b: bytes, after: bytes, hdr: nat)
    requires HeadersInside(b, hdr) && |b| <= HEADERS + MAX_DATA && b[hdr + 16] == 0 && b[hdr + 17] == 0
    requires after ==
             Overwritten(b, hdr + 16, Octets16(Checksum(WordSum(PseudoHeader(b, hdr)) + WordSum(b[hdr..]))))
    ensures |after| == |b| && TcpSumOk(after, hdr)
  {
    var pseudo, segment := PseudoHeader(b, hdr), b[hdr..];
    var check := Octets16(Checksum(WordSum(pseudo) + WordSum(segment)));
    OverwrittenPart(b, hdr + 16, check, hdr, |b|);
    OverwrittenElsewhere(b, hdr + 16, check, 0, IP_HDRLEN);
    SamePseudo(b, after, hdr);
    WordSumBound(pseudo);
    StoredSum(segment, 16, WordSum(pseudo), after[hdr..]);
  }

  lemma SamePseudo(b: bytes, after: bytes, hdr: nat)
    requires |b| == |after| >= HEADERS && after[..IP_HDRLEN] == b[..IP_HDRLEN]
    ensures PseudoHeader(after, hdr) == PseudoHeader(b, hdr)
  {
    assert forall i :: 0 <= i < IP_HDRLEN ==> after[i] == after[..IP_HDRLEN][i] && b[i] == b[..IP_HDRLEN][i];
    assert after[12..20] == after[..IP_HDRLEN][12..20] == b[12..20];
  }

  /** cksumIp, and its result put into the header. */
  method StoreIpChecksum(packet: bytes, hdr: nat) returns (r: bytes)
    requires HeadersInside(packet, hdr) && |packet| <= HEADERS + MAX_DATA
    ensures |r| == |packet| && IpSumOk(r, hdr) && r[..10] == packet[..10] && r[12..] == packet[12..]
  {
    r := PutChecksum(packet, 10, 0);
    var ckSum := CalSum(r[..hdr]);
    IpSumSmall(r, hdr);
    ghost var before := r;
    r := PutChecksum(r, 10, Checksum(ckSum));
    IpStored(before, r, hdr);
  }

  /** cksumTcp, and its result put into the header. */
  method StoreTcpChecksum(packet: bytes, hdr: nat) returns (r: bytes)
    requires HeadersInside(packet, hdr) && |packet| <= HEADERS + MAX_DATA
    ensures |r| == |packet| && TcpSumOk(r, hdr) && r[..hdr + 16] == packet[..hdr + 16]
    ensures r[hdr + 18..] == packet[hdr + 18..]
  {
    r := PutChecksum(packet, hdr + 16, 0);
    var pseudo := PseudoHeader(r, hdr);
    var ckSum := CalSum(pseudo);
    var rest := CalSum(r[hdr..]);
    NothingWraps(r, hdr);
    ckSum := ckSum + rest;
    ghost var before := r;
    r := PutChecksum(r, hdr + 16, Checksum(ckSum));
    TcpStored(before, r, hdr);
  }

  function PutChecksum(b: bytes, at: nat, check: nat): (r: bytes)
    requires at + 2 <= |b|
    ensures |r| == |b| && r[..at] == b[..at] && r[at + 2..] == b[at + 2..]
    ensures r == Overwritten(b, at, Octets16(check)) && (check == 0 ==> r[at] == 0 && r[at + 1] == 0)
  {
    Overwritten(b, at, Octets16(check))
  }

  lemma IpSumSmall(b: bytes, hdr: nat)
    requires hdr <= |b| <= HEADERS + MAX_DATA
    ensures WordSum(b[..hdr]) % U32 == WordSum(b[..hdr])
  {
    SmallSum(b[..hdr]);
  }

  /** No 32-bit sum wraps around, even for the largest packet. */
  lemma NothingWraps(b: bytes, hdr: nat)
    requires HeadersInside(b, hdr) && |b| <= HEADERS + MAX_DATA
    ensures WordSum(PseudoHeader(b, hdr)) + WordSum(b[hdr..]) < U32
    ensures WordSum(PseudoHeader(b, hdr)) % U32 == WordSum(PseudoHeader(b, hdr))
    ensures WordSum(b[hdr..]) % U32 == WordSum(b[hdr..])
  {
    WordSumBound(PseudoHeader(b, hdr));
    SmallSum(b[hdr..]);
  }

  // ---------- filling in the headers ----------

  lemma Octets32RoundTrip(n: nat)
    requires n < U32
    ensures Number32(Octets32(n), 0) == n
  {
    var q := n / 256;
    var r := q / 256;
    assert r == n / 0x1_0000 && r / 256 == n / 0x100_0000;
  }

  /** Two neighbouring fields of `n` octets, swapped or not. */
  function Pair(b: bytes, at: nat, n: nat, swap: bool): (r: bytes)
    requires at + n + n <= |b|
    ensures |r| == n + n
  {
    if swap then b[at + n..at + n + n] + b[at..at + n] else b[at..at + n + n]
  }

  /** The IP header with its fields overwritten, checksum still zero. */
  function IpHeader(raw: bytes, total: nat, a: Args): (r: bytes)
    requires |raw| == HEADERS
    ensures |r| == IP_HDRLEN && r[2..4] == Octets16(total) && r[12..20] == Pair(raw, 12, 4, a.swap) && r[0] == raw[0]
  {
    [raw[0], 0] + Octets16(total) + Octets16(a.id) + Octets16(0x4000) + [a.ttl % 256, raw[9], 0, 0]
    + Pair(raw, 12, 4, a.swap)
  }

  /** The flags octet: PSH and ACK next to the two upper bits kept, or what was given, URG cleared. */
  function FlagsOctet(tcp: bytes, a: Args): byte
    requires |tcp| == TCP_HDRLEN
  {
    if a.flags.None? then tcp[13] / 64 * 64 + 24 else a.flags.value / 64 * 64 + a.flags.value % 32
  }

  /** The sequence and acknowledgement numbers of a TCP header, moved on and wrapping around. */
  function Moved(tcp: bytes, at: nat, other: nat, a: Args, add: nat): (n: nat)
    requires at + 4 <= |tcp| && other + 4 <= |tcp|
    ensures n < U32
  {
    (Number32(tcp, if a.swap then other else at) + add) % U32
  }

  /** The TCP header with its fields overwritten, checksum still zero. */
  function TcpHeader(tcp: bytes, a: Args): (r: bytes)
    requires |tcp| == TCP_HDRLEN
    ensures |r| == TCP_HDRLEN && r[..4] == Pair(tcp, 0, 2, a.swap)
    ensures r[4..8] == Octets32(Moved(tcp, 4, 8, a, a.seqAdd))
    ensures r[8..12] == Octets32(Moved(tcp, 8, 4, a, a.ackAdd))
  {
    Pair(tcp, 0, 2, a.swap) + Octets32(Moved(tcp, 4, 8, a, a.seqAdd)) + Octets32(Moved(tcp, 8, 4, a, a.ackAdd))
    + [80 + tcp[12] % 16, FlagsOctet(tcp, a)] + Octets16(a.window) + [0, 0, 0, 0]
  }

  /** The first forty octets, filled up with zeros. */
  function Resized(raw: bytes): (r: bytes)
    ensures |r| == HEADERS
  {
    if |raw| >= HEADERS then raw[..HEADERS] else raw + Zeros(HEADERS - |raw|)
  }

  /** The forty octets kept with the data behind them, and the TCP header that ihl points to in there. */
  function TcpAt(raw: bytes, data: bytes, hdr: nat): (t: bytes)
    requires |raw| == HEADERS && IP_HDRLEN <= hdr <= IP_HDRLEN + |data|
    ensures |t| == TCP_HDRLEN
  {
    (raw + data)[hdr..hdr + TCP_HDRLEN]
  }

  lemma NumberAt(b: bytes, at: nat, n: nat)
    requires at + 4 <= |b| && n < U32 && b[at..at + 4] == Octets32(n)
    ensures Number32(b, at) == n
  {
    Octets32RoundTrip(n);
    var octets := b[at..at + 4];
    assert b[at] == octets[0] && b[at + 1] == octets[1] && b[at + 2] == octets[2] && b[at + 3] == octets[3];
  }

  /** What is known of a packet formed from the forty octets `raw`: the checksums hold for whoever sums
      it up again, addresses and ports are swapped or not, and the sequence number is moved on. The
      data are put at octet 40, while the receiver takes what lies behind the TCP header that ihl
      points to. */
  ghost predicate Formed(packet: bytes, raw: bytes, data: bytes, a: Args, hdr: nat)
  {
    && |raw| == HEADERS && IP_HDRLEN <= hdr <= IP_HDRLEN + |data|
    && |packet| == HEADERS + |data| && HeaderLen(packet) == HeaderLen(raw) == hdr
    && IpSumOk(packet, hdr) && TcpSumOk(packet, hdr)
    && packet[hdr + TCP_HDRLEN..] == data[hdr - IP_HDRLEN..]
    && packet[2..4] == Octets16(|packet|) && packet[12..20] == Pair(raw, 12, 4, a.swap)
    && packet[hdr..hdr + 4] == Pair(TcpAt(raw, data, hdr), 0, 2, a.swap)
    && Number32(packet, hdr + 4) == Moved(TcpAt(raw, data, hdr), 4, 8, a, a.seqAdd)
  }

  /** The other octets of the IP header: type of service, identification, "don't fragment", time to live,
      protocol and addresses. */
  ghost predicate IpFilled(packet: bytes, raw: bytes, a: Args)
    requires |raw| == HEADERS && |packet| >= IP_HDRLEN
  {
    && packet[1] == 0 && packet[4] == a.id / 256 % 256 && packet[5] == a.id % 256
    && packet[6] == 0x40 && packet[7] == 0 && packet[8] == a.ttl % 256 && packet[9] == raw[9]
    && packet[12..16] == (if a.swap then raw[16..20] else raw[12..16])
    && packet[16..20] == (if a.swap then raw[12..16] else raw[16..20])
  }

  /** The octets of the TCP header, which was `tcp`: ports, sequence and acknowledgement numbers, data
      offset 5, flags, window and urgent pointer. */
  ghost predicate TcpFilled(packet: bytes, hdr: nat, tcp: bytes, a: Args)
    requires |tcp| == TCP_HDRLEN && hdr + TCP_HDRLEN <= |packet|
  {
    && packet[hdr..hdr + 2] == (if a.swap then tcp[2..4] else tcp[..2])
    && packet[hdr + 2..hdr + 4] == (if a.swap then tcp[..2] else tcp[2..4])
    && Number32(packet, hdr + 4) == (Number32(tcp, if a.swap then 8 else 4) + a.seqAdd) % 0x1_0000_0000
    && Number32(packet, hdr + 8) == (Number32(tcp, if a.swap then 4 else 8) + a.ackAdd) % 0x1_0000_0000
    && packet[hdr + 12] / 16 == 5 && packet[hdr + 12] % 16 == tcp[12] % 16
    && FlagsFilled(packet[hdr + 13], tcp[13], a.flags)
    && packet[hdr + 14] == a.window / 256 % 256 && packet[hdr + 15] == a.window % 256
    && packet[hdr + 18] == 0 && packet[hdr + 19] == 0
  }

  /** Without flags given, FIN, SYN, RST and URG are clear, PSH and ACK set, and the two upper bits what they
      were; with flags given, these are taken over but for URG, which is clear. */
  ghost predicate FlagsFilled(flags: byte, former: byte, given: Option<byte>)
  {
    match given
    case None => flags % 64 == 24 && flags / 64 == former / 64
    case Some(f) => flags == if f / 32 % 2 == 1 then f - 32 else f
  }

  lemma FlagsAsGiven(tcp: bytes, a: Args)
    requires |tcp| == TCP_HDRLEN
    ensures FlagsFilled(FlagsOctet(tcp, a), tcp[13], a.flags)
  {
    if a.flags.Some? {
      var f := a.flags.value;
      assert f / 64 * 64 + f % 64 == f;
      assert f % 64 == f / 32 % 2 * 32 + f % 32;
    }
  }

  /** form_packet. The headers of the packet it is made from are cut to forty octets, while ihl still
      counts the IP options. None stands for an ihl that puts the TCP header over the IP header, or
      behind the end of the packet; the source goes on then, and nothing is promised. */
  method FormPacket(packetRaw: bytes, data: bytes, a: Args) returns (packet: Option<bytes>)
    requires |data| <= MAX_DATA
    ensures var hdr := HeaderLen(Resized(packetRaw));
            if IP_HDRLEN <= hdr <= IP_HDRLEN + |data|
            then
              && packet.Some? && Formed(packet.value, Resized(packetRaw), data, a, hdr)
              && IpFilled(packet.value, Resized(packetRaw), a)
              && TcpFilled(packet.value, hdr, TcpAt(Resized(packetRaw), data, hdr), a)
              && packet.value[IP_HDRLEN..hdr] == (Resized(packetRaw) + data)[IP_HDRLEN..hdr]
            else packet.None?
  {
    var raw := Resized(packetRaw);
    var hdr := HeaderLen(raw);
    if hdr < IP_HDRLEN || hdr > IP_HDRLEN + |data| {
      return None;
    }
    var headed := IpHeader(raw, HEADERS + |data|, a) + raw[IP_HDRLEN..] + data;
    var summed := StoreIpChecksum(headed, hdr);
    assert summed[hdr..] == summed[12..][hdr - 12..] == headed[hdr..] == (raw + data)[hdr..];
    var filled := summed[..hdr] + TcpHeader(TcpAt(raw, data, hdr), a) + summed[hdr + TCP_HDRLEN..];
    var stored := StoreTcpChecksum(filled, hdr);
    OptionsKept(raw, data, hdr, headed, summed, filled, stored);
    KeptThrough(raw, a, data, hdr, headed, summed, filled, stored);
    KeptFilled(raw, a, data, hdr, headed, summed, filled, stored);
    NumberAt(stored, hdr + 4, Moved(TcpAt(raw, data, hdr), 4, 8, a, a.seqAdd));
    packet := Some(stored);
  }

  lemma OptionsKept(raw: bytes, data: bytes, hdr: nat, headed: bytes, summed: bytes, filled: bytes, packet: bytes)
    requires |raw| == HEADERS && IP_HDRLEN <= hdr <= IP_HDRLEN + |data|
    requires |headed| == HEADERS + |data| == |summed| == |filled| == |packet|
    requires headed[IP_HDRLEN..] == raw[IP_HDRLEN..] + data && summed[12..] == headed[12..]
    requires filled[..hdr] == summed[..hdr] && packet[..hdr + 16] == filled[..hdr + 16]
    ensures packet[IP_HDRLEN..hdr] == (raw + data)[IP_HDRLEN..hdr]
  {
    assert (raw + data)[IP_HDRLEN..] == raw[IP_HDRLEN..] + data;
    forall i | IP_HDRLEN <= i < hdr
      ensures packet[i] == (raw + data)[i]
    {
      assert packet[i] == packet[..hdr + 16][i] == filled[..hdr + 16][i] == filled[..hdr][i] == summed[..hdr][i];
      assert summed[12..][i - 12] == headed[12..][i - 12];
      assert headed[IP_HDRLEN..][i - 20] == (raw + data)[IP_HDRLEN..][i - 20];
    }
  }

  /** The receiver gets the data less their first 4 * (ihl - 5) octets: all of them exactly when the
      header has no options. */
  lemma PayloadWhole(packet: bytes, raw: bytes, data: bytes, a: Args, hdr: nat)
    requires Formed(packet, raw, data, a, hdr)
    ensures |packet[hdr + TCP_HDRLEN..]| == |data| - (hdr - IP_HDRLEN)
    ensures packet[hdr + TCP_HDRLEN..] == data <==> raw[0] % 16 == 5
  {
    if hdr == IP_HDRLEN {
      assert data[0..] == data;
    }
  }

  /** One word of options, and five octets of data: the receiver gets the last of them. */
  lemma OptionsCutPayload(packet: bytes, raw: bytes, a: Args)
    requires |raw| == HEADERS && raw[0] == 0x46 && Formed(packet, raw, [1, 2, 3, 4, 5], a, 24)
    ensures packet[24 + TCP_HDRLEN..] == [5]
  {
    assert [1, 2, 3, 4, 5][4..] == [5];
  }

  lemma SliceOfSlice(b: bytes, at: nat, n: nat, low: nat, high: nat)
    requires low <= high <= n && at + n <= |b|
    ensures b[at..at + n][low..high] == b[at + low..at + high]
  {
    var x, y := b[at..at + n][low..high], b[at + low..at + high];
    assert forall i :: 0 <= i < |x| ==> x[i] == y[i];
  }

  /** What the later steps leave of what the earlier ones wrote. */
  lemma KeptThrough(raw: bytes, a: Args, data: bytes, hdr: nat, headed: bytes, summed: bytes, filled: bytes,
                    packet: bytes)
    requires |raw| == HEADERS && IP_HDRLEN <= hdr <= IP_HDRLEN + |data|
    requires headed == IpHeader(raw, HEADERS + |data|, a) + raw[IP_HDRLEN..] + data
    requires |summed| == |headed| && IpSumOk(summed, hdr) && summed[..10] == headed[..10] && summed[12..] == headed[12..]
    requires filled == summed[..hdr] + TcpHeader(TcpAt(raw, data, hdr), a) + summed[hdr + TCP_HDRLEN..]
    requires |packet| == |filled| && packet[..hdr + 16] == filled[..hdr + 16] && packet[hdr + 18..] == filled[hdr + 18..]
    ensures packet[hdr + TCP_HDRLEN..] == data[hdr - IP_HDRLEN..] && IpSumOk(packet, hdr) && packet[0] == raw[0]
    ensures packet[2..4] == Octets16(HEADERS + |data|) && packet[12..20] == Pair(raw, 12, 4, a.swap)
    ensures packet[hdr..hdr + 4] == Pair(TcpAt(raw, data, hdr), 0, 2, a.swap)
    ensures packet[hdr + 4..hdr + 8] == Octets32(Moved(TcpAt(raw, data, hdr), 4, 8, a, a.seqAdd))
  {
    var ip, tcp := IpHeader(raw, HEADERS + |data|, a), TcpHeader(TcpAt(raw, data, hdr), a);
    assert packet[hdr + 20..] == packet[hdr + 18..][2..] == filled[hdr + 18..][2..] == filled[hdr + 20..];
    assert filled[hdr + 20..] == summed[hdr + 20..] == summed[12..][hdr + 8..] == headed[hdr + 20..] == data[hdr - 20..];
    assert packet[..hdr] == packet[..hdr + 16][..hdr] == filled[..hdr + 16][..hdr] == summed[..hdr];
    assert packet[hdr..hdr + 16] == packet[..hdr + 16][hdr..] == filled[..hdr + 16][hdr..] == tcp[..16];
    KeptIp(raw, a, data, hdr, headed, summed, packet);
    SliceOfSlice(packet, hdr, 16, 0, 4);
    SliceOfSlice(packet, hdr, 16, 4, 8);
    SliceOfSlice(tcp, 0, 16, 0, 4);
    SliceOfSlice(tcp, 0, 16, 4, 8);
  }

  lemma KeptIp(raw: bytes, a: Args, data: bytes, hdr: nat, headed: bytes, summed: bytes, packet: bytes)
    requires |raw| == HEADERS && IP_HDRLEN <= hdr <= IP_HDRLEN + |data|
    requires headed == IpHeader(raw, HEADERS + |data|, a) + raw[IP_HDRLEN..] + data
    requires |packet| == |summed| == |headed| && packet[..hdr] == summed[..hdr]
    requires summed[..10] == headed[..10] && summed[12..] == headed[12..]
    ensures packet[0] == raw[0]
    ensures packet[2..4] == Octets16(HEADERS + |data|) && packet[12..20] == Pair(raw, 12, 4, a.swap)
  {
    var ip := IpHeader(raw, HEADERS + |data|, a);
    assert packet[0] == packet[..hdr][0] == summed[..10][0] == headed[..10][0] == ip[0];
    assert packet[2..4] == packet[..hdr][2..4] == summed[..10][2..4] == headed[..10][2..4] == ip[2..4];
    assert packet[12..20] == packet[..hdr][12..20] == summed[12..][..8] == headed[12..][..8] == ip[12..20];
  }

  /** Where the later steps wrote nothing, the octets are those of the two headers. */
  lemma KeptOctets(raw: bytes, a: Args, data: bytes, hdr: nat, headed: bytes, summed: bytes, filled: bytes,
                   packet: bytes)
    requires |raw| == HEADERS && IP_HDRLEN <= hdr <= IP_HDRLEN + |data|
    requires headed == IpHeader(raw, HEADERS + |data|, a) + raw[IP_HDRLEN..] + data
    requires |summed| == |headed| && summed[..10] == headed[..10] && summed[12..] == headed[12..]
    requires filled == summed[..hdr] + TcpHeader(TcpAt(raw, data, hdr), a) + summed[hdr + TCP_HDRLEN..]
    requires |packet| == |filled| && packet[..hdr + 16] == filled[..hdr + 16] && packet[hdr + 18..] == filled[hdr + 18..]
    ensures forall i :: 0 <= i < 20 && i != 10 && i != 11 ==> packet[i] == IpHeader(raw, HEADERS + |data|, a)[i]
    ensures forall i :: 0 <= i < 20 && i != 16 && i != 17 ==>
                          packet[hdr + i] == TcpHeader(TcpAt(raw, data, hdr), a)[i]
  {
    var ip, tcp := IpHeader(raw, HEADERS + |data|, a), TcpHeader(TcpAt(raw, data, hdr), a);
    forall i | 0 <= i < 20 && i != 10 && i != 11
      ensures packet[i] == ip[i]
    {
      assert packet[i] == packet[..hdr + 16][i] == filled[..hdr + 16][i] == summed[i];
      assert summed[i] == (if i < 10 then summed[..10][i] else summed[12..][i - 12]);
      assert headed[i] == (if i < 10 then headed[..10][i] else headed[12..][i - 12]);
    }
    forall i | 0 <= i < 20 && i != 16 && i != 17
      ensures packet[hdr + i] == tcp[i]
    {
      assert filled[hdr + i] == tcp[i];
      if i < 16 {
        assert packet[hdr + i] == packet[..hdr + 16][hdr + i] == filled[..hdr + 16][hdr + i];
      } else {
        assert packet[hdr + i] == packet[hdr + 18..][i - 18] == filled[hdr + 18..][i - 18];
      }
    }
  }

  lemma IpOctets(raw: bytes, total: nat, a: Args)
    requires |raw| == HEADERS
    ensures IpFilled(IpHeader(raw, total, a), raw, a)
  {
    assert Octets16(0x4000) == [0x40, 0];
    var ip, pair := IpHeader(raw, total, a), Pair(raw, 12, 4, a.swap);
    assert ip[12..20] == pair;
    SliceOfSlice(ip, 12, 8, 0, 4);
    SliceOfSlice(ip, 12, 8, 4, 8);
  }

  lemma TcpOctets(tcp: bytes, a: Args)
    requires |tcp| == TCP_HDRLEN
    ensures TcpFilled(TcpHeader(tcp, a), 0, tcp, a)
  {
    var t := TcpHeader(tcp, a);
    NumberAt(t, 4, Moved(tcp, 4, 8, a, a.seqAdd));
    NumberAt(t, 8, Moved(tcp, 8, 4, a, a.ackAdd));
    FlagsAsGiven(tcp, a);
    assert t[..4] == Pair(tcp, 0, 2, a.swap);
    SliceOfSlice(t, 0, 4, 0, 2);
    SliceOfSlice(t, 0, 4, 2, 4);
    assert t[12] == 80 + tcp[12] % 16 && t[13] == FlagsOctet(tcp, a);
  }

  lemma SameSlice(x: bytes, at: nat, y: bytes, low: nat, high: nat)
    requires low <= high <= |y| && at + high <= |x|
    requires forall i :: low <= i < high ==> x[at + i] == y[i]
    ensures x[at + low..at + high] == y[low..high]
  {
  }

  lemma SameNumber32(x: bytes, at: nat, y: bytes, low: nat)
    requires low + 4 <= |y| && at + low + 4 <= |x|
    requires forall i :: low <= i < low + 4 ==> x[at + i] == y[i]
    ensures Number32(x, at + low) == Number32(y, low)
  {
    assert x[at + low] == y[low] && x[at + (low + 1)] == y[low + 1];
    assert x[at + (low + 2)] == y[low + 2] && x[at + (low + 3)] == y[low + 3];
  }

  lemma KeptFilled(raw: bytes, a: Args, data: bytes, hdr: nat, headed: bytes, summed: bytes, filled: bytes,
                   packet: bytes)
    requires |raw| == HEADERS && IP_HDRLEN <= hdr <= IP_HDRLEN + |data|
    requires headed == IpHeader(raw, HEADERS + |data|, a) + raw[IP_HDRLEN..] + data
    requires |summed| == |headed| && summed[..10] == headed[..10] && summed[12..] == headed[12..]
    requires filled == summed[..hdr] + TcpHeader(TcpAt(raw, data, hdr), a) + summed[hdr + TCP_HDRLEN..]
    requires |packet| == |filled| && packet[..hdr + 16] == filled[..hdr + 16] && packet[hdr + 18..] == filled[hdr + 18..]
    ensures IpFilled(packet, raw, a) && TcpFilled(packet, hdr, TcpAt(raw, data, hdr), a)
  {
    var tcp := TcpAt(raw, data, hdr);
    KeptOctets(raw, a, data, hdr, headed, summed, filled, packet);
    IpFilledFrom(packet, raw, a, IpHeader(raw, HEADERS + |data|, a));
    TcpFilledFrom(packet, hdr, tcp, a, TcpHeader(tcp, a));
  }

  lemma IpFilledFrom(packet: bytes, raw: bytes, a: Args, ip: bytes)
    requires |raw| == HEADERS && |packet| >= IP_HDRLEN && ip == IpHeader(raw, |packet|, a)
    requires forall i :: 0 <= i < 20 && i != 10 && i != 11 ==> packet[i] == ip[i]
    ensures IpFilled(packet, raw, a)
  {
    IpOctets(raw, |packet|, a);
    SameSlice(packet, 0, ip, 12, 16);
    SameSlice(packet, 0, ip, 16, 20);
  }

  lemma TcpFilledFrom(packet: bytes, hdr: nat, former: bytes, a: Args, tcp: bytes)
    requires |former| == TCP_HDRLEN && hdr + TCP_HDRLEN <= |packet| && tcp == TcpHeader(former, a)
    requires forall i :: 0 <= i < 20 && i != 16 && i != 17 ==> packet[hdr + i] == tcp[i]
    ensures TcpFilled(packet, hdr, former, a)
  {
    TcpOctets(former, a);
    SameSlice(packet, hdr, tcp, 0, 2);
    SameSlice(packet, hdr, tcp, 2, 4);
    SameNumber32(packet, hdr, tcp, 4);
    SameNumber32(packet, hdr, tcp, 8);
  }
}
