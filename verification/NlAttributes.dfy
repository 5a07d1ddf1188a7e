/** Netlink attributes on the wire: headers, alignment, trees and walks (libnl/lib/attr.c). */
module NlAttributes {
  import opened Wrappers
  import opened Buffers

  const HDRLEN := 4
  const U16_MAX := 0xFFFF
  const NESTED := 0x8000

  /** The longest payload whose attribute length fits sixteen bits. */
  const MAX_PAYLOAD := 65531

  function Align(n: nat): (r: nat)
    ensures n <= r < n + 4 && r % 4 == 0
  {
    (n + 3) / 4 * 4
  }

  function AttrSize(payload: nat): nat
  {
    HDRLEN + payload
  }

  function TotalSize(payload: nat): nat
  {
    Align(AttrSize(payload))
  }

  function PadLen(payload: nat): nat
  {
    TotalSize(payload) - AttrSize(payload)
  }

  function LittleEndian16(n: nat): (r: bytes)
    ensures |r| == 2
  {
    [n % 256, n / 256 % 256]
  }

  function Number(low: byte, high: byte): (n: nat)
    ensures n <= U16_MAX
  {
    low + 256 * high
  }

  lemma NumberRoundTrip(n: nat)
    requires n <= U16_MAX
    ensures Number(LittleEndian16(n)[0], LittleEndian16(n)[1]) == n
  {
  }

  function Header(len: nat, attrType: nat): (h: bytes)
    ensures |h| == HDRLEN
  {
    LittleEndian16(len) + LittleEndian16(attrType)
  }

  /** The header nla_reserve leaves. The length is cut to sixteen bits, and the padding is cleared
      where that length says, which for the longest payloads is inside the header. */
  function ReservedHeader(attrType: nat, payload: nat): (h: bytes)
    ensures |h| == HDRLEN
  {
    var len := AttrSize(payload) % 0x1_0000;
    var h := Header(len, attrType);
    if payload > 0 && len < HDRLEN then seq(HDRLEN, i requires 0 <= i < HDRLEN => if len <= i < len + PadLen(payload) then 0 else h[i])
    else h
  }

  lemma ShortReservedHeader(attrType: nat, payload: nat)
    requires payload <= MAX_PAYLOAD
    ensures ReservedHeader(attrType, payload) == Header(AttrSize(payload), attrType)
  {
  }

  /** What nla_put appends. */
  function AttrBytes(attrType: nat, data: bytes): (r: bytes)
    ensures |r| == TotalSize(|data|)
  {
    ReservedHeader(attrType, |data|) + data + Zeros(PadLen(|data|))
  }

  /** NLA_F_NESTED | attrtype. */
  function Flagged(attrType: nat): nat
  {
    if attrType / NESTED % 2 == 1 then attrType else attrType + NESTED
  }

  // ---------- trees ----------

  datatype Tree =
    | Leaf(attrType: nat, data: bytes)
    | Nest(attrType: nat, kids: seq<Tree>)

  function TreeBytes(t: Tree): bytes
  {
    match t
    case Leaf(attrType, data) => AttrBytes(attrType, data)
    case Nest(attrType, kids) => Header(HDRLEN + |KidsBytes(kids)|, Flagged(attrType)) + KidsBytes(kids)
  }

  function KidsBytes(kids: seq<Tree>): bytes
  {
    if kids == [] then [] else TreeBytes(kids[0]) + KidsBytes(kids[1..])
  }

  /** Closed containers fit their length field. */
  predicate WellSized(t: Tree)
  {
    t.Nest? ==> HDRLEN + |KidsBytes(t.kids)| <= U16_MAX && forall i :: 0 <= i < |t.kids| ==> WellSized(t.kids[i])
  }

  /** Attribute types without the flag bits. */
  predicate PlainTypes(t: Tree)
  {
    t.attrType < 0x4000 && (t.Nest? ==> forall i :: 0 <= i < |t.kids| ==> PlainTypes(t.kids[i]))
  }

  predicate Short(t: Tree)
  {
    t.Leaf? ==> |t.data| <= MAX_PAYLOAD
  }

  // ---------- walking ----------

  function LenAt(b: bytes): nat
    requires |b| >= HDRLEN
  {
    Number(b[0], b[1])
  }

  function TypeAt(b: bytes): nat
    requires |b| >= HDRLEN
  {
    Number(b[2], b[3])
  }

  /** nla_ok. */
  predicate Ok4(b: bytes)
  {
    |b| >= HDRLEN && HDRLEN <= LenAt(b) <= |b|
  }

  /** nla_next: what is left, which is nothing when the last attribute's padding is cut off. */
  function Next(b: bytes): (r: bytes)
    requires Ok4(b)
    ensures |r| < |b|
  {
    if Align(LenAt(b)) <= |b| then b[Align(LenAt(b))..] else []
  }

  function Payload(b: bytes): bytes
    requires Ok4(b)
  {
    b[HDRLEN..LenAt(b)]
  }

  /** The attributes of a stream, and of the containers in it. */
  function Walk(b: bytes): seq<Tree>
    decreases |b|
  {
    if !Ok4(b) then [] else [Item(b)] + Walk(Next(b))
  }

  function Item(b: bytes): Tree
    requires Ok4(b)
    decreases |b|, 0
  {
    if TypeAt(b) >= NESTED then Nest(TypeAt(b) % 0x4000, Walk(Payload(b))) else Leaf(TypeAt(b) % 0x4000, Payload(b))
  }
}
