/** Building attributes in a message: put, nested containers and their cancellation
    (libnl/lib/attr.c, libnl/lib/msg.c). */
module NlAttributeBuilder {
  import opened Wrappers
  import opened Buffers
  import opened NlAttributes
  import opened NlAttributeTrees

  const MSG_HDRLEN := 16

  /** A container that is still open, with what is complete in it. The first frame of a message is
      the message itself. */
  datatype Frame = Frame(attrType: nat, kids: seq<Tree>)

  datatype Op =
    | Put(attrType: nat, data: bytes)
    | NestStart(attrType: nat)
    | NestEnd(keepEmpty: bool)
    | NestCancel

  datatype Code = Success | NoMem | SizeExceeded

  /** What the message holds after its header. */
  function Stream(frames: seq<Frame>): bytes
    decreases |frames|
  {
    if frames == [] then []
    else if |frames| == 1 then KidsBytes(frames[0].kids)
    else
      var top := frames[|frames| - 1];
      Stream(frames[..|frames| - 1]) + Opening(top) + KidsBytes(top.kids)
  }

  /** The header of an open container: its length is not known yet. */
  function Opening(frame: Frame): bytes
  {
    Header(HDRLEN, Flagged(frame.attrType))
  }

  function AddKid(frames: seq<Frame>, t: Tree): (r: seq<Frame>)
    requires frames != []
  {
    var top := frames[|frames| - 1];
    frames[..|frames| - 1] + [top.(kids := top.kids + [t])]
  }

  /** What an operation means for the tree. Containers that end empty disappear, unless they are to
      be kept, and so do those that do not fit their length field. */
  function Step(frames: seq<Frame>, size: nat, op: Op): (seq<Frame>, Code)
    requires frames != [] && (op.NestEnd? || op.NestCancel? ==> |frames| > 1)
  {
    var used := MSG_HDRLEN + |Stream(frames)|;
    match op
    case Put(attrType, data) =>
      if used + TotalSize(|data|) > size then (frames, NoMem) else (AddKid(frames, Leaf(attrType, data)), Success)
    case NestStart(attrType) =>
      if used + HDRLEN > size then (frames, NoMem) else (frames + [Frame(attrType, [])], Success)
    case NestEnd(keepEmpty) =>
      var outer, top := frames[..|frames| - 1], frames[|frames| - 1];
      var len := HDRLEN + |KidsBytes(top.kids)|;
      if len > U16_MAX then (outer, SizeExceeded)
      else if len == HDRLEN && !keepEmpty then (outer, Success)
      else (AddKid(outer, Nest(top.attrType, top.kids)), Success)
    case NestCancel => (frames[..|frames| - 1], Success)
  }

  ghost predicate WellSizedFrames(frames: seq<Frame>)
  {
    forall k :: 0 <= k < |frames| ==> AllWellSized(frames[k].kids)
  }

  ghost predicate AllWellSized(kids: seq<Tree>)
  {
    forall i :: 0 <= i < |kids| ==> WellSized(kids[i])
  }

  lemma AddKidWellSized(frames: seq<Frame>, t: Tree)
    requires frames != [] && WellSizedFrames(frames) && WellSized(t)
    ensures WellSizedFrames(AddKid(frames, t))
  {
    assert AllWellSized(frames[|frames| - 1].kids);
  }

  // ---------- the stream ----------

  lemma {:induction false} StreamAligned(frames: seq<Frame>)
    ensures |Stream(frames)| % 4 == 0
    decreases |frames|
  {
    if |frames| == 1 {
      KidsAligned(frames[0].kids);
    } else if |frames| > 1 {
      var top := frames[|frames| - 1];
      StreamAligned(frames[..|frames| - 1]);
      KidsAligned(top.kids);
      AlignedSum(|Stream(frames[..|frames| - 1])|, HDRLEN);
      AlignedSum(|Stream(frames[..|frames| - 1])| + HDRLEN, |KidsBytes(top.kids)|);
    }
  }

  lemma StreamAddKid(frames: seq<Frame>, t: Tree)
    requires frames != []
    ensures Stream(AddKid(frames, t)) == Stream(frames) + TreeBytes(t)
  {
    var n := |frames| - 1;
    var top := frames[n];
    KidsSnoc(top.kids, t);
    var more := AddKid(frames, t);
    assert more[..n] == frames[..n] && more[n] == top.(kids := top.kids + [t]);
    if n > 0 {
      Regroup(Stream(frames[..n]) + Opening(top), KidsBytes(top.kids), TreeBytes(t));
    }
  }

  lemma StreamOpen(frames: seq<Frame>, attrType: nat)
    requires frames != []
    ensures Stream(frames + [Frame(attrType, [])]) == Stream(frames) + Header(HDRLEN, Flagged(attrType))
  {
    var more := frames + [Frame(attrType, [])];
    assert more[..|frames|] == frames && more[|frames|] == Frame(attrType, []);
    assert Stream(frames) + Header(HDRLEN, Flagged(attrType)) + [] == Stream(frames) + Header(HDRLEN, Flagged(attrType));
  }

  /** Closing a container only fills in its length. */
  lemma StreamClose(frames: seq<Frame>, outer: seq<Frame>, top: Frame, len: nat)
    requires |frames| > 1 && outer == frames[..|frames| - 1] && top == frames[|frames| - 1]
    requires len == HDRLEN + |KidsBytes(top.kids)|
    ensures Stream(AddKid(outer, Nest(top.attrType, top.kids))) ==
            Stream(outer) + Header(len, Flagged(top.attrType)) + KidsBytes(top.kids)
    ensures Stream(frames) == Stream(outer) + Header(HDRLEN, Flagged(top.attrType)) + KidsBytes(top.kids)
  {
    StreamAddKid(outer, Nest(top.attrType, top.kids));
    Regroup(Stream(outer), Header(len, Flagged(top.attrType)), KidsBytes(top.kids));
  }

  // ---------- the message ----------

  class Message {
    const buffer: array<byte>
    var length: nat
    ghost var frames: seq<Frame>

    ghost predicate Valid()
      reads this, buffer
    {
      Laid(buffer[..], length, frames)
    }

    /** __nlmsg_alloc. */
    constructor (size: nat)
      ensures Valid() && fresh(buffer) && frames == [Frame(0, [])]
      ensures buffer.Length == if size < MSG_HDRLEN then MSG_HDRLEN else size
    {
      var len := if size < MSG_HDRLEN then MSG_HDRLEN else size;
      buffer := new byte[len](_ => 0);
      length := MSG_HDRLEN;
      frames := [Frame(0, [])];
    }

    /** nlmsg_tail. */
    function Tail(): nat
      reads this
    {
      Align(length)
    }

    /** memcpy, and memset with zeros. */
    method Write(at: nat, octets: bytes)
      requires at + |octets| <= buffer.Length
      modifies buffer
      ensures buffer[..] == Overwritten(old(buffer[..]), at, octets)
    {
      forall i | 0 <= i < |octets| {
        buffer[at + i] := octets[i];
      }
    }

    /** The header of a new attribute, and its padding, wherever its cut length puts it. */
    method WriteHeader(tail: nat, attrType: nat, attrLen: nat)
      requires tail + TotalSize(attrLen) <= buffer.Length && ZeroFrom(buffer[..], tail)
      modifies buffer
      ensures buffer[..] == Overwritten(old(buffer[..]), tail, AttrBytes(attrType, Zeros(attrLen)))
    {
      ghost var before := buffer[..];
      var len := AttrSize(attrLen) % 0x1_0000;
      Write(tail, Header(len, attrType));
      if attrLen > 0 {
        Write(tail + len, Zeros(PadLen(attrLen)));
      }
      ReservedBytes(before, buffer[..], tail, attrType, attrLen);
    }

    /** nla_reserve: a header, and zeros for the payload and its padding. */
    method Reserve(attrType: nat, attrLen: nat) returns (start: Option<nat>)
      requires Valid()
      modifies this, buffer
      ensures Valid()
      ensures if old(length) + TotalSize(attrLen) > buffer.Length
              then start.None? && buffer[..] == old(buffer[..]) && length == old(length) && frames == old(frames)
              else
                && start == Some(old(length)) && length == old(length) + TotalSize(attrLen)
                && frames == AddKid(old(frames), Leaf(attrType, Zeros(attrLen)))
                && buffer[..] == Overwritten(old(buffer[..]), old(length), AttrBytes(attrType, Zeros(attrLen)))
    {
      TailIsEnd(buffer[..], length, frames);
      var tail := Tail();
      var end := tail + TotalSize(attrLen);
      if end > buffer.Length {
        return None;
      }
      ghost var before := buffer[..];
      WriteHeader(tail, attrType, attrLen);
      LaidLeaf(before, buffer[..], length, frames, attrType, Zeros(attrLen));
      length := end;
      frames := AddKid(frames, Leaf(attrType, Zeros(attrLen)));
      return Some(tail);
    }

    /** nla_put. */
    method Put(attrType: nat, data: bytes) returns (code: Code)
      requires Valid()
      modifies this, buffer
      ensures Valid()
      ensures (frames, code) == Step(old(frames), buffer.Length, Op.Put(attrType, data))
      ensures length == if code == Success then old(length) + TotalSize(|data|) else old(length)
    {
      ghost var before, was := buffer[..], frames;
      var start := Reserve(attrType, |data|);
      if start.None? {
        return NoMem;
      }
      if |data| > 0 {
        Write(start.value + HDRLEN, data);
      }
      PayloadOver(before, buffer[..], start.value, attrType, data);
      LaidLeaf(before, buffer[..], start.value, was, attrType, data);
      frames := AddKid(was, Leaf(attrType, data));
      return Success;
    }

    /** nla_nest_start: the offset of the container's header, if there is room for it. */
    method NestStart(attrType: nat) returns (start: Option<nat>)
      requires Valid()
      modifies this, buffer
      ensures Valid()
      ensures var (after, code) := Step(old(frames), buffer.Length, Op.NestStart(attrType));
              frames == after && start == if code == Success then Some(TopStart(frames)) else None
    {
      ghost var was := frames;
      var tail := Tail();
      TailIsEnd(buffer[..], length, frames);
      var code := Put(Flagged(attrType), []);
      if code != Success {
        return None;
      }
      LaidOpening(buffer[..], length, was, attrType);
      frames := was + [Frame(attrType, [])];
      assert frames[..|was|] == was;
      return Some(tail);
    }

    /** nla_nest_cancel, for any open container: it goes, with every container opened in it. */
    method NestCancel(start: nat, ghost i: nat)
      requires Valid() && 0 < i < |frames| && start == TopStart(frames[..i + 1])
      modifies this, buffer
      ensures Valid() && length == start && frames == old(frames[..i])
      ensures i + 1 == old(|frames|) ==> (frames, Success) == Step(old(frames), buffer.Length, Op.NestCancel)
    {
      ghost var before := buffer[..];
      TailIsEnd(before, length, frames);
      StreamPrefix(frames, i);
      assert frames[..i + 1][..i] == frames[..i];
      var len := Tail() - start;
      if len > 0 {
        length := length - len;
        Write(length, Zeros(len));
      }
      LaidOuter(before, buffer[..], old(length), frames, i, start);
      frames := frames[..i];
    }

    /** nla_nest_end and nla_nest_end_keep_empty, for the container opened last. */
    method NestEnd(start: nat, keepEmpty: bool) returns (code: Code)
      requires Valid() && |frames| > 1 && start == TopStart(frames)
      modifies this, buffer
      ensures Valid()
      ensures (frames, code) == Step(old(frames), buffer.Length, Op.NestEnd(keepEmpty))
    {
      TailIsEnd(buffer[..], length, frames);
      StreamTop(frames);
      var len := Tail() - start;
      if len > U16_MAX || (!keepEmpty && len == HDRLEN) {
        assert frames[..|frames|] == frames;
        NestCancel(start, |frames| - 1);
        return if len == HDRLEN then Success else SizeExceeded;
      }
      ghost var before, outer, top := buffer[..], frames[..|frames| - 1], frames[|frames| - 1];
      Write(start, LittleEndian16(len));
      var pad := Align(length) - length;
      assert pad == 0;
      LaidClosed(before, buffer[..], length, frames, outer, top, start, len);
      frames := AddKid(outer, Nest(top.attrType, top.kids));
      return Success;
    }
  }

  /** Where the container opened last begins. */
  function TopStart(frames: seq<Frame>): nat
  {
    if frames == [] then MSG_HDRLEN else MSG_HDRLEN + |Stream(frames[..|frames| - 1])|
  }

  lemma StreamTop(frames: seq<Frame>)
    requires |frames| > 1
    ensures MSG_HDRLEN + |Stream(frames)| == TopStart(frames) + HDRLEN + |KidsBytes(frames[|frames| - 1].kids)|
    ensures Stream(frames[..|frames| - 1]) <= Stream(frames)
  {
    Regroup(Stream(frames[..|frames| - 1]), Opening(frames[|frames| - 1]), KidsBytes(frames[|frames| - 1].kids));
  }

  lemma PayloadOver(before: bytes, after: bytes, start: nat, attrType: nat, data: bytes)
    requires start + TotalSize(|data|) <= |before|
    requires var reserved := Overwritten(before, start, AttrBytes(attrType, Zeros(|data|)));
             after == if |data| > 0 then Overwritten(reserved, start + HDRLEN, data) else reserved
    ensures after == Overwritten(before, start, AttrBytes(attrType, data))
  {
    var octets := AttrBytes(attrType, data);
    var zeros := AttrBytes(attrType, Zeros(|data|));
    assert octets[..HDRLEN] == zeros[..HDRLEN] && octets[HDRLEN + |data|..] == zeros[HDRLEN + |data|..];
    assert |data| == 0 ==> octets == zeros;
  }

  lemma LaidOpening(b: bytes, length: nat, frames: seq<Frame>, attrType: nat)
    requires frames != [] && WellSizedFrames(frames) && Laid(b, length, AddKid(frames, Leaf(Flagged(attrType), [])))
    ensures Laid(b, length, frames + [Frame(attrType, [])])
  {
    StreamAddKid(frames, Leaf(Flagged(attrType), []));
    StreamOpen(frames, attrType);
    ShortReservedHeader(Flagged(attrType), 0);
    assert AttrBytes(Flagged(attrType), []) == Header(HDRLEN, Flagged(attrType));
  }

  /** What the outer containers hold comes first. */
  lemma {:induction false} StreamPrefix(frames: seq<Frame>, i: nat)
    requires i <= |frames|
    ensures Stream(frames[..i]) <= Stream(frames)
    decreases |frames|
  {
    var n := |frames| - 1;
    if i == |frames| {
      assert frames[..i] == frames;
    } else if n > 0 {
      StreamTop(frames);
      StreamPrefix(frames[..n], i);
      assert frames[..n][..i] == frames[..i];
    } else {
      assert frames[..i] == [];
    }
  }

  lemma LaidOuter(before: bytes, after: bytes, length: nat, frames: seq<Frame>, i: nat, start: nat)
    requires Laid(before, length, frames) && 0 < i < |frames| && start == MSG_HDRLEN + |Stream(frames[..i])|
    requires start <= length && after == Overwritten(before, start, Zeros(length - start))
    ensures Laid(after, start, frames[..i])
  {
    StreamPrefix(frames, i);
    CutBack(before, after, start, length);
    assert Stream(frames)[..start - MSG_HDRLEN] == Stream(frames[..i]);
  }

  lemma CutBack(before: bytes, after: bytes, start: nat, length: nat)
    requires MSG_HDRLEN <= start <= length <= |before| && ZeroFrom(before, length)
    requires after == Overwritten(before, start, Zeros(length - start))
    ensures |after| == |before| && ZeroFrom(after, start)
    ensures after[MSG_HDRLEN..start] == before[MSG_HDRLEN..length][..start - MSG_HDRLEN]
  {
  }

  lemma LaidClosed(before: bytes, after: bytes, length: nat, frames: seq<Frame>, outer: seq<Frame>, top: Frame,
                   start: nat, len: nat)
    requires Laid(before, length, frames) && |frames| > 1
    requires outer == frames[..|frames| - 1] && top == frames[|frames| - 1] && start == TopStart(frames)
    requires len == HDRLEN + |KidsBytes(top.kids)| <= U16_MAX && start + 2 <= |before|
    requires after == Overwritten(before, start, LittleEndian16(len))
    ensures Laid(after, length, AddKid(outer, Nest(top.attrType, top.kids)))
  {
    StreamClose(frames, outer, top, len);
    StreamTop(frames);
    AddKidWellSized(outer, Nest(top.attrType, top.kids));
    SliceOverwritten(before, after, start, length, LittleEndian16(len));
    LengthFilled(before[MSG_HDRLEN..length], after[MSG_HDRLEN..length], Stream(outer), KidsBytes(top.kids), len,
                 Flagged(top.attrType));
  }

  lemma SliceOverwritten(before: bytes, after: bytes, at: nat, length: nat, octets: bytes)
    requires MSG_HDRLEN <= at && at + |octets| <= length <= |before| && after == Overwritten(before, at, octets)
    ensures |after| == |before|
    ensures after[MSG_HDRLEN..length] == Overwritten(before[MSG_HDRLEN..length], at - MSG_HDRLEN, octets)
    ensures after[length..] == before[length..]
  {
  }

  lemma LengthFilled(before: bytes, after: bytes, outer: bytes, body: bytes, len: nat, attrType: nat)
    requires before == outer + Header(HDRLEN, attrType) + body
    requires after == Overwritten(before, |outer|, LittleEndian16(len))
    ensures after == outer + Header(len, attrType) + body
  {
  }

  /** The bytes after the header are the open containers and what is in them; the rest of the
      buffer is zero. */
  ghost predicate Laid(b: bytes, length: nat, frames: seq<Frame>)
  {
    && frames != [] && WellSizedFrames(frames)
    && length == MSG_HDRLEN + |Stream(frames)| <= |b|
    && b[MSG_HDRLEN..length] == Stream(frames)
    && ZeroFrom(b, length)
  }

  lemma TailIsEnd(b: bytes, length: nat, frames: seq<Frame>)
    requires Laid(b, length, frames)
    ensures Align(length) == length
  {
    StreamAligned(frames);
    AlignedSum(MSG_HDRLEN, |Stream(frames)|);
    AlignedSum(length, 0);
  }

  lemma LaidLeaf(before: bytes, after: bytes, length: nat, frames: seq<Frame>, attrType: nat, data: bytes)
    requires Laid(before, length, frames) && length + TotalSize(|data|) <= |before|
    requires after == Overwritten(before, length, AttrBytes(attrType, data))
    ensures Laid(after, length + TotalSize(|data|), AddKid(frames, Leaf(attrType, data)))
  {
    StreamAddKid(frames, Leaf(attrType, data));
    AddKidWellSized(frames, Leaf(attrType, data));
    Appended(before, after, length, AttrBytes(attrType, data), frames, AddKid(frames, Leaf(attrType, data)));
  }

  ghost predicate ZeroFrom(b: bytes, at: nat)
  {
    forall i :: at <= i < |b| ==> b[i] == 0
  }

  /** Wherever the padding was cleared, the reserved bytes are the header and zeros. */
  lemma ReservedBytes(before: bytes, after: bytes, tail: nat, attrType: nat, payload: nat)
    requires tail + TotalSize(payload) <= |before| && ZeroFrom(before, tail)
    requires var len := AttrSize(payload) % 0x1_0000;
             var headed := Overwritten(before, tail, Header(len, attrType));
             after == if payload > 0 then Overwritten(headed, tail + len, Zeros(PadLen(payload))) else headed
    ensures after == Overwritten(before, tail, AttrBytes(attrType, Zeros(payload)))
  {
    var octets := AttrBytes(attrType, Zeros(payload));
    assert forall i :: HDRLEN <= i < |octets| ==> octets[i] == 0;
  }

  /** What Valid says of the bytes, after the stream grew. */
  lemma Appended(before: bytes, after: bytes, tail: nat, octets: bytes, frames: seq<Frame>, more: seq<Frame>)
    requires MSG_HDRLEN <= tail && tail + |octets| <= |before| && ZeroFrom(before, tail)
    requires tail == MSG_HDRLEN + |Stream(frames)| && before[MSG_HDRLEN..tail] == Stream(frames)
    requires after == Overwritten(before, tail, octets) && Stream(more) == Stream(frames) + octets
    ensures after[MSG_HDRLEN..tail + |octets|] == Stream(more) && ZeroFrom(after, tail + |octets|)
  {
  }
}
