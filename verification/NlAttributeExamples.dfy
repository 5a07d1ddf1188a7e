/** Attributes byte by byte, and when there is room for one (libnl/lib/attr.c). */
module NlAttributeExamples {
  import opened Wrappers
  import opened Buffers
  import opened NlAttributes
  import opened NlAttributeBuilder

  /** An attribute of type 1 with one byte: length 5 and type, the low bytes first, the byte, and three zeros. */
  lemma OneByte()
    ensures AttrBytes(1, [7]) == [5, 0, 1, 0, 7, 0, 0, 0] && TotalSize(1) == 8
  {
    assert Zeros(3) == [0, 0, 0];
    ShortReservedHeader(1, 1);
  }

  /** One of type 0x1234 with four bytes: no padding. */
  lemma FourBytes()
    ensures AttrBytes(0x1234, [1, 2, 3, 4]) == [8, 0, 0x34, 0x12, 1, 2, 3, 4]
  {
    ShortReservedHeader(0x1234, 4);
  }

  /** The header of a container of type 2 with eight bytes in it: length 12, and the flag for containers. */
  lemma ContainerHeader()
    ensures Header(HDRLEN + 8, Flagged(2)) == [12, 0, 2, 0x80]
  {
  }

  lemma OneKid(t: Tree)
    ensures KidsBytes([t]) == TreeBytes(t)
  {
    assert [t][1..] == [];
    assert TreeBytes(t) + [] == TreeBytes(t);
  }

  /** The container of type 2 with the first of them in it. */
  lemma OneInContainer()
    ensures TreeBytes(Nest(2, [Leaf(1, [7])])) == [12, 0, 2, 0x80] + [5, 0, 1, 0, 7, 0, 0, 0]
  {
    OneByte();
    OneKid(Leaf(1, [7]));
    ContainerHeader();
  }

  /** The flag for containers is bit 15, and the other bits stay. */
  lemma FlaggedExactly(attrType: nat)
    requires attrType < 0x1_0000
    ensures Flagged(attrType) == if attrType >= 0x8000 then attrType else attrType + 0x8000
  {
  }

  /** nla_put fails for lack of room exactly when the message, which has a header of sixteen bytes, and the
      attribute with its own of four, padded to a multiple of four, are longer than the buffer. */
  lemma RoomExactly(frames: seq<Frame>, size: nat, attrType: nat, data: bytes)
    requires frames != []
    ensures Step(frames, size, Op.Put(attrType, data)).1 == NoMem <==>
            16 + |Stream(frames)| + (4 + |data| + 3) / 4 * 4 > size
    ensures Step(frames, size, Op.Put(attrType, data)).1 == NoMem ==> Step(frames, size, Op.Put(attrType, data)).0 == frames
    ensures Step(frames, size, Op.NestStart(attrType)).1 == NoMem <==> 16 + |Stream(frames)| + 4 > size
  {
  }

  /** nla_nest_end fails exactly when the container, its header of four bytes included, is longer than 65535
      bytes. It takes the container away then, and also one that is empty, unless it is to be kept. */
  lemma ClosingExactly(frames: seq<Frame>, size: nat, keepEmpty: bool)
    requires |frames| > 1
    ensures var top, outer := frames[|frames| - 1], frames[..|frames| - 1];
            var length := 4 + |KidsBytes(top.kids)|;
            var (after, code) := Step(frames, size, Op.NestEnd(keepEmpty));
            && code == (if length > 65535 then SizeExceeded else Success)
            && (length > 65535 || (length == 4 && !keepEmpty) ==> after == outer)
            && (length <= 65535 && (length > 4 || keepEmpty) ==> after == AddKid(outer, Nest(top.attrType, top.kids)))
  {
  }
}
