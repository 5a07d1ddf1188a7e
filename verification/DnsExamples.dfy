/** Names that do not survive the round trip, each with the octets that show it
    (dnslib/buffer.cpp). */
module DnsExamples {
  import opened Wrappers
  import opened DnsWire

  lemma OneLabel(w: bytes, value: bytes, octets: bytes, root: bool)
    requires |value| <= 2 && value != [] && LabelsFrom(value, 0) == [octets] && root == !EndsInDot(value)
    requires |octets| == 1 && OccursAt(w, Needle([octets], root), 0) && |Needle([octets], root)| < |w|
    ensures NameBytes(w, value, true) == Ok(PointerBytes(0))
  {
    assert Tip(w, Needle([octets], root)) == Some(0);
  }

  /** A name with a final dot: the search leaves out the root octet, finds a longer name that merely
      begins like it, and the name reads back longer than it was. */
  lemma FinalDotBreaks()
    ensures var w: bytes := [1, 97, 1, 98, 0];
            && NameBytes(w, [97, DOT], true) == Ok([192, 0])
            && ReadName(w + [192, 0, 0], 5, [], true).name == Ok([97, DOT, 98])
  {
    var w: bytes := [1, 97, 1, 98, 0];
    var value: bytes := [97, DOT];
    assert DotFrom(value, 0) == DotFrom(value, 1) == 1;
    assert value[0..1] == [97];
    assert Needle([[97]], false) == [1, 97];
    OneLabel(w, value, [97], false);
    var b := w + [192, 0, 0];
    assert b[5..7] == PointerBytes(0);
    SegmentOfTwo(b);
    assert ReadSegment(b, 5, true) == Segment([], Pointer(0, 7));
    assert [] + [5] == [5];
    assert Join([]) == [];
    TwoLabelText(b);
  }

  lemma SegmentOfTwo(b: bytes)
    requires |b| >= 5 && b[..5] == [1, 97, 1, 98, 0]
    ensures ReadSegment(b, 0, true) == Segment([[97], [98]], Root(5))
  {
    assert b[0] == b[..5][0] && b[1] == b[..5][1] && b[2] == b[..5][2] && b[3] == b[..5][3] && b[4] == b[..5][4];
    assert ReadSegment(b, 4, true) == Segment([], Root(5));
    assert b[3..4] == [98] && b[1..2] == [97];
    assert ReadItem(b, 2, true) == Label([98], 4);
    PrependEnd([[98]], Root(5));
    assert ReadSegment(b, 2, true) == Segment([[98]], Root(5));
    assert ReadItem(b, 0, true) == Label([97], 2);
    assert [[97]] + [[98]] == [[97], [98]];
  }

  lemma TwoLabelText(b: bytes)
    requires |b| >= 5 && ReadSegment(b, 0, true) == Segment([[97], [98]], Root(5))
    ensures ReadName(b, 0, [5], true) == Reading(Ok([97, DOT, 98]), 5, [5])
  {
    var labels: seq<bytes> := [[97], [98]];
    assert labels[..1] == [[97]] && [[97]][..0] == [];
    assert Join([]) == [];
    assert Join([[97]]) == Extend([], [97]) == [97];
    assert Join(labels) == Extend([97], [98]) == [97, DOT, 98];
  }

  /** A name whose pointer is the last thing in the buffer: the reader follows the pointer, and then
      cannot come back to where the pointer ended. */
  lemma PointerLastRefused()
    ensures var w: bytes := [1, 97, 0, 0];
            && NameBytes(w, [97], true) == Ok([192, 0])
            && ReadName(w + [192, 0], 4, [], true).name == Err(PositionBehindBuffer)
  {
    var w: bytes := [1, 97, 0, 0];
    var value: bytes := [97];
    assert DotFrom(value, 0) == DotFrom(value, 1) == 1;
    assert value[0..1] == [97];
    assert Needle([[97]], true) == [1, 97, 0];
    OneLabel(w, value, [97], true);
    var b := w + [192, 0];
    assert ReadSegment(b, 4, true) == Segment([], Pointer(0, 6));
    assert ReadSegment(b, 2, true) == Segment([], Root(3));
    assert b[1..2] == [97];
    assert ReadItem(b, 0, true) == Label([97], 2);
    PrependEnd([[97]], Root(3));
    assert ReadSegment(b, 0, true) == Segment([[97]], Root(3));
    assert [] + [4] == [4];
    assert [[97]][..0] == [] && Join([]) == [];
    assert Join([[97]]) == Extend([], [97]) == [97];
    assert ReadName(b, 0, [4], true).name == Ok([97]);
  }
}
