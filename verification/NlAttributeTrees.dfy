/** Walking a stream of attributes gives back the tree it was built from (libnl/lib/attr.c). */
module NlAttributeTrees {
  import opened Wrappers
  import opened Buffers
  import opened NlAttributes

  lemma AlignedSum(x: nat, y: nat)
    requires x % 4 == 0 && y % 4 == 0
    ensures (x + y) % 4 == 0 && Align(x) == x
  {
  }

  lemma TreeAligned(t: Tree)
    ensures |TreeBytes(t)| % 4 == 0 && |TreeBytes(t)| >= HDRLEN
  {
    if t.Nest? {
      KidsAligned(t.kids);
      AlignedSum(HDRLEN, |KidsBytes(t.kids)|);
    } else {
      assert |TreeBytes(t)| == TotalSize(|t.data|);
    }
  }

  lemma {:induction false} KidsAligned(kids: seq<Tree>)
    ensures |KidsBytes(kids)| % 4 == 0
  {
    if kids != [] {
      TreeAligned(kids[0]);
      KidsAligned(kids[1..]);
      AlignedSum(|TreeBytes(kids[0])|, |KidsBytes(kids[1..])|);
    }
  }

  lemma {:induction false} KidsConcat(a: seq<Tree>, b: seq<Tree>)
    ensures KidsBytes(a + b) == KidsBytes(a) + KidsBytes(b)
    decreases |a|
  {
    if a == [] {
      assert a + b == b;
    } else {
      assert (a + b)[0] == a[0] && (a + b)[1..] == a[1..] + b;
      KidsConcat(a[1..], b);
      Regroup(TreeBytes(a[0]), KidsBytes(a[1..]), KidsBytes(b));
    }
  }

  lemma KidsSnoc(kids: seq<Tree>, t: Tree)
    ensures KidsBytes(kids + [t]) == KidsBytes(kids) + TreeBytes(t)
  {
    KidsConcat(kids, [t]);
    assert KidsBytes([t]) == TreeBytes(t) + [] == TreeBytes(t);
  }

  /** Payloads that fit a container are short. */
  lemma {:induction false} KidsShort(kids: seq<Tree>)
    requires |KidsBytes(kids)| <= MAX_PAYLOAD
    ensures forall i :: 0 <= i < |kids| ==> Short(kids[i])
    decreases |kids|
  {
    if kids != [] {
      KidsShort(kids[1..]);
      assert forall i :: 1 <= i < |kids| ==> kids[i] == kids[1..][i - 1];
      assert |TreeBytes(kids[0])| <= MAX_PAYLOAD;
    }
  }

  // ---------- one attribute ----------

  lemma AttributeAt(b: bytes, len: nat, attrType: nat, payload: bytes, pad: nat, rest: bytes)
    requires len == HDRLEN + |payload| <= U16_MAX && attrType <= U16_MAX && pad == Align(len) - len
    requires b == Header(len, attrType) + payload + Zeros(pad) + rest
    ensures Ok4(b) && LenAt(b) == len && TypeAt(b) == attrType && Payload(b) == payload && Next(b) == rest
  {
    NumberRoundTrip(len);
    NumberRoundTrip(attrType);
    var h := Header(len, attrType);
    assert b[..HDRLEN] == h;
    assert b[0] == h[0] && b[1] == h[1] && b[2] == h[2] && b[3] == h[3];
    assert |h + payload + Zeros(pad)| == Align(len);
  }

  lemma LeafAt(t: Tree, rest: bytes)
    requires t.Leaf? && Short(t) && t.attrType < 0x4000
    ensures var b := TreeBytes(t) + rest; Ok4(b) && Item(b) == t && Next(b) == rest && Align(LenAt(b)) == |TreeBytes(t)|
  {
    var len := HDRLEN + |t.data|;
    LeafBytes(t, len, Align(len) - len);
    AttributeAt(TreeBytes(t) + rest, len, t.attrType, t.data, Align(len) - len, rest);
    LeafItem(TreeBytes(t) + rest, t);
  }

  lemma LeafBytes(t: Tree, len: nat, pad: nat)
    requires t.Leaf? && Short(t) && len == HDRLEN + |t.data| && pad == Align(len) - len
    ensures TreeBytes(t) == Header(len, t.attrType) + t.data + Zeros(pad) && |TreeBytes(t)| == Align(len)
  {
    ShortReservedHeader(t.attrType, |t.data|);
  }

  lemma LeafItem(b: bytes, t: Tree)
    requires t.Leaf? && t.attrType < 0x4000 && Ok4(b) && TypeAt(b) == t.attrType && Payload(b) == t.data
    ensures Item(b) == t
  {
  }

  lemma ItemOf(b: bytes, attrType: nat, payload: bytes, t: Tree)
    requires Ok4(b) && TypeAt(b) == attrType && Payload(b) == payload
    requires t.Nest? && attrType == Flagged(t.attrType) && t.attrType < 0x4000 && Walk(payload) == t.kids
    ensures Item(b) == t
  {
  }

  lemma NestAt(t: Tree, body: bytes, rest: bytes)
    requires t.Nest? && t.attrType < 0x4000 && body == KidsBytes(t.kids) && HDRLEN + |body| <= U16_MAX
    requires Walk(body) == t.kids
    ensures var b := TreeBytes(t) + rest; Ok4(b) && Item(b) == t && Next(b) == rest && Align(LenAt(b)) == |TreeBytes(t)|
  {
    KidsAligned(t.kids);
    var len := HDRLEN + |body|;
    AlignedSum(|body|, HDRLEN);
    AlignedSum(len, 0);
    assert TreeBytes(t) + Zeros(0) == TreeBytes(t);
    AttributeAt(TreeBytes(t) + rest, len, Flagged(t.attrType), body, 0, rest);
    ItemOf(TreeBytes(t) + rest, Flagged(t.attrType), body, t);
  }

  /** A tree that can be read back, at the head of a stream. */
  lemma HeadOfStream(t: Tree, rest: bytes)
    requires WellSized(t) && PlainTypes(t) && Short(t)
    ensures var b := TreeBytes(t) + rest; Ok4(b) && Item(b) == t && Next(b) == rest && Align(LenAt(b)) == |TreeBytes(t)|
  {
    if t.Leaf? {
      LeafAt(t, rest);
    } else {
      KidsShort(t.kids);
      KidsRoundTrip(t.kids);
      NestAt(t, KidsBytes(t.kids), rest);
    }
  }

  lemma {:induction false} TreeRoundTrip(t: Tree, rest: bytes)
    requires WellSized(t) && PlainTypes(t) && Short(t)
    ensures Walk(TreeBytes(t) + rest) == [t] + Walk(rest)
  {
    if t.Leaf? {
      LeafAt(t, rest);
    } else {
      KidsShort(t.kids);
      KidsRoundTrip(t.kids);
      NestAt(t, KidsBytes(t.kids), rest);
    }
  }

  lemma {:induction false} KidsRoundTrip(kids: seq<Tree>)
    requires forall i :: 0 <= i < |kids| ==> WellSized(kids[i]) && PlainTypes(kids[i]) && Short(kids[i])
    ensures Walk(KidsBytes(kids)) == kids
  {
    if kids != [] {
      TreeRoundTrip(kids[0], KidsBytes(kids[1..]));
      KidsRoundTrip(kids[1..]);
    }
  }

  /** An attribute too long for its length field is never read back. */
  lemma LongLeafLost(t: Tree, rest: bytes)
    requires t.Leaf? && !Short(t)
    ensures var items := Walk(TreeBytes(t) + rest); items == [] || items[0] != t
  {
    var b := TreeBytes(t) + rest;
    if Ok4(b) {
      assert |Payload(b)| <= MAX_PAYLOAD;
    }
  }

  /** A stream of closed attributes walks back to its trees exactly when every top-level payload
      fits the attribute length field; inside containers that is always so. */
  lemma {:induction false} StreamRoundTrip(kids: seq<Tree>)
    requires forall i :: 0 <= i < |kids| ==> WellSized(kids[i]) && PlainTypes(kids[i])
    ensures Walk(KidsBytes(kids)) == kids <==> forall i :: 0 <= i < |kids| ==> Short(kids[i])
    decreases |kids|
  {
    if kids != [] {
      var rest := KidsBytes(kids[1..]);
      StreamRoundTrip(kids[1..]);
      assert kids == [kids[0]] + kids[1..];
      if Short(kids[0]) {
        TreeRoundTrip(kids[0], rest);
        SameTail(kids[0], Walk(rest), kids[1..]);
      } else {
        LongLeafLost(kids[0], rest);
      }
    }
  }

  lemma SameTail(t: Tree, a: seq<Tree>, b: seq<Tree>)
    ensures [t] + a == [t] + b <==> a == b
  {
    if [t] + a == [t] + b {
      assert a == ([t] + a)[1..] == ([t] + b)[1..] == b;
    }
  }
}
