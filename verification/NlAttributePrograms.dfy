/** Whole programs of put, nest and cancel, and the trees they stand for (libnl/lib/attr.c). */
module NlAttributePrograms {
  import opened Wrappers
  import opened NlAttributes
  import opened NlAttributeTrees
  import opened NlAttributeBuilder

  datatype Ending = Close | CloseKeepEmpty | Cancel

  /** A well-bracketed program: attributes, and containers with a program in them. */
  datatype Prog =
    | Attr(attrType: nat, data: bytes)
    | Container(attrType: nat, body: seq<Prog>, ending: Ending)

  function EndOp(ending: Ending): Op
  {
    match ending
    case Close => NestEnd(false)
    case CloseKeepEmpty => NestEnd(true)
    case Cancel => NestCancel
  }

  /** The calls a program makes. */
  function Ops(ps: seq<Prog>): seq<Op>
  {
    if ps == [] then [] else OneOps(ps[0]) + Ops(ps[1..])
  }

  function OneOps(p: Prog): seq<Op>
  {
    match p
    case Attr(attrType, data) => [Put(attrType, data)]
    case Container(attrType, body, ending) => [NestStart(attrType)] + Ops(body) + [EndOp(ending)]
  }

  /** The trees a program stands for. */
  function Trees(ps: seq<Prog>): seq<Tree>
  {
    if ps == [] then [] else OneTree(ps[0]) + Trees(ps[1..])
  }

  function OneTree(p: Prog): seq<Tree>
  {
    match p
    case Attr(attrType, data) => [Leaf(attrType, data)]
    case Container(attrType, body, ending) => Closed(attrType, Trees(body), ending)
  }

  /** A container comes to nothing when it is cancelled, empty and not to be kept, or too long. */
  function Closed(attrType: nat, kids: seq<Tree>, ending: Ending): seq<Tree>
  {
    if ending == Cancel || (ending == Close && kids == []) || HDRLEN + |KidsBytes(kids)| > U16_MAX then []
    else [Nest(attrType, kids)]
  }

  /** How much of the buffer a program may use on its way. */
  function Room(ps: seq<Prog>): nat
  {
    if ps == [] then 0 else OneRoom(ps[0]) + Room(ps[1..])
  }

  function OneRoom(p: Prog): nat
  {
    match p
    case Attr(_, data) => TotalSize(|data|)
    case Container(_, body, _) => HDRLEN + Room(body)
  }

  // ---------- running calls ----------

  predicate Allowed(frames: seq<Frame>, op: Op)
  {
    frames != [] && (op.NestEnd? || op.NestCancel? ==> |frames| > 1)
  }

  predicate AllAllowed(frames: seq<Frame>, size: nat, ops: seq<Op>)
    decreases |ops|
  {
    ops != [] ==> Allowed(frames, ops[0]) && AllAllowed(Step(frames, size, ops[0]).0, size, ops[1..])
  }

  function Run(frames: seq<Frame>, size: nat, ops: seq<Op>): seq<Frame>
    requires AllAllowed(frames, size, ops)
    decreases |ops|
  {
    if ops == [] then frames else Run(Step(frames, size, ops[0]).0, size, ops[1..])
  }

  lemma HeadTail(a: seq<Op>, b: seq<Op>)
    requires a != []
    ensures (a + b)[0] == a[0] && (a + b)[1..] == a[1..] + b
  {
  }

  lemma {:induction false} RunBoth(frames: seq<Frame>, size: nat, a: seq<Op>, b: seq<Op>)
    requires AllAllowed(frames, size, a) && AllAllowed(Run(frames, size, a), size, b)
    ensures AllAllowed(frames, size, a + b) && Run(frames, size, a + b) == Run(Run(frames, size, a), size, b)
    decreases |a|
  {
    if a == [] {
      assert a + b == b;
    } else {
      HeadTail(a, b);
      RunBoth(Step(frames, size, a[0]).0, size, a[1..], b);
    }
  }

  lemma RunOne(frames: seq<Frame>, size: nat, op: Op)
    requires Allowed(frames, op)
    ensures AllAllowed(frames, size, [op]) && Run(frames, size, [op]) == Step(frames, size, op).0
  {
    assert AllAllowed(Step(frames, size, op).0, size, [op][1..]);
  }

  // ---------- what a program leaves ----------

  function AddKids(frames: seq<Frame>, ts: seq<Tree>): seq<Frame>
    requires frames != []
  {
    var top := frames[|frames| - 1];
    frames[..|frames| - 1] + [top.(kids := top.kids + ts)]
  }

  lemma AddKidsTwice(frames: seq<Frame>, a: seq<Tree>, b: seq<Tree>)
    requires frames != []
    ensures AddKids(AddKids(frames, a), b) == AddKids(frames, a + b)
  {
    Regroup(frames[|frames| - 1].kids, a, b);
  }

  lemma {:induction false} StreamAddKids(frames: seq<Frame>, ts: seq<Tree>)
    requires frames != []
    ensures |Stream(AddKids(frames, ts))| == |Stream(frames)| + |KidsBytes(ts)|
    decreases |ts|
  {
    if ts == [] {
      assert frames[|frames| - 1].kids + [] == frames[|frames| - 1].kids;
      assert AddKids(frames, []) == frames;
    } else {
      AddKidsTwice(frames, [ts[0]], ts[1..]);
      assert [ts[0]] + ts[1..] == ts;
      assert AddKids(frames, [ts[0]]) == AddKid(frames, ts[0]);
      StreamAddKid(frames, ts[0]);
      StreamAddKids(AddKid(frames, ts[0]), ts[1..]);
    }
  }

  lemma {:induction false} TreesFit(ps: seq<Prog>)
    ensures |KidsBytes(Trees(ps))| <= Room(ps)
  {
    if ps != [] {
      OneTreeFits(ps[0]);
      TreesFit(ps[1..]);
      KidsConcat(OneTree(ps[0]), Trees(ps[1..]));
    }
  }

  lemma {:induction false} OneTreeFits(p: Prog)
    ensures |KidsBytes(OneTree(p))| <= OneRoom(p)
  {
    if p.Container? {
      TreesFit(p.body);
    }
    if OneTree(p) != [] {
      assert OneTree(p) == [OneTree(p)[0]];
      KidsSnoc([], OneTree(p)[0]);
    }
  }

  /** A program that has room adds to the innermost container the trees it stands for, and leaves
      everything else as it was. */
  lemma {:induction false} RunProgram(frames: seq<Frame>, size: nat, ps: seq<Prog>)
    requires frames != [] && MSG_HDRLEN + |Stream(frames)| + Room(ps) <= size
    ensures AllAllowed(frames, size, Ops(ps)) && Run(frames, size, Ops(ps)) == AddKids(frames, Trees(ps))
    decreases ps
  {
    if ps == [] {
      assert frames[|frames| - 1].kids + [] == frames[|frames| - 1].kids;
      assert AddKids(frames, []) == frames;
    } else {
      var next := AddKids(frames, OneTree(ps[0]));
      RunOneProgram(frames, size, ps[0]);
      StreamAddKids(frames, OneTree(ps[0]));
      OneTreeFits(ps[0]);
      RunProgram(next, size, ps[1..]);
      RunBoth(frames, size, OneOps(ps[0]), Ops(ps[1..]));
      AddKidsTwice(frames, OneTree(ps[0]), Trees(ps[1..]));
    }
  }

  lemma {:induction false} RunOneProgram(frames: seq<Frame>, size: nat, p: Prog)
    requires frames != [] && MSG_HDRLEN + |Stream(frames)| + OneRoom(p) <= size
    ensures AllAllowed(frames, size, OneOps(p)) && Run(frames, size, OneOps(p)) == AddKids(frames, OneTree(p))
    decreases p
  {
    match p {
      case Attr(attrType, data) =>
        RunOne(frames, size, Put(attrType, data));
      case Container(attrType, body, ending) =>
        var inside, kids := frames + [Frame(attrType, [])], Trees(body);
        StreamOpen(frames, attrType);
        RunProgram(inside, size, body);
        FillTop(frames, attrType, kids);
        RunContainer(frames, size, attrType, Ops(body), kids, ending);
        Ended(frames, size, attrType, kids, ending);
    }
  }

  lemma FillTop(frames: seq<Frame>, attrType: nat, kids: seq<Tree>)
    ensures AddKids(frames + [Frame(attrType, [])], kids) == frames + [Frame(attrType, kids)]
  {
    assert [] + kids == kids;
  }

  lemma RunContainer(frames: seq<Frame>, size: nat, attrType: nat, body: seq<Op>, kids: seq<Tree>, ending: Ending)
    requires frames != [] && Step(frames, size, NestStart(attrType)).0 == frames + [Frame(attrType, [])]
    requires AllAllowed(frames + [Frame(attrType, [])], size, body)
    requires Run(frames + [Frame(attrType, [])], size, body) == frames + [Frame(attrType, kids)]
    ensures var ops := [NestStart(attrType)] + body + [EndOp(ending)];
            && AllAllowed(frames, size, ops)
            && Run(frames, size, ops) == Step(frames + [Frame(attrType, kids)], size, EndOp(ending)).0
  {
    RunOne(frames, size, NestStart(attrType));
    RunBoth(frames, size, [NestStart(attrType)], body);
    RunOne(frames + [Frame(attrType, kids)], size, EndOp(ending));
    RunBoth(frames, size, [NestStart(attrType)] + body, [EndOp(ending)]);
  }

  lemma Ended(frames: seq<Frame>, size: nat, attrType: nat, kids: seq<Tree>, ending: Ending)
    requires frames != []
    ensures Step(frames + [Frame(attrType, kids)], size, EndOp(ending)).0 == AddKids(frames, Closed(attrType, kids, ending))
  {
    var filled := frames + [Frame(attrType, kids)];
    assert filled[..|filled| - 1] == frames && filled[|filled| - 1] == Frame(attrType, kids);
    assert frames[|frames| - 1].kids + [] == frames[|frames| - 1].kids;
    assert AddKids(frames, []) == frames;
    EmptyBytes(kids);
  }

  lemma EmptyBytes(kids: seq<Tree>)
    ensures KidsBytes(kids) == [] <==> kids == []
  {
    if kids != [] {
      TreeAligned(kids[0]);
    }
  }

  // ---------- main results ----------

  ghost predicate PlainFrames(frames: seq<Frame>)
  {
    forall k :: 0 <= k < |frames| ==> frames[k].attrType < 0x4000 && AllPlain(frames[k].kids)
  }

  ghost predicate AllPlain(kids: seq<Tree>)
  {
    forall i :: 0 <= i < |kids| ==> PlainTypes(kids[i])
  }

  /** The types given to put and nest are plain attribute types. */
  predicate PlainOp(op: Op)
  {
    (op.Put? ==> op.attrType < 0x4000) && (op.NestStart? ==> op.attrType < 0x4000)
  }

  lemma AddKidPlain(frames: seq<Frame>, t: Tree)
    requires frames != [] && PlainFrames(frames) && PlainTypes(t)
    ensures PlainFrames(AddKid(frames, t))
  {
    assert AllPlain(frames[|frames| - 1].kids);
  }

  lemma StepSound(frames: seq<Frame>, size: nat, op: Op)
    requires Allowed(frames, op) && WellSizedFrames(frames) && PlainFrames(frames) && PlainOp(op)
    ensures var after := Step(frames, size, op).0; after != [] && WellSizedFrames(after) && PlainFrames(after)
  {
    match op {
      case Put(attrType, data) =>
        AddKidWellSized(frames, Leaf(attrType, data));
        AddKidPlain(frames, Leaf(attrType, data));
      case NestStart(_) =>
      case NestEnd(_) =>
        var outer, top := frames[..|frames| - 1], frames[|frames| - 1];
        if HDRLEN + |KidsBytes(top.kids)| <= U16_MAX {
          assert AllWellSized(top.kids) && AllPlain(top.kids);
          AddKidWellSized(outer, Nest(top.attrType, top.kids));
          AddKidPlain(outer, Nest(top.attrType, top.kids));
        }
      case NestCancel =>
    }
  }

  lemma {:induction false} RunSound(frames: seq<Frame>, size: nat, ops: seq<Op>)
    requires frames != [] && AllAllowed(frames, size, ops) && forall i :: 0 <= i < |ops| ==> PlainOp(ops[i])
    requires WellSizedFrames(frames) && PlainFrames(frames)
    ensures var after := Run(frames, size, ops); after != [] && WellSizedFrames(after) && PlainFrames(after)
    decreases |ops|
  {
    if ops != [] {
      StepSound(frames, size, ops[0]);
      RunSound(Step(frames, size, ops[0]).0, size, ops[1..]);
    }
  }

  const EMPTY_MESSAGE: seq<Frame> := [Frame(0, [])]

  /** Whatever is called on a new message, refused calls included: once all containers are closed,
      walking the stream gives the tree that was built, exactly when no top-level payload is too
      long for its length field. */
  lemma AnyRunRoundTrip(size: nat, ops: seq<Op>)
    requires AllAllowed(EMPTY_MESSAGE, size, ops) && forall i :: 0 <= i < |ops| ==> PlainOp(ops[i])
    requires |Run(EMPTY_MESSAGE, size, ops)| == 1
    ensures var after := Run(EMPTY_MESSAGE, size, ops);
            Walk(Stream(after)) == after[0].kids <==> forall i :: 0 <= i < |after[0].kids| ==> Short(after[0].kids[i])
  {
    assert AllWellSized(EMPTY_MESSAGE[0].kids) && AllPlain(EMPTY_MESSAGE[0].kids);
    RunSound(EMPTY_MESSAGE, size, ops);
    var after := Run(EMPTY_MESSAGE, size, ops);
    assert AllWellSized(after[0].kids) && AllPlain(after[0].kids);
    StreamRoundTrip(after[0].kids);
  }

  predicate PlainProgram(ps: seq<Prog>)
  {
    forall i :: 0 <= i < |Ops(ps)| ==> PlainOp(Ops(ps)[i])
  }

  /** A well-bracketed program with room for it leaves a stream that walks back to the trees it
      stands for: empty containers dropped or kept as asked, over-long and cancelled ones gone. */
  lemma ProgramRoundTrip(size: nat, ps: seq<Prog>)
    requires MSG_HDRLEN + Room(ps) <= size && PlainProgram(ps)
    ensures AllAllowed(EMPTY_MESSAGE, size, Ops(ps))
    ensures Run(EMPTY_MESSAGE, size, Ops(ps)) == [Frame(0, Trees(ps))]
    ensures Walk(KidsBytes(Trees(ps))) == Trees(ps) <==> forall i :: 0 <= i < |Trees(ps)| ==> Short(Trees(ps)[i])
  {
    RunProgram(EMPTY_MESSAGE, size, ps);
    assert [] + Trees(ps) == Trees(ps);
    assert AddKids(EMPTY_MESSAGE, Trees(ps)) == [Frame(0, Trees(ps))];
    AnyRunRoundTrip(size, Ops(ps));
  }

  // ---------- cancelling ----------

  /** The calls never close a container among the first `depth` frames. */
  predicate StaysAbove(frames: seq<Frame>, size: nat, ops: seq<Op>, depth: nat)
    decreases |ops|
  {
    && |frames| > depth
    && (ops != [] ==> Allowed(frames, ops[0]) && StaysAbove(Step(frames, size, ops[0]).0, size, ops[1..], depth))
  }

  lemma {:induction false} OuterKept(frames: seq<Frame>, size: nat, ops: seq<Op>, base: seq<Frame>)
    requires StaysAbove(frames, size, ops, |base|) && base <= frames
    ensures AllAllowed(frames, size, ops) && base <= Run(frames, size, ops)
    decreases |ops|
  {
    if ops != [] {
      var after := Step(frames, size, ops[0]).0;
      assert after[..|base|] == frames[..|base|];
      OuterKept(after, size, ops[1..], base);
    }
  }

  /** Cancelling a container takes back everything since it was opened. */
  lemma CancelRestores(base: seq<Frame>, size: nat, attrType: nat, inner: seq<Op>)
    requires base != [] && Step(base, size, NestStart(attrType)).1 == Success
    requires StaysAbove(base + [Frame(attrType, [])], size, inner, |base|)
    ensures AllAllowed(base + [Frame(attrType, [])], size, inner)
    ensures var after := Run(base + [Frame(attrType, [])], size, inner);
            |after| == |base| + 1 ==> Step(after, size, NestCancel) == (base, Success)
  {
    OuterKept(base + [Frame(attrType, [])], size, inner, base);
    CancelTop(Run(base + [Frame(attrType, [])], size, inner), size, base);
  }

  lemma CancelTop(frames: seq<Frame>, size: nat, base: seq<Frame>)
    requires base != [] && base <= frames
    ensures |frames| == |base| + 1 ==> Step(frames, size, NestCancel) == (base, Success)
  {
    assert |frames| == |base| + 1 ==> frames[..|frames| - 1] == base;
  }

  /** With the same containers open and the same things in them, a message has the same bytes. */
  lemma SameBytes(a: bytes, b: bytes, m: nat, n: nat, frames: seq<Frame>)
    requires Laid(a, m, frames) && Laid(b, n, frames) && |a| == |b|
    ensures m == n && a[MSG_HDRLEN..] == b[MSG_HDRLEN..]
  {
    assert a[MSG_HDRLEN..] == a[MSG_HDRLEN..m] + a[m..];
    assert b[MSG_HDRLEN..] == b[MSG_HDRLEN..n] + b[n..];
    assert a[m..] == b[n..];
  }

  // ---------- running a program on a message ----------

  /** Where each open container begins. */
  ghost predicate StartsOf(starts: seq<nat>, frames: seq<Frame>)
  {
    && |frames| == |starts| + 1
    && forall k :: 0 <= k < |starts| ==> starts[k] == TopStart(frames[..k + 2])
  }

  /** Makes the calls, remembering where each open container begins. */
  method Execute(message: Message, ops: seq<Op>)
    requires message.Valid() && |message.frames| == 1 && AllAllowed(message.frames, message.buffer.Length, ops)
    modifies message, message.buffer
    ensures message.Valid() && message.frames == old(Run(message.frames, message.buffer.Length, ops))
  {
    var starts: seq<nat> := [];
    ghost var size, first := message.buffer.Length, message.frames;
    assert ops[0..] == ops;
    for i := 0 to |ops|
      invariant message.Valid() && StartsOf(starts, message.frames)
      invariant AllAllowed(message.frames, size, ops[i..])
      invariant Run(message.frames, size, ops[i..]) == Run(first, size, ops)
    {
      assert ops[i..][0] == ops[i] && ops[i..][1..] == ops[i + 1..];
      starts := Call(message, ops[i], starts);
    }
  }

  method Call(message: Message, op: Op, starts: seq<nat>) returns (now: seq<nat>)
    requires message.Valid() && StartsOf(starts, message.frames) && Allowed(message.frames, op)
    modifies message, message.buffer
    ensures message.Valid() && StartsOf(now, message.frames)
    ensures message.frames == old(Step(message.frames, message.buffer.Length, op).0)
  {
    ghost var frames := message.frames;
    match op {
      case Put(attrType, data) =>
        var _ := message.Put(attrType, data);
        now := starts;
        SameStarts(starts, frames, message.frames);
      case NestStart(attrType) =>
        var start := message.NestStart(attrType);
        now := if start.Some? then starts + [start.value] else starts;
        if start.Some? {
          MoreStarts(starts, frames, Frame(attrType, []));
        }
      case NestEnd(keepEmpty) =>
        var n := |starts| - 1;
        LastStart(starts, frames);
        var _ := message.NestEnd(starts[n], keepEmpty);
        now := starts[..n];
        FewerStarts(starts, frames, message.frames);
      case NestCancel =>
        var n := |starts| - 1;
        LastStart(starts, frames);
        assert frames[..n + 2] == frames;
        message.NestCancel(starts[n], n + 1);
        now := starts[..n];
        FewerStarts(starts, frames, message.frames);
    }
  }

  lemma LastStart(starts: seq<nat>, frames: seq<Frame>)
    requires StartsOf(starts, frames) && |frames| > 1
    ensures starts[|starts| - 1] == TopStart(frames)
  {
    assert frames[..|starts| - 1 + 2] == frames;
  }

  lemma SameStarts(starts: seq<nat>, frames: seq<Frame>, after: seq<Frame>)
    requires StartsOf(starts, frames) && |after| == |frames| && after[..|frames| - 1] == frames[..|frames| - 1]
    ensures StartsOf(starts, after)
  {
    forall k | 0 <= k < |starts|
      ensures starts[k] == TopStart(after[..k + 2])
    {
      StartIgnoresTop(frames[..k + 2], after[..k + 2]);
      assert frames[..k + 2][..k + 1] == frames[..|frames| - 1][..k + 1];
      assert after[..k + 2][..k + 1] == after[..|frames| - 1][..k + 1];
    }
  }

  lemma StartIgnoresTop(a: seq<Frame>, b: seq<Frame>)
    requires |a| == |b| > 0
    ensures a[..|a| - 1] == b[..|b| - 1] ==> TopStart(a) == TopStart(b)
  {
  }

  lemma MoreStarts(starts: seq<nat>, frames: seq<Frame>, top: Frame)
    requires StartsOf(starts, frames)
    ensures StartsOf(starts + [TopStart(frames + [top])], frames + [top])
  {
    var more := frames + [top];
    assert more[..|more|] == more;
    forall k | 0 <= k < |starts|
      ensures starts[k] == TopStart(more[..k + 2])
    {
      assert more[..k + 2] == frames[..k + 2];
    }
  }

  lemma FewerStarts(starts: seq<nat>, frames: seq<Frame>, after: seq<Frame>)
    requires StartsOf(starts, frames) && |frames| > 1 && |after| == |frames| - 1
    requires after[..|after| - 1] == frames[..|after| - 1]
    ensures StartsOf(starts[..|starts| - 1], after)
  {
    forall k | 0 <= k < |starts| - 1
      ensures starts[k] == TopStart(after[..k + 2])
    {
      StartIgnoresTop(frames[..k + 2], after[..k + 2]);
      assert frames[..k + 2][..k + 1] == frames[..|after| - 1][..k + 1];
      assert after[..k + 2][..k + 1] == after[..|after| - 1][..k + 1];
    }
  }
}
