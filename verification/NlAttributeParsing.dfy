/** Parsing a stream of attributes into an index table, and finding attributes in it
    (libnl/lib/attr.c). */
module NlAttributeParsing {
  import opened Wrappers
  import opened NlAttributes
  import opened NlAttributeTrees

  // Policy types, from enum in netlink/attr.h.
  const NLA_U8 := 1
  const NLA_U16 := 2
  const NLA_U32 := 3
  const NLA_U64 := 4
  const NLA_STRING := 5
  const NLA_TYPE_MAX := 15

  datatype Policy = Policy(kind: nat, minLen: nat, maxLen: nat)

  datatype Error = Range | Invalid

  /** nla_attr_minlen. */
  function KindMinLen(kind: nat): nat
  {
    if kind == NLA_U8 || kind == NLA_STRING then 1
    else if kind == NLA_U16 then 2
    else if kind == NLA_U32 then 4
    else if kind == NLA_U64 then 8
    else 0
  }

  /** What a policy demands of a payload. */
  predicate Meets(payload: bytes, policy: Policy)
  {
    && |payload| >= (if policy.minLen > 0 then policy.minLen else KindMinLen(policy.kind))
    && (policy.maxLen > 0 ==> |payload| <= policy.maxLen)
    && (policy.kind == NLA_STRING ==> |payload| > 0 && payload[|payload| - 1] == 0)
  }

  /** Accepted are exactly the payloads of a length within the given limits, where no lower limit means
      the size of the number, or one octet for a string; a string ends in zero. */
  lemma PolicyExactly(payload: bytes, policy: Policy)
    ensures Meets(payload, policy) <==>
            && (if policy.minLen > 0 then |payload| >= policy.minLen
                else if policy.kind == 1 then |payload| >= 1
                else if policy.kind == 2 then |payload| >= 2
                else if policy.kind == 3 then |payload| >= 4
                else if policy.kind == 4 then |payload| >= 8
                else policy.kind == 5 ==> |payload| >= 1)
            && (policy.maxLen == 0 || |payload| <= policy.maxLen)
            && (policy.kind == 5 ==> payload != [] && payload[|payload| - 1] == 0)
  {
  }

  /** What every kind of attribute takes when the policy gives no lengths. */
  lemma KindExactly(payload: bytes, kind: nat)
    ensures Meets(payload, Policy(1, 0, 0)) <==> |payload| >= 1
    ensures Meets(payload, Policy(2, 0, 0)) <==> |payload| >= 2
    ensures Meets(payload, Policy(3, 0, 0)) <==> |payload| >= 4
    ensures Meets(payload, Policy(4, 0, 0)) <==> |payload| >= 8
    ensures Meets(payload, Policy(5, 0, 0)) <==> payload != [] && payload[|payload| - 1] == 0
    ensures kind == 0 || kind > 5 ==> Meets(payload, Policy(kind, 0, 0))
  {
  }

  /** validate_nla, for an attribute with a policy. */
  method ValidatePayload(payload: bytes, policy: Policy) returns (error: Option<Error>)
    requires policy.kind <= NLA_TYPE_MAX
    ensures error.None? <==> Meets(payload, policy)
    ensures policy == Policy(policy.kind, 0, 0) ==>
              match policy.kind
              case 1 => error.None? <==> |payload| >= 1
              case 2 => error.None? <==> |payload| >= 2
              case 3 => error.None? <==> |payload| >= 4
              case 4 => error.None? <==> |payload| >= 8
              case 5 => error.None? <==> payload != [] && payload[|payload| - 1] == 0
              case _ => error.None?
    ensures error == Some(Invalid) <==>
            && policy.kind == 5 && payload != [] && payload[|payload| - 1] != 0
            && |payload| >= policy.minLen && (policy.maxLen == 0 || |payload| <= policy.maxLen)
  {
    var minLen := 0;
    if policy.minLen > 0 {
      minLen := policy.minLen;
    } else if policy.kind != 0 {
      minLen := KindMinLen(policy.kind);
    }
    if |payload| < minLen {
      return Some(Range);
    }
    if policy.maxLen > 0 && |payload| > policy.maxLen {
      return Some(Range);
    }
    if policy.kind == NLA_STRING {
      if payload[|payload| - 1] != 0 {
        return Some(Invalid);
      }
    }
    return None;
  }

  // ---------- the attributes of a stream ----------

  predicate AttributeOk(b: bytes, p: nat)
  {
    p <= |b| && Ok4(b[p..])
  }

  function TypeOf(b: bytes, p: nat): nat
  {
    if AttributeOk(b, p) then TypeAt(b[p..]) % 0x4000 else 0
  }

  function PayloadOf(b: bytes, p: nat): bytes
  {
    if AttributeOk(b, p) then Payload(b[p..]) else []
  }

  function NextOf(b: bytes, p: nat): (q: nat)
    ensures AttributeOk(b, p) ==> q > p
  {
    if AttributeOk(b, p) then p + Align(LenAt(b[p..])) else p
  }

  /** Where the attributes begin. */
  function Offsets(b: bytes, p: nat): seq<nat>
    decreases if p <= |b| then |b| - p + 1 else 0
  {
    if AttributeOk(b, p) then [p] + Offsets(b, NextOf(b, p)) else []
  }

  function FirstOf(b: bytes, offsets: seq<nat>, attrType: nat): Option<nat>
  {
    if offsets == [] then None
    else if TypeOf(b, offsets[0]) == attrType then Some(offsets[0])
    else FirstOf(b, offsets[1..], attrType)
  }

  function LastOf(b: bytes, offsets: seq<nat>, attrType: nat): Option<nat>
  {
    if offsets == [] then None
    else if TypeOf(b, offsets[|offsets| - 1]) == attrType then Some(offsets[|offsets| - 1])
    else LastOf(b, offsets[..|offsets| - 1], attrType)
  }

  /** Whether parsing accepts an attribute: types beyond the table are not looked at. */
  predicate Accepted(b: bytes, p: nat, policies: Option<seq<Policy>>)
  {
    policies.Some? && TypeOf(b, p) < |policies.value| ==> Meets(PayloadOf(b, p), policies.value[TypeOf(b, p)])
  }

  /** How many attributes are accepted before the first that is not. */
  function AcceptedCount(b: bytes, offsets: seq<nat>, policies: Option<seq<Policy>>): (n: nat)
    ensures n <= |offsets|
  {
    if offsets == [] || !Accepted(b, offsets[0], policies) then 0
    else 1 + AcceptedCount(b, offsets[1..], policies)
  }

  lemma LastOfSnoc(b: bytes, offsets: seq<nat>, p: nat, attrType: nat)
    ensures LastOf(b, offsets + [p], attrType) ==
            if TypeOf(b, p) == attrType then Some(p) else LastOf(b, offsets, attrType)
  {
    assert (offsets + [p])[..|offsets|] == offsets;
  }

  lemma {:induction false} AcceptedPrefix(b: bytes, done: seq<nat>, rest: seq<nat>, policies: Option<seq<Policy>>)
    requires forall i :: 0 <= i < |done| ==> Accepted(b, done[i], policies)
    ensures AcceptedCount(b, done + rest, policies) == |done| + AcceptedCount(b, rest, policies)
    decreases |done|
  {
    if done == [] {
      assert done + rest == rest;
    } else {
      assert (done + rest)[1..] == done[1..] + rest;
      AcceptedPrefix(b, done[1..], rest, policies);
    }
  }

  ghost predicate KindsKnown(policies: Option<seq<Policy>>)
  {
    policies.Some? ==> forall i :: 0 <= i < |policies.value| ==> policies.value[i].kind <= NLA_TYPE_MAX
  }

  /** One turn of nla_parse. */
  method Store(tb: array<Option<nat>>, b: bytes, nla: nat, policies: Option<seq<Policy>>) returns (error: Option<Error>)
    requires (policies.Some? ==> |policies.value| == tb.Length) && KindsKnown(policies) && AttributeOk(b, nla)
    modifies tb
    ensures error.None? <==> Accepted(b, nla, policies)
    ensures forall t :: 0 <= t < tb.Length ==>
                          tb[t] == if error.None? && t == TypeOf(b, nla) then Some(nla) else old(tb[t])
  {
    var attrType := TypeAt(b[nla..]) % 0x4000;
    if attrType >= tb.Length {
      return None;
    }
    if policies.Some? {
      error := ValidatePayload(Payload(b[nla..]), policies.value[attrType]);
      if error.Some? {
        return;
      }
    }
    tb[attrType] := Some(nla);
    return None;
  }

  /** nla_parse: the table gets, for every type, the last attribute of that type, of those before the
      first that its policy refuses. */
  method Parse(tb: array<Option<nat>>, b: bytes, policies: Option<seq<Policy>>) returns (error: Option<Error>)
    requires (policies.Some? ==> |policies.value| == tb.Length) && KindsKnown(policies)
    modifies tb
    ensures var offsets := Offsets(b, 0);
            var n := AcceptedCount(b, offsets, policies);
            && (error.None? <==> n == |offsets|)
            && forall t :: 0 <= t < tb.Length ==> tb[t] == LastOf(b, offsets[..n], t)
  {
    forall t | 0 <= t < tb.Length {
      tb[t] := None;
    }
    ghost var offsets := Offsets(b, 0);
    ghost var done: seq<nat> := [];
    var nla: nat := 0;
    while AttributeOk(b, nla)
      invariant offsets == done + Offsets(b, nla)
      invariant forall i :: 0 <= i < |done| ==> Accepted(b, done[i], policies)
      invariant forall t :: 0 <= t < tb.Length ==> tb[t] == LastOf(b, done, t)
      decreases |b| - nla
    {
      error := Store(tb, b, nla, policies);
      if error.Some? {
        AcceptedPrefix(b, done, Offsets(b, nla), policies);
        assert offsets[..|done|] == done;
        return;
      }
      ParsedOne(b, nla, done, tb[..], TypeOf(b, nla));
      Regroup(done, [nla], Offsets(b, NextOf(b, nla)));
      done := done + [nla];
      nla := NextOf(b, nla);
    }
    assert offsets == done && offsets[..|offsets|] == done;
    AcceptedPrefix(b, done, [], policies);
    assert done + [] == done;
    return None;
  }

  lemma ParsedOne(b: bytes, nla: nat, done: seq<nat>, table: seq<Option<nat>>, attrType: nat)
    requires AttributeOk(b, nla) && attrType == TypeOf(b, nla)
    requires forall t :: 0 <= t < |table| ==> table[t] == if t == attrType then Some(nla) else LastOf(b, done, t)
    ensures forall t :: 0 <= t < |table| ==> table[t] == LastOf(b, done + [nla], t)
  {
    forall t | 0 <= t < |table|
      ensures table[t] == LastOf(b, done + [nla], t)
    {
      LastOfSnoc(b, done, nla, t);
    }
  }

  /** nla_find: the first attribute of a type. */
  method FindAttribute(b: bytes, attrType: nat) returns (found: Option<nat>)
    ensures found == FirstOf(b, Offsets(b, 0), attrType)
  {
    var nla: nat := 0;
    while AttributeOk(b, nla)
      invariant FirstOf(b, Offsets(b, 0), attrType) == FirstOf(b, Offsets(b, nla), attrType)
      decreases |b| - nla
    {
      FirstStep(b, nla, attrType);
      if TypeOf(b, nla) == attrType {
        return Some(nla);
      }
      nla := NextOf(b, nla);
    }
    return None;
  }

  lemma FirstStep(b: bytes, p: nat, attrType: nat)
    requires AttributeOk(b, p)
    ensures FirstOf(b, Offsets(b, p), attrType) ==
            if TypeOf(b, p) == attrType then Some(p) else FirstOf(b, Offsets(b, NextOf(b, p)), attrType)
  {
    assert Offsets(b, p)[1..] == Offsets(b, NextOf(b, p));
  }

  // ---------- attributes of a tree ----------

  ghost predicate Readable(kids: seq<Tree>)
  {
    forall i :: 0 <= i < |kids| ==> WellSized(kids[i]) && PlainTypes(kids[i]) && Short(kids[i])
  }

  /** At these offsets stand these trees. */
  ghost predicate StandAt(b: bytes, offsets: seq<nat>, kids: seq<Tree>)
  {
    && |offsets| == |kids|
    && forall i :: 0 <= i < |offsets| ==> TreeAt(b, offsets[i], kids[i])
  }

  ghost predicate TreeAt(b: bytes, p: nat, t: Tree)
  {
    AttributeOk(b, p) && Item(b[p..]) == t && TypeOf(b, p) == t.attrType
  }

  function FirstIndex(kids: seq<Tree>, attrType: nat): (r: Option<nat>)
    ensures r.Some? ==> r.value < |kids| && kids[r.value].attrType == attrType
    ensures forall i :: 0 <= i < (if r.Some? then r.value else |kids|) ==> kids[i].attrType != attrType
  {
    if kids == [] then None
    else if kids[0].attrType == attrType then Some(0)
    else
      var later := FirstIndex(kids[1..], attrType);
      assert forall i :: 1 <= i < |kids| ==> kids[i] == kids[1..][i - 1];
      if later.Some? then Some(later.value + 1) else None
  }

  function LastIndex(kids: seq<Tree>, attrType: nat): (r: Option<nat>)
    ensures r.Some? ==> r.value < |kids| && kids[r.value].attrType == attrType
    ensures forall i :: (if r.Some? then r.value + 1 else 0) <= i < |kids| ==> kids[i].attrType != attrType
  {
    if kids == [] then None
    else if kids[|kids| - 1].attrType == attrType then Some(|kids| - 1)
    else LastIndex(kids[..|kids| - 1], attrType)
  }

  ghost predicate TypesAt(b: bytes, offsets: seq<nat>, kids: seq<Tree>)
  {
    && |offsets| == |kids|
    && forall i :: 0 <= i < |offsets| ==> TypeOf(b, offsets[i]) == kids[i].attrType
  }

  lemma StandTypes(b: bytes, offsets: seq<nat>, kids: seq<Tree>)
    requires StandAt(b, offsets, kids)
    ensures TypesAt(b, offsets, kids)
  {
    assert forall i :: 0 <= i < |offsets| ==> TreeAt(b, offsets[i], kids[i]);
  }

  lemma {:induction false} FirstStanding(b: bytes, offsets: seq<nat>, kids: seq<Tree>, attrType: nat)
    requires TypesAt(b, offsets, kids)
    ensures var i := FirstIndex(kids, attrType);
            FirstOf(b, offsets, attrType) == if i.Some? then Some(offsets[i.value]) else None
    decreases |kids|
  {
    if kids != [] {
      FirstStanding(b, offsets[1..], kids[1..], attrType);
    }
  }

  lemma {:induction false} LastStanding(b: bytes, offsets: seq<nat>, kids: seq<Tree>, attrType: nat)
    requires TypesAt(b, offsets, kids)
    ensures var i := LastIndex(kids, attrType);
            LastOf(b, offsets, attrType) == if i.Some? then Some(offsets[i.value]) else None
    decreases |kids|
  {
    if kids != [] {
      LastStanding(b, offsets[..|kids| - 1], kids[..|kids| - 1], attrType);
    }
  }

  lemma KidHere(done: bytes, t: Tree, rest: bytes, b: bytes)
    requires WellSized(t) && PlainTypes(t) && Short(t) && b == done + (TreeBytes(t) + rest)
    ensures TreeAt(b, |done|, t) && NextOf(b, |done|) == |done| + |TreeBytes(t)|
  {
    HeadOfStream(t, rest);
    assert b[|done|..] == TreeBytes(t) + rest;
  }

  lemma {:induction false} StreamOffsets(done: bytes, kids: seq<Tree>, b: bytes)
    requires Readable(kids) && b == done + KidsBytes(kids)
    ensures StandAt(b, Offsets(b, |done|), kids)
    decreases |kids|
  {
    if kids == [] {
      assert b[|done|..] == [];
    } else {
      var next := done + TreeBytes(kids[0]);
      KidHere(done, kids[0], KidsBytes(kids[1..]), b);
      Regroup(done, TreeBytes(kids[0]), KidsBytes(kids[1..]));
      StreamOffsets(next, kids[1..], b);
      StandMore(b, |done|, Offsets(b, |next|), kids[0], kids[1..]);
      assert [kids[0]] + kids[1..] == kids;
    }
  }

  lemma StandMore(b: bytes, p: nat, offsets: seq<nat>, t: Tree, kids: seq<Tree>)
    requires TreeAt(b, p, t) && StandAt(b, offsets, kids)
    ensures StandAt(b, [p] + offsets, [t] + kids)
  {
  }

  /** In the stream of a tree, nla_find finds the first attribute of a type, and nla_parse without
      policies enters the last one. */
  lemma FoundInTree(kids: seq<Tree>, attrType: nat)
    requires Readable(kids)
    ensures var b := KidsBytes(kids);
            var offsets := Offsets(b, 0);
            var first, last := FirstIndex(kids, attrType), LastIndex(kids, attrType);
            && StandAt(b, offsets, kids)
            && FirstOf(b, offsets, attrType) == (if first.Some? then Some(offsets[first.value]) else None)
            && LastOf(b, offsets, attrType) == (if last.Some? then Some(offsets[last.value]) else None)
  {
    var b := KidsBytes(kids);
    assert [] + b == b;
    StreamOffsets([], kids, b);
    StandTypes(b, Offsets(b, 0), kids);
    FirstStanding(b, Offsets(b, 0), kids, attrType);
    LastStanding(b, Offsets(b, 0), kids, attrType);
  }
}
