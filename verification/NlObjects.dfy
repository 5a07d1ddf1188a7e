/** Cacheable objects and when two of them are the same (libnl/lib/object.c). */
module NlObjects {
  import opened Wrappers

  type Attrs = map<nat, int>

  /** The operations of an object type that matter here: its name, and whether it has oo_compare. */
  datatype Kind = Kind(name: nat, comparable: bool)

  /** An object's contents. The keys of `attrs` are the bits of ce_mask, and `idAttrs` is what
      oo_id_attrs_get or oo_id_attrs yields for it, if its type has one of them. */
  datatype Data = Data(kind: Kind, msgType: nat, idAttrs: Option<set<nat>>, attrs: Attrs)

  /** oo_compare, attribute by attribute: listed, and available in one of both or different. */
  function Compare(a: Data, b: Data, listed: set<nat>): set<nat>
  {
    set k | k in listed && k in a.attrs.Keys + b.attrs.Keys &&
            (k !in a.attrs || k !in b.attrs || a.attrs[k] != b.attrs[k])
  }

  function RequiredOf(d: Data): set<nat>
  {
    if d.idAttrs.Some? then d.idAttrs.value * d.attrs.Keys else d.attrs.Keys
  }

  /** nl_object_get_id_attrs: no attribute at all where the comparison uses every one. */
  function IdAttrs(d: Data): set<nat>
  {
    if d.idAttrs.Some? then d.idAttrs.value else {}
  }

  /** nl_object_identical, for the objects at `p` and `q`. */
  predicate Identical(p: nat, a: Data, q: nat, b: Data)
  {
    if p == q then true
    else if a.kind != b.kind || !a.kind.comparable then false
    else RequiredOf(a) == RequiredOf(b) && Compare(a, b, RequiredOf(a)) == {}
  }

  /** nl_object_diff64: None when all bits are set because the objects cannot be compared. */
  function Diff(a: Data, b: Data): Option<set<nat>>
  {
    if a.kind != b.kind || !a.kind.comparable then None
    else Some(Compare(a, b, a.attrs.Keys + b.attrs.Keys))
  }

  predicate Differs(a: Data, b: Data)
  {
    Diff(a, b) != Some({})
  }

  /** nl_object_match_filter. */
  predicate MatchesFilter(d: Data, filter: Data)
  {
    d.kind == filter.kind && d.kind.comparable && Compare(d, filter, filter.attrs.Keys) == {}
  }

  /** The values of the attributes that identify an object. */
  function Identity(d: Data): Attrs
  {
    map k | k in RequiredOf(d) :: d.attrs[k]
  }

  lemma CompareEmpty(a: Data, b: Data, listed: set<nat>)
    ensures Compare(a, b, listed) == {} <==>
            forall k :: k in listed ==> (k in a.attrs <==> k in b.attrs) && (k in a.attrs ==> a.attrs[k] == b.attrs[k])
  {
    if Compare(a, b, listed) == {} {
      forall k | k in listed
        ensures (k in a.attrs <==> k in b.attrs) && (k in a.attrs ==> a.attrs[k] == b.attrs[k])
      {
        assert k !in Compare(a, b, listed);
      }
    }
  }

  /** Objects of one comparable kind are identical exactly when the attributes that identify them
      have the same values: an equivalence, and one that a hash key can be computed from. */
  lemma IdenticalIsSameIdentity(p: nat, a: Data, q: nat, b: Data)
    requires p != q && a.kind == b.kind && a.kind.comparable
    ensures Identical(p, a, q, b) <==> Identity(a) == Identity(b)
  {
    CompareEmpty(a, b, RequiredOf(a));
    assert Identity(a).Keys == RequiredOf(a) && Identity(b).Keys == RequiredOf(b);
    if Identical(p, a, q, b) {
      assert forall k :: k in Identity(a) ==> Identity(a)[k] == Identity(b)[k];
    }
    if Identity(a) == Identity(b) {
      assert forall k :: k in RequiredOf(a) ==> a.attrs[k] == Identity(a)[k] == Identity(b)[k] == b.attrs[k];
    }
  }

  /** An object is identical to itself even if its kind cannot be compared; objects of different kinds, or of one
      that cannot be compared, never are to each other. */
  lemma IdenticalOtherwise(p: nat, a: Data, q: nat, b: Data)
    ensures p == q ==> Identical(p, a, q, b)
    ensures p != q && (a.kind != b.kind || !a.kind.comparable) ==> !Identical(p, a, q, b)
    ensures a.kind != b.kind || !a.kind.comparable ==> Diff(a, b).None? && !MatchesFilter(a, b)
  {
  }

  /** No difference is reported exactly when all attributes agree. */
  lemma DiffersExactly(a: Data, b: Data)
    requires a.kind == b.kind && a.kind.comparable
    ensures Differs(a, b) <==> a.attrs != b.attrs
  {
    var all := a.attrs.Keys + b.attrs.Keys;
    CompareEmpty(a, b, all);
    if Compare(a, b, all) == {} {
      assert a.attrs.Keys == b.attrs.Keys;
    }
  }

  /** A filter that has exactly its identifying attributes matches just the identical objects,
      among those that are identified by the same attributes. */
  lemma IdentifyingFilter(p: nat, d: Data, q: nat, filter: Data)
    requires p != q && d.idAttrs == filter.idAttrs == Some(filter.attrs.Keys)
    ensures MatchesFilter(d, filter) <==> Identical(p, d, q, filter)
  {
    CompareEmpty(d, filter, filter.attrs.Keys);
    CompareEmpty(d, filter, RequiredOf(d));
    assert RequiredOf(filter) == filter.attrs.Keys;
    if MatchesFilter(d, filter) {
      assert RequiredOf(d) == filter.attrs.Keys;
    }
  }
}
