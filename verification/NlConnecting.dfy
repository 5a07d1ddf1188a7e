/** When nl_connect succeeds, from the answers of the system alone (libnl/lib/nl.c). */
module NlConnecting {
  import opened Wrappers
  import opened NlPorts
  import opened NlSockets
  import opened NlPortOwnership

  // ---------- how many ports can be tried ----------

  ghost function ClearSlots(used: Slots): set<nat>
  {
    set slot: nat | slot < 1024 && !used[slot]
  }

  /** Six ports, or as many as there are. */
  ghost function Tries(used: Slots): nat
  {
    if |ClearSlots(used)| < 6 then |ClearSlots(used)| else 6
  }

  lemma GenerateTakesOne(s: State, env: Env)
    ensures var (t, port) := Generate(s, env);
            && t.sockets == s.sockets
            && (port == 0 <==> |ClearSlots(s.used)| == 0)
            && (port != 0 ==> SlotOf(port) < SLOTS && |ClearSlots(t.used)| == |ClearSlots(s.used)| - 1)
  {
    GenerateFresh(s, env);
    var (t, port) := Generate(s, env);
    if port == 0 {
      assert ClearSlots(s.used) == {};
    } else {
      var slot := SlotOf(port);
      assert slot in ClearSlots(s.used);
      assert ClearSlots(t.used) == ClearSlots(s.used) - {slot};
    }
  }

  // ---------- the retries ----------

  /** All ports from number `n` up to number `m` are found in use. */
  ghost predicate AllInUse(a: Answers, n: nat, m: nat)
  {
    forall j :: n <= j < m ==> a.binds(j) == InUse
  }

  /** The first port from number `n` on that is not found in use is bound, and it has a number below `m`. */
  ghost predicate OneBound(a: Answers, n: nat, m: nat)
  {
    exists i :: n <= i < m && a.binds(i) == Bound && AllInUse(a, n, i)
  }

  lemma NextTry(a: Answers, n: nat, m: nat)
    requires n < m
    ensures AllInUse(a, n, m) <==> a.binds(n) == InUse && AllInUse(a, n + 1, m)
    ensures OneBound(a, n, m) <==> a.binds(n) == Bound || (a.binds(n) == InUse && OneBound(a, n + 1, m))
  {
    if a.binds(n) == InUse && OneBound(a, n + 1, m) {
      var i :| n + 1 <= i < m && a.binds(i) == Bound && AllInUse(a, n + 1, i);
      assert AllInUse(a, n, i);
    }
    if OneBound(a, n, m) {
      var i :| n <= i < m && a.binds(i) == Bound && AllInUse(a, n, i);
      assert i > n ==> a.binds(n) == InUse && AllInUse(a, n + 1, i);
    }
    if a.binds(n) == Bound {
      assert AllInUse(a, n, n);
    }
  }

  /** Nothing but the socket's port was changed. */
  ghost predicate SamePeers(s: State, t: State, k: nat)
    requires k in s.sockets
  {
    k in t.sockets && t.sockets == s.sockets[k := t.sockets[k]] && t.sockets[k].connected == s.sockets[k].connected
  }

  lemma SamePeersTwice(s: State, t: State, u: State, k: nat)
    requires k in s.sockets && SamePeers(s, t, k) && SamePeers(t, u, k)
    ensures SamePeers(s, u, k)
  {
  }

  lemma RegeneratePeers(s: State, k: nat, env: Env)
    requires k in s.sockets
    ensures var (t, port) := Regenerate(s, k, env);
            && SamePeers(s, t, k) && t.sockets[k].port == port
            && (port == 0 <==> |ClearSlots(s.used)| == 0)
            && (port != 0 ==> SlotOf(port) < SLOTS && |ClearSlots(t.used)| == |ClearSlots(s.used)| - 1)
  {
    GenerateTakesOne(s, env);
  }

  lemma RetryEnds(s: State, k: nat, parked: Slots, a: Answers, n: nat, t: State, port: nat)
    requires k in s.sockets && n < 6 && Regenerate(s, k, a.envs(n)) == (t, port) && (port == 0 || a.binds(n) != InUse)
    ensures Retry(s, k, parked, a, n) ==
            Ok((t, parked, if port == 0 then GaveUp else if a.binds(n) == Bound then Done else Failed))
  {
  }

  lemma RetryAgain(s: State, k: nat, parked: Slots, a: Answers, n: nat, t: State, port: nat)
    requires k in s.sockets && n < 6 && Regenerate(s, k, a.envs(n)) == (t, port)
    requires 0 < port && SlotOf(port) < SLOTS && a.binds(n) == InUse
    ensures Retry(s, k, parked, a, n) == Retry(t, k, Take(parked, SlotOf(port)), a, n + 1)
  {
  }

  lemma RetryTired(s: State, k: nat, parked: Slots, a: Answers)
    requires k in s.sockets
    ensures Retry(s, k, parked, a, 6) == Ok((WithPort(s, k, 0, true), parked, GaveUp))
    ensures SamePeers(s, WithPort(s, k, 0, true), k)
  {
  }

  /** How the retries end, with `left` ports that can still be tried: the answers to the binds decide. */
  ghost predicate RetriesTo(s: State, k: nat, a: Answers, n: nat, left: nat, r: (State, Slots, Outcome))
    requires k in s.sockets
  {
    && SamePeers(s, r.0, k)
    && (r.2 == Done <==> OneBound(a, n, n + left))
    && (r.2 == GaveUp <==> AllInUse(a, n, n + left))
    && (r.2 == GaveUp ==> r.0.sockets[k].port == 0)
  }

  lemma RetriesToLater(s: State, t: State, k: nat, a: Answers, n: nat, left: nat, r: (State, Slots, Outcome))
    requires k in s.sockets && SamePeers(s, t, k) && RetriesTo(t, k, a, n + 1, left, r) && a.binds(n) == InUse
    ensures RetriesTo(s, k, a, n, left + 1, r)
  {
    NextTry(a, n, n + left + 1);
    SamePeersTwice(s, t, r.0, k);
  }

  lemma RetriesToNow(s: State, t: State, k: nat, parked: Slots, a: Answers, n: nat, left: nat, port: nat)
    requires k in s.sockets && SamePeers(s, t, k) && (port == 0 <==> left == 0) && t.sockets[k].port == port
    requires port == 0 || a.binds(n) != InUse
    ensures RetriesTo(s, k, a, n, left,
                      (t, parked, if port == 0 then GaveUp else if a.binds(n) == Bound then Done else Failed))
  {
    if left > 0 {
      NextTry(a, n, n + left);
    }
  }

  lemma {:induction false} RetryOutcome(s: State, k: nat, parked: Slots, a: Answers, n: nat, left: nat)
    returns (r: (State, Slots, Outcome))
    requires k in s.sockets && n <= 6 && left == if |ClearSlots(s.used)| < 6 - n then |ClearSlots(s.used)| else 6 - n
    ensures Retry(s, k, parked, a, n) == Ok(r) && RetriesTo(s, k, a, n, left, r)
    decreases 6 - n
  {
    if n == 6 {
      RetryTired(s, k, parked, a);
      r := (WithPort(s, k, 0, true), parked, GaveUp);
    } else {
      var (t, port) := Regenerate(s, k, a.envs(n));
      RegeneratePeers(s, k, a.envs(n));
      if port != 0 && a.binds(n) == InUse {
        RetryAgain(s, k, parked, a, n, t, port);
        r := RetryOutcome(t, k, Take(parked, SlotOf(port)), a, n + 1, left - 1);
        RetriesToLater(s, t, k, a, n, left - 1, r);
      } else {
        RetryEnds(s, k, parked, a, n, t, port);
        RetriesToNow(s, t, k, parked, a, n, left, port);
        r := (t, parked, if port == 0 then GaveUp else if a.binds(n) == Bound then Done else Failed);
      }
    }
  }

  // ---------- connecting ----------

  /** A bind went well: that of the first generated port not found in use, or, after giving up or with a
      port set, the last one. */
  ghost predicate BindWentWell(s: State, k: nat, a: Answers)
    requires k in s.sockets
  {
    if s.sockets[k].port != 0 then a.lastBind
    else OneBound(a, 0, Tries(s.used)) || (AllInUse(a, 0, Tries(s.used)) && a.lastBind)
  }

  lemma BindNewOutcome(s: State, k: nat, a: Answers)
    requires Valid(s, Nothing()) && k in s.sockets && s.sockets[k].port == 0
    ensures BindNew(s, k, a).Ok? && Valid(BindNew(s, k, a).value.0, Nothing()) && SamePeers(s, BindNew(s, k, a).value.0, k)
    ensures BindNew(s, k, a).value.1 == Done <==> OneBound(a, 0, Tries(s.used))
    ensures BindNew(s, k, a).value.1 == GaveUp <==> AllInUse(a, 0, Tries(s.used))
  {
    assert SocketOk(s.sockets[k]);
    BindNewKeeps(s, k, a);
    var r := RetryOutcome(s, k, Nothing(), a, 0, Tries(s.used));
  }

  /** Only this socket is another one. */
  ghost predicate Elsewhere(s: State, t: State, k: nat)
  {
    k in s.sockets && k in t.sockets && t.sockets == s.sockets[k := t.sockets[k]]
  }

  lemma AfterBindOutcome(s: State, k: nat, a: Answers)
    requires Valid(s, Nothing()) && k in s.sockets
    ensures AfterBind(s, k, a).Ok? && Elsewhere(s, AfterBind(s, k, a).value.0, k)
    ensures AfterBind(s, k, a).value.1 <==> a.named
    ensures var t := AfterBind(s, k, a).value.0;
            if a.named then t.sockets[k].connected && t.sockets[k].port == a.localPort else t == s
  {
    AfterBindKeeps(s, k, a);
  }

  lemma ConnectWithPort(s: State, k: nat, a: Answers)
    requires Valid(s, Nothing()) && k in s.sockets && s.sockets[k].port != 0 && !s.sockets[k].connected && a.ready
    ensures Connect(s, k, a) == if a.lastBind then AfterBind(s, k, a) else Ok((s, false))
  {
  }

  lemma ConnectWithout(s: State, k: nat, a: Answers, t: State, outcome: Outcome)
    requires k in s.sockets && s.sockets[k].port == 0 && !s.sockets[k].connected && a.ready
    requires BindNew(s, k, a) == Ok((t, outcome))
    ensures Connect(s, k, a) ==
            if outcome == Done || (outcome == GaveUp && a.lastBind) then AfterBind(t, k, a) else Ok((t, false))
  {
  }

  lemma ElsewhereTwice(s: State, t: State, u: State, k: nat)
    requires k in s.sockets && SamePeers(s, t, k) && Elsewhere(t, u, k)
    ensures Elsewhere(s, u, k)
  {
  }

  /** The result `t` of connecting, and whether it went well. */
  ghost predicate ConnectedWell(s: State, k: nat, a: Answers, t: State, ok: bool)
    requires k in s.sockets
  {
    && Elsewhere(s, t, k)
    && (ok <==> !s.sockets[k].connected && a.ready && BindWentWell(s, k, a) && a.named)
    && (ok ==> t.sockets[k].connected && t.sockets[k].port == a.localPort)
    && (!ok ==> t.sockets[k].connected == s.sockets[k].connected)
  }

  lemma BoundThen(s: State, t: State, k: nat, a: Answers, went: bool, r: (State, bool))
    requires Valid(t, Nothing()) && k in s.sockets && SamePeers(s, t, k) && !s.sockets[k].connected && a.ready
    requires went == BindWentWell(s, k, a) && (if went then Ok(r) == AfterBind(t, k, a) else r == (t, false))
    ensures ConnectedWell(s, k, a, r.0, r.1)
  {
    if went {
      AfterBindOutcome(t, k, a);
      ElsewhereTwice(s, t, r.0, k);
    }
  }

  /** nl_connect succeeds if and only if the socket was not connected, socket() and its buffers were ready,
      a bind went well and getsockname did. Then the socket is connected and has the port that
      getsockname gave; otherwise it is connected only if it was before. No other socket changes. */
  lemma ConnectExactly(s: State, k: nat, a: Answers)
    requires Valid(s, Nothing()) && k in s.sockets
    ensures Connect(s, k, a).Ok?
    ensures var (t, ok) := Connect(s, k, a).value;
            && k in t.sockets && t.sockets == s.sockets[k := t.sockets[k]]
            && (ok <==> !s.sockets[k].connected && a.ready && BindWentWell(s, k, a) && a.named)
            && (ok ==> t.sockets[k].connected && t.sockets[k].port == a.localPort)
            && (!ok ==> t.sockets[k].connected == s.sockets[k].connected)
  {
    ConnectKeeps(s, k, a);
    var r := Connect(s, k, a).value;
    ConnectsWell(s, k, a, r);
  }

  lemma ConnectsWell(s: State, k: nat, a: Answers, r: (State, bool))
    requires Valid(s, Nothing()) && k in s.sockets && Connect(s, k, a) == Ok(r)
    ensures ConnectedWell(s, k, a, r.0, r.1)
  {
    if s.sockets[k].connected || !a.ready {
      assert r == (s, false);
    } else if s.sockets[k].port != 0 {
      ConnectWithPort(s, k, a);
      BoundThen(s, s, k, a, a.lastBind, r);
    } else {
      BindNewOutcome(s, k, a);
      var (t, outcome) := BindNew(s, k, a).value;
      ConnectWithout(s, k, a, t, outcome);
      BoundThen(s, t, k, a, BindWentWell(s, k, a), r);
    }
  }

  /** A new socket on a map that is not full: when the first bind goes well, nl_connect does. */
  lemma FirstPortBound(s: State, k: nat, a: Answers)
    requires Valid(s, Nothing()) && k in s.sockets && s.sockets[k] == Socket(0, true, false)
    requires (exists slot :: 0 <= slot < SLOTS && !s.used[slot]) && a.ready && a.binds(0) == Bound && a.named
    ensures Connect(s, k, a).Ok? && Connect(s, k, a).value.1
    ensures Connect(s, k, a).value.0.sockets[k].connected
  {
    ConnectExactly(s, k, a);
    var slot :| 0 <= slot < SLOTS && !s.used[slot];
    assert slot in ClearSlots(s.used);
    assert AllInUse(a, 0, 0);
  }
}
