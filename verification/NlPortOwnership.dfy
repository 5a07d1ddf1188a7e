/** The slots taken are exactly the ports that sockets own, over every run
    (libnl/lib/socket.c, libnl/lib/nl.c). */
module NlPortOwnership {
  import opened Wrappers
  import opened NlPorts
  import opened NlSockets

  ghost predicate Owns(s: State, k: nat, slot: nat)
  {
    k in s.sockets && !s.sockets[k].own && SlotOf(s.sockets[k].port) == slot
  }

  /** A socket without NL_OWN_PORT has a generated port. */
  ghost predicate SocketOk(socket: Socket)
  {
    !socket.own ==> 0 < socket.port <= U32_MAX
  }

  ghost predicate Owned(s: State, slot: nat)
  {
    exists k :: Owns(s, k, slot)
  }

  /** Every slot that is taken is owned by one socket, or parked while a socket connects. */
  ghost predicate Valid(s: State, parked: Slots)
  {
    && (forall k :: k in s.sockets ==> SocketOk(s.sockets[k]))
    && (forall slot :: 0 <= slot < SLOTS ==> s.used[slot] == (parked[slot] || Owned(s, slot)))
    && (forall slot :: 0 <= slot < SLOTS && parked[slot] ==> !Owned(s, slot))
    && (forall k, l, slot :: Owns(s, k, slot) && Owns(s, l, slot) ==> k == l)
  }

  lemma OwnedSlot(s: State, parked: Slots, k: nat)
    requires Valid(s, parked) && k in s.sockets && !s.sockets[k].own
    ensures SlotOf(s.sockets[k].port) < SLOTS && Owns(s, k, SlotOf(s.sockets[k].port))
    ensures s.used[SlotOf(s.sockets[k].port)] && !parked[SlotOf(s.sockets[k].port)]
  {
    assert SocketOk(s.sockets[k]);
    assert Owns(s, k, SlotOf(s.sockets[k].port));
  }

  // ---------- taking and giving back ----------

  /** A generated port carries a slot that nobody had. */
  lemma GenerateFresh(s: State, env: Env)
    ensures var (t, port) := Generate(s, env);
            && t.sockets == s.sockets
            && (port == 0 <==> forall slot :: 0 <= slot < SLOTS ==> s.used[slot])
            && if port == 0 then t.used == s.used
               else
                 && port <= U32_MAX && SlotOf(port) < SLOTS && !s.used[SlotOf(port)]
                 && t.used == Take(s.used, SlotOf(port))
  {
    var idx := NextIdx(s.idx, env.seed);
    SearchComplete(s.used, idx);
    var slot := FindSlot(s.used, idx);
    if slot.Some? {
      SlotRecovered(env.pid, slot.value);
    }
  }

  /** The socket gets the new port; its former one, if it had one, is `former`. */
  lemma Assigned(s: State, t: State, parked: Slots, k: nat, port: nat)
    requires Valid(s, parked) && k in s.sockets && s.sockets[k].own
    requires 0 < port <= U32_MAX && SlotOf(port) < SLOTS && !s.used[SlotOf(port)]
    requires t.used == Take(s.used, SlotOf(port)) && t.sockets == s.sockets[k := s.sockets[k].(port := port, own := false)]
    ensures Valid(t, parked)
  {
    var slot := SlotOf(port);
    forall i | 0 <= i < SLOTS
      ensures t.used[i] == (parked[i] || Owned(t, i))
      ensures parked[i] ==> !Owned(t, i)
    {
      OwnedAfterAssign(s, t, k, port, i);
    }
    assert !Owned(s, slot);
    forall x, y, i | Owns(t, x, i) && Owns(t, y, i)
      ensures x == y
    {
      if x != k {
        assert Owns(s, x, i);
      }
      if y != k {
        assert Owns(s, y, i);
      }
    }
  }

  lemma OwnedAfterAssign(s: State, t: State, k: nat, port: nat, i: nat)
    requires k in s.sockets && s.sockets[k].own
    requires t.sockets == s.sockets[k := s.sockets[k].(port := port, own := false)]
    ensures Owned(t, i) <==> Owned(s, i) || i == SlotOf(port)
  {
    assert Owns(t, k, SlotOf(port));
    if Owned(s, i) {
      var l :| Owns(s, l, i);
      assert Owns(t, l, i);
    }
    if Owned(t, i) {
      var l :| Owns(t, l, i);
      assert l != k ==> Owns(s, l, i);
    }
  }

  /** The socket loses its port or is gone; `t` has the others as they were. */
  ghost predicate Dropped(s: State, t: State, k: nat)
  {
    && (forall l :: l != k ==> (l in t.sockets <==> l in s.sockets))
    && (forall l :: l != k && l in s.sockets ==> t.sockets[l] == s.sockets[l])
    && (k in t.sockets ==> t.sockets[k].own)
  }

  lemma OwnedAfterDrop(s: State, t: State, parked: Slots, k: nat, i: nat)
    requires Valid(s, parked) && k in s.sockets && Dropped(s, t, k)
    ensures Owned(t, i) <==> Owned(s, i) && !Owns(s, k, i)
  {
    if Owned(t, i) {
      var l :| Owns(t, l, i);
      assert Owns(s, l, i);
    }
    if Owned(s, i) && !Owns(s, k, i) {
      var l :| Owns(s, l, i);
      assert Owns(t, l, i);
    }
  }

  /** A generated port is given back, or parked. */
  lemma Released(s: State, t: State, parked: Slots, now: Slots, k: nat)
    requires Valid(s, parked) && k in s.sockets && Dropped(s, t, k)
    requires forall i :: 0 <= i < SLOTS ==> now[i] == (parked[i] || (t.used[i] && Owns(s, k, i)))
    requires forall i :: 0 <= i < SLOTS ==> t.used[i] == s.used[i] || (Owns(s, k, i) && !t.used[i])
    ensures Valid(t, now)
  {
    forall i | 0 <= i < SLOTS
      ensures t.used[i] == (now[i] || Owned(t, i))
      ensures now[i] ==> !Owned(t, i)
    {
      OwnedAfterDrop(s, t, parked, k, i);
    }
    forall x, y, i | Owns(t, x, i) && Owns(t, y, i)
      ensures x == y
    {
      assert Owns(s, x, i) && Owns(s, y, i);
    }
  }

  /** A socket that owns no generated port changes in some other way. */
  lemma Unowned(s: State, t: State, parked: Slots, k: nat)
    requires Valid(s, parked) && Dropped(s, t, k) && (k in s.sockets ==> s.sockets[k].own) && t.used == s.used
    ensures Valid(t, parked)
  {
    forall i | 0 <= i < SLOTS
      ensures t.used[i] == (parked[i] || Owned(t, i))
      ensures parked[i] ==> !Owned(t, i)
    {
      SameOwned(s, t, k, i);
    }
    forall x, y, i | Owns(t, x, i) && Owns(t, y, i)
      ensures x == y
    {
      assert Owns(s, x, i) && Owns(s, y, i);
    }
  }

  lemma SameOwned(s: State, t: State, k: nat, i: nat)
    requires Dropped(s, t, k) && (k in s.sockets ==> s.sockets[k].own)
    ensures Owned(t, i) <==> Owned(s, i)
  {
    if Owned(t, i) {
      var l :| Owns(t, l, i);
      assert Owns(s, l, i);
    }
    if Owned(s, i) {
      var l :| Owns(s, l, i);
      assert Owns(t, l, i);
    }
  }

  /** Giving back the port of a socket that then drops it: BUG_ON never fires. */
  lemma ReleaseKeeps(s: State, k: nat, parked: Slots)
    requires Valid(s, parked) && k in s.sockets && !s.sockets[k].own
    ensures Release(s, s.sockets[k].port).Ok?
    ensures var t := Release(s, s.sockets[k].port).value;
            t.sockets == s.sockets && forall u: State :: Dropped(s, u, k) && u.used == t.used ==> Valid(u, parked)
  {
    OwnedSlot(s, parked, k);
    var t := Release(s, s.sockets[k].port).value;
    forall u: State | Dropped(s, u, k) && u.used == t.used
      ensures Valid(u, parked)
    {
      Released(s, u, parked, parked, k);
    }
  }

  // ---------- operations ----------

  lemma FreeKeeps(s: State, k: nat)
    requires Valid(s, Nothing()) && k in s.sockets
    ensures FreeSocket(s, k).Ok? && Valid(FreeSocket(s, k).value, Nothing())
  {
    if s.sockets[k].own {
      Unowned(s, FreeSocket(s, k).value, Nothing(), k);
    } else {
      ReleaseKeeps(s, k, Nothing());
      assert Dropped(s, FreeSocket(s, k).value, k);
    }
  }

  lemma SetKeeps(s: State, k: nat, port: nat)
    requires Valid(s, Nothing()) && k in s.sockets
    ensures SetLocalPort(s, k, port).Ok? && Valid(SetLocalPort(s, k, port).value, Nothing())
    ensures k in SetLocalPort(s, k, port).value.sockets
  {
    if s.sockets[k].own {
      Unowned(s, SetLocalPort(s, k, port).value, Nothing(), k);
    } else {
      ReleaseKeeps(s, k, Nothing());
      assert Dropped(s, SetLocalPort(s, k, port).value, k);
    }
  }

  /** A generated port becomes the socket's own; a failed search leaves it without one. */
  lemma RegenerateKeeps(s: State, parked: Slots, k: nat, env: Env, fallback: nat)
    requires Valid(s, parked) && k in s.sockets && s.sockets[k].own
    ensures var (t, port) := Generate(s, env);
            && (port != 0 ==> Valid(WithPort(t, k, port, false), parked))
            && (port == 0 ==> Valid(WithPort(t, k, fallback, true), parked))
  {
    GenerateFresh(s, env);
    var (t, port) := Generate(s, env);
    if port != 0 {
      Assigned(s, WithPort(t, k, port, false), parked, k, port);
    } else {
      Unowned(s, WithPort(t, k, fallback, true), parked, k);
    }
  }

  lemma GetKeeps(s: State, k: nat, env: Env)
    requires Valid(s, Nothing()) && k in s.sockets
    ensures GetLocalPort(s, k, env).Ok? && Valid(GetLocalPort(s, k, env).value.0, Nothing())
  {
    assert SocketOk(s.sockets[k]);
    if s.sockets[k].port == 0 {
      RegenerateKeeps(s, Nothing(), k, env, U32_MAX);
    }
  }

  /** The socket no longer counts as owner of its port. */
  function Disowned(s: State, k: nat): State
    requires k in s.sockets
  {
    WithPort(s, k, s.sockets[k].port, true)
  }

  lemma ParkKeeps(t: State, parked: Slots, k: nat)
    requires Valid(t, parked) && k in t.sockets && !t.sockets[k].own
    ensures SlotOf(t.sockets[k].port) < SLOTS
    ensures Valid(Disowned(t, k), Take(parked, SlotOf(t.sockets[k].port)))
  {
    OwnedSlot(t, parked, k);
    Released(t, Disowned(t, k), parked, Take(parked, SlotOf(t.sockets[k].port)), k);
  }

  lemma RegeneratedAgain(s: State, parked: Slots, k: nat, env: Env)
    requires k in s.sockets && Valid(Disowned(s, k), parked)
    ensures Valid(Regenerate(s, k, env).0, parked)
    ensures var (t, port) := Regenerate(s, k, env);
            k in t.sockets && t.sockets[k].port == port && t.sockets[k].own == (port == 0)
  {
    var d := Disowned(s, k);
    RegenerateKeeps(d, parked, k, env, 0);
    var (t, port) := Generate(s, env);
    SameGenerated(s, d, env);
    SamePort(s, d, t, Generate(d, env).0, k, port);
  }

  lemma SameGenerated(s: State, d: State, env: Env)
    requires d.used == s.used && d.idx == s.idx
    ensures var (t, port) := Generate(s, env);
            Generate(d, env) == (t.(sockets := d.sockets), port) && t.sockets == s.sockets
  {
  }

  lemma SamePort(s: State, d: State, t: State, u: State, k: nat, port: nat)
    requires k in s.sockets && d == Disowned(s, k) && t.sockets == s.sockets && u == t.(sockets := d.sockets)
    ensures WithPort(u, k, port, port == 0) == WithPort(t, k, port, port == 0)
  {
    var socket := s.sockets[k].(port := port, own := port == 0);
    assert d.sockets[k := socket] == s.sockets[k := socket];
  }

  /** Through all retries, ports in use elsewhere stay parked and everybody else's stay theirs. */
  lemma {:induction false} RetryKeeps(s: State, k: nat, parked: Slots, a: Answers, n: nat)
    requires k in s.sockets && Valid(Disowned(s, k), parked)
    ensures Retry(s, k, parked, a, n).Ok?
    ensures var (t, left, _) := Retry(s, k, parked, a, n).value; Valid(t, left) && k in t.sockets
    decreases MAX_TRIES - n
  {
    if n >= MAX_TRIES {
      Unowned(Disowned(s, k), WithPort(s, k, 0, true), parked, k);
    } else {
      RegeneratedAgain(s, parked, k, a.envs(n));
      var (t, port) := Regenerate(s, k, a.envs(n));
      if port != 0 && a.binds(n) == InUse {
        ParkKeeps(t, parked, k);
        RetryKeeps(t, k, Take(parked, SlotOf(port)), a, n + 1);
      }
    }
  }

  /** All parked ports are taken, so none of them trips BUG_ON, and none of them is a socket's. */
  lemma ReleaseAllKeeps(s: State, parked: Slots)
    requires Valid(s, parked)
    ensures ReleaseAll(s, parked).Ok? && Valid(ReleaseAll(s, parked).value, Nothing())
    ensures ReleaseAll(s, parked).value.sockets == s.sockets
  {
    var t := ReleaseAll(s, parked).value;
    forall i | 0 <= i < SLOTS
      ensures t.used[i] == Owned(t, i)
    {
      SameOwners(s, t, i);
    }
    forall x, y, i | Owns(t, x, i) && Owns(t, y, i)
      ensures x == y
    {
      assert Owns(s, x, i) && Owns(s, y, i);
    }
  }

  lemma SameOwners(s: State, t: State, i: nat)
    requires t.sockets == s.sockets
    ensures Owned(t, i) <==> Owned(s, i)
  {
    if Owned(t, i) {
      var l :| Owns(t, l, i);
      assert Owns(s, l, i);
    }
    if Owned(s, i) {
      var l :| Owns(s, l, i);
      assert Owns(t, l, i);
    }
  }

  lemma BindNewKeeps(s: State, k: nat, a: Answers)
    requires Valid(s, Nothing()) && k in s.sockets && s.sockets[k].own
    ensures BindNew(s, k, a).Ok? && Valid(BindNew(s, k, a).value.0, Nothing()) && k in BindNew(s, k, a).value.0.sockets
  {
    assert s.sockets[k := s.sockets[k].(port := s.sockets[k].port, own := true)] == s.sockets;
    RetryKeeps(s, k, Nothing(), a, 0);
    var (t, parked, _) := Retry(s, k, Nothing(), a, 0).value;
    ReleaseAllKeeps(t, parked);
  }

  /** Whether a socket is connected does not matter to who owns what. */
  lemma ConnectedKeeps(s: State, k: nat, connected: bool)
    requires Valid(s, Nothing()) && k in s.sockets
    ensures Valid(s.(sockets := s.sockets[k := s.sockets[k].(connected := connected)]), Nothing())
  {
    var t := s.(sockets := s.sockets[k := s.sockets[k].(connected := connected)]);
    forall i | 0 <= i < SLOTS
      ensures Owned(t, i) <==> Owned(s, i)
    {
      if Owned(t, i) {
        var l :| Owns(t, l, i);
        assert Owns(s, l, i);
      }
      if Owned(s, i) {
        var l :| Owns(s, l, i);
        assert Owns(t, l, i);
      }
    }
    forall x, y, i | Owns(t, x, i) && Owns(t, y, i)
      ensures x == y
    {
      assert Owns(s, x, i) && Owns(s, y, i);
    }
  }

  lemma AfterBindKeeps(s: State, k: nat, a: Answers)
    requires Valid(s, Nothing()) && k in s.sockets
    ensures AfterBind(s, k, a).Ok? && Valid(AfterBind(s, k, a).value.0, Nothing())
  {
    if a.named {
      if s.sockets[k].port != a.localPort {
        SetKeeps(s, k, a.localPort);
        ConnectedKeeps(SetLocalPort(s, k, a.localPort).value, k, true);
      } else {
        ConnectedKeeps(s, k, true);
      }
    }
  }

  /** nl_connect, whatever the kernel answers. */
  lemma ConnectKeeps(s: State, k: nat, a: Answers)
    requires Valid(s, Nothing()) && k in s.sockets
    ensures Connect(s, k, a).Ok? && Valid(Connect(s, k, a).value.0, Nothing())
  {
    assert SocketOk(s.sockets[k]);
    if s.sockets[k].port == 0 {
      BindNewKeeps(s, k, a);
      AfterBindKeeps(BindNew(s, k, a).value.0, k, a);
    } else {
      AfterBindKeeps(s, k, a);
    }
  }

  // ---------- runs ----------

  datatype Step =
    | StepAlloc(k: nat)
    | StepFree(k: nat)
    | StepGet(k: nat, env: Env)
    | StepSet(k: nat, port: nat)
    | StepConnect(k: nat, answers: Answers)
    | StepClose(k: nat)

  /** A new socket is at a new address; all others are live. */
  ghost predicate Allowed(s: State, step: Step)
  {
    if step.StepAlloc? then step.k !in s.sockets else step.k in s.sockets
  }

  function After(s: State, step: Step): Result<State, Crash>
  {
    match step
    case StepAlloc(k) => Ok(AllocSocket(s, k))
    case StepFree(k) => FreeSocket(s, k)
    case StepGet(k, env) => var r :- GetLocalPort(s, k, env); Ok(r.0)
    case StepSet(k, port) => SetLocalPort(s, k, port)
    case StepConnect(k, answers) => var r :- Connect(s, k, answers); Ok(r.0)
    case StepClose(k) => Close(s, k)
  }

  lemma StepKeeps(s: State, step: Step)
    requires Valid(s, Nothing()) && Allowed(s, step)
    ensures After(s, step).Ok? && Valid(After(s, step).value, Nothing())
  {
    match step {
      case StepAlloc(k) => Unowned(s, AllocSocket(s, k), Nothing(), k);
      case StepFree(k) => FreeKeeps(s, k);
      case StepGet(k, env) => GetKeeps(s, k, env);
      case StepSet(k, port) => SetKeeps(s, k, port);
      case StepConnect(k, answers) => ConnectKeeps(s, k, answers);
      case StepClose(k) => ConnectedKeeps(s, k, false);
    }
  }

  ghost predicate AllowedRun(s: State, run: seq<Step>)
    decreases |run|
  {
    run != [] ==> Allowed(s, run[0]) && (After(s, run[0]).Ok? ==> AllowedRun(After(s, run[0]).value, run[1..]))
  }

  function Run(s: State, run: seq<Step>): Result<State, Crash>
    decreases |run|
  {
    if run == [] then Ok(s)
    else
      var t :- After(s, run[0]);
      Run(t, run[1..])
  }

  lemma {:induction false} RunKeeps(s: State, run: seq<Step>)
    requires Valid(s, Nothing()) && AllowedRun(s, run)
    ensures Run(s, run).Ok? && Valid(Run(s, run).value, Nothing())
    decreases |run|
  {
    if run != [] {
      StepKeeps(s, run[0]);
      RunKeeps(After(s, run[0]).value, run[1..]);
    }
  }

  /** Port ownership over every run from start: BUG_ON never fires, a slot is taken exactly when
      some live socket without NL_OWN_PORT has its port, and no two sockets share a slot. */
  lemma EveryRunOwns(run: seq<Step>)
    requires AllowedRun(State(Nothing(), 0, map[]), run)
    ensures Run(State(Nothing(), 0, map[]), run).Ok?
    ensures var s := Run(State(Nothing(), 0, map[]), run).value;
            && (forall slot :: 0 <= slot < SLOTS ==> (s.used[slot] <==> exists k :: Owns(s, k, slot)))
            && (forall k, l, slot :: Owns(s, k, slot) && Owns(s, l, slot) ==> k == l)
            && (forall k :: k in s.sockets && !s.sockets[k].own ==> SlotOf(s.sockets[k].port) < SLOTS)
  {
    var start := State(Nothing(), 0, map[]);
    assert forall slot :: !Owned(start, slot);
    RunKeeps(start, run);
    var s := Run(start, run).value;
    forall slot | 0 <= slot < SLOTS
      ensures s.used[slot] <==> exists k :: Owns(s, k, slot)
    {
      assert s.used[slot] == Owned(s, slot);
    }
    forall k | k in s.sockets && !s.sockets[k].own
      ensures SlotOf(s.sockets[k].port) < SLOTS
    {
      OwnedSlot(s, Nothing(), k);
    }
  }
}
