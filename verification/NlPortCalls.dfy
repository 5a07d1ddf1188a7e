/** What the single calls on sockets do, and the first ports that are generated
    (libnl/lib/socket.c). */
module NlPortCalls {
  import opened Wrappers
  import opened NlPorts
  import opened NlSockets
  import opened NlPortOwnership
  import opened NlConnecting

  // ---------- single calls ----------

  /** nl_socket_get_local_port: a port that is set stays. A socket without one gets a generated port of its
      own, or, when all slots are taken, the port 0xFFFFFFFF, which is not its own to give back. */
  lemma PortGiven(s: State, k: nat, env: Env)
    requires Valid(s, Nothing()) && k in s.sockets
    ensures GetLocalPort(s, k, env).Ok?
    ensures var (t, port) := GetLocalPort(s, k, env).value;
            && k in t.sockets && t.sockets[k].port == port != 0 && Elsewhere(s, t, k)
            && t.sockets[k].connected == s.sockets[k].connected
            && (s.sockets[k].port != 0 ==> t == s)
            && (s.sockets[k].port == 0 && ClearSlots(s.used) != {} ==> !t.sockets[k].own)
            && (s.sockets[k].port == 0 && ClearSlots(s.used) == {} ==> t.sockets[k].own && port == 0xFFFF_FFFF)
  {
    GetKeeps(s, k, env);
    GenerateTakesOne(s, env);
  }

  /** nl_socket_set_local_port: the port is the one given, and a generated one is given back. */
  lemma PortSet(s: State, k: nat, port: nat)
    requires Valid(s, Nothing()) && k in s.sockets
    ensures SetLocalPort(s, k, port).Ok?
    ensures var t := SetLocalPort(s, k, port).value;
            && Elsewhere(s, t, k) && t.sockets[k] == Socket(port, true, s.sockets[k].connected)
            && (if s.sockets[k].own then t.used == s.used
                else t.used == s.used[s.sockets[k].port / 0x40_0000 := false])
  {
    SetKeeps(s, k, port);
    if !s.sockets[k].own {
      OwnedSlot(s, Nothing(), k);
    }
  }

  /** nl_socket_free: the socket is gone, its generated port is given back, and no other socket changes. */
  lemma FreedGone(s: State, k: nat)
    requires Valid(s, Nothing()) && k in s.sockets
    ensures FreeSocket(s, k).Ok?
    ensures var t := FreeSocket(s, k).value;
            && k !in t.sockets && (forall l :: l != k ==> (l in t.sockets <==> l in s.sockets))
            && (forall l :: l in t.sockets ==> t.sockets[l] == s.sockets[l])
            && (if s.sockets[k].own then t.used == s.used
                else t.used == s.used[s.sockets[k].port / 0x40_0000 := false])
  {
    FreeKeeps(s, k);
    if !s.sockets[k].own {
      OwnedSlot(s, Nothing(), k);
    }
  }

  /** release_local_port fails its BUG_ON exactly for port 0 and for ports whose slot is not taken. */
  lemma ReleaseExactly(s: State, port: nat)
    requires port <= 0xFFFF_FFFF
    ensures Release(s, port).Ok? <==> port != 0 && s.used[port / 0x40_0000]
    ensures Release(s, port).Ok? ==> Release(s, port).value == s.(used := s.used[port / 0x40_0000 := false])
  {
  }

  /** Releasing several ports fails exactly when one of them was not taken, slot 0 like all others. */
  lemma ReleaseAllExactly(s: State, parked: Slots)
    ensures ReleaseAll(s, parked).Err? <==> exists slot :: 0 <= slot < 1024 && parked[slot] && !s.used[slot]
    ensures ReleaseAll(s, parked).Ok? ==>
              forall slot :: 0 <= slot < 1024 ==>
                               ReleaseAll(s, parked).value.used[slot] == (s.used[slot] && !parked[slot])
  {
  }

  /** A new socket connects, and on an empty map its port is generated by the first bind. */
  lemma NewSocketConnects(s: State, k: nat, a: Answers)
    requires Valid(s, Nothing()) && k !in s.sockets
    requires ClearSlots(s.used) != {} && a.ready && a.binds(0) == Bound && a.named
    ensures var t := AllocSocket(s, k);
            Valid(t, Nothing()) && Connect(t, k, a).Ok? && Connect(t, k, a).value.1
  {
    var t := AllocSocket(s, k);
    StepKeeps(s, StepAlloc(k));
    var slot :| slot in ClearSlots(s.used);
    assert 0 <= slot < SLOTS && !t.used[slot];
    FirstPortBound(t, k, a);
  }

  // ---------- the first ports ----------

  lemma FirstBitFree(used: Slots, start: nat, i: nat, idx: nat, n: nat)
    requires i == NextBlock(start) && i < BLOCKS && n == NextBit(idx) && !used[32 * i + n]
    ensures FindBlock(used, start, 0) == Some(i) && FindBit(used, i, idx, 0) == Some(n)
  {
    assert !Taken(used, i, n);
    assert !Full(used, i);
  }

  /** With the clock giving a state of 1, process 7 first gets slot 238 and then, with a state of 20012, slot
      409: words are walked in steps of seven, bits in steps of thirteen, and the state moves on by 20011. */
  lemma FirstTwoPorts(sockets: map<nat, Socket>)
    ensures var (s, port) := Generate(State(Nothing(), 0, sockets), Env(1, 7));
            var (t, next) := Generate(s, Env(5, 7));
            && port == 238 * 0x40_0000 + 7 && s.idx == 1 && s.used == Nothing()[238 := true]
            && next == 409 * 0x40_0000 + 7 && t.idx == 20012 && t.used == Nothing()[238 := true][409 := true]
  {
    FirstBitFree(Nothing(), 0, 7, 1, 14);
    var (s, port) := Generate(State(Nothing(), 0, sockets), Env(1, 7));
    FirstBitFree(s.used, 625, 12, 20012, 25);
  }

  /** A generated port has the process number in its lower 22 bits, unless it would be zero, and is 1024
      then. */
  lemma PortNumber(pid: nat, slot: nat)
    requires slot < 1024
    ensures PortOf(pid, slot) == if pid % 0x40_0000 == 0 && slot == 0 then 1024 else slot * 0x40_0000 + pid % 0x40_0000
  {
  }
}
