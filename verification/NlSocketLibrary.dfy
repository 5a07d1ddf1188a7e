/** The port allocator and the retries of nl_connect as they change shared state in place
    (libnl/lib/socket.c, libnl/lib/nl.c). */
module NlSocketLibrary {
  import opened Wrappers
  import opened NlPorts
  import opened NlSockets
  import opened NlPortOwnership

  lemma Generated(s: State, env: Env, idx: nat, i: nat, n: nat)
    requires idx == NextIdx(s.idx, env.seed) && i < BLOCKS && n < 32
    requires FindBlock(s.used, idx / 32, 0) == Some(i) && FindBit(s.used, i, idx, 0) == Some(n)
    ensures Generate(s, env) ==
            (s.(idx := idx, used := Take(s.used, 32 * i + n)), PortOf(env.pid, 32 * i + n))
  {
  }

  lemma NotGenerated(s: State, env: Env, idx: nat)
    requires idx == NextIdx(s.idx, env.seed) && FindBlock(s.used, idx / 32, 0).None?
    ensures Generate(s, env) == (s.(idx := idx), 0)
  {
  }

  class Library {
    /** used_ports_map: word i, bit n is element 32 * i + n. */
    const usedPortsMap: array<bool>
    var idxState: nat
    var sockets: map<nat, Socket>

    function Value(): State
      requires usedPortsMap.Length == SLOTS
      reads this, usedPortsMap
    {
      State(usedPortsMap[..], idxState, sockets)
    }

    constructor ()
      ensures usedPortsMap.Length == SLOTS && fresh(usedPortsMap) && Value() == State(Nothing(), 0, map[])
    {
      usedPortsMap := new bool[SLOTS](_ => false);
      idxState, sockets := 0, map[];
      new;
      assert usedPortsMap[..] == Nothing();
    }

    /** Whether every bit of a word is set. */
    method WordFull(i: nat) returns (full: bool)
      requires usedPortsMap.Length == SLOTS && i < BLOCKS
      ensures full == Full(usedPortsMap[..], i)
    {
      for n := 0 to 32
        invariant forall k :: 0 <= k < n ==> Taken(usedPortsMap[..], i, k)
      {
        if !usedPortsMap[32 * i + n] {
          assert !Taken(usedPortsMap[..], i, n);
          return false;
        }
      }
      return true;
    }

    /** The inner loop: the first clear bit of a word, going round from `start`. */
    method ClearBit(i: nat, start: nat) returns (n: nat)
      requires usedPortsMap.Length == SLOTS && i < BLOCKS && !Full(usedPortsMap[..], i)
      ensures n < 32 && FindBit(usedPortsMap[..], i, start, 0) == Some(n)
    {
      ghost var used: Slots := usedPortsMap[..];
      BlockYields(used, i, start);
      n := start;
      for m := 0 to 32
        invariant FindBit(used, i, n, m) == FindBit(used, i, start, 0)
      {
        n := NextBit(n);
        if !usedPortsMap[32 * i + n] {
          assert !Taken(used, i, n);
          return;
        }
        assert Taken(used, i, n);
      }
    }

    /** generate_local_port: a walk over words, and within a word over bits. */
    method GenerateLocalPort(env: Env) returns (port: nat)
      requires usedPortsMap.Length == SLOTS
      modifies `idxState, usedPortsMap
      ensures (Value(), port) == Generate(old(Value()), env)
    {
      ghost var s := Value();
      idxState := NextIdx(idxState, env.seed);
      var i: nat := idxState / 32;
      ghost var start: nat := i;
      for j := 0 to 32
        invariant usedPortsMap[..] == s.used && idxState == NextIdx(s.idx, env.seed)
        invariant j < 32 ==> FindBlock(s.used, start, 0) == FindBlock(s.used, i, j)
        invariant j == 32 ==> FindBlock(s.used, start, 0).None?
      {
        if j == 31 {
          i := 0;
        } else {
          i := NextBlock(i);
        }
        var full := WordFull(i);
        if !full {
          var n := ClearBit(i, idxState);
          Generated(s, env, idxState, i, n);
          usedPortsMap[32 * i + n] := true;
          port := PortOf(env.pid, 32 * i + n);
          return;
        }
      }
      NotGenerated(s, env, idxState);
      port := 0;
    }

    /** release_local_port. */
    method ReleaseLocalPort(port: nat)
      requires usedPortsMap.Length == SLOTS && Release(Value(), port).Ok?
      modifies usedPortsMap
      ensures Ok(Value()) == Release(old(Value()), port)
    {
      assert port != 0;
      var nr := port / PID_LIMIT;
      var bit := nr % 32;
      nr := nr / 32;
      assert usedPortsMap[32 * nr + bit];
      usedPortsMap[32 * nr + bit] := false;
    }

    /** _nl_socket_used_ports_release_all: nothing is touched up to the first word with a bit set. */
    method UsedPortsReleaseAll(usedPorts: array<bool>)
      requires usedPortsMap.Length == SLOTS == usedPorts.Length && usedPorts != usedPortsMap
      requires ReleaseAll(Value(), usedPorts[..]).Ok?
      modifies usedPortsMap
      ensures Ok(Value()) == ReleaseAll(old(Value()), usedPorts[..])
    {
      for slot := 0 to SLOTS
        invariant forall k :: 0 <= k < slot ==> usedPortsMap[k] == (old(usedPortsMap[k]) && !usedPorts[k])
        invariant forall k :: slot <= k < SLOTS ==> usedPortsMap[k] == old(usedPortsMap[k])
      {
        if usedPorts[slot] {
          assert old(usedPortsMap[..])[slot] by { assert usedPorts[..][slot]; }
          usedPortsMap[slot] := false;
        }
      }
      assert usedPortsMap[..] == Without(old(usedPortsMap[..]), usedPorts[..]);
    }

    method SocketAlloc(k: nat)
      requires usedPortsMap.Length == SLOTS && Valid(Value(), Nothing()) && k !in sockets
      modifies this
      ensures Value() == AllocSocket(old(Value()), k) && Valid(Value(), Nothing())
    {
      StepKeeps(Value(), StepAlloc(k));
      sockets := sockets[k := Socket(0, true, false)];
    }

    method SocketFree(k: nat)
      requires usedPortsMap.Length == SLOTS && Valid(Value(), Nothing()) && k in sockets
      modifies this, usedPortsMap
      ensures Ok(Value()) == FreeSocket(old(Value()), k) && Valid(Value(), Nothing())
    {
      FreeKeeps(Value(), k);
      if !sockets[k].own {
        ReleaseLocalPort(sockets[k].port);
      }
      sockets := sockets - {k};
    }

    method SocketGetLocalPort(k: nat, env: Env) returns (port: nat)
      requires usedPortsMap.Length == SLOTS && Valid(Value(), Nothing()) && k in sockets
      modifies this, usedPortsMap
      ensures Ok((Value(), port)) == GetLocalPort(old(Value()), k, env) && Valid(Value(), Nothing())
      ensures port == sockets[k].port != 0
    {
      GetKeeps(Value(), k, env);
      if sockets[k].port == 0 {
        port := GenerateLocalPort(env);
        if port == 0 {
          sockets := sockets[k := sockets[k].(port := U32_MAX, own := true)];
        } else {
          sockets := sockets[k := sockets[k].(port := port, own := false)];
        }
      }
      port := sockets[k].port;
    }

    method SocketSetLocalPort(k: nat, port: nat)
      requires usedPortsMap.Length == SLOTS && SetLocalPort(Value(), k, port).Ok?
      modifies this, usedPortsMap
      ensures Ok(Value()) == SetLocalPort(old(Value()), k, port)
    {
      if !sockets[k].own {
        ReleaseLocalPort(sockets[k].port);
      }
      sockets := sockets[k := sockets[k].(port := port, own := true)];
    }

    /** The retry loop of nl_connect; ports found in use are kept in a map of their own. */
    method BindNewPort(k: nat, a: Answers) returns (outcome: Outcome)
      requires usedPortsMap.Length == SLOTS && Valid(Value(), Nothing()) && k in sockets && sockets[k].own
      modifies this, usedPortsMap
      ensures Ok((Value(), outcome)) == BindNew(old(Value()), k, a) && Valid(Value(), Nothing())
    {
      BindNewKeeps(Value(), k, a);
      ghost var s := Value();
      var usedPorts := new bool[SLOTS](_ => false);
      assert usedPorts[..] == Nothing();
      var ntries := 0;
      var port := 0;
      while true
        invariant ntries <= MAX_TRIES && usedPortsMap.Length == SLOTS == usedPorts.Length && usedPorts != usedPortsMap
        invariant fresh(usedPorts)
        invariant Retry(Value(), k, usedPorts[..], a, ntries) == Retry(s, k, Nothing(), a, 0)
        invariant Retry(s, k, Nothing(), a, 0).Ok?
        decreases MAX_TRIES - ntries
      {
        if ntries > 5 {
          sockets := sockets[k := sockets[k].(port := 0, own := true)];
          outcome := GaveUp;
          break;
        }
        port := GenerateLocalPort(a.envs(ntries));
        sockets := sockets[k := sockets[k].(port := port, own := port == 0)];
        if port == 0 {
          outcome := GaveUp;
          break;
        }
        var bind := a.binds(ntries);
        if bind == Bound {
          outcome := Done;
          break;
        }
        if bind == Refused {
          outcome := Failed;
          break;
        }
        usedPorts[port / PID_LIMIT] := true;
        ntries := ntries + 1;
      }
      UsedPortsReleaseAll(usedPorts);
    }

    /** nl_connect. */
    method SocketConnect(k: nat, a: Answers) returns (ok: bool)
      requires usedPortsMap.Length == SLOTS && Valid(Value(), Nothing()) && k in sockets
      modifies this, usedPortsMap
      ensures Ok((Value(), ok)) == Connect(old(Value()), k, a) && Valid(Value(), Nothing())
    {
      ConnectKeeps(Value(), k, a);
      if sockets[k].connected || !a.ready {
        return false;
      }
      var tryBind := true;
      if sockets[k].port == 0 {
        assert SocketOk(sockets[k]);
        var outcome := BindNewPort(k, a);
        if outcome == Failed {
          return false;
        }
        tryBind := outcome != Done;
      }
      if tryBind && !a.lastBind {
        return false;
      }
      if !a.named {
        return false;
      }
      if sockets[k].port != a.localPort {
        SocketSetLocalPort(k, a.localPort);
      }
      sockets := sockets[k := sockets[k].(connected := true)];
      return true;
    }
  }
}
