/** Who owns which port: sockets, their local ports and the retries of nl_connect
    (libnl/lib/socket.c, libnl/lib/nl.c). */
module NlSockets {
  import opened Wrappers
  import opened NlPorts

  const MAX_TRIES := 6

  /** `own` is NL_OWN_PORT: the port was not generated. `connected` is s_fd != -1. */
  datatype Socket = Socket(port: nat, own: bool, connected: bool)

  /** `idx` is idx_state. */
  datatype State = State(used: Slots, idx: nat, sockets: map<nat, Socket>)

  /** What a search depends on besides the state: a seed from the clock, and the process number. */
  datatype Env = Env(seed: nat, pid: nat)

  datatype Bind = Bound | InUse | Refused

  /** The answers of the system while connecting: for socket() and its buffers, for every bind of a
      generated port, for the bind of a given port, and for getsockname. */
  datatype Answers = Answers(ready: bool, envs: nat -> Env, binds: nat -> Bind, lastBind: bool, named: bool, localPort: nat)

  /** BUG(), or memory that is not there. */
  datatype Crash = Bug | Dangling

  // ---------- ports ----------

  function NextIdx(idx: nat, seed: nat): nat
  {
    if idx == 0 then seed % 0x1_0000 else (idx + 20011) % 0x1_0000
  }

  function Take(used: Slots, slot: nat): (r: Slots)
    requires slot < SLOTS
  {
    used[slot := true]
  }

  /** generate_local_port. */
  function Generate(s: State, env: Env): (State, nat)
  {
    var t := s.(idx := NextIdx(s.idx, env.seed));
    var slot := FindSlot(t.used, t.idx);
    if slot.None? then (t, 0) else (t.(used := Take(t.used, slot.value)), PortOf(env.pid, slot.value))
  }

  /** release_local_port. */
  function Release(s: State, port: nat): Result<State, Crash>
  {
    if port == 0 || SlotOf(port) >= SLOTS || !s.used[SlotOf(port)] then Err(Bug)
    else Ok(s.(used := s.used[SlotOf(port) := false]))
  }

  predicate Covers(used: Slots, parked: Slots)
  {
    forall slot :: 0 <= slot < SLOTS && parked[slot] ==> used[slot]
  }

  /** _nl_socket_used_ports_release_all. */
  function ReleaseAll(s: State, parked: Slots): Result<State, Crash>
  {
    if !Covers(s.used, parked) then Err(Bug) else Ok(s.(used := Without(s.used, parked)))
  }

  function Without(used: Slots, parked: Slots): (r: Slots)
    ensures forall slot :: 0 <= slot < SLOTS ==> r[slot] == (used[slot] && !parked[slot])
  {
    seq(SLOTS, slot requires 0 <= slot < SLOTS => used[slot] && !parked[slot])
  }

  // ---------- sockets ----------

  function AllocSocket(s: State, k: nat): State
  {
    s.(sockets := s.sockets[k := Socket(0, true, false)])
  }

  function FreeSocket(s: State, k: nat): Result<State, Crash>
  {
    if k !in s.sockets then Err(Dangling)
    else
      var t :- if !s.sockets[k].own then Release(s, s.sockets[k].port) else Ok(s);
      Ok(t.(sockets := t.sockets - {k}))
  }

  function WithPort(s: State, k: nat, port: nat, own: bool): State
    requires k in s.sockets
  {
    s.(sockets := s.sockets[k := s.sockets[k].(port := port, own := own)])
  }

  /** nl_socket_get_local_port. */
  function GetLocalPort(s: State, k: nat, env: Env): Result<(State, nat), Crash>
  {
    if k !in s.sockets then Err(Dangling)
    else if s.sockets[k].port != 0 then Ok((s, s.sockets[k].port))
    else
      var (t, port) := Generate(s, env);
      if port == 0 then Ok((WithPort(t, k, U32_MAX, true), U32_MAX)) else Ok((WithPort(t, k, port, false), port))
  }

  /** nl_socket_set_local_port. */
  function SetLocalPort(s: State, k: nat, port: nat): Result<State, Crash>
  {
    if k !in s.sockets then Err(Dangling)
    else
      var t :- if !s.sockets[k].own then Release(s, s.sockets[k].port) else Ok(s);
      if k !in t.sockets then Err(Dangling) else Ok(WithPort(t, k, port, true))
  }

  /** _nl_socket_set_local_port_no_release with a new port; the socket's former one is not
      released. */
  function Regenerate(s: State, k: nat, env: Env): (State, nat)
    requires k in s.sockets
  {
    var (t, port) := Generate(s, env);
    (WithPort(t, k, port, port == 0), port)
  }

  // ---------- connecting ----------

  datatype Outcome = Done | GaveUp | Failed

  /** The retry loop, from try `n` on: ports the kernel finds in use are parked, so that the search
      goes on to others. */
  function Retry(s: State, k: nat, parked: Slots, a: Answers, n: nat): Result<(State, Slots, Outcome), Crash>
    decreases MAX_TRIES - n
  {
    if k !in s.sockets then Err(Dangling)
    else if n >= MAX_TRIES then Ok((WithPort(s, k, 0, true), parked, GaveUp))
    else
      var (t, port) := Regenerate(s, k, a.envs(n));
      if port == 0 then Ok((t, parked, GaveUp))
      else
        match a.binds(n)
        case Bound => Ok((t, parked, Done))
        case InUse =>
          if SlotOf(port) >= SLOTS then Err(Bug) else Retry(t, k, Take(parked, SlotOf(port)), a, n + 1)
        case Refused => Ok((t, parked, Failed))
  }

  function Nothing(): (r: Slots)
    ensures forall slot :: 0 <= slot < SLOTS ==> !r[slot]
  {
    seq(SLOTS, _ => false)
  }

  /** A new port for a socket without one, and the parked ports released. */
  function BindNew(s: State, k: nat, a: Answers): Result<(State, Outcome), Crash>
  {
    var tried :- Retry(s, k, Nothing(), a, 0);
    var t :- ReleaseAll(tried.0, tried.1);
    Ok((t, tried.2))
  }

  /** What happens once a bind succeeded: the port may turn out to be another one. */
  function AfterBind(s: State, k: nat, a: Answers): Result<(State, bool), Crash>
  {
    if k !in s.sockets then Err(Dangling)
    else if !a.named then Ok((s, false))
    else
      var t :- if s.sockets[k].port != a.localPort then SetLocalPort(s, k, a.localPort) else Ok(s);
      if k !in t.sockets then Err(Dangling)
      else Ok((t.(sockets := t.sockets[k := t.sockets[k].(connected := true)]), true))
  }

  /** nl_connect, and whether it succeeded. */
  function Connect(s: State, k: nat, a: Answers): Result<(State, bool), Crash>
  {
    if k !in s.sockets then Err(Dangling)
    else if s.sockets[k].connected || !a.ready then Ok((s, false))
    else
      var tried :- if s.sockets[k].port == 0 then BindNew(s, k, a) else Ok((s, GaveUp));
      match tried.1
      case Failed => Ok((tried.0, false))
      case Done => AfterBind(tried.0, k, a)
      case GaveUp => if !a.lastBind then Ok((tried.0, false)) else AfterBind(tried.0, k, a)
  }

  function Close(s: State, k: nat): Result<State, Crash>
  {
    if k !in s.sockets then Err(Dangling)
    else Ok(s.(sockets := s.sockets[k := s.sockets[k].(connected := false)]))
  }
}
