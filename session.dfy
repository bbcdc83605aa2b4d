/**
  The session code of the communication CPU, in its own imperative form: a
  `Congress` that lives as long as the server, a `Session` per connection, and
  the handlers that update them in place. Each method's postcondition ties the
  new state and the effects it produced to the functions of `SessionSpec`,
  where the properties of the state machine are proved.
 */
module Session {
  import opened Io
  import HostProto
  import KernProto
  import opened SessionSpec

  /** State that persists across connections: the saved RTIO timeline position.
      The kernel cache is opaque (see `KernEnv`). */
  class Congress {
    var now: u64

    constructor ()
      ensures now == 0
    {
      now := 0;
    }
  }

  /** Per-connection state. The watchdog set is opaque (see `KernEnv`). */
  class Session {
    var kernelState: KernelState

    constructor ()
      ensures kernelState == Absent
    {
      kernelState := Absent;
    }
  }

  /** `comm_handle`: serve one request from the host. */
  method CommHandle(session: Session, read: HostRead) returns (effects: seq<Effect>, result: Result)
    modifies session
    ensures CommOutcome(session.kernelState, effects, result) == HostPoll(old(session.kernelState), read)
  {
    if read.ReadFailed? {
      return [], Err(read.error);
    }
    var env := read.env;
    match read.request {
      case Ident =>
        effects, result := [HostWrite(HostProto.IdentReply(env.ident))], Ok;
      case Log =>
        effects, result := [HostWrite(HostProto.LogReply(env.log))], Ok;
      case LogClear =>
        effects, result := [ClearLog, HostWrite(HostProto.LogReply(""))], Ok;
      case FlashRead(key) =>
        effects, result := [HostWrite(HostProto.FlashReadReply(env.flashValue))], Ok;
      case FlashWrite(key, value) =>
        var reply := if env.flashWriteOk then HostProto.FlashOk else HostProto.FlashError;
        effects, result := [ConfigWrite(key, value), HostWrite(reply)], Ok;
      case FlashRemove(key) =>
        effects, result := [ConfigRemove(key), HostWrite(HostProto.FlashOk)], Ok;
      case FlashErase =>
        effects, result := [ConfigErase, HostWrite(HostProto.FlashOk)], Ok;
      case SwitchClock(clock) =>
        if IsRunning(session.kernelState) {
          return [HostWrite(HostProto.ClockSwitchFailed)], Ok;
        }
        var reply := if env.clockSwitched then HostProto.ClockSwitchCompleted else HostProto.ClockSwitchFailed;
        effects, result := [SwitchRtioClock(clock), HostWrite(reply)], Ok;
      case LoadLibrary(library) =>
        if IsRunning(session.kernelState) {
          return [HostWrite(HostProto.LoadFailed)], Ok;
        }
        effects := [KernStart, KernSend(KernProto.LoadRequest(library))];
        match env.loadReply {
          case LoadReply(None) =>
            session.kernelState := Loaded;
            effects, result := effects + [HostWrite(HostProto.LoadCompleted)], Ok;
          case LoadReply(Some(cause)) =>
            effects, result := effects + [HostWrite(HostProto.LoadFailed)], Ok;
          case _ =>
            result := Err(ProtocolError);
        }
      case RunKernel =>
        if session.kernelState != Loaded {
          return [HostWrite(HostProto.KernelStartupFailed)], Ok;
        }
        session.kernelState := Running;
        effects, result := [KernAck], Ok;
      case OtherRequest(_) =>
        effects, result := [], Err(ProtocolError);
    }
  }

  /** `kern_handle`: serve one message from the kernel CPU. */
  method KernHandle(congress: Congress, session: Session, msg: KernProto.Message, env: KernEnv)
    returns (effects: seq<Effect>, result: Result)
    modifies congress
    ensures KernOutcome(congress.now, effects, result) == KernStep(session.kernelState, old(congress.now), msg, env)
  {
    if StandingBy(msg, session.kernelState) {
      return [], Ok;
    }
    if session.kernelState != Running {
      return [], Err(ProtocolError);
    }
    match msg {
      case KernelLog(text) =>
        effects, result := [LogKernelMessage(text), KernAck], Ok;
      case NowInitRequest =>
        effects, result := [KernSend(KernProto.NowInitReply(congress.now))], Ok;
      case NowSave(n) =>
        congress.now := n;
        effects, result := [KernAck], Ok;
      case WatchdogSetRequest(ms) =>
        if env.watchdogId.None? {
          return [], Err(IoError(Other, "out of watchdogs"));
        }
        var id := env.watchdogId.value;
        effects, result := [ArmWatchdog(ms, id), KernSend(KernProto.WatchdogSetReply(id))], Ok;
      case WatchdogClear(id) =>
        effects, result := [DisarmWatchdog(id), KernAck], Ok;
      case CacheGetRequest(key) =>
        effects, result := [KernSend(KernProto.CacheGetReply(env.cacheValue))], Ok;
      case CachePutRequest(key, value) =>
        effects := if env.cachePutOk then [CacheStore(key, value)] else [];
        effects, result := effects + [KernSend(KernProto.CachePutReply(env.cachePutOk))], Ok;
      case _ =>
        effects, result := [], Err(ProtocolError);
    }
  }

  /** One pass of `handle`'s polling loop. */
  method Poll(congress: Congress, session: Session, tick: Tick) returns (effects: seq<Effect>, error: Option<IoError>)
    modifies congress, session
    ensures TickOutcome(session.kernelState, congress.now, effects, error)
         == TickStep(old(session.kernelState), old(congress.now), tick)
  {
    effects := [];
    if tick.host.Some? {
      var e, r := CommHandle(session, tick.host.value);
      effects := e;
      if r.Err? {
        return effects, Some(r.error);
      }
    }
    if tick.kern.Some? {
      var e, r := KernHandle(congress, session, tick.kern.value.message, tick.kern.value.env);
      effects := effects + e;
      if r.Err? {
        return effects, Some(r.error);
      }
    }
    if session.kernelState == Running {
      if tick.watchdogExpired {
        return effects + [HostWrite(HostProto.WatchdogExpired)], Some(IoError(Other, "watchdog expired"));
      }
      if !tick.clockOk {
        return effects + [HostWrite(HostProto.ClockFailure)], Some(IoError(Other, "RTIO clock failure"));
      }
    }
    error := None;
  }

  /** `handle`: check the magic, open a session and poll until something fails.
      `error == None` means the ticks ran out with the connection still open. */
  method Handle(congress: Congress, conn: Connection) returns (effects: seq<Effect>, error: Option<IoError>)
    modifies congress
    ensures var o := HandleSpec(old(congress.now), conn);
      congress.now == o.now && effects == o.effects && error == o.error
  {
    var magic := CheckMagic(conn.magic);
    if magic.Err? {
      return [], Some(magic.error);
    }
    var session := new Session();
    ghost var spec := RunTicks(Absent, congress.now, conn.ticks);
    effects := [];
    var i := 0;
    while i < |conn.ticks|
      invariant 0 <= i <= |conn.ticks|
      invariant Tracks(spec, effects, RunTicks(session.kernelState, congress.now, conn.ticks[i..]))
      decreases |conn.ticks| - i
    {
      ghost var st0, now0 := session.kernelState, congress.now;
      assert conn.ticks[i..][0] == conn.ticks[i] && conn.ticks[i..][1..] == conn.ticks[i + 1..];
      var e, err := Poll(congress, session, conn.ticks[i]);
      RunTicksStep(spec, effects, st0, now0, conn.ticks[i..], TickOutcome(session.kernelState, congress.now, e, err));
      if err.Some? {
        // dropping the session stops the kernel
        return effects + e + [KernStop], err;
      }
      effects := effects + e;
      i := i + 1;
    }
    error := None;
  }

  /** `handler`: one `Congress` for the life of the server, connections served in
      turn. The loop stops at a connection that is still open. */
  method Handler(conns: seq<Connection>) returns (effects: seq<Effect>, now: u64)
    ensures Serve(0, conns) == ServeOutcome(now, effects)
  {
    var congress := new Congress();
    effects := [];
    var i := 0;
    while i < |conns|
      invariant 0 <= i <= |conns|
      invariant Serve(0, conns) == Serve(congress.now, conns[i..]).(
        effects := effects + Serve(congress.now, conns[i..]).effects)
      decreases |conns| - i
    {
      assert conns[i..][0] == conns[i] && conns[i..][1..] == conns[i + 1..];
      var e, err := Handle(congress, conns[i]);
      effects := effects + e;
      if err.None? {
        break;
      }
      i := i + 1;
    }
    now := congress.now;
  }
}
