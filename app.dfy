/**
 * The 3DS application: the message router `on_message` and the connection
 * state machine of `main` (accept, handshake, pump, send on a key press).
 *
 * Each turn of the main loop is a `Tick` record of what the platform and
 * the socket calls report on that turn.
 */
module App {
  import opened Wrappers
  import Transport
  import Handshake
  import AcceptKey

  /** The size of the top framebuffer: 400 by 240 pixels of 4 bytes. */
  const FrameSize: nat := 400 * 240 * 4

  /** The bytes of the text sent on a press of A: "meow!". */
  const Meow: seq<byte> := [0x6D, 0x65, 0x6F, 0x77, 0x21]

  /**
   * on_message: a text message is copied into a buffer one byte longer
   * and NUL-terminated (it is then printed: `shown`); a binary message of
   * exactly one framebuffer's size replaces the framebuffer; anything
   * else does nothing.
   */
  method OnMessage(m: Transport.Message, framebuffer: array<byte>) returns (shown: Option<seq<byte>>)
    requires framebuffer.Length == FrameSize
    modifies framebuffer
    ensures m.opcode == 1 <==> shown.Some?
    ensures shown.Some? ==>
      |shown.value| == |m.payload| + 1 && shown.value[..|m.payload|] == m.payload && shown.value[|m.payload|] == 0
    ensures framebuffer[..] == if m.opcode == 2 && |m.payload| == FrameSize then m.payload else old(framebuffer[..])
  {
    if m.opcode == 1 {
      var s := new byte[|m.payload| + 1];
      forall i | 0 <= i < |m.payload| {
        s[i] := m.payload[i];
      }
      s[|m.payload|] := 0;
      assert s[..|m.payload|] == m.payload;
      return Some(s[..]);
    } else if m.opcode == 2 {
      if |m.payload| == FrameSize {
        forall i | 0 <= i < FrameSize {
          framebuffer[i] := m.payload[i];
        }
        assert framebuffer[..] == m.payload;
      }
    }
    return None;
  }

  /** The variables of `main` that the loop updates. */
  datatype Session = Session(connected: bool, connecting: bool, client: int)

  /** Before the loop: neither connected nor connecting, no client socket. */
  const Start := Session(false, false, -1)

  /** What one turn of the loop reports. */
  datatype Tick = Tick(
    running: bool,                             // aptMainLoop
    accepted: int,                             // what `accept` returns if called: -1 or a socket
    request: seq<Handshake.ReadEvent>,         // the reads `http_handshake` sees if called
    response: seq<Handshake.WriteEvent>,       // the writes `http_handshake` sees if called
    select: bool,                              // SELECT pressed this turn
    keyA: bool,                                // A pressed this turn
    queueAccepted: bool,                       // the codec accepts the queued message
    wantRead: bool,                            // the codec's wants when `ws3ds_poll` starts
    wantWrite: bool,
    rounds: seq<Transport.Round>)              // the pump's rounds if polled

  /** The side effects of the loop, in order. */
  datatype Action =
    | Accept(socket: int)       // `accept` was called and returned `socket`
    | Shake(socket: int, code: int)  // `http_handshake` on `socket` returned `code`
    | Close(socket: int)        // `close` on `socket`
    | Init(socket: int)         // `ws3ds_init` on `socket`
    | SendMeow                  // `ws3ds_send_text("meow!")`
    | Poll(code: int)           // `ws3ds_poll` returned `code`

  /** The callbacks a tick's pump may make return -1 or a count from `recv`. */
  predicate ValidTick(t: Tick)
  {
    forall k :: 0 <= k < |t.rounds| ==> Transport.ValidReads(t.rounds[k].received)
  }

  /** What `http_handshake` returns on this tick's socket traffic. */
  function ShakeCode(sha1: seq<byte> -> AcceptKey.Digest, t: Tick): (code: int)
    ensures code == 0 || code == -1
  {
    var reply := Handshake.Reply(sha1, t.request);
    if reply.Some? && Handshake.Delivers(t.response, |reply.value|) then 0 else -1
  }

  /**
   * The connect half of a turn of `main`'s loop, given what `http_handshake`
   * returns if called: start connecting when idle, accept when there is no
   * client socket, and shake hands on it.
   */
  function Connect(s: Session, e: Transport.State, t: Tick, code: int): (Session, Transport.State, seq<Action>)
  {
    var connecting := s.connecting || (!s.connected && !s.connecting);
    if !connecting then (s, e, [])
    else
      var client := if s.client == -1 then t.accepted else s.client;
      var accepts := if s.client == -1 then [Accept(t.accepted)] else [];
      if client == -1 then (Session(s.connected, connecting, client), e, accepts)
      else if code == -1 then
        (Session(s.connected, connecting, -1), e, accepts + [Shake(client, -1), Close(client)])
      else
        (Session(true, false, client), Transport.InitState(e, client), accepts + [Shake(client, code), Init(client)])
  }

  /**
   * The connected half of a turn of `main`'s loop, after SELECT was not
   * pressed: while connected, queue "meow!" on A and pump; a pump result of
   * -1 closes the client socket.
   */
  function Interact(s: Session, e: Transport.State, t: Tick): (Session, Transport.State, seq<Action>)
  {
    if !s.connected then (s, e, [])
    else
      var e1 := if t.keyA && t.queueAccepted then e.(enqueued := e.enqueued + [Transport.Message(1, Meow)]) else e;
      var meow := if t.keyA then [SendMeow] else [];
      var (code, e2) := Transport.PollSpec(e1, t.wantRead, t.wantWrite, t.rounds);
      if code == -1 then (Session(false, s.connecting, -1), e2, meow + [Poll(code), Close(s.client)])
      else (s, e2, meow + [Poll(code)])
  }

  /** The loop of `main` over the ticks: it ends when `aptMainLoop` fails, on SELECT, or when the ticks run out. */
  function Run(sha1: seq<byte> -> AcceptKey.Digest, s: Session, e: Transport.State, ticks: seq<Tick>)
    : (Session, Transport.State, seq<Action>)
    decreases |ticks|
  {
    if ticks == [] || !ticks[0].running then (s, e, [])
    else
      var (s1, e1, a1) := Connect(s, e, ticks[0], ShakeCode(sha1, ticks[0]));
      if ticks[0].select then (s1, e1, a1)
      else
        var (s2, e2, a2) := Interact(s1, e1, ticks[0]);
        var (s3, e3, a3) := Run(sha1, s2, e2, ticks[1..]);
        (s3, e3, a1 + a2 + a3)
  }

  /** The loop's invariant: never connected and connecting at once, and a connection has a socket. */
  predicate Consistent(s: Session)
  {
    !(s.connected && s.connecting) && (s.connected ==> s.client != -1)
  }

  /**
   * After the connect half of a turn the loop is either connected or
   * connecting; when still connecting it holds no client socket, because
   * a failed handshake closes it.
   */
  lemma ConnectState(s: Session, e: Transport.State, t: Tick, code: int)
    requires Consistent(s) && (code == 0 || code == -1)
    ensures var s1 := Connect(s, e, t, code).0;
      Consistent(s1) && s1.connected != s1.connecting && (s1.connecting ==> s1.client == -1)
  {
  }

  /**
   * `accept` is called only when there is no client socket and the loop
   * is not connected; a handshake is made exactly when connecting with a
   * socket, and a failed one closes that socket.
   */
  lemma ConnectCalls(s: Session, e: Transport.State, t: Tick, code: int)
    requires Consistent(s) && (code == 0 || code == -1)
    ensures var (s1, e1, a) := Connect(s, e, t, code);
      var client := if s.client == -1 then t.accepted else s.client;
      (Accept(t.accepted) in a <==> s.client == -1 && !s.connected)
      && (Shake(client, code) in a <==> !s.connected && client != -1)
      && (Close(client) in a <==> !s.connected && client != -1 && code == -1)
  {
  }

  /** The engine is started on the client socket exactly when the loop becomes connected, and otherwise untouched. */
  lemma ConnectStarts(s: Session, e: Transport.State, t: Tick, code: int)
    requires Consistent(s) && (code == 0 || code == -1)
    ensures var (s1, e1, a) := Connect(s, e, t, code);
      (s1.connected && !s.connected <==> Init(s1.client) in a)
      && e1 == (if s1.connected && !s.connected then Transport.InitState(e, s1.client) else e)
  {
  }

  /**
   * The second half of a turn keeps the invariant.  The pump runs only
   * while connected; a result of -1 disconnects and closes the client
   * socket, any other result (0, or -2 before initialization) leaves the
   * session as it was.  "meow!" is sent only on A while connected.
   */
  lemma InteractOutcome(s: Session, e: Transport.State, t: Tick)
    requires Consistent(s)
    ensures var (s2, e2, a) := Interact(s, e, t);
      Consistent(s2)
      && (SendMeow in a <==> t.keyA && s.connected)
      && (s.connected <==> exists code :: Poll(code) in a)
      && (forall code :: Poll(code) in a ==>
            (code == -1 <==> Close(s.client) in a)
            && (code == -1 ==> s2 == Session(false, s.connecting, -1))
            && (code != -1 ==> s2 == s))
  {
  }

  /** Every state the loop reaches is consistent. */
  lemma {:induction false} RunConsistent(sha1: seq<byte> -> AcceptKey.Digest, s: Session, e: Transport.State, ticks: seq<Tick>)
    requires Consistent(s)
    decreases |ticks|
    ensures Consistent(Run(sha1, s, e, ticks).0)
  {
    if ticks != [] && ticks[0].running {
      var code := ShakeCode(sha1, ticks[0]);
      ConnectState(s, e, ticks[0], code);
      var (s1, e1, a1) := Connect(s, e, ticks[0], code);
      if !ticks[0].select {
        InteractOutcome(s1, e1, ticks[0]);
        var (s2, e2, a2) := Interact(s1, e1, ticks[0]);
        RunConsistent(sha1, s2, e2, ticks[1..]);
      }
    }
  }

  /** Prepend the actions already taken to the rest of a run. */
  function Then(done: seq<Action>, rest: (Session, Transport.State, seq<Action>)): (Session, Transport.State, seq<Action>)
  {
    (rest.0, rest.1, done + rest.2)
  }

  /** The accept-and-handshake half of one turn of `main`'s loop in src/main.c. */
  method ConnectTurn(sha1: seq<byte> -> AcceptKey.Digest, engine: Transport.Engine, s: Session, t: Tick)
    returns (next: Session, acts: seq<Action>)
    modifies engine
    ensures (next, engine.Snapshot(), acts) == Connect(s, old(engine.Snapshot()), t, ShakeCode(sha1, t))
  {
    var connected, connecting, client := s.connected, s.connecting, s.client;
    acts := [];
    if !connected && !connecting {
      connecting := true;
    }
    if connecting {
      if client == -1 {
        client := t.accepted;
        acts := [Accept(client)];
      }
      if client != -1 {
        var code, _ := Handshake.HttpHandshake(sha1, t.request, t.response);
        assert code == ShakeCode(sha1, t);
        if code == -1 {
          acts := acts + [Shake(client, -1), Close(client)];
          client := -1;
        } else {
          connecting := false;
          engine.Init(client);
          connected := true;
          acts := acts + [Shake(client, code), Init(client)];
        }
      }
    }
    next := Session(connected, connecting, client);
  }

  /** The poll-and-send half of one turn of `main`'s loop in src/main.c. */
  method InteractTurn(engine: Transport.Engine, s: Session, t: Tick) returns (next: Session, acts: seq<Action>)
    requires ValidTick(t)
    modifies engine
    ensures (next, engine.Snapshot(), acts) == Interact(s, old(engine.Snapshot()), t)
  {
    next, acts := s, [];
    if s.connected {
      ghost var e := engine.Snapshot();
      if t.keyA {
        engine.SendText(Meow, t.queueAccepted);
        acts := acts + [SendMeow];
      }
      assert engine.Snapshot() == if t.keyA && t.queueAccepted then e.(enqueued := e.enqueued + [Transport.Message(1, Meow)]) else e;
      assert acts == if t.keyA then [SendMeow] else [];
      var code := engine.Poll(t.wantRead, t.wantWrite, t.rounds);
      acts := acts + [Poll(code)];
      if code == -1 {
        next := Session(false, s.connecting, -1);
        assert acts + [Close(s.client)] == (if t.keyA then [SendMeow] else []) + [Poll(code), Close(s.client)];
        acts := acts + [Close(s.client)];
      }
    }
  }

  /** One turn of the run, unfolded at tick `k`. */
  lemma RunTurn(sha1: seq<byte> -> AcceptKey.Digest, s: Session, e: Transport.State, ticks: seq<Tick>, k: nat)
    requires k < |ticks| && ticks[k].running
    ensures var (s1, e1, a1) := Connect(s, e, ticks[k], ShakeCode(sha1, ticks[k]));
      Run(sha1, s, e, ticks[k..]) ==
        if ticks[k].select then (s1, e1, a1)
        else var (s2, e2, a2) := Interact(s1, e1, ticks[k]); Then(a1 + a2, Run(sha1, s2, e2, ticks[k + 1..]))
  {
    assert ticks[k..][0] == ticks[k] && ticks[k..][1..] == ticks[k + 1..];
  }

  /** Actions taken in two steps are taken in one. */
  lemma ThenThen(log: seq<Action>, acts: seq<Action>, rest: (Session, Transport.State, seq<Action>))
    ensures Then(log, Then(acts, rest)) == Then(log + acts, rest)
  {
    assert log + (acts + rest.2) == log + acts + rest.2;
  }

  /**
   * `main`'s loop, after registering `on_message`: the
   * engine's globals and the actions taken follow `Run`.
   */
  method MainLoop(sha1: seq<byte> -> AcceptKey.Digest, engine: Transport.Engine, ticks: seq<Tick>)
    returns (s: Session, log: seq<Action>)
    requires forall k :: 0 <= k < |ticks| ==> ValidTick(ticks[k])
    modifies engine
    ensures (s, engine.Snapshot(), log) ==
      Run(sha1, Start, old(engine.Snapshot()).(hasCallback := true), ticks)
  {
    engine.SetMessageCallback(true);
    s, log := Start, [];
    assert ticks[0..] == ticks;
    assert Then(log, Run(sha1, s, engine.Snapshot(), ticks)).2 == Run(sha1, s, engine.Snapshot(), ticks).2;
    var k := 0;
    while k < |ticks| && ticks[k].running
      invariant k <= |ticks|
      invariant Then(log, Run(sha1, s, engine.Snapshot(), ticks[k..]))
        == Run(sha1, Start, old(engine.Snapshot()).(hasCallback := true), ticks)
    {
      var t := ticks[k];
      RunTurn(sha1, s, engine.Snapshot(), ticks, k);
      var acts;
      s, acts := ConnectTurn(sha1, engine, s, t);
      if t.select {
        log := log + acts;
        return;
      }
      var more;
      s, more := InteractTurn(engine, s, t);
      ThenThen(log, acts + more, Run(sha1, s, engine.Snapshot(), ticks[k + 1..]));
      log := log + (acts + more);
      k := k + 1;
    }
    assert log + [] == log;
  }
}
