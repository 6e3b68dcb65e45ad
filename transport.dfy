/**
 * The session engine of ws3ds: the globals `ws3ds_initialized`,
 * `ws3ds_session.fd`, `ws3ds_event` and the message callback, the wslay
 * callbacks that tear the session down, and the pump `ws3ds_poll`.
 *
 * The wslay codec and `poll` are an oracle: each pump iteration is one
 * `Round` record of what `poll` reported, which callbacks
 * `wslay_event_recv` made, what the codec calls returned and what the codec
 * wants afterwards.
 */
module Transport {
  import opened Wrappers

  /** `poll` event bits. */
  const PollIn: bv16 := 0x01
  const PollOut: bv16 := 0x04
  const PollErr: bv16 := 0x08
  const PollHup: bv16 := 0x10
  const PollNval: bv16 := 0x20

  /** A WebSocket frame opcode (four bits). */
  type Opcode = x: int | 0 <= x < 16

  /** A message as the codec hands it over or takes it for sending. */
  datatype Message = Message(opcode: Opcode, payload: seq<byte>)

  /** One callback the codec makes while receiving. */
  datatype Callback =
    | SocketRead(count: int)       // recv_callback, with what `recv` returned
    | Arrived(message: Message)    // on_msg_recv_callback

  /** One iteration of the pump, as seen from the outside. */
  datatype Round = Round(
    ready: int,                // what `poll` returned: -1 error, 0 timeout, else ready descriptors
    revents: bv16,             // the events `poll` reported
    received: seq<Callback>,   // the callbacks `wslay_event_recv` made
    recvStatus: int,           // what `wslay_event_recv` returned
    sendStatus: int,           // what `wslay_event_send` returned
    wantRead: bool,            // `wslay_event_want_read` after the I/O
    wantWrite: bool)           // `wslay_event_want_write` after the I/O

  /** The engine's globals. */
  datatype State = State(
    initialized: bool,         // ws3ds_initialized
    contextLive: bool,         // the wslay context is allocated
    fd: int,                   // ws3ds_session.fd
    pollFd: int,               // ws3ds_event.fd
    events: bv16,              // ws3ds_event.events
    hasCallback: bool,         // ws3ds_message_callback is set
    delivered: seq<Message>,   // messages handed to the callback, in order
    enqueued: seq<Message>)    // every message `wslay_event_queue_msg` accepted, in order

  /** wslay_is_ctrl_frame: the opcode has bit 3 set. */
  predicate IsControl(opcode: Opcode)
  {
    opcode >= 8
  }

  /** The poll events for the codec's wants. */
  function EventsFor(wantRead: bool, wantWrite: bool): (e: bv16)
    ensures (e & PollIn != 0) == wantRead && (e & PollOut != 0) == wantWrite
    ensures e & !(PollIn | PollOut) == 0
  {
    (if wantRead then PollIn else 0) | (if wantWrite then PollOut else 0)
  }

  /** ws3ds_init on the state. */
  function InitState(s: State, socket: int): State
  {
    s.(initialized := true, contextLive := true, fd := socket, pollFd := socket, events := PollIn)
  }

  /** ws3ds_exit on the state: the context is freed only when initialized. */
  function ExitState(s: State): State
  {
    if s.initialized then s.(initialized := false, contextLive := false) else s
  }

  /** `recv` returns -1 or a count. */
  predicate ValidReads(calls: seq<Callback>)
  {
    forall i :: 0 <= i < |calls| && calls[i].SocketRead? ==> calls[i].count >= -1
  }

  /** The globals the session's I/O never touches are the same in `s` and `t`. */
  predicate Unrelated(s: State, t: State)
  {
    t.initialized == s.initialized && t.contextLive == s.contextLive && t.pollFd == s.pollFd
    && t.hasCallback == s.hasCallback && t.enqueued == s.enqueued
  }

  /** One callback of the codec on the state. */
  function Step(s: State, c: Callback): State
  {
    match c
    case SocketRead(count) => if count == 0 then s.(fd := -1) else s
    case Arrived(m) =>
      if IsControl(m.opcode) then s.(fd := -1)
      else if s.hasCallback then s.(delivered := s.delivered + [m])
      else s
  }

  /** The callbacks of one `wslay_event_recv`, in order. */
  function Deliver(s: State, calls: seq<Callback>): (t: State)
    decreases |calls|
    ensures Unrelated(s, t) && t.events == s.events
  {
    if calls == [] then s else Deliver(Step(s, calls[0]), calls[1..])
  }

  /** A callback that ends the session: end of stream or a control frame. */
  predicate Hangs(c: Callback)
  {
    (c.SocketRead? && c.count == 0) || (c.Arrived? && IsControl(c.message.opcode))
  }

  /** The data message a callback carries, if any. */
  function DataOf(c: Callback): seq<Message>
  {
    if c.Arrived? && !IsControl(c.message.opcode) then [c.message] else []
  }

  /** The data messages among the callbacks, in order. */
  function DataMessages(calls: seq<Callback>): seq<Message>
  {
    if calls == [] then [] else DataOf(calls[0]) + DataMessages(calls[1..])
  }

  /** One callback appends its data message when a callback is registered. */
  lemma StepMessages(s: State, c: Callback)
    ensures Step(s, c).hasCallback == s.hasCallback
    ensures Step(s, c).delivered == s.delivered + (if s.hasCallback then DataOf(c) else [])
  {
  }

  /** The session is dropped exactly when some callback reported end of stream or a control frame. */
  lemma {:induction false} DeliverDrops(s: State, calls: seq<Callback>)
    decreases |calls|
    ensures Deliver(s, calls).fd == if exists i :: 0 <= i < |calls| && Hangs(calls[i]) then -1 else s.fd
  {
    if calls != [] {
      var s1 := Step(s, calls[0]);
      DeliverDrops(s1, calls[1..]);
      if exists i :: 0 <= i < |calls| && Hangs(calls[i]) {
        var i :| 0 <= i < |calls| && Hangs(calls[i]);
        if i > 0 {
          assert Hangs(calls[1..][i - 1]);
        }
      } else {
        assert !Hangs(calls[0]);
        forall i | 0 <= i < |calls| - 1
          ensures !Hangs(calls[1..][i])
        {
          assert calls[1..][i] == calls[i + 1];
        }
      }
    }
  }

  /** Every data message reaches the callback, in order, when one is registered. */
  lemma {:induction false} DeliverMessages(s: State, calls: seq<Callback>)
    decreases |calls|
    ensures Deliver(s, calls).delivered == s.delivered + (if s.hasCallback then DataMessages(calls) else [])
  {
    if calls != [] {
      var s1 := Step(s, calls[0]);
      assert Deliver(s, calls) == Deliver(s1, calls[1..]);
      assert DataMessages(calls) == DataOf(calls[0]) + DataMessages(calls[1..]);
      StepMessages(s, calls[0]);
      DeliverMessages(s1, calls[1..]);
    }
  }

  /** A round fails when a wanted receive or send fails or `poll` reports an error condition. */
  predicate Fails(r: Round)
  {
    (r.revents & PollIn != 0 && r.recvStatus != 0)
    || (r.revents & PollOut != 0 && r.sendStatus != 0)
    || r.revents & (PollErr | PollHup | PollNval) != 0
  }

  /** The receive a round makes when `poll` reported input. */
  function AfterIO(s: State, r: Round): (t: State)
    ensures Unrelated(s, t) && t.events == s.events
  {
    if r.revents & PollIn != 0 then Deliver(s, r.received) else s
  }

  /**
   * The loop of `ws3ds_poll` from state `s` while the codec wants
   * (`wantRead`, `wantWrite`); running out of rounds is a timeout.
   */
  function Pump(s: State, wantRead: bool, wantWrite: bool, rounds: seq<Round>): (int, State)
    decreases |rounds|
  {
    if !(wantRead || wantWrite) then (0, s)
    else if s.fd == -1 then (-1, ExitState(s))
    else if rounds == [] then (0, s.(events := EventsFor(wantRead, wantWrite)))
    else
      var r := rounds[0];
      if r.ready == -1 then (-1, s)
      else
        var s1 := AfterIO(s, r);
        if Fails(r) then (-1, s1)
        else
          var s2 := s1.(events := EventsFor(r.wantRead, r.wantWrite));
          if r.ready == 0 then (0, s2)
          else Pump(s2, r.wantRead, r.wantWrite, rounds[1..])
  }

  /** `ws3ds_poll`: -2 before initialization, otherwise the pump. */
  function PollSpec(s: State, wantRead: bool, wantWrite: bool, rounds: seq<Round>): (int, State)
  {
    if !s.initialized then (-2, s) else Pump(s, wantRead, wantWrite, rounds)
  }

  /** The pump returns 0 or -1. */
  lemma {:induction false} PumpCode(s: State, wantRead: bool, wantWrite: bool, rounds: seq<Round>)
    decreases |rounds|
    ensures Pump(s, wantRead, wantWrite, rounds).0 in {0, -1}
  {
    if (wantRead || wantWrite) && s.fd != -1 && rounds != [] && rounds[0].ready != -1 {
      var r := rounds[0];
      var s1 := AfterIO(s, r);
      if !Fails(r) && r.ready != 0 {
        PumpCode(s1.(events := EventsFor(r.wantRead, r.wantWrite)), r.wantRead, r.wantWrite, rounds[1..]);
      }
    }
  }

  /**
   * Only the hang-up path, taken with the session's fd at -1, calls
   * `ws3ds_exit`: every other outcome, the error returns included, leaves
   * `ws3ds_initialized` and the context as they were.  The callback
   * registration, the log of accepted messages and the polled descriptor
   * never change.
   */
  lemma {:induction false} PumpKeeps(s: State, wantRead: bool, wantWrite: bool, rounds: seq<Round>)
    decreases |rounds|
    ensures var t := Pump(s, wantRead, wantWrite, rounds).1;
      (t.initialized != s.initialized || t.contextLive != s.contextLive ==>
        Pump(s, wantRead, wantWrite, rounds).0 == -1 && t.fd == -1)
      && t.hasCallback == s.hasCallback && t.enqueued == s.enqueued && t.pollFd == s.pollFd
  {
    if (wantRead || wantWrite) && s.fd != -1 && rounds != [] && rounds[0].ready != -1 {
      var r := rounds[0];
      var s1 := AfterIO(s, r);
      if !Fails(r) && r.ready != 0 {
        PumpKeeps(s1.(events := EventsFor(r.wantRead, r.wantWrite)), r.wantRead, r.wantWrite, rounds[1..]);
      }
    }
  }

  /** The pump reaches a `poll` call: initialized, I/O wanted, the session open and a round to run. */
  predicate Polls(s: State, wantRead: bool, wantWrite: bool, rounds: seq<Round>)
  {
    s.initialized && (wantRead || wantWrite) && s.fd != -1 && rounds != []
  }

  /**
   * The outcomes of `ws3ds_poll`, case by case: -2 before initialization;
   * 0 when no I/O is wanted, after a timed-out round or when the rounds run
   * out, with `events` set from the latest wants; `ws3ds_exit` and -1 once
   * the session's fd is -1; -1 without `ws3ds_exit` on a poll error or a
   * failing round, keeping what that round delivered; otherwise the next
   * round runs with the wants the codec reported.
   */
  lemma PollCodes(s: State, wantRead: bool, wantWrite: bool, rounds: seq<Round>)
    ensures !s.initialized ==> PollSpec(s, wantRead, wantWrite, rounds) == (-2, s)
    ensures s.initialized && !(wantRead || wantWrite) ==> PollSpec(s, wantRead, wantWrite, rounds) == (0, s)
    ensures s.initialized && (wantRead || wantWrite) && s.fd == -1 ==>
      PollSpec(s, wantRead, wantWrite, rounds) == (-1, ExitState(s))
    ensures s.initialized && (wantRead || wantWrite) && s.fd != -1 && rounds == [] ==>
      PollSpec(s, wantRead, wantWrite, rounds) == (0, s.(events := EventsFor(wantRead, wantWrite)))
    ensures Polls(s, wantRead, wantWrite, rounds) && rounds[0].ready == -1 ==>
      PollSpec(s, wantRead, wantWrite, rounds) == (-1, s)
    ensures Polls(s, wantRead, wantWrite, rounds) && rounds[0].ready != -1 && Fails(rounds[0]) ==>
      PollSpec(s, wantRead, wantWrite, rounds) == (-1, AfterIO(s, rounds[0]))
    ensures Polls(s, wantRead, wantWrite, rounds) && rounds[0].ready == 0 && !Fails(rounds[0]) ==>
      var r := rounds[0];
      PollSpec(s, wantRead, wantWrite, rounds) == (0, AfterIO(s, r).(events := EventsFor(r.wantRead, r.wantWrite)))
    ensures Polls(s, wantRead, wantWrite, rounds) && rounds[0].ready !in {-1, 0} && !Fails(rounds[0]) ==>
      var r := rounds[0];
      PollSpec(s, wantRead, wantWrite, rounds)
        == PollSpec(AfterIO(s, r).(events := EventsFor(r.wantRead, r.wantWrite)), r.wantRead, r.wantWrite, rounds[1..])
    ensures s.initialized ==> PollSpec(s, wantRead, wantWrite, rounds).0 in {0, -1}
  {
    if s.initialized {
      PumpCode(s, wantRead, wantWrite, rounds);
    }
  }

  /** `ws3ds_exit` twice is `ws3ds_exit` once, and leaves the engine uninitialized. */
  lemma ExitIdempotent(s: State)
    ensures !ExitState(s).initialized
    ensures ExitState(ExitState(s)) == ExitState(s)
    ensures ExitState(s).contextLive == (s.contextLive && !s.initialized)
  {
  }

  /** The engine's globals as an object. */
  class Engine {
    var initialized: bool
    var contextLive: bool
    var fd: int
    var pollFd: int
    var events: bv16
    var hasCallback: bool
    var delivered: seq<Message>
    var enqueued: seq<Message>

    /** The globals as a value. */
    function Snapshot(): State
      reads this
    {
      State(initialized, contextLive, fd, pollFd, events, hasCallback, delivered, enqueued)
    }

    /** Static storage starts zeroed: not initialized, no callback, nothing enqueued. */
    constructor ()
      ensures Snapshot() == State(false, false, 0, 0, 0, false, [], [])
    {
      initialized, contextLive, fd, pollFd, events := false, false, 0, 0, 0;
      hasCallback, delivered, enqueued := false, [], [];
    }

    /** ws3ds_init: adopt the socket, poll for input, create the server context. */
    method Init(socket: int)
      modifies this
      ensures Snapshot() == InitState(old(Snapshot()), socket)
    {
      fd := socket;
      pollFd := socket;
      events := PollIn;
      contextLive := true;
      initialized := true;
    }

    /** ws3ds_exit. */
    method Exit()
      modifies this
      ensures Snapshot() == ExitState(old(Snapshot()))
    {
      if initialized {
        initialized := false;
        contextLive := false;
      }
    }

    /** ws3ds_set_message_callback, with whether the callback is non-null. */
    method SetMessageCallback(registered: bool)
      modifies this
      ensures Snapshot() == old(Snapshot()).(hasCallback := registered)
    {
      hasCallback := registered;
    }

    /**
     * recv_callback, with what `recv` returned: end of stream drops the
     * session and is reported as a failure like an error.
     */
    method RecvCallback(count: int) returns (r: int)
      requires count >= -1
      modifies this
      ensures r == (if count <= 0 then -1 else count)
      ensures Snapshot() == Step(old(Snapshot()), SocketRead(count))
    {
      if count == -1 {
        return -1;
      }
      r := count;
      if r == 0 {
        fd := -1;
        r := -1;
      }
    }

    /** on_msg_recv_callback: a control frame drops the session, data goes to the callback if set. */
    method OnMsgRecvCallback(m: Message)
      modifies this
      ensures Snapshot() == Step(old(Snapshot()), Arrived(m))
    {
      if IsControl(m.opcode) {
        fd := -1;
      } else if hasCallback {
        delivered := delivered + [m];
      }
    }

    /** The callbacks `wslay_event_recv` makes, one after the other. */
    method Receive(calls: seq<Callback>)
      requires ValidReads(calls)
      modifies this
      ensures Snapshot() == Deliver(old(Snapshot()), calls)
    {
      var i := 0;
      while i < |calls|
        invariant i <= |calls|
        invariant Deliver(Snapshot(), calls[i..]) == Deliver(old(Snapshot()), calls)
      {
        assert calls[i..][1..] == calls[i + 1..];
        if calls[i].SocketRead? {
          var _ := RecvCallback(calls[i].count);
        } else {
          OnMsgRecvCallback(calls[i].message);
        }
        i := i + 1;
      }
    }

    /** ws3ds_send_text: queue a text message of the string's bytes. */
    method SendText(text: seq<byte>, accepted: bool)
      modifies this
      ensures Snapshot() == old(Snapshot()).(enqueued := old(enqueued) + (if accepted then [Message(1, text)] else []))
    {
      if accepted {
        enqueued := enqueued + [Message(1, text)];
      }
    }

    /** ws3ds_send_binary: queue a binary message of `data`. */
    method SendBinary(data: seq<byte>, accepted: bool)
      modifies this
      ensures Snapshot() == old(Snapshot()).(enqueued := old(enqueued) + (if accepted then [Message(2, data)] else []))
    {
      if accepted {
        enqueued := enqueued + [Message(2, data)];
      }
    }

    /** ws3ds_poll, with the codec's wants on entry and the rounds that follow. */
    method Poll(wantRead: bool, wantWrite: bool, rounds: seq<Round>) returns (result: int)
      requires forall k :: 0 <= k < |rounds| ==> ValidReads(rounds[k].received)
      modifies this
      ensures (result, Snapshot()) == PollSpec(old(Snapshot()), wantRead, wantWrite, rounds)
    {
      if !initialized {
        return -2;
      }
      var read, write := wantRead, wantWrite;
      var k := 0;
      while read || write
        invariant k <= |rounds|
        invariant Pump(Snapshot(), read, write, rounds[k..]) == PollSpec(old(Snapshot()), wantRead, wantWrite, rounds)
        decreases |rounds| - k
      {
        if fd == -1 {
          Exit();
          return -1;
        }
        if k == |rounds| {
          events := EventsFor(read, write);
          return 0;
        }
        var r := rounds[k];
        assert rounds[k..][0] == r && rounds[k..][1..] == rounds[k + 1..];
        if r.ready == -1 {
          return -1;
        }
        ghost var before := Snapshot();
        if r.revents & PollIn != 0 {
          Receive(r.received);
        }
        assert Snapshot() == AfterIO(before, r);
        if Fails(r) {
          return -1;
        }
        events := EventsFor(r.wantRead, r.wantWrite);
        read, write := r.wantRead, r.wantWrite;
        if r.ready == 0 {
          return 0;
        }
        k := k + 1;
      }
      return 0;
    }
  }
}
