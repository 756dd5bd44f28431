/** What the transport promises, stated and proved about the functions of `RpcSpec`. */
module RpcProperties {
  import opened Wrappers
  import opened FrameCodec
  import opened SocketStream
  import opened RpcSpec

  lemma DeliveriesCons(cb: Option<CallbackId>, ev: PushEvent, rest: seq<PushEvent>)
    ensures Deliveries(cb, [ev] + rest)
         == (if cb.Some? then [Notice(cb.value, ev)] else []) + Deliveries(cb, rest)
  {
    assert ([ev] + rest)[1..] == rest;
  }

  /**
    Push filtering: every push read before the response is delivered to the
    callback exactly once, in order, when a callback is set, and not at all
    otherwise.
  */
  lemma {:induction false} RecvResponseDelivers(parse: seq<Byte> -> Option<Frame>, s: seq<RecvEvent>,
                                                cb: Option<CallbackId>, notices: seq<Notice>)
    ensures RecvResponse(parse, s, cb, notices).2 == notices + Deliveries(cb, SkippedPushes(parse, s))
    decreases |Available(s)|
  {
    var (frame, rest) := ReadFrame(s);
    if frame.Got? && parse(frame.value).Some? && parse(frame.value).value.Push? {
      var ev := parse(frame.value).value.event;
      RecvResponseDelivers(parse, rest, cb, notices + if cb.Some? then [Notice(cb.value, ev)] else []);
      DeliversAfterPush(parse, s, cb, notices, frame.value, ev);
    } else {
      DeliversAtStop(parse, s, cb, notices);
    }
  }

  /** The delivery claim for a stream that starts with a push, from the claim for the stream after it. */
  lemma DeliversAfterPush(parse: seq<Byte> -> Option<Frame>, s: seq<RecvEvent>, cb: Option<CallbackId>,
                          notices: seq<Notice>, payload: seq<Byte>, ev: PushEvent)
    requires ReadFrame(s).0 == Got(payload) && parse(payload) == Some(Push(ev))
    requires var delivered := if cb.Some? then [Notice(cb.value, ev)] else [];
      RecvResponse(parse, ReadFrame(s).1, cb, notices + delivered).2
      == (notices + delivered) + Deliveries(cb, SkippedPushes(parse, ReadFrame(s).1))
    ensures RecvResponse(parse, s, cb, notices).2 == notices + Deliveries(cb, SkippedPushes(parse, s))
  {
    RecvResponsePush(parse, s, cb, notices, payload, ev);
    SkippedPushesPush(parse, s, payload, ev);
    DeliveriesAfter(cb, ev, notices, SkippedPushes(parse, ReadFrame(s).1));
  }

  /** Reading a push puts its event at the head of the skipped pushes. */
  lemma SkippedPushesPush(parse: seq<Byte> -> Option<Frame>, s: seq<RecvEvent>, payload: seq<Byte>, ev: PushEvent)
    requires ReadFrame(s).0 == Got(payload) && parse(payload) == Some(Push(ev))
    ensures SkippedPushes(parse, s) == [ev] + SkippedPushes(parse, ReadFrame(s).1)
  {
  }

  /** Delivering one push and then the rest is delivering them all. */
  lemma DeliveriesAfter(cb: Option<CallbackId>, ev: PushEvent, notices: seq<Notice>, later: seq<PushEvent>)
    ensures (notices + if cb.Some? then [Notice(cb.value, ev)] else []) + Deliveries(cb, later)
         == notices + Deliveries(cb, [ev] + later)
  {
    DeliveriesCons(cb, ev, later);
    Regroup(notices, if cb.Some? then [Notice(cb.value, ev)] else [], Deliveries(cb, later));
  }

  /** The delivery claim for a stream whose first frame is not a push: nothing is delivered. */
  lemma DeliversAtStop(parse: seq<Byte> -> Option<Frame>, s: seq<RecvEvent>, cb: Option<CallbackId>,
                       notices: seq<Notice>)
    requires ReadFrame(s).0.Got? ==> parse(ReadFrame(s).0.value).None? || !parse(ReadFrame(s).0.value).value.Push?
    ensures RecvResponse(parse, s, cb, notices).2 == notices + Deliveries(cb, SkippedPushes(parse, s))
  {
    RecvResponseStop(parse, s, cb, notices);
    assert SkippedPushes(parse, s) == [];
    assert notices + Deliveries(cb, []) == notices;
  }

  /**
    A push frame followed by a response frame: exactly one callback
    invocation, then that response is returned and the stream is left after
    the second frame.
  */
  lemma PushThenResponse(parse: seq<Byte> -> Option<Frame>, s: seq<RecvEvent>, cb: CallbackId,
                         notices: seq<Notice>, p1: seq<Byte>, p2: seq<Byte>, ev: PushEvent, rsp: Frame,
                         afterPush: seq<RecvEvent>, afterResponse: seq<RecvEvent>)
    requires ReadFrame(s) == (Got(p1), afterPush) && ReadFrame(afterPush) == (Got(p2), afterResponse)
    requires parse(p1) == Some(Push(ev)) && parse(p2) == Some(rsp) && rsp.Response?
    ensures RecvResponse(parse, s, Some(cb), notices) == (Got(rsp), afterResponse, notices + [Notice(cb, ev)])
  {
    RecvResponsePush(parse, s, Some(cb), notices, p1, ev);
    RecvResponseStop(parse, afterPush, Some(cb), notices + [Notice(cb, ev)]);
  }

  /** Without auto-reconnect and without a socket, `call` raises `SocketError` and changes nothing. */
  lemma CallNotConnected(c: Codec, st: State, request: Request, extra: Option<int>)
    requires !st.autoReconnect && st.sock.None?
    ensures Call(c, st, request, extra) == (st, Raised(SocketError(NotConnected)))
  {
  }

  /**
    Without auto-reconnect, a socket owned by another pid makes `call` raise
    `SocketError`; nothing changes, in particular that socket is not closed.
  */
  lemma CallFromOtherPid(c: Codec, st: State, request: Request, extra: Option<int>)
    requires !st.autoReconnect && st.sock.Some? && st.sockPid != Some(st.env.pid)
    ensures Call(c, st, request, extra) == (st, Raised(SocketError(OtherPid(st.sockPid))))
  {
  }

  /** With auto-reconnect on a usable socket, a successful best-effort send is the only send. */
  lemma CallFirstSendSucceeds(c: Codec, st: State, request: Request, extra: Option<int>)
    requires st.autoReconnect && st.sock.Some? && st.sockPid == Some(st.env.pid)
    requires SendStep(st.env, st.sock.value.id, Wire(c, request)).0 == SendOk
    ensures Call(c, st, request, extra).0.env.sent == st.env.sent + [Packet(st.sock.value.id, Wire(c, request))]
  {
  }

  /** With auto-reconnect, a timeout on the best-effort send clears the socket and raises `SocketTimeout`. */
  lemma CallFirstSendTimesOut(c: Codec, st: State, request: Request, extra: Option<int>)
    requires st.autoReconnect && st.sock.Some? && st.sockPid == Some(st.env.pid)
    requires SendStep(st.env, st.sock.value.id, Wire(c, request)).0 == SendTimeout
    ensures var (st', o) := Call(c, st, request, extra);
      && o == Raised(SocketTimeout) && st'.sock.None? && st'.sockPid == st.sockPid
      && st'.env.sent == st.env.sent + [Packet(st.sock.value.id, Wire(c, request))]
      && st'.env.recvs == st.env.recvs && st'.env.nextSock == st.env.nextSock
  {
  }

  /**
    With auto-reconnect, another error on the best-effort send reconnects and,
    once the subscription is replayed, sends the request once more on the
    new socket.
  */
  lemma CallResendsOnce(c: Codec, st: State, request: Request, extra: Option<int>)
    requires st.autoReconnect && st.sock.Some? && st.sockPid == Some(st.env.pid)
    requires SendStep(st.env, st.sock.value.id, Wire(c, request)).0 == SendError
    requires Connect(c, st.(env := SendStep(st.env, st.sock.value.id, Wire(c, request)).1)).1.None?
    ensures Call(c, st, request, extra).0.env.sent
         == st.env.sent + [Packet(st.sock.value.id, Wire(c, request))]
            + ReplayPackets(c, st, st.env.nextSock) + [Packet(st.env.nextSock, Wire(c, request))]
  {
  }

  /**
    With auto-reconnect on a usable socket the request goes out at most
    twice: on the old socket, and after a reconnect (and its replay) on the
    new one.
  */
  lemma CallSendsAtMostTwice(c: Codec, st: State, request: Request, extra: Option<int>)
    requires st.autoReconnect && st.sock.Some? && st.sockPid == Some(st.env.pid)
    ensures var sent := Call(c, st, request, extra).0.env.sent;
      var first := Packet(st.sock.value.id, Wire(c, request));
      var replay := ReplayPackets(c, st, st.env.nextSock);
      || sent == st.env.sent + [first]
      || sent == st.env.sent + [first] + replay
      || sent == st.env.sent + [first] + replay + [Packet(st.env.nextSock, Wire(c, request))]
  {
    var wire := Wire(c, request);
    var (ev, env1) := SendStep(st.env, st.sock.value.id, wire);
    if ev == SendError {
      var (st2, e) := Connect(c, st.(env := env1));
      if e.None? {
        CallResendsOnce(c, st, request, extra);
      }
    }
  }

  /**
    Reconnect and resubscribe: with auto-reconnect and no socket, or a
    socket created by another process, `call` connects, replays the stored
    subscription, then sends its own request; the old socket is not closed.
  */
  lemma CallReconnectsAndResubscribes(c: Codec, st: State, request: Request, extra: Option<int>)
    requires st.autoReconnect && (st.sock.None? || st.sockPid != Some(st.env.pid))
    requires Connect(c, st).1.None?
    ensures Call(c, st, request, extra).0.env.closed == st.env.closed
    ensures Call(c, st, request, extra).0.env.sent
         == st.env.sent + ReplayPackets(c, st, st.env.nextSock) + [Packet(st.env.nextSock, Wire(c, request))]
  {
  }

  /** A socket timeout or error while sending or receiving always ends with no socket. */
  lemma TransportFaultClearsSocket(c: Codec, st: State, request: Request, extra: Option<int>)
    ensures var (st', o) := Call(c, st, request, extra);
      o == Raised(SocketTimeout) || o == Raised(SocketError(Transport)) || o == Raised(SocketError(ConnectFailed))
      ==> st'.sock.None?
  {
    var wire := Wire(c, request);
    if st.sock.None? || st.sockPid != Some(st.env.pid) {
      if st.autoReconnect {
        ReconnectFaultClears(c, st, wire, extra);
      }
    } else if st.autoReconnect {
      var (ev, env1) := SendStep(st.env, st.sock.value.id, wire);
      if ev == SendError {
        ReconnectFaultClears(c, st.(env := env1), wire, extra);
      }
    }
  }

  /** Reconnecting and then exchanging: a transport fault in either step leaves no socket. */
  lemma ReconnectFaultClears(c: Codec, st: State, wire: seq<Byte>, extra: Option<int>)
    ensures var (st1, e) := Connect(c, st);
      var (st', o) := if e.Some? then (st1, Raised(e.value)) else Exchange(c, st1, wire, true, extra);
      o == Raised(SocketTimeout) || o == Raised(SocketError(Transport)) || o == Raised(SocketError(ConnectFailed))
      ==> st'.sock.None?
  {
    ConnectFailure(c, st);
  }

  /** A well-formed response with a failure status raises `PortoException` and keeps the socket. */
  lemma ProtocolErrorKeepsSocket(c: Codec, st: State, request: Request, extra: Option<int>)
    ensures var (st', o) := Call(c, st, request, extra);
      o.Raised? && o.exc.PortoException? ==> st'.sock.Some? && st'.sockPid == Some(st.env.pid)
  {
  }

  /** A returned response has the success status and the socket stays, owned by this process. */
  lemma ReturnedIsSuccess(c: Codec, st: State, request: Request, extra: Option<int>)
    ensures var (st', o) := Call(c, st, request, extra);
      o.Returned? ==> o.response.Response? && o.response.error == SUCCESS
                      && st'.sock.Some? && st'.sockPid == Some(st.env.pid)
  {
  }

  /** After a response, a widened timeout is back at the base timeout. */
  lemma TimeoutRestored(c: Codec, st: State, wire: seq<Byte>, send: bool, extra: Option<int>)
    requires st.sock.Some? && Widens(extra)
    ensures var (st', o) := Exchange(c, st, wire, send, extra);
      (o.Returned? || (o.Raised? && o.exc.PortoException?))
      ==> st'.sock == Some(Sock(st.sock.value.id, Some(st.timeout)))
  {
  }

  /** `call` keeps the object invariant. */
  lemma CallKeepsInv(c: Codec, st: State, request: Request, extra: Option<int>)
    requires Inv(st)
    ensures Inv(Call(c, st, request, extra).0)
  {
  }

  /** A fresh `_RPC` object satisfies the invariant. */
  lemma InitialInv(env: Env, timeout: int, autoReconnect: bool)
    ensures Inv(Initial(env, timeout, autoReconnect))
  {
  }

  /** `connect`, `disconnect`, `set_timeout` and `async_wait` keep the invariant. */
  lemma OperationsKeepInv(c: Codec, st: State, timeout: int, names: seq<string>, labels: seq<string>,
                          cb: Option<CallbackId>, waitTimeout: Option<int>)
    requires Inv(st)
    ensures Inv(Connect(c, st).0)
    ensures Inv(Disconnect(st))
    ensures Inv(SetTimeout(st, timeout))
    ensures Inv(AsyncWait(c, st, names, labels, cb, waitTimeout).0)
  {
    CallKeepsInv(c, st.(waitNames := names, waitCallback := cb, waitTimeout := waitTimeout),
                 AsyncWaitRequest(names, TimeoutMs(waitTimeout), labels), Some(0));
  }

  /** A failed connect leaves no socket, keeps the recorded pid and sends nothing. */
  lemma ConnectFailure(c: Codec, st: State)
    ensures var (st', e) := Connect(c, st);
      e == Some(SocketTimeout) || e == Some(SocketError(ConnectFailed))
      ==> st'.sock.None? && st'.sockPid == st.sockPid && st'.env.sent == st.env.sent
  {
  }

  /** A connect that gets through records this pid, holds the fresh socket and replays the subscription. */
  lemma ConnectReplays(c: Codec, st: State)
    ensures var (st', e) := Connect(c, st);
      ConnectStep(st.env).0 == ConnectOk ==>
        && st'.sock == Some(Sock(st.env.nextSock, Some(st.timeout)))
        && st'.sockPid == Some(st.env.pid)
        && st'.env.sent == st.env.sent + ReplayPackets(c, st, st.env.nextSock)
  {
  }

  /** The replay does nothing when no names are stored. */
  lemma ReplayIdle(c: Codec, st: State)
    requires st.sock.Some? && st.waitNames == []
    ensures Resend(c, st) == (st, None)
  {
  }

  /** The replay succeeds only if its send went through and the acknowledgement has the success status. */
  lemma ReplayNeedsSuccess(c: Codec, st: State)
    requires st.sock.Some? && st.waitNames != []
    ensures var (ev, env1) := SendStep(st.env, st.sock.value.id,
                                       Wire(c, AsyncWaitRequest(st.waitNames, TimeoutMs(st.waitTimeout), [])));
      Resend(c, st).1.None? <==>
        ev == SendOk && RecvState(c, st.(env := env1)).0.Got?
        && RecvState(c, st.(env := env1)).0.value.error == SUCCESS
  {
  }

  /** `async_wait` sends its labels once; later replays carry only the names and the timeout. */
  lemma AsyncWaitReplaysWithoutLabels(c: Codec, st: State, names: seq<string>, labels: seq<string>,
                                      cb: Option<CallbackId>, timeout: Option<int>, id: nat)
    requires names != []
    ensures var st' := AsyncWait(c, st, names, labels, cb, timeout).0;
      ReplayPackets(c, st', id) == [Packet(id, Wire(c, AsyncWaitRequest(names, TimeoutMs(timeout), [])))]
  {
  }

  /** `disconnect` is idempotent and only closes the socket it held. */
  lemma DisconnectIdempotent(st: State)
    ensures Disconnect(Disconnect(st)) == Disconnect(st)
  {
  }
}
