/**
  The behaviour of the Python client transport `_RPC` as functions of its
  state. The state is the fields of `_RPC` (socket, owning pid, auto-reconnect
  flag, timeout, stored subscription) together with the environment it talks
  to: the process id, the scripted outcomes of connect, sendall and recv, and
  the logs of what was sent, closed and delivered to the push callback.
*/
module RpcSpec {
  import opened Wrappers
  import opened FrameCodec
  import opened SocketStream

  /** `rpc_pb2.Success`, the status of a successful response. */
  const SUCCESS: int := 0

  type CallbackId = nat

  /** The fields of an `AsyncWait` push; `labelValue` is present when the push carries a label. */
  datatype PushEvent = PushEvent(name: string, state: string, when: int, labelValue: Option<(string, string)>)

  /** A parsed `TPortoResponse`: a push notification or a response (status, message, the rest opaque). */
  datatype Frame = Push(event: PushEvent) | Response(error: int, errorMsg: string, reply: seq<Byte>)

  /** One invocation of the stored callback with a push's fields. */
  datatype Notice = Notice(callback: CallbackId, event: PushEvent)

  /** A `TPortoRequest`: the `AsyncWait` subscription the transport builds itself, or any other command. */
  datatype Request =
    | AsyncWaitRequest(names: seq<string>, timeoutMs: Option<int>, labels: seq<string>)
    | Command(body: seq<Byte>)

  /** The protobuf library: `SerializeToString` and `ParseFromString` (None: the parser raises). */
  datatype Codec = Codec(serialize: Request -> seq<Byte>, parse: seq<Byte> -> Option<Frame>)

  datatype ConnectEvent = ConnectOk | ConnectTimeout | ConnectRefused
  datatype SendEvent = SendOk | SendTimeout | SendError

  /** One `sendall` attempt: the socket it went to and the bytes. */
  datatype Packet = Packet(sock: nat, wire: seq<Byte>)

  /**
    The environment: the process id `os.getpid()` returns, the outcomes still
    to come for connect, sendall and recv (an exhausted script connects,
    sends, and reads end of stream), the id the next socket gets, and the logs
    of sendall attempts, closed sockets and callback invocations.
  */
  datatype Env = Env(
    pid: int,
    connects: seq<ConnectEvent>,
    sends: seq<SendEvent>,
    recvs: seq<RecvEvent>,
    nextSock: nat,
    sent: seq<Packet>,
    closed: seq<nat>,
    notices: seq<Notice>)

  /** A socket object: its identity and its current `settimeout` value (None: blocking). */
  datatype Sock = Sock(id: nat, timeout: Option<int>)

  datatype State = State(
    sock: Option<Sock>,
    sockPid: Option<int>,
    autoReconnect: bool,
    timeout: int,
    waitNames: seq<string>,
    waitCallback: Option<CallbackId>,
    waitTimeout: Option<int>,
    env: Env)

  /** Which `exceptions.SocketError` message. */
  datatype Reason = NotConnected | OtherPid(pid: Option<int>) | ConnectFailed | Transport

  /**
    What a transport operation raises: the client's `SocketTimeout`,
    `SocketError` and `PortoException`, or a `socket.timeout`,
    `socket.error` or protobuf decode error that escapes unconverted.
  */
  datatype Exc =
    | SocketTimeout
    | SocketError(reason: Reason)
    | PortoException(error: int, errorMsg: string)
    | Escaped(fault: Fault)

  datatype Outcome = Returned(response: Frame) | Raised(exc: Exc)

  function Tail<T>(s: seq<T>): seq<T>
  {
    if s == [] then [] else s[1..]
  }

  /** The bytes `encode_request(request)` puts on the wire. */
  function Wire(c: Codec, request: Request): seq<Byte>
  {
    Header(|c.serialize(request)|) + c.serialize(request)
  }

  /** `int(timeout * 1000)` for a timeout in whole seconds. */
  function TimeoutMs(timeout: Option<int>): Option<int>
  {
    if timeout.None? then None else Some(timeout.value * 1000)
  }

  /** `__init__`: no socket, no subscription. */
  function Initial(env: Env, timeout: int, autoReconnect: bool): State
  {
    State(None, None, autoReconnect, timeout, [], None, None, env)
  }

  /** The object invariant: a held socket was created earlier and is owned by a recorded pid. */
  ghost predicate Inv(st: State)
  {
    st.sock.Some? ==> st.sockPid.Some? && st.sock.value.id < st.env.nextSock
  }

  /** The outcome of `sock.connect` on the socket just created. */
  function ConnectStep(e: Env): (ConnectEvent, Env)
  {
    (if e.connects == [] then ConnectOk else e.connects[0], e.(connects := Tail(e.connects)))
  }

  /** One `sock.sendall(wire)` on socket `id`: its outcome; the attempt is logged. */
  function SendStep(e: Env, id: nat, wire: seq<Byte>): (SendEvent, Env)
  {
    (if e.sends == [] then SendOk else e.sends[0],
     e.(sends := Tail(e.sends), sent := e.sent + [Packet(id, wire)]))
  }

  /** `_set_timeout(extra)`: blocking for None, otherwise the base timeout plus `extra`. */
  function WithSockTimeout(st: State, extra: Option<int>): (r: State)
    requires st.sock.Some?
    ensures r.sock.Some? && r.sock.value.id == st.sock.value.id
    ensures r.sock.value.timeout == if extra.None? then None else Some(st.timeout + extra.value)
    ensures r.(sock := st.sock) == st
  {
    st.(sock := Some(st.sock.value.(timeout := if extra.None? then None else Some(st.timeout + extra.value))))
  }

  /**
    `_recv_response`: read frames until one is not an `AsyncWait` push. Each
    push read on the way is handed to the callback when one is set. Never
    returns a push.
  */
  function RecvResponse(parse: seq<Byte> -> Option<Frame>, s: seq<RecvEvent>, cb: Option<CallbackId>,
                        notices: seq<Notice>): (r: (Read<Frame>, seq<RecvEvent>, seq<Notice>))
    ensures r.0.Got? ==> r.0.value.Response?
    decreases |Available(s)|
  {
    var (frame, rest) := ReadFrame(s);
    match frame
    case Failed(f) => (Failed(f), rest, notices)
    case Got(payload) =>
      match parse(payload)
      case None => (Failed(Malformed), rest, notices)
      case Some(Push(ev)) =>
        RecvResponse(parse, rest, cb, notices + if cb.Some? then [Notice(cb.value, ev)] else [])
      case Some(rsp) => (Got(rsp), rest, notices)
  }

  /** One turn of the receive loop: a push is delivered and reading goes on after it. */
  lemma RecvResponsePush(parse: seq<Byte> -> Option<Frame>, s: seq<RecvEvent>, cb: Option<CallbackId>,
                         notices: seq<Notice>, payload: seq<Byte>, ev: PushEvent)
    requires ReadFrame(s).0 == Got(payload) && parse(payload) == Some(Push(ev))
    ensures RecvResponse(parse, s, cb, notices)
         == RecvResponse(parse, ReadFrame(s).1, cb, notices + if cb.Some? then [Notice(cb.value, ev)] else [])
  {
  }

  /** The receive loop stops at a failed read, an unparsable payload or a response. */
  lemma RecvResponseStop(parse: seq<Byte> -> Option<Frame>, s: seq<RecvEvent>, cb: Option<CallbackId>,
                         notices: seq<Notice>)
    requires ReadFrame(s).0.Got? ==> parse(ReadFrame(s).0.value).None? || !parse(ReadFrame(s).0.value).value.Push?
    ensures RecvResponse(parse, s, cb, notices)
         == (match ReadFrame(s).0
             case Failed(f) => Failed(f)
             case Got(p) => if parse(p).None? then Failed(Malformed) else Got(parse(p).value),
             ReadFrame(s).1, notices)
  {
  }

  /** The pushes read, in order, before the frame `RecvResponse` stops at. */
  function SkippedPushes(parse: seq<Byte> -> Option<Frame>, s: seq<RecvEvent>): seq<PushEvent>
    decreases |Available(s)|
  {
    var (frame, rest) := ReadFrame(s);
    match frame
    case Failed(_) => []
    case Got(payload) =>
      match parse(payload)
      case Some(Push(ev)) => [ev] + SkippedPushes(parse, rest)
      case _ => []
  }

  /** The callback invocations for a list of pushes: one each when a callback is set, none otherwise. */
  function Deliveries(cb: Option<CallbackId>, events: seq<PushEvent>): (r: seq<Notice>)
    ensures |r| == if cb.Some? then |events| else 0
    ensures forall i :: 0 <= i < |r| ==> r[i] == Notice(cb.value, events[i])
  {
    if cb.None? || events == [] then []
    else [Notice(cb.value, events[0])] + Deliveries(cb, events[1..])
  }

  /** `_recv_response` on the state: consumes input and appends to the callback log only. */
  function RecvState(c: Codec, st: State): (r: (Read<Frame>, State))
    ensures r.1 == st.(env := r.1.env)
    ensures r.1.env == st.env.(recvs := r.1.env.recvs, notices := r.1.env.notices)
  {
    var (rsp, recvs, notices) := RecvResponse(c.parse, st.env.recvs, st.waitCallback, st.env.notices);
    (rsp, st.(env := st.env.(recvs := recvs, notices := notices)))
  }

  /** The packets `_resend_async_wait` sends: the stored names and timeout, never labels. */
  function ReplayPackets(c: Codec, st: State, id: nat): seq<Packet>
  {
    if st.waitNames == [] then []
    else [Packet(id, Wire(c, AsyncWaitRequest(st.waitNames, TimeoutMs(st.waitTimeout), [])))]
  }

  /**
    `_resend_async_wait`: nothing without stored names; otherwise send the
    subscription and read its acknowledgement. Socket faults escape
    unconverted, a non-success status raises `PortoException`; none of them
    drops the socket.
  */
  function Resend(c: Codec, st: State): (r: (State, Option<Exc>))
    requires st.sock.Some?
    ensures r.0.sock == st.sock && r.0.sockPid == st.sockPid && r.0.env.pid == st.env.pid
    ensures r.0.env.sent == st.env.sent + ReplayPackets(c, st, st.sock.value.id)
    ensures r.0 == st.(env := r.0.env)
    ensures r.0.env.nextSock == st.env.nextSock && r.0.env.closed == st.env.closed
  {
    if st.waitNames == [] then (st, None)
    else
      var wire := Wire(c, AsyncWaitRequest(st.waitNames, TimeoutMs(st.waitTimeout), []));
      var (ev, env1) := SendStep(st.env, st.sock.value.id, wire);
      var st1 := st.(env := env1);
      if ev == SendTimeout then (st1, Some(Escaped(Timeout)))
      else if ev == SendError then (st1, Some(Escaped(IoError)))
      else
        var (r, st2) := RecvState(c, st1);
        match r
        case Failed(f) => (st2, Some(Escaped(f)))
        case Got(rsp) =>
          if rsp.error != SUCCESS then (st2, Some(PortoException(rsp.error, rsp.errorMsg)))
          else (st2, None)
  }

  /**
    `_connect`: a new socket with the base timeout, then `connect`. On a
    timeout or error the socket field is cleared; on success the owner pid is
    recorded and the subscription replayed.
  */
  function Connect(c: Codec, st: State): (r: (State, Option<Exc>))
    ensures r.1.None? ==> r.0.sock.Some? && r.0.sockPid == Some(st.env.pid)
    ensures r.0.env.pid == st.env.pid && r.0.env.closed == st.env.closed
    ensures r.0.env.nextSock == st.env.nextSock + 1
    ensures r.0.sock.Some? ==> r.0.sock.value.id == st.env.nextSock && r.0.sockPid == Some(st.env.pid)
    ensures r.0 == st.(sock := r.0.sock, sockPid := r.0.sockPid, env := r.0.env)
  {
    var id := st.env.nextSock;
    var (ev, env1) := ConnectStep(st.env.(nextSock := id + 1));
    match ev
    case ConnectTimeout => (st.(sock := None, env := env1), Some(SocketTimeout))
    case ConnectRefused => (st.(sock := None, env := env1), Some(SocketError(ConnectFailed)))
    case ConnectOk => Resend(c, st.(sock := Some(Sock(id, Some(st.timeout))), sockPid := Some(st.env.pid), env := env1))
  }

  /** Whether `call` widens the socket timeout for the receive: `extra_timeout is None or extra_timeout > 0`. */
  predicate Widens(extra: Option<int>)
  {
    extra.None? || extra.value > 0
  }

  /**
    The guarded part of `call`: send the request unless it already went out,
    widen the timeout, read the response, restore the timeout, then turn a
    non-success status into `PortoException`. A socket timeout or error in
    this phase clears the socket field.
  */
  function Exchange(c: Codec, st: State, wire: seq<Byte>, send: bool, extra: Option<int>): (r: (State, Outcome))
    requires st.sock.Some?
    ensures r.0 == st.(sock := r.0.sock, env := r.0.env)
    ensures r.0.env.pid == st.env.pid && r.0.env.nextSock == st.env.nextSock && r.0.env.closed == st.env.closed
    ensures r.0.env.sent == st.env.sent + if send then [Packet(st.sock.value.id, wire)] else []
    ensures r.1 == Raised(SocketTimeout) || (r.1.Raised? && r.1.exc.SocketError?) ==> r.0.sock.None?
    ensures r.1.Returned? || (r.1.Raised? && (r.1.exc.PortoException? || r.1.exc.Escaped?))
            ==> r.0.sock.Some? && r.0.sock.value.id == st.sock.value.id
    ensures r.1.Returned? ==> r.1.response.Response? && r.1.response.error == SUCCESS
  {
    var (ev, env1) := if send then SendStep(st.env, st.sock.value.id, wire) else (SendOk, st.env);
    var st1 := st.(env := env1);
    if ev == SendTimeout then (st1.(sock := None), Raised(SocketTimeout))
    else if ev == SendError then (st1.(sock := None), Raised(SocketError(Transport)))
    else AwaitResponse(c, st1, extra)
  }

  /**
    The receiving half of the guarded block: widen the timeout, receive the
    response, restore the timeout, check the status. Sends nothing.
  */
  function AwaitResponse(c: Codec, st: State, extra: Option<int>): (r: (State, Outcome))
    requires st.sock.Some?
    ensures r.0 == st.(sock := r.0.sock, env := r.0.env)
    ensures r.0.env.pid == st.env.pid && r.0.env.nextSock == st.env.nextSock && r.0.env.closed == st.env.closed
    ensures r.0.env.sent == st.env.sent
    ensures r.1 == Raised(SocketTimeout) || (r.1.Raised? && r.1.exc.SocketError?) ==> r.0.sock.None?
    ensures r.1.Returned? || (r.1.Raised? && (r.1.exc.PortoException? || r.1.exc.Escaped?))
            ==> r.0.sock.Some? && r.0.sock.value.id == st.sock.value.id
    ensures r.1.Returned? ==> r.1.response.Response? && r.1.response.error == SUCCESS
  {
    var st2 := if Widens(extra) then WithSockTimeout(st, extra) else st;
    var (r, st3) := RecvState(c, st2);
    match r
    case Failed(Timeout) => (st3.(sock := None), Raised(SocketTimeout))
    case Failed(Malformed) => (st3, Raised(Escaped(Malformed)))
    case Failed(_) => (st3.(sock := None), Raised(SocketError(Transport)))
    case Got(rsp) =>
      var st4 := if Widens(extra) then WithSockTimeout(st3, Some(0)) else st3;
      if rsp.error != SUCCESS then (st4, Raised(PortoException(rsp.error, rsp.errorMsg)))
      else (st4, Returned(rsp))
  }

  /**
    `call(request, extra_timeout)`. Without a socket, or with one owned by
    another pid, it reconnects when auto-reconnect is on and raises
    `SocketError` otherwise. With auto-reconnect on and a usable socket it
    makes one best-effort send: success means no second send, a timeout clears
    the socket and raises, any other error reconnects and sends again once.
  */
  function Call(c: Codec, st: State, request: Request, extra: Option<int>): (r: (State, Outcome))
    ensures r.0 == st.(sock := r.0.sock, sockPid := r.0.sockPid, env := r.0.env)
    ensures r.0.env.pid == st.env.pid && r.0.env.closed == st.env.closed
  {
    var wire := Wire(c, request);
    if st.sock.None? then
      if st.autoReconnect then
        var (st1, e) := Connect(c, st);
        if e.Some? then (st1, Raised(e.value)) else Exchange(c, st1, wire, true, extra)
      else (st, Raised(SocketError(NotConnected)))
    else if st.sockPid != Some(st.env.pid) then
      if st.autoReconnect then
        var (st1, e) := Connect(c, st);
        if e.Some? then (st1, Raised(e.value)) else Exchange(c, st1, wire, true, extra)
      else (st, Raised(SocketError(OtherPid(st.sockPid))))
    else if st.autoReconnect then
      var (ev, env1) := SendStep(st.env, st.sock.value.id, wire);
      var st1 := st.(env := env1);
      if ev == SendOk then Exchange(c, st1, wire, false, extra)
      else if ev == SendTimeout then (st1.(sock := None), Raised(SocketTimeout))
      else
        var (st2, e) := Connect(c, st1);
        if e.Some? then (st2, Raised(e.value)) else Exchange(c, st2, wire, true, extra)
    else Exchange(c, st, wire, true, extra)
  }

  /** `disconnect`: close the held socket, if any, and forget it. */
  function Disconnect(st: State): (r: State)
    ensures r.sock.None?
    ensures r.env.closed == st.env.closed + if st.sock.Some? then [st.sock.value.id] else []
    ensures r == st.(sock := None, env := st.env.(closed := r.env.closed))
  {
    if st.sock.Some? then st.(sock := None, env := st.env.(closed := st.env.closed + [st.sock.value.id]))
    else st
  }

  /** `set_timeout`: store the base timeout and apply it to a held socket. */
  function SetTimeout(st: State, timeout: int): (r: State)
    ensures r.timeout == timeout
    ensures r.sock.Some? <==> st.sock.Some?
    ensures r.sock.Some? ==> r.sock == Some(Sock(st.sock.value.id, Some(timeout)))
    ensures r == st.(timeout := timeout, sock := r.sock)
  {
    var st1 := st.(timeout := timeout);
    if st1.sock.Some? then WithSockTimeout(st1, Some(0)) else st1
  }

  /**
    `async_wait`: store names, callback and timeout (not the labels), then
    `call` the subscription request, labels included.
  */
  function AsyncWait(c: Codec, st: State, names: seq<string>, labels: seq<string>,
                     cb: Option<CallbackId>, timeout: Option<int>): (r: (State, Outcome))
    ensures r.0.waitNames == names && r.0.waitCallback == cb && r.0.waitTimeout == timeout
  {
    Call(c, st.(waitNames := names, waitCallback := cb, waitTimeout := timeout),
         AsyncWaitRequest(names, TimeoutMs(timeout), labels), Some(0))
  }
}
