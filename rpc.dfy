/**
  The client transport object `_RPC` and the environment it runs in, as
  classes whose methods change their fields in place. Every method of `Rpc`
  is proved to take the state where the matching function of `RpcSpec` says.
*/
module Connection {
  import opened Wrappers
  import opened FrameCodec
  import opened SocketStream
  import opened RpcSpec

  /**
    The process, the kernel and the server as one scripted object: what
    `os.getpid`, the socket constructor, `connect`, `sendall`, `recv`,
    `close` and the push callback reach.
  */
  class Host {
    var pid: int
    var connects: seq<ConnectEvent>
    var sends: seq<SendEvent>
    var recvs: seq<RecvEvent>
    var nextSock: nat
    var sent: seq<Packet>
    var closed: seq<nat>
    var notices: seq<Notice>

    function View(): Env
      reads this
    {
      Env(pid, connects, sends, recvs, nextSock, sent, closed, notices)
    }

    constructor (e: Env)
      ensures View() == e
    {
      pid, connects, sends, recvs := e.pid, e.connects, e.sends, e.recvs;
      nextSock, sent, closed, notices := e.nextSock, e.sent, e.closed, e.notices;
    }

    method GetPid() returns (p: int)
      ensures p == pid
    {
      p := pid;
    }

    /** The socket constructor: a socket that no earlier call returned. */
    method NewSocket() returns (id: nat)
      modifies this
      ensures id == old(nextSock)
      ensures View() == old(View()).(nextSock := id + 1)
    {
      id := nextSock;
      nextSock := nextSock + 1;
    }

    method SockConnect() returns (ev: ConnectEvent)
      modifies this
      ensures (ev, View()) == ConnectStep(old(View()))
    {
      ev := if connects == [] then ConnectOk else connects[0];
      connects := Tail(connects);
    }

    method SendAll(id: nat, wire: seq<Byte>) returns (ev: SendEvent)
      modifies this
      ensures (ev, View()) == SendStep(old(View()), id, wire)
    {
      ev := if sends == [] then SendOk else sends[0];
      sends := Tail(sends);
      sent := sent + [Packet(id, wire)];
    }

    method Recv(n: nat) returns (ev: RecvEvent)
      requires n >= 1
      modifies this
      ensures (ev, recvs) == SocketStream.Recv(old(recvs), n)
      ensures View() == old(View()).(recvs := recvs)
    {
      var r := SocketStream.Recv(recvs, n);
      ev, recvs := r.0, r.1;
    }

    method Close(id: nat)
      modifies this
      ensures View() == old(View()).(closed := old(closed) + [id])
    {
      closed := closed + [id];
    }

    method Notify(cb: CallbackId, ev: PushEvent)
      modifies this
      ensures View() == old(View()).(notices := old(notices) + [Notice(cb, ev)])
    {
      notices := notices + [Notice(cb, ev)];
    }
  }

  /** `_RPC`: the socket, its owner pid, the reconnect policy, the timeout and the stored subscription. */
  class Rpc {
    const host: Host
    const codec: Codec
    var sock: Option<Sock>
    var sockPid: Option<int>
    var autoReconnect: bool
    var timeout: int
    var waitNames: seq<string>
    var waitCallback: Option<CallbackId>
    var waitTimeout: Option<int>

    function View(): State
      reads this, host
    {
      State(sock, sockPid, autoReconnect, timeout, waitNames, waitCallback, waitTimeout, host.View())
    }

    constructor (host: Host, codec: Codec, timeout: int, autoReconnect: bool)
      ensures this.host == host && this.codec == codec
      ensures View() == Initial(host.View(), timeout, autoReconnect)
    {
      this.host, this.codec := host, codec;
      this.timeout, this.autoReconnect := timeout, autoReconnect;
      sock, sockPid := None, None;
      waitNames, waitCallback, waitTimeout := [], None, None;
    }

    /** `_set_timeout(extra_timeout)`. */
    method ApplyTimeout(extra: Option<int>)
      requires sock.Some?
      modifies this
      ensures View() == WithSockTimeout(old(View()), extra)
    {
      sock := Some(sock.value.(timeout := if extra.None? then None else Some(timeout + extra.value)));
    }

    /** `set_timeout(timeout)`. */
    method SetTimeout(t: int)
      modifies this
      ensures View() == RpcSpec.SetTimeout(old(View()), t)
    {
      timeout := t;
      if sock.Some? {
        ApplyTimeout(Some(0));
      }
    }

    /** `_connect()`; a returned exception is the one the source raises. */
    method DoConnect() returns (e: Option<Exc>)
      modifies this, host
      ensures (View(), e) == RpcSpec.Connect(codec, old(View()))
    {
      var id := host.NewSocket();
      sock := Some(Sock(id, None));
      ApplyTimeout(Some(0));
      var ev := host.SockConnect();
      if ev == ConnectTimeout {
        sock := None;
        return Some(SocketTimeout);
      } else if ev == ConnectRefused {
        sock := None;
        return Some(SocketError(ConnectFailed));
      }
      sockPid := Some(host.pid);
      e := ResendAsyncWait();
    }

    /** `connect()`. */
    method Connect() returns (e: Option<Exc>)
      modifies this, host
      ensures (View(), e) == RpcSpec.Connect(codec, old(View()))
    {
      e := DoConnect();
    }

    /** `disconnect()`. */
    method Disconnect()
      modifies this, host
      ensures View() == RpcSpec.Disconnect(old(View()))
    {
      if sock.Some? {
        host.Close(sock.value.id);
        sock := None;
      }
    }

    /** `connected()`: a socket is held; liveness is not probed. */
    method Connected() returns (b: bool)
      ensures b <==> View().sock.Some?
    {
      b := sock.Some?;
    }

    /** `_recv_data(count)`: recv until `count` bytes are in; an empty chunk is a connection reset. */
    method RecvData(count: nat) returns (r: Read<seq<Byte>>)
      modifies host
      ensures (r, host.recvs) == ReadExactly(old(host.recvs), count)
      ensures host.View() == old(host.View()).(recvs := host.recvs)
    {
      ghost var s := host.recvs;
      var msg: seq<Byte> := [];
      while |msg| < count
        invariant |msg| <= count && |msg| <= |Available(s)|
        invariant msg == Available(s)[..|msg|]
        invariant host.recvs == Skip(s, |msg|)
        invariant host.View() == old(host.View()).(recvs := host.recvs)
        decreases count - |msg|
      {
        var ev := host.Recv(count - |msg|);
        DataStep(s, |msg|, count, ev, host.recvs);
        match ev
        case RecvTimeout => return Failed(Timeout);
        case RecvError => return Failed(IoError);
        case Chunk(chunk) =>
          if chunk == [] {
            return Failed(Reset);
          }
          msg := msg + chunk;
      }
      return Got(msg);
    }

    /**
      The inner loop of `_recv_response()`: read one byte at a time,
      accumulate `(b & 0x7f) << shift`, stop after the first byte <= 0x7f.
    */
    method RecvLength() returns (r: Read<nat>)
      modifies host
      ensures (r, host.recvs) == ReadLength(old(host.recvs))
      ensures host.View() == old(host.View()).(recvs := host.recvs)
    {
      ghost var s := host.recvs;
      ghost var k: nat := 0;
      var length: nat := 0;
      var shift: nat := 0;
      while true
        invariant Continues(s, k) && host.recvs == Skip(s, k) && shift == 7 * k
        invariant length == ShiftSum(Available(s)[..k])
        invariant host.View() == old(host.View()).(recvs := host.recvs)
        decreases |Available(s)| - k
      {
        var b := RecvData(1);
        LengthStep(s, k, b, host.recvs);
        if b.Failed? {
          return Failed(b.fault);
        }
        var byte := b.value[0];
        length := length + (byte % 0x80) * Pow2(shift);
        shift := shift + 7;
        k := k + 1;
        if byte <= 0x7f {
          return Got(length);
        }
      }
    }

    /**
      `_recv_response()`: read a length and that many payload bytes; hand
      `AsyncWait` pushes to the callback and return the first other frame.
    */
    method RecvResponse() returns (r: Read<Frame>)
      modifies host
      ensures (r, host.recvs, host.notices)
           == RpcSpec.RecvResponse(codec.parse, old(host.recvs), waitCallback, old(host.notices))
      ensures host.View() == old(host.View()).(recvs := host.recvs, notices := host.notices)
    {
      ghost var target := RpcSpec.RecvResponse(codec.parse, host.recvs, waitCallback, host.notices);
      while true
        invariant RpcSpec.RecvResponse(codec.parse, host.recvs, waitCallback, host.notices) == target
        invariant host.View() == old(host.View()).(recvs := host.recvs, notices := host.notices)
        decreases |Available(host.recvs)|
      {
        ghost var s := host.recvs;
        ReadFrameSteps(s);
        var length := RecvLength();
        if length.Failed? {
          RecvResponseStop(codec.parse, s, waitCallback, host.notices);
          return Failed(length.fault);
        }
        var payload := RecvData(length.value);
        if payload.Failed? {
          RecvResponseStop(codec.parse, s, waitCallback, host.notices);
          return Failed(payload.fault);
        }
        var frame := codec.parse(payload.value);
        if frame.None? || !frame.value.Push? {
          RecvResponseStop(codec.parse, s, waitCallback, host.notices);
          if frame.None? {
            return Failed(Malformed);
          }
          return Got(frame.value);
        }
        ghost var delivered := host.notices + if waitCallback.Some? then [Notice(waitCallback.value, frame.value.event)] else [];
        RecvResponsePush(codec.parse, s, waitCallback, host.notices, payload.value, frame.value.event);
        if waitCallback.Some? {
          host.Notify(waitCallback.value, frame.value.event);
        }
        assert host.notices == delivered;
      }
    }

    /** `_resend_async_wait()`: replay the stored subscription, names and timeout only. */
    method ResendAsyncWait() returns (e: Option<Exc>)
      requires sock.Some?
      modifies host
      ensures (View(), e) == Resend(codec, old(View()))
    {
      if waitNames == [] {
        return None;
      }
      var wire := EncodeRequest(codec.serialize(AsyncWaitRequest(waitNames, TimeoutMs(waitTimeout), [])));
      var ev := host.SendAll(sock.value.id, wire);
      if ev == SendTimeout {
        return Some(Escaped(Timeout));
      } else if ev == SendError {
        return Some(Escaped(IoError));
      }
      var r := RecvResponse();
      if r.Failed? {
        return Some(Escaped(r.fault));
      }
      if r.value.error != SUCCESS {
        return Some(PortoException(r.value.error, r.value.errorMsg));
      }
      return None;
    }

    /** `call(request, extra_timeout)`; `extra` None is `extra_timeout=None`. */
    method Call(request: Request, extra: Option<int>) returns (o: Outcome)
      modifies this, host
      ensures (View(), o) == RpcSpec.Call(codec, old(View()), request, extra)
    {
      var req := EncodeRequest(codec.serialize(request));
      var pending := true;
      ghost var st := View();
      if sock.None? {
        if autoReconnect {
          var e := DoConnect();
          if e.Some? {
            return Raised(e.value);
          }
        } else {
          return Raised(SocketError(NotConnected));
        }
      } else {
        var pid := host.GetPid();
        if sockPid != Some(pid) {
          if autoReconnect {
            var e := DoConnect();
            if e.Some? {
              return Raised(e.value);
            }
          } else {
            return Raised(SocketError(OtherPid(sockPid)));
          }
        } else if autoReconnect {
          var ev := host.SendAll(sock.value.id, req);
          if ev == SendOk {
            pending := false;
          } else if ev == SendTimeout {
            sock := None;
            return Raised(SocketTimeout);
          } else {
            var e := DoConnect();
            if e.Some? {
              return Raised(e.value);
            }
          }
        }
      }
      assert sock.Some?;
      assert RpcSpec.Call(codec, st, request, extra) == RpcSpec.Exchange(codec, View(), req, pending, extra);
      o := Exchange(req, pending, extra);
    }

    /**
      The guarded block of `call` (its `try`): send unless already sent,
      widen the timeout, receive, restore the timeout, check the status.
    */
    method Exchange(req: seq<Byte>, pending: bool, extra: Option<int>) returns (o: Outcome)
      requires sock.Some?
      modifies this, host
      ensures (View(), o) == RpcSpec.Exchange(codec, old(View()), req, pending, extra)
    {
      if pending {
        var ev := host.SendAll(sock.value.id, req);
        if ev == SendTimeout {
          sock := None;
          return Raised(SocketTimeout);
        } else if ev == SendError {
          sock := None;
          return Raised(SocketError(Transport));
        }
      }
      o := AwaitResponse(extra);
    }

    /** The receiving half of `call`'s guarded block: widen, receive, restore, check the status. */
    method AwaitResponse(extra: Option<int>) returns (o: Outcome)
      requires sock.Some?
      modifies this, host
      ensures (View(), o) == RpcSpec.AwaitResponse(codec, old(View()), extra)
    {
      if Widens(extra) {
        ApplyTimeout(extra);
      }
      var r := RecvResponse();
      if r.Failed? {
        match r.fault
        case Timeout =>
          sock := None;
          return Raised(SocketTimeout);
        case Malformed =>
          return Raised(Escaped(Malformed));
        case _ =>
          sock := None;
          return Raised(SocketError(Transport));
      }
      if Widens(extra) {
        ApplyTimeout(Some(0));
      }
      if r.value.error != SUCCESS {
        return Raised(PortoException(r.value.error, r.value.errorMsg));
      }
      return Returned(r.value);
    }

    /** `async_wait(names, labels, callback, timeout)`: store the subscription, then `call` it. */
    method AsyncWait(names: seq<string>, labels: seq<string>, cb: Option<CallbackId>, t: Option<int>)
      returns (o: Outcome)
      modifies this, host
      ensures (View(), o) == RpcSpec.AsyncWait(codec, old(View()), names, labels, cb, t)
    {
      waitNames, waitCallback, waitTimeout := names, cb, t;
      o := Call(AsyncWaitRequest(names, TimeoutMs(t), labels), Some(0));
    }
  }
}
