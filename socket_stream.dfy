/**
  The receiving side of the client's stream socket, as a script of what
  successive `recv(n)` calls yield. The bytes the script delivers before its
  first timeout, error or end of stream are `Available`; reading a byte count
  either takes a prefix of them or ends at that stopping event.
*/
module SocketStream {
  import opened Wrappers
  import opened FrameCodec

  /** What one `sock.recv` yields: a chunk (empty at end of stream), a timeout or an error. */
  datatype RecvEvent = Chunk(data: seq<Byte>) | RecvTimeout | RecvError

  /**
    Why a read failed: `socket.timeout`; the `socket.error(ECONNRESET)` that
    `_recv_data` raises for an empty chunk; any other `socket.error`; or a
    payload the protobuf parser rejects.
  */
  datatype Fault = Timeout | Reset | IoError | Malformed

  datatype Read<T> = Got(value: T) | Failed(fault: Fault)

  /**
    One `recv(n)`, n >= 1: the next scripted event. A chunk longer than n
    yields its first n bytes and the rest stays queued; an exhausted script
    reads as end of stream.
  */
  function Recv(s: seq<RecvEvent>, n: nat): (RecvEvent, seq<RecvEvent>)
    requires n >= 1
  {
    if s == [] then (Chunk([]), [])
    else match s[0]
      case Chunk(d) =>
        if |d| <= n then (s[0], s[1..]) else (Chunk(d[..n]), [Chunk(d[n..])] + s[1..])
      case _ => (s[0], s[1..])
  }

  /** The fault a non-data event stands for. */
  function FaultOf(ev: RecvEvent): Fault
  {
    match ev
    case Chunk(_) => Reset
    case RecvTimeout => Timeout
    case RecvError => IoError
  }

  /** The bytes the script delivers, in order, before its first timeout, error or end of stream. */
  function Available(s: seq<RecvEvent>): seq<Byte>
  {
    if s == [] then []
    else match s[0]
      case Chunk(d) => if d == [] then [] else d + Available(s[1..])
      case _ => []
  }

  /** The fault that ends `Available(s)`. */
  function StopFault(s: seq<RecvEvent>): Fault
  {
    if s == [] then Reset
    else match s[0]
      case Chunk(d) => if d == [] then Reset else StopFault(s[1..])
      case _ => FaultOf(s[0])
  }

  /** The script left once the event that ends `Available(s)` has been consumed. */
  function AfterStop(s: seq<RecvEvent>): seq<RecvEvent>
  {
    if s == [] then []
    else match s[0]
      case Chunk(d) => if d == [] then s[1..] else AfterStop(s[1..])
      case _ => s[1..]
  }

  /** The script left once exactly k of its available bytes have been received. */
  function Skip(s: seq<RecvEvent>, k: nat): seq<RecvEvent>
    requires k <= |Available(s)|
  {
    if k == 0 then s
    else
      var d := s[0].data;
      if k < |d| then [Chunk(d[k..])] + s[1..] else Skip(s[1..], k - |d|)
  }

  lemma {:induction false} SkipFacts(s: seq<RecvEvent>, k: nat)
    requires k <= |Available(s)|
    ensures Available(Skip(s, k)) == Available(s)[k..]
    ensures StopFault(Skip(s, k)) == StopFault(s)
    ensures AfterStop(Skip(s, k)) == AfterStop(s)
  {
    if k > 0 {
      var d := s[0].data;
      if k < |d| {
        assert ([Chunk(d[k..])] + s[1..])[1..] == s[1..];
      } else {
        SkipFacts(s[1..], k - |d|);
      }
    }
  }

  lemma {:induction false} SkipSkip(s: seq<RecvEvent>, a: nat, b: nat)
    requires a + b <= |Available(s)|
    ensures b <= |Available(Skip(s, a))|
    ensures Skip(Skip(s, a), b) == Skip(s, a + b)
  {
    SkipFacts(s, a);
    if a > 0 && b > 0 {
      var d := s[0].data;
      if a < |d| {
        var t := [Chunk(d[a..])] + s[1..];
        assert t[0].data == d[a..];
        assert t[1..] == s[1..];
        if a + b < |d| {
          assert d[a..][b..] == d[a + b..];
        }
      } else {
        SkipSkip(s[1..], a - |d|, b);
      }
    }
  }

  /** A `recv(n)` in the middle of the available bytes returns the next of them and advances by as many. */
  lemma RecvInside(s: seq<RecvEvent>, j: nat, n: nat)
    requires j < |Available(s)| && n >= 1
    ensures var (ev, rest) := Recv(Skip(s, j), n);
      && ev.Chunk? && 1 <= |ev.data| <= n && j + |ev.data| <= |Available(s)|
      && ev.data == Available(s)[j..j + |ev.data|]
      && rest == Skip(s, j + |ev.data|)
  {
    var t := Skip(s, j);
    SkipFacts(s, j);
    RecvFront(t, n);
    var got := |Recv(t, n).0.data|;
    SkipSkip(s, j, got);
    assert Available(s)[j..][..got] == Available(s)[j..j + got];
  }

  /** A `recv(n)` while bytes are available returns the first of them and advances by as many. */
  lemma RecvFront(s: seq<RecvEvent>, n: nat)
    requires Available(s) != [] && n >= 1
    ensures var (ev, rest) := Recv(s, n);
      && ev.Chunk? && 1 <= |ev.data| <= n && |ev.data| <= |Available(s)|
      && ev.data == Available(s)[..|ev.data|]
      && rest == Skip(s, |ev.data|)
  {
    var d := s[0].data;
    if |d| <= n {
      assert Skip(s[1..], 0) == s[1..];
    } else {
      assert Available(s)[..n] == d[..n];
    }
  }

  /**
    One `recv` of `_recv_data` after k of count bytes are in: a non-empty
    chunk is the next available bytes, no more than are still wanted; any
    other event is the fault that ends the whole read, and what it leaves
    unread is what the whole read leaves.
  */
  lemma DataStep(s: seq<RecvEvent>, k: nat, count: nat, ev: RecvEvent, rest: seq<RecvEvent>)
    requires k < count && k <= |Available(s)|
    requires (ev, rest) == Recv(Skip(s, k), count - k)
    ensures ev.Chunk? && ev.data != [] ==>
      && k + |ev.data| <= count && k + |ev.data| <= |Available(s)|
      && Available(s)[..k] + ev.data == Available(s)[..k + |ev.data|]
      && rest == Skip(s, k + |ev.data|)
    ensures !(ev.Chunk? && ev.data != []) ==> ReadExactly(s, count) == (Failed(FaultOf(ev)), rest)
  {
    if k < |Available(s)| {
      RecvInside(s, k, count - k);
      assert Available(s)[..k] + Available(s)[k..k + |ev.data|] == Available(s)[..k + |ev.data|];
    } else {
      RecvAtStop(s, count - k);
    }
  }

  /** A `recv(n)` once the available bytes are exhausted returns the stopping event and consumes it. */
  lemma {:induction false} RecvAtStop(s: seq<RecvEvent>, n: nat)
    requires n >= 1
    ensures var (ev, rest) := Recv(Skip(s, |Available(s)|), n);
      && !(ev.Chunk? && ev.data != [])
      && FaultOf(ev) == StopFault(s)
      && rest == AfterStop(s)
  {
    if s != [] && s[0].Chunk? && s[0].data != [] {
      RecvAtStop(s[1..], n);
    }
  }

  /**
    What `_RPC._recv_data(count)` yields: the next `count` available bytes,
    or, when fewer remain, the fault of the event that ends them.
  */
  function ReadExactly(s: seq<RecvEvent>, count: nat): (Read<seq<Byte>>, seq<RecvEvent>)
  {
    if count <= |Available(s)| then (Got(Available(s)[..count]), Skip(s, count))
    else (Failed(StopFault(s)), AfterStop(s))
  }

  /**
    One frame read off the stream: decode the varint length from the
    available bytes, then take that many payload bytes. A stream that stops
    inside the header or the payload yields the stopping fault.
  */
  function ReadFrame(s: seq<RecvEvent>): (r: (Read<seq<Byte>>, seq<RecvEvent>))
    ensures r.0.Got? ==> |Available(r.1)| < |Available(s)|
  {
    var avail := Available(s);
    match DecodeHeader(avail)
    case None => (Failed(StopFault(s)), AfterStop(s))
    case Some((len, k)) =>
      if k + len <= |avail| then
        SkipFacts(s, k + len);
        (Got(avail[k..k + len]), Skip(s, k + len))
      else (Failed(StopFault(s)), AfterStop(s))
  }

  /**
    The varint length at the front of the stream and the script after its
    last byte, or, when the available bytes hold no final header byte, the
    fault that cuts the header short.
  */
  function ReadLength(s: seq<RecvEvent>): (Read<nat>, seq<RecvEvent>)
  {
    match DecodeHeader(Available(s))
    case None => (Failed(StopFault(s)), AfterStop(s))
    case Some((len, k)) => (Got(len), Skip(s, k))
  }

  /** The first k available bytes all carry the continuation bit. */
  predicate Continues(s: seq<RecvEvent>, k: nat)
  {
    k <= |Available(s)| && forall i :: 0 <= i < k ==> Available(s)[i] > 0x7f
  }

  /**
    One byte of the length: after k continuation bytes, a failed one-byte
    read fails the whole length with its fault; a byte read is the k-th
    available byte, extends the shift-accumulated value by its group, and
    ends the length when it is <= 0x7f.
  */
  lemma LengthStep(s: seq<RecvEvent>, k: nat, b: Read<seq<Byte>>, rest: seq<RecvEvent>)
    requires Continues(s, k)
    requires (b, rest) == ReadExactly(Skip(s, k), 1)
    ensures b.Got? && b.value[0] > 0x7f ==> Continues(s, k + 1)
    ensures b.Failed? ==> ReadLength(s) == (Failed(b.fault), rest)
    ensures b.Got? ==> k < |Available(s)| && |b.value| == 1 && b.value[0] == Available(s)[k]
    ensures b.Got? ==> rest == Skip(s, k + 1)
    ensures b.Got? ==> ShiftSum(Available(s)[..k + 1]) == ShiftSum(Available(s)[..k]) + (b.value[0] % 0x80) * Pow2(7 * k)
    ensures b.Got? && b.value[0] <= 0x7f ==> ReadLength(s) == (Got(ShiftSum(Available(s)[..k + 1])), rest)
  {
    SkipFacts(s, k);
    var a := Available(s);
    if k < |a| {
      SkipSkip(s, k, 1);
      assert a[..k + 1][..k] == a[..k];
      if a[k] <= 0x7f {
        HeaderEndsAt(a, k + 1);
      }
    } else {
      assert DecodeHeader(a).None?;
    }
  }

  /** Reading a frame is reading its length, then that many payload bytes from where the length ended. */
  lemma ReadFrameSteps(s: seq<RecvEvent>)
    ensures ReadLength(s).0.Failed? ==> ReadFrame(s) == (Failed(ReadLength(s).0.fault), ReadLength(s).1)
    ensures ReadLength(s).0.Got? ==> ReadFrame(s) == ReadExactly(ReadLength(s).1, ReadLength(s).0.value)
  {
    match DecodeHeader(Available(s))
    case None =>
    case Some((len, k)) =>
      SkipFacts(s, k);
      if k + len <= |Available(s)| {
        SkipSkip(s, k, len);
        assert Available(s)[k..][..len] == Available(s)[k..k + len];
      }
  }

  /** A stream that carries a frame encoded by `EncodeRequest` yields exactly that payload. */
  lemma FrameRoundTrip(s: seq<RecvEvent>, payload: seq<Byte>, more: seq<Byte>)
    requires Available(s) == Header(|payload|) + payload + more
    ensures ReadFrame(s) == (Got(payload), Skip(s, |Header(|payload|)| + |payload|))
  {
    var h := Header(|payload|);
    assert Available(s) == h + (payload + more);
    HeaderRoundTrip(|payload|, payload + more);
    assert Available(s)[|h|..|h| + |payload|] == payload;
  }
}
