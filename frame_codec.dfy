/**
  The frame envelope of the portod wire protocol: the payload length as an
  unsigned base-128 varint (low 7-bit group first, continuation bit 0x80 on
  every byte but the last, the Protocol Buffers "Base 128 Varint" / unsigned
  LEB128 format), followed by the payload bytes.
*/
module FrameCodec {
  import opened Wrappers

  type Byte = b: int | 0 <= b < 0x100

  function Pow2(k: nat): (p: nat)
    ensures p >= 1
  {
    if k == 0 then 1 else 2 * Pow2(k - 1)
  }

  lemma {:induction false} Pow2Add(a: nat, b: nat)
    ensures Pow2(a + b) == Pow2(a) * Pow2(b)
  {
    if a > 0 {
      Pow2Add(a - 1, b);
      assert Pow2(a + b) == 2 * Pow2(a - 1 + b);
    }
  }

  lemma Pow2Seven(k: nat)
    ensures Pow2(7 * k + 7) == 0x80 * Pow2(7 * k)
  {
    Pow2Add(7 * k, 7);
    assert Pow2(7) == 0x80;
  }

  /** Reference encoding of a frame length: unsigned LEB128. */
  function Header(n: nat): (h: seq<Byte>)
    ensures |h| >= 1
  {
    if n <= 0x7f then [n] else [0x80 + n % 0x80] + Header(n / 0x80)
  }

  /**
    Decoding a length prefix from the front of a byte string: the length and
    the number of bytes it occupies, or None when no byte <= 0x7f ends it.
    It stops at the first byte <= 0x7f, whatever follows.
  */
  function DecodeHeader(bs: seq<Byte>): (r: Option<(nat, nat)>)
    ensures r.None? <==> forall i :: 0 <= i < |bs| ==> bs[i] > 0x7f
    ensures r.Some? ==> 1 <= r.value.1 <= |bs| && bs[r.value.1 - 1] <= 0x7f
    ensures r.Some? ==> forall i :: 0 <= i < r.value.1 - 1 ==> bs[i] > 0x7f
  {
    if bs == [] then None
    else if bs[0] <= 0x7f then Some((bs[0], 1))
    else match DecodeHeader(bs[1..])
      case None => None
      case Some((v, k)) => Some((bs[0] % 0x80 + 0x80 * v, k + 1))
  }

  /**
    The value a decoder builds by or-ing `(b & 0x7f) << shift` for each byte,
    shift growing by 7: the groups occupy disjoint bits, so `|` is `+`.
  */
  function ShiftSum(p: seq<Byte>): nat
  {
    if p == [] then 0
    else ShiftSum(p[..|p| - 1]) + (p[|p| - 1] % 0x80) * Pow2(7 * (|p| - 1))
  }

  lemma {:induction false} ShiftSumCons(b: Byte, q: seq<Byte>)
    ensures ShiftSum([b] + q) == b % 0x80 + 0x80 * ShiftSum(q)
    decreases |q|
  {
    if q == [] {
      assert [b] + q == [b];
      assert ([b] + q)[..0] == [];
    } else {
      var q' := q[..|q| - 1];
      var last := q[|q| - 1];
      assert ([b] + q)[..|q|] == [b] + q';
      ShiftSumCons(b, q');
      Pow2Seven(|q| - 1);
      calc {
        ShiftSum([b] + q);
        ShiftSum([b] + q') + (last % 0x80) * Pow2(7 * |q|);
        b % 0x80 + 0x80 * ShiftSum(q') + (last % 0x80) * (0x80 * Pow2(7 * (|q| - 1)));
        b % 0x80 + 0x80 * (ShiftSum(q') + (last % 0x80) * Pow2(7 * (|q| - 1)));
      }
    }
  }

  /** The decoder's value is the shift-accumulated value of the bytes it consumed. */
  lemma {:induction false} DecodeIsShiftSum(bs: seq<Byte>)
    requires DecodeHeader(bs).Some?
    ensures DecodeHeader(bs).value.0 == ShiftSum(bs[..DecodeHeader(bs).value.1])
  {
    if bs[0] <= 0x7f {
      assert bs[..1] == [] + [bs[0]];
      assert bs[..1][..0] == [];
    } else {
      DecodeIsShiftSum(bs[1..]);
      var k := DecodeHeader(bs[1..]).value.1;
      assert bs[..k + 1] == [bs[0]] + bs[1..][..k];
      ShiftSumCons(bs[0], bs[1..][..k]);
    }
  }

  /** A header that ends at its k-th byte decodes to the shift-accumulated value of those k bytes. */
  lemma HeaderEndsAt(bs: seq<Byte>, k: nat)
    requires 1 <= k <= |bs| && bs[k - 1] <= 0x7f
    requires forall i :: 0 <= i < k - 1 ==> bs[i] > 0x7f
    ensures DecodeHeader(bs) == Some((ShiftSum(bs[..k]), k))
  {
    assert DecodeHeader(bs).Some?;
    DecodeIsShiftSum(bs);
  }

  /** Every header byte but the last carries the continuation bit; the last does not. */
  lemma {:induction false} HeaderShape(n: nat)
    ensures forall i :: 0 <= i < |Header(n)| - 1 ==> Header(n)[i] >= 0x80
    ensures Header(n)[|Header(n)| - 1] <= 0x7f
  {
    if n > 0x7f {
      HeaderShape(n / 0x80);
    }
  }

  /** Decoding a header followed by anything recovers the length and consumes exactly the header. */
  lemma {:induction false} HeaderRoundTrip(n: nat, rest: seq<Byte>)
    ensures DecodeHeader(Header(n) + rest) == Some((n, |Header(n)|))
  {
    if n > 0x7f {
      var h := Header(n);
      assert (h + rest)[1..] == Header(n / 0x80) + rest;
      HeaderRoundTrip(n / 0x80, rest);
    }
  }

  /** A header of k bytes holds exactly the lengths in [2^(7(k-1)), 2^(7k)), the one-byte header also 0. */
  lemma {:induction false} HeaderSize(n: nat)
    ensures n < Pow2(7 * |Header(n)|)
    ensures |Header(n)| > 1 ==> Pow2(7 * (|Header(n)| - 1)) <= n
  {
    assert Pow2(7) == 0x80;
    if n > 0x7f {
      var m := |Header(n / 0x80)|;
      HeaderSize(n / 0x80);
      Pow2Seven(m);
      if m > 1 {
        Pow2Seven(m - 1);
      }
    }
  }

  /** The boundary lengths 0, 127, 128, 16383 and 16384 take 1, 1, 2, 2 and 3 header bytes. */
  lemma HeaderBoundaries()
    ensures |Header(0)| == 1 && |Header(127)| == 1
    ensures |Header(128)| == 2 && |Header(16383)| == 2
    ensures |Header(16384)| == 3
  {
    assert Header(128) == [0x80] + Header(1);
    assert Header(16383) == [0xff] + Header(127);
    assert Header(16384) == [0x80] + Header(128);
  }

  /**
    `_RPC.encode_request` after serialisation: the varint length, built by a
    loop that emits `0x80 | (length & 0x7f)` and shifts right by 7 while the
    length exceeds 0x7f, then the payload unchanged.
  */
  method EncodeRequest(req: seq<Byte>) returns (frame: seq<Byte>)
    ensures frame == Header(|req|) + req
  {
    var length: nat := |req|;
    var hdr: seq<Byte> := [];
    while length > 0x7f
      invariant hdr + Header(length) == Header(|req|)
    {
      hdr := hdr + [0x80 + length % 0x80];
      length := length / 0x80;
    }
    hdr := hdr + [length];
    frame := hdr + req;
  }
}
