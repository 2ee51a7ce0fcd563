/** Bytes on the wire: the fixed-width little-endian integer codec that
    stands in for host byte order, the length-prefixed frame used on every
    connection, and the log of the sends and closes a channel performs. */
module Wire {

  type byte = x: int | 0 <= x < 256

  datatype Option<T> = None | Some(value: T)

  /** One logged socket action: bytes handed to `send_bytes` on a
      descriptor, or `::close` of a descriptor. */
  datatype IoAction = Sent(fd: int, bytes: seq<byte>) | Closed(fd: int)

  /** Width in bytes of the frame's length prefix (a `uint64_t`). */
  const LENGTH_WIDTH: nat := 8

  function Pow256(w: nat): (p: nat)
    ensures p >= 1
  {
    if w == 0 then 1 else 256 * Pow256(w - 1)
  }

  /** The low `w` bytes of `n`, least significant first; higher bits are
      dropped as an unsigned cast to a `w`-byte integer drops them. */
  function EncodeLE(n: nat, w: nat): (b: seq<byte>)
    ensures |b| == w
  {
    if w == 0 then [] else [n % 256] + EncodeLE(n / 256, w - 1)
  }

  function DecodeLE(b: seq<byte>): (n: nat)
    ensures n < Pow256(|b|)
  {
    if b == [] then 0 else b[0] + 256 * DecodeLE(b[1..])
  }

  lemma MulAtLeast(m: nat, d: int)
    requires d >= 1
    ensures m * d >= m
  {
    var e := d - 1;
    assert m * d == m * e + m;
  }

  /** Division with remainder is unique. */
  lemma ModUnique(n: nat, m: nat, a: nat, x: nat)
    requires m >= 1 && n == m * a + x && x < m
    ensures n % m == x && n / m == a
  {
    var k, y := n / m, n % m;
    assert m * (a - k) == y - x;
    if a > k {
      MulAtLeast(m, a - k);
    } else if a < k {
      assert m * (k - a) == x - y;
      MulAtLeast(m, k - a);
    }
  }

  lemma ModOfSmaller(n: nat, m: nat)
    requires n < m
    ensures n % m == n
  {
    ModUnique(n, m, 0, n);
  }

  lemma ModOfMultiple(n: nat, p: nat)
    requires p >= 1
    ensures n % (256 * p) == n % 256 + 256 * ((n / 256) % p)
  {
    var q, r := n / 256, n % 256;
    var a, c := q / p, q % p;
    assert q == p * a + c;
    assert n == 256 * q + r;
    assert 256 * q == 256 * (p * a) + 256 * c;
    assert 256 * (p * a) == (256 * p) * a;
    ModUnique(n, 256 * p, a, 256 * c + r);
  }

  /** Decoding the `w` bytes written for `n` gives `n` modulo `256^w`. */
  lemma {:induction false} DecodeEncodeLE(n: nat, w: nat)
    ensures DecodeLE(EncodeLE(n, w)) == n % Pow256(w)
  {
    if w > 0 {
      var b := EncodeLE(n, w);
      assert b[1..] == EncodeLE(n / 256, w - 1);
      DecodeEncodeLE(n / 256, w - 1);
      ModOfMultiple(n, Pow256(w - 1));
    }
  }

  /** Every byte string of width `w` is the encoding of its value. */
  lemma {:induction false} EncodeDecodeLE(b: seq<byte>)
    ensures EncodeLE(DecodeLE(b), |b|) == b
  {
    if b != [] {
      var n := DecodeLE(b);
      ModUnique(n, 256, DecodeLE(b[1..]), b[0]);
      EncodeDecodeLE(b[1..]);
    }
  }

  /** The value of the frame's length field for a payload: its size cast
      to `uint64_t`. */
  function FrameLength(payload: seq<byte>): (len: nat)
    ensures len < Pow256(LENGTH_WIDTH)
    ensures |payload| < Pow256(LENGTH_WIDTH) ==> len == |payload|
  {
    |payload| % Pow256(LENGTH_WIDTH)
  }

  /** A frame as `sendMessage` and `sendError` write it: the length field,
      then as many payload bytes as the length field says. */
  function EncodeFrame(payload: seq<byte>): (f: seq<byte>)
    ensures |f| == LENGTH_WIDTH + FrameLength(payload)
    ensures f[LENGTH_WIDTH..] == payload[..FrameLength(payload)]
  {
    EncodeLE(FrameLength(payload), LENGTH_WIDTH) + payload[..FrameLength(payload)]
  }

  datatype Decoded = Decoded(payload: seq<byte>, consumed: nat)

  /** A frame as `receiveMessage` and the error read of `recvError` read it
      from the bytes the peer sends on a connection: eight length bytes, then
      exactly that many payload bytes. `None` stands for the exception
      `recv_bytes` raises when the peer stops sending before a whole frame. */
  function DecodeFrame(input: seq<byte>): (r: Option<Decoded>)
    ensures r.Some? <==>
      |input| >= LENGTH_WIDTH && |input| >= LENGTH_WIDTH + DecodeLE(input[..LENGTH_WIDTH])
    ensures r.Some? ==>
      && r.value.consumed == LENGTH_WIDTH + |r.value.payload| <= |input|
      && DecodeLE(input[..LENGTH_WIDTH]) == |r.value.payload|
      && input[LENGTH_WIDTH..r.value.consumed] == r.value.payload
  {
    if |input| < LENGTH_WIDTH then None
    else
      var len := DecodeLE(input[..LENGTH_WIDTH]);
      if |input| - LENGTH_WIDTH < len then None
      else Some(Decoded(input[LENGTH_WIDTH..LENGTH_WIDTH + len], LENGTH_WIDTH + len))
  }

  /** Reading back a written frame, whatever follows it on the connection,
      yields the payload as far as the length field covers it and consumes
      exactly the frame; a payload shorter than 2^64 bytes comes back whole. */
  lemma FrameRoundTrip(payload: seq<byte>, rest: seq<byte>)
    ensures var len := FrameLength(payload);
      DecodeFrame(EncodeFrame(payload) + rest) == Some(Decoded(payload[..len], LENGTH_WIDTH + len))
    ensures |payload| < Pow256(LENGTH_WIDTH) ==>
      DecodeFrame(EncodeFrame(payload) + rest) == Some(Decoded(payload, LENGTH_WIDTH + |payload|))
  {
    var len := FrameLength(payload);
    var prefix := EncodeLE(len, LENGTH_WIDTH);
    var body := payload[..len];
    var input := prefix + body + rest;
    assert EncodeFrame(payload) + rest == input;
    DecodeEncodeLE(len, LENGTH_WIDTH);
    ModOfSmaller(len, Pow256(LENGTH_WIDTH));
    assert input[..LENGTH_WIDTH] == prefix;
    assert input[LENGTH_WIDTH..LENGTH_WIDTH + len] == body;
    if |payload| < Pow256(LENGTH_WIDTH) {
      assert body == payload;
    }
  }

  /** Conversely, whatever the reader accepts is a well-formed frame: the
      consumed bytes are exactly what the writer produces for that payload. */
  lemma FrameDecodedIsEncoded(input: seq<byte>)
    requires DecodeFrame(input).Some?
    ensures var d := DecodeFrame(input).value;
      input[..d.consumed] == EncodeFrame(d.payload)
  {
    var d := DecodeFrame(input).value;
    assert FrameLength(d.payload) == |d.payload|;
    assert d.payload[..|d.payload|] == d.payload;
    EncodeDecodeLE(input[..LENGTH_WIDTH]);
    assert input[..d.consumed] == input[..LENGTH_WIDTH] + input[LENGTH_WIDTH..d.consumed];
  }
}
