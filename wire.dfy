/** Bytes on the wire and the 4-byte length header of a frame.
    The header is the network-order (big-endian) unsigned 32-bit encoding
    that the bridge obtains with struct.pack("!I", n) and reads back with
    struct.unpack("!I", header). */
module Wire {

  newtype byte = x: int | 0 <= x < 0x100

  datatype Option<+T> = None | Some(value: T)

  /** Number of bytes of the length header. */
  const HeaderSize: nat := 4

  /** The "!I" format accepts exactly the lengths below this bound. */
  const U32Bound: nat := 0x1_0000_0000

  function Min(a: nat, b: nat): nat
  {
    if a <= b then a else b
  }

  /** The concatenation of a list of writes, as the peer sees it on the stream. */
  function Flatten(ws: seq<seq<byte>>): seq<byte>
  {
    if ws == [] then [] else ws[0] + Flatten(ws[1..])
  }

  /** struct.pack("!I", n): four bytes, most significant first; struct.error
      (None here) when n does not fit in 32 bits. */
  function PackU32(n: nat): (r: Option<seq<byte>>)
    ensures r.Some? <==> n < U32Bound
    ensures r.Some? ==> |r.value| == HeaderSize
  {
    if n < U32Bound then
      var n1 := n / 0x100;
      var n2 := n1 / 0x100;
      Some([(n2 / 0x100) as byte, (n2 % 0x100) as byte, (n1 % 0x100) as byte, (n % 0x100) as byte])
    else
      None
  }

  /** struct.unpack("!I", header)[0]: the first byte is the most significant. */
  function UnpackU32(h: seq<byte>): (n: nat)
    requires |h| == HeaderSize
    ensures n < U32Bound
  {
    ((h[0] as nat * 0x100 + h[1] as nat) * 0x100 + h[2] as nat) * 0x100 + h[3] as nat
  }

  lemma DivMod256(x: nat, q: nat, r: nat)
    requires r < 0x100 && x == q * 0x100 + r
    ensures x / 0x100 == q && x % 0x100 == r
  {
  }

  /** Every length the sender can encode is read back unchanged. */
  lemma UnpackPack(n: nat)
    requires n < U32Bound
    ensures PackU32(n).Some? && UnpackU32(PackU32(n).value) == n
  {
    var n1 := n / 0x100;
    var n2 := n1 / 0x100;
    assert n == n1 * 0x100 + n % 0x100;
    assert n1 == n2 * 0x100 + n1 % 0x100;
    assert n2 == n2 / 0x100 * 0x100 + n2 % 0x100;
  }

  /** Every 4-byte header is the encoding of the length it decodes to. */
  lemma PackUnpack(h: seq<byte>)
    requires |h| == HeaderSize
    ensures PackU32(UnpackU32(h)) == Some(h)
  {
    var a, b, c, d := h[0] as nat, h[1] as nat, h[2] as nat, h[3] as nat;
    var n2 := a * 0x100 + b;
    var n1 := n2 * 0x100 + c;
    var n := n1 * 0x100 + d;
    DivMod256(n, n1, d);
    DivMod256(n1, n2, c);
    DivMod256(n2, a, b);
    assert UnpackU32(h) == n;
    assert (a as byte, b as byte, c as byte, d as byte) == (h[0], h[1], h[2], h[3]);
    assert PackU32(n).value == [h[0], h[1], h[2], h[3]];
    assert h == [h[0], h[1], h[2], h[3]];
  }
}
