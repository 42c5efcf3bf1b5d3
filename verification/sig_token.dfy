/** The byte constants of signature blobs (sections II.23.1.16, II.23.2 and
    II.23.3 of ECMA-335), single-token reads, and the compressed unsigned
    integer encoding of section II.23.2. */
module SigToken {
  import opened Wrappers
  import opened Cursor

  // Element types, section II.23.1.16.
  const VOID: byte := 0x01
  const BOOLEAN: byte := 0x02
  const CHAR: byte := 0x03
  const I1: byte := 0x04
  const U1: byte := 0x05
  const I2: byte := 0x06
  const U2: byte := 0x07
  const I4: byte := 0x08
  const U4: byte := 0x09
  const I8: byte := 0x0A
  const U8: byte := 0x0B
  const R4: byte := 0x0C
  const R8: byte := 0x0D
  const STRING: byte := 0x0E
  const BYREF: byte := 0x10
  const VALUETYPE: byte := 0x11
  const CLASS: byte := 0x12
  const VAR: byte := 0x13
  const GENERICINST: byte := 0x15
  const I: byte := 0x18
  const U: byte := 0x19
  const OBJECT: byte := 0x1C
  const SZARRAY: byte := 0x1D
  const MVAR: byte := 0x1E
  const CMOD_REQD: byte := 0x1F
  const CMOD_OPT: byte := 0x20

  // Calling-convention bytes, sections II.23.2.1, II.23.2.4 and II.23.2.5.
  const DEFAULT: byte := 0x00
  const FIELD: byte := 0x06
  const PROPERTY: byte := 0x08
  const HASTHIS: byte := 0x20
  const EXPLICITTHIS: byte := 0x40
  /** The calling-convention kind is the low nibble (`& 0x0F`). */
  const KIND_SPAN: nat := 0x10

  // Custom attribute blobs, section II.23.3.
  const PROLOG_0: byte := 0x01
  const PROLOG_1: byte := 0x00
  const NAMED_FIELD: byte := 0x53
  const NAMED_PROPERTY: byte := 0x54

  /** The lead byte of a null SerString. */
  const NULL_MARKER: byte := 0xFF

  /** The largest value plus one that a compressed unsigned integer holds. */
  const COMPRESSED_LIMIT: nat := 0x2000_0000

  /** `b & flag != 0` for a single-bit flag. */
  predicate HasFlag(b: byte, flag: byte)
    requires flag in {HASTHIS, EXPLICITTHIS}
  {
    (b as nat / flag as nat) % 2 == 1
  }

  /** SigToken.consume: the next byte; an empty buffer traps. */
  function ConsumeToken(buf: seq<byte>): (r: Outcome<Parsed<byte>>)
    ensures r.Success? <==> |buf| > 0
    ensures !r.Success? ==> r.Fatal?
    ensures r.Success? ==> r.value.value == buf[0] && r.value.rest == buf[1..]
  {
    if |buf| == 0 then Fatal else Success(Parsed(buf[0], buf[1..]))
  }

  /** SigToken.tryConsume: consumes the next byte only when it is `token`. */
  function TryConsume(buf: seq<byte>, token: byte): (r: Parsed<bool>)
    ensures r.value <==> |buf| > 0 && buf[0] == token
    ensures r.rest == if r.value then buf[1..] else buf
  {
    if |buf| > 0 && buf[0] == token then Parsed(true, buf[1..]) else Parsed(false, buf)
  }

  /** consumeCompressedUInt: a 1-, 2- or 4-byte big-endian value whose lead
      byte's top bits (0, 10 or 110) give the length. A lead byte 111xxxxx,
      among them the null marker 0xFF, yields no value. A buffer that ends
      inside the value traps. */
  function ConsumeCompressedUInt(buf: seq<byte>): (r: Outcome<Parsed<Option<nat>>>)
    ensures !r.Thrown?
    ensures |buf| == 0 ==> r.Fatal?
    ensures |buf| > 0 && buf[0] >= 0xE0 ==> r == Success(Parsed(None, buf[1..]))
    ensures r.Success? && r.value.value.Some? ==> r.value.value.value < COMPRESSED_LIMIT
    ensures r.Success? ==> |r.value.rest| < |buf| && IsSuffix(r.value.rest, buf)
  {
    var lead :- ConsumeToken(buf);
    var b0 := lead.value as nat;
    if b0 < 0x80 then
      Success(Parsed(Some(b0), lead.rest))
    else if b0 < 0xC0 then
      var tail :- Consume(lead.rest, 1);
      Success(Parsed(Some((b0 - 0x80) * 0x100 + tail.value[0] as nat), tail.rest))
    else if b0 < 0xE0 then
      var tail :- Consume(lead.rest, 3);
      var b := tail.value;
      Success(Parsed(Some((b0 - 0xC0) * 0x100_0000 + b[0] as nat * 0x1_0000 + b[1] as nat * 0x100 + b[2] as nat), tail.rest))
    else
      Success(Parsed(None, lead.rest))
  }

  /** The shortest compressed encoding of `n`. */
  function EncodeCompressedUInt(n: nat): (r: seq<byte>)
    requires n < COMPRESSED_LIMIT
    ensures |r| == 1 <==> n < 0x80
    ensures |r| == 2 <==> 0x80 <= n < 0x4000
    ensures |r| == 4 <==> 0x4000 <= n
    ensures r[0] < 0xE0
  {
    if n < 0x80 then [n as byte]
    else if n < 0x4000 then [(0x80 + n / 0x100) as byte, (n % 0x100) as byte]
    else [(0xC0 + n / 0x100_0000) as byte, (n / 0x1_0000 % 0x100) as byte,
          (n / 0x100 % 0x100) as byte, (n % 0x100) as byte]
  }

  /** Compressed-integer law: decoding the encoding of `n` gives back `n`
      and leaves exactly the bytes that followed. */
  lemma CompressedUIntRoundTrip(n: nat, rest: seq<byte>)
    requires n < COMPRESSED_LIMIT
    ensures ConsumeCompressedUInt(EncodeCompressedUInt(n) + rest) == Success(Parsed(Some(n), rest))
  {
    if n < 0x80 {
      assert (EncodeCompressedUInt(n) + rest)[1..] == rest;
    } else if n < 0x4000 {
      TwoByteRoundTrip(n, rest);
    } else {
      FourByteRoundTrip(n, rest);
    }
  }

  lemma TwoByteRoundTrip(n: nat, rest: seq<byte>)
    requires 0x80 <= n < 0x4000
    ensures ConsumeCompressedUInt(EncodeCompressedUInt(n) + rest) == Success(Parsed(Some(n), rest))
  {
    var e := EncodeCompressedUInt(n);
    var buf := e + rest;
    assert buf[0] == e[0];
    assert buf[1..][..1] == [e[1]];
    assert buf[1..][1..] == rest;
  }

  lemma FourByteRoundTrip(n: nat, rest: seq<byte>)
    requires 0x4000 <= n < COMPRESSED_LIMIT
    ensures ConsumeCompressedUInt(EncodeCompressedUInt(n) + rest) == Success(Parsed(Some(n), rest))
  {
    var e := EncodeCompressedUInt(n);
    var buf := e + rest;
    assert buf[0] == e[0] && buf[1..] == e[1..4] + rest;
    assert Consume(buf[1..], 3) == Success(Parsed(e[1..4], rest));
    var b := e[1..4];
    assert (e[0] as nat - 0xC0) * 0x100_0000 + b[0] as nat * 0x1_0000 + b[1] as nat * 0x100 + b[2] as nat == n by {
      FourByteDigits(n);
    }
  }

  /** The base-256 digits of a 29-bit value. */
  lemma FourByteDigits(n: nat)
    requires n < COMPRESSED_LIMIT
    ensures n == n / 0x100_0000 * 0x100_0000 + n / 0x1_0000 % 0x100 * 0x1_0000 + n / 0x100 % 0x100 * 0x100 + n % 0x100
  {
    var a := n / 0x100;
    var b := a / 0x100;
    assert n / 0x1_0000 == b;
    assert n / 0x100_0000 == b / 0x100;
  }

  /** The worked example of a two-byte compressed integer: 0x92 0x34 holds
      0x1234 & 0x3FFF. */
  lemma TwoByteExample()
    ensures ConsumeCompressedUInt([0x92, 0x34]) == Success(Parsed(Some(0x1234), []))
  {
    assert [0x92 as byte, 0x34][1..] == [0x34];
  }
}
