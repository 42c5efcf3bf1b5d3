/** The byte cursor the signature decoder is built on: a raw buffer is a
    sequence of bytes, and consuming `k` bytes drops them from the front.
    Loads of multi-byte integers read little-endian, the byte order of every
    platform the reader targets. */
module Cursor {
  import opened Wrappers

  newtype byte = b: int | 0 <= b < 0x100

  /** A decoded value together with the bytes left after it. */
  datatype Parsed<+T> = Parsed(value: T, rest: seq<byte>)

  /** `rest` is what is left of `buf` once some prefix of it has been consumed. */
  predicate IsSuffix(rest: seq<byte>, buf: seq<byte>) {
    |rest| <= |buf| && rest == buf[|buf| - |rest|..]
  }

  lemma AppendAssoc(a: seq<byte>, b: seq<byte>, c: seq<byte>)
    ensures (a + b) + c == a + (b + c)
  {
  }

  lemma AppendEmpty(a: seq<byte>)
    ensures a + [] == a
  {
  }

  /** A buffer that starts with the byte `x`: after consuming `x` the rest is
      what followed it. */
  lemma ConsAppend(x: byte, a: seq<byte>, rest: seq<byte>)
    ensures |([x] + a) + rest| > 0
    ensures (([x] + a) + rest)[0] == x
    ensures (([x] + a) + rest)[1..] == a + rest
  {
    AppendAssoc([x], a, rest);
  }

  /** sub(offset:): the buffer from `offset` on. */
  function Sub(buf: seq<byte>, offset: nat): (r: seq<byte>)
    requires offset <= |buf|
    ensures |r| == |buf| - offset
    ensures forall i :: 0 <= i < |r| ==> r[i] == buf[offset + i]
    ensures IsSuffix(r, buf)
  {
    buf[offset..]
  }

  /** sub(offset:count:): the `count` bytes starting at `offset`. */
  function SubRange(buf: seq<byte>, offset: nat, count: nat): (r: seq<byte>)
    requires offset + count <= |buf|
    ensures |r| == count
    ensures forall i :: 0 <= i < count ==> r[i] == buf[offset + i]
  {
    buf[offset..offset + count]
  }

  /** consume(type:) for a type whose stride is `stride` bytes: the bytes of
      the value at the front, and the buffer without them. Slicing past the
      end traps. */
  function Consume(buf: seq<byte>, stride: nat): (r: Outcome<Parsed<seq<byte>>>)
    ensures r.Success? <==> stride <= |buf|
    ensures !r.Success? ==> r.Fatal?
    ensures r.Success? ==> |r.value.value| == stride && r.value.value + r.value.rest == buf
    ensures r.Success? ==> |r.value.rest| == |buf| - stride && IsSuffix(r.value.rest, buf)
  {
    if stride <= |buf| then Success(Parsed(buf[..stride], Sub(buf, stride))) else Fatal
  }

  /** The `i`-th of `count` runs of `stride` bytes ends within the first
      `stride * count` bytes. */
  lemma RunBounds(stride: nat, count: nat)
    ensures forall i :: 0 <= i < count ==> stride * i + stride <= stride * count
  {
    forall i | 0 <= i < count
      ensures stride * i + stride <= stride * count
    {
      assert stride * i + stride == stride * (i + 1);
      assert stride * (i + 1) <= stride * count by {
        if stride > 0 {
          assert stride * count - stride * (i + 1) == stride * (count - (i + 1));
        }
      }
    }
  }

  /** consume(type:count:): `count` values of `stride` bytes each, in order,
      and the buffer without their `stride * count` bytes. */
  function ConsumeArray(buf: seq<byte>, stride: nat, count: nat): (r: Outcome<Parsed<seq<seq<byte>>>>)
    ensures r.Success? <==> stride * count <= |buf|
    ensures !r.Success? ==> r.Fatal?
    ensures r.Success? ==> |r.value.value| == count && r.value.rest == buf[stride * count..]
    ensures r.Success? ==> forall i :: 0 <= i < count ==>
      stride * i + stride <= |buf| && r.value.value[i] == buf[stride * i .. stride * i + stride]
  {
    if stride * count <= |buf| then
      RunBounds(stride, count);
      Success(Parsed(seq(count, i requires 0 <= i < count => buf[stride * i .. stride * i + stride]), buf[stride * count..]))
    else Fatal
  }

  /** The bytes before the first NUL. */
  function PrefixBeforeNul(bytes: seq<byte>): (r: seq<byte>)
    ensures |r| <= |bytes| && r == bytes[..|r|]
    ensures forall i :: 0 <= i < |r| ==> r[i] != 0
    ensures |r| < |bytes| ==> bytes[|r|] == 0
  {
    if |bytes| == 0 || bytes[0] == 0 then [] else [bytes[0]] + PrefixBeforeNul(bytes[1..])
  }

  predicate InRange(b: byte, lo: byte, hi: byte) {
    lo <= b <= hi
  }

  /** The length of the well-formed UTF-8 sequence that starts `bytes`, or 0
      when it starts with none (Table 3-7 of the Unicode Standard, section
      3.9: no overlong forms, no surrogates, nothing above U+10FFFF). */
  function Utf8SequenceLength(bytes: seq<byte>): (n: nat)
    ensures n <= 4 && n <= |bytes|
    ensures n == 1 <==> |bytes| > 0 && bytes[0] < 0x80
  {
    if |bytes| == 0 then 0
    else
      var b0 := bytes[0];
      if b0 < 0x80 then 1
      else if |bytes| >= 2 && InRange(b0, 0xC2, 0xDF) && InRange(bytes[1], 0x80, 0xBF) then 2
      else if |bytes| >= 3 && InRange(bytes[2], 0x80, 0xBF) && (
        || (b0 == 0xE0 && InRange(bytes[1], 0xA0, 0xBF))
        || ((InRange(b0, 0xE1, 0xEC) || InRange(b0, 0xEE, 0xEF)) && InRange(bytes[1], 0x80, 0xBF))
        || (b0 == 0xED && InRange(bytes[1], 0x80, 0x9F))) then 3
      else if |bytes| >= 4 && InRange(bytes[2], 0x80, 0xBF) && InRange(bytes[3], 0x80, 0xBF) && (
        || (b0 == 0xF0 && InRange(bytes[1], 0x90, 0xBF))
        || (InRange(b0, 0xF1, 0xF3) && InRange(bytes[1], 0x80, 0xBF))
        || (b0 == 0xF4 && InRange(bytes[1], 0x80, 0x8F))) then 4
      else 0
  }

  /** Well-formed UTF-8: a series of well-formed sequences. */
  predicate IsUtf8(bytes: seq<byte>)
    decreases |bytes|
  {
    |bytes| == 0 || (Utf8SequenceLength(bytes) > 0 && IsUtf8(bytes[Utf8SequenceLength(bytes)..]))
  }

  /** ASCII text is well-formed UTF-8. */
  lemma {:induction false} AsciiIsUtf8(bytes: seq<byte>)
    requires forall i :: 0 <= i < |bytes| ==> bytes[i] < 0x80
    ensures IsUtf8(bytes)
    decreases |bytes|
  {
    if |bytes| > 0 {
      assert Utf8SequenceLength(bytes) == 1;
      AsciiIsUtf8(bytes[1..]);
    }
  }

  /** A continuation byte cannot start text, and a lone lead byte cannot end it. */
  lemma MalformedUtf8Examples()
    ensures !IsUtf8([0x80])
    ensures !IsUtf8([0x41, 0xC3])
    ensures !IsUtf8([0xC0, 0x80])
    ensures !IsUtf8([0xED, 0xA0, 0x80])
    ensures IsUtf8([0xC3, 0xA9])
  {
    assert Utf8SequenceLength([0xC3, 0xA9]) == 2;
    assert [0xC3, 0xA9][2..] == [];
    assert Utf8SequenceLength([0x41, 0xC3]) == 1;
    assert [0x41, 0xC3][1..] == [0xC3];
  }

  /** consumeNulPaddedUTF8String(maxLength:): always removes `maxLength`
      bytes; the string is the bytes before the first NUL among them, and
      the force-unwrap of its UTF-8 decoding traps when they are not
      well-formed UTF-8. */
  function ConsumeNulPaddedString(buf: seq<byte>, maxLength: nat): (r: Outcome<Parsed<seq<byte>>>)
    ensures maxLength > |buf| ==> r.Fatal?
    ensures maxLength <= |buf| ==> (r.Success? <==> IsUtf8(PrefixBeforeNul(buf[..maxLength])))
    ensures !r.Success? ==> r.Fatal?
    ensures r.Success? ==> IsUtf8(r.value.value)
    ensures r.Success? ==> r.value.rest == buf[maxLength..]
    ensures r.Success? ==> |r.value.value| <= maxLength && r.value.value == buf[..|r.value.value|]
    ensures r.Success? ==> forall i :: 0 <= i < |r.value.value| ==> r.value.value[i] != 0
    ensures r.Success? && |r.value.value| < maxLength ==> buf[|r.value.value|] == 0
  {
    var units := ConsumeArray(buf, 1, maxLength);
    if units.Success? then
      var bytes := seq(maxLength, i requires 0 <= i < maxLength => units.value.value[i][0]);
      assert bytes == buf[..maxLength];
      var text := PrefixBeforeNul(bytes);
      if IsUtf8(text) then Success(Parsed(text, units.value.rest)) else Fatal
    else Fatal
  }

  /** Consume values of the given strides one after the other. */
  function ConsumeAll(buf: seq<byte>, strides: seq<nat>): Outcome<seq<byte>>
    decreases |strides|
  {
    if |strides| == 0 then Success(buf)
    else
      var first := Consume(buf, strides[0]);
      if first.Success? then ConsumeAll(first.value.rest, strides[1..]) else Fatal
  }

  function Sum(xs: seq<nat>): nat {
    if |xs| == 0 then 0 else xs[0] + Sum(xs[1..])
  }

  /** Consecutive consumes compose: what is left is the original buffer with
      the sum of the consumed widths dropped, and the run traps exactly when
      that sum exceeds the buffer. */
  lemma {:induction false} ConsumeAllDropsSum(buf: seq<byte>, strides: seq<nat>)
    ensures ConsumeAll(buf, strides).Success? <==> Sum(strides) <= |buf|
    ensures ConsumeAll(buf, strides).Success? ==> ConsumeAll(buf, strides).value == buf[Sum(strides)..]
    decreases |strides|
  {
    if |strides| > 0 {
      if strides[0] <= |buf| {
        ConsumeAllDropsSum(buf[strides[0]..], strides[1..]);
      }
    }
  }

  /** 256 to the power `n`: the number of values `n` bytes can hold. */
  function Pow256(n: nat): (r: nat)
    ensures r >= 1
  {
    if n == 0 then 1 else 0x100 * Pow256(n - 1)
  }

  /** The unsigned value of `bytes` read least significant byte first. */
  function LittleEndian(bytes: seq<byte>): (r: nat)
    ensures r < Pow256(|bytes|)
  {
    if |bytes| == 0 then 0 else bytes[0] as nat + 0x100 * LittleEndian(bytes[1..])
  }

  /** The `width`-byte little-endian representation of `v`. */
  function EncodeLittleEndian(v: nat, width: nat): (r: seq<byte>)
    ensures |r| == width
  {
    if width == 0 then [] else [(v % 0x100) as byte] + EncodeLittleEndian(v / 0x100, width - 1)
  }

  lemma {:induction false} LittleEndianRoundTrip(v: nat, width: nat)
    requires v < Pow256(width)
    ensures LittleEndian(EncodeLittleEndian(v, width)) == v
  {
    if width > 0 {
      LittleEndianRoundTrip(v / 0x100, width - 1);
    }
  }

  /** Two's-complement reading of an unsigned `width`-byte value. */
  function ToSigned(v: nat, width: nat): (r: int)
    requires v < Pow256(width)
    requires width > 0
    ensures -((Pow256(width) / 2) as int) <= r < Pow256(width) / 2
    ensures r >= 0 <==> v < Pow256(width) / 2
  {
    PowHalf(width);
    if v < Pow256(width) / 2 then v else v - Pow256(width)
  }

  lemma PowHalf(width: nat)
    requires width > 0
    ensures Pow256(width) == 2 * (Pow256(width) / 2)
  {
  }

  /** The unsigned pattern whose two's-complement reading is `s`. */
  function FromSigned(s: int, width: nat): (r: nat)
    requires width > 0
    requires -((Pow256(width) / 2) as int) <= s < Pow256(width) / 2
    ensures r < Pow256(width)
    ensures ToSigned(r, width) == s
  {
    PowHalf(width);
    if s >= 0 then s else s + Pow256(width)
  }

  /** `consume(type: UIntN.self).pointee` for an N-bit unsigned integer of
      `width` bytes. */
  function ConsumeUInt(buf: seq<byte>, width: nat): (r: Outcome<Parsed<nat>>)
    ensures r.Success? <==> width <= |buf|
    ensures !r.Success? ==> r.Fatal?
    ensures r.Success? ==> r.value.value < Pow256(width) && r.value.rest == buf[width..]
  {
    var raw :- Consume(buf, width);
    Success(Parsed(LittleEndian(raw.value), raw.rest))
  }

  /** A UInt16 read takes the low byte first. */
  lemma ConsumeUInt16(buf: seq<byte>)
    requires |buf| >= 2
    ensures ConsumeUInt(buf, 2) == Success(Parsed(buf[0] as nat + 0x100 * buf[1] as nat, buf[2..]))
  {
    var raw := buf[..2];
    assert Consume(buf, 2) == Success(Parsed(raw, buf[2..]));
    assert raw[1..][1..] == [];
    assert LittleEndian(raw) == buf[0] as nat + 0x100 * buf[1] as nat;
  }

  lemma ConsumeUIntRoundTrip(v: nat, width: nat, rest: seq<byte>)
    requires v < Pow256(width)
    ensures ConsumeUInt(EncodeLittleEndian(v, width) + rest, width) == Success(Parsed(v, rest))
  {
    var buf := EncodeLittleEndian(v, width) + rest;
    assert buf[..width] == EncodeLittleEndian(v, width);
    assert buf[width..] == rest;
    LittleEndianRoundTrip(v, width);
  }
}
