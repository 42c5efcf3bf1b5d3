/** Custom attribute value blobs (section II.23.3 of ECMA-335): the prolog,
    one fixed argument per constructor parameter, and a counted list of
    named field or property arguments. Decoding is driven by the types of
    the constructor's parameters; integers are read little-endian. */
module CustomAttributes {
  import opened Wrappers
  import opened Cursor
  import opened SigToken
  import opened Signatures
  import opened SignatureReading
  import opened SignatureEncoding

  /** consumeSerString: a compressed length and that many UTF-8 bytes; the
      null marker yields no string. A buffer too short for the length traps. */
  function ConsumeSerString(buf: seq<byte>): (r: Outcome<Parsed<Option<seq<byte>>>>)
    ensures !r.Thrown?
    ensures |buf| == 0 ==> r.Fatal?
    ensures |buf| > 0 && buf[0] == NULL_MARKER ==> r == Success(Parsed(None, buf[1..]))
    ensures r.Success? && r.value.value.Some? ==> |r.value.value.value| < COMPRESSED_LIMIT
    ensures r.Success? ==> |r.value.rest| < |buf|
  {
    var length :- ConsumeCompressedUInt(buf);
    if length.value.None? then Success(Parsed(None, length.rest))
    else
      var bytes :- Consume(length.rest, length.value.value);
      Success(Parsed(Some(bytes.value), bytes.rest))
  }

  function EncodeSerString(s: Option<seq<byte>>): (r: seq<byte>)
    requires s.Some? ==> |s.value| < COMPRESSED_LIMIT
    ensures |r| > 0
  {
    if s.None? then [NULL_MARKER] else EncodeCompressedUInt(|s.value|) + s.value
  }

  lemma SerStringRoundTrip(s: Option<seq<byte>>, rest: seq<byte>)
    requires s.Some? ==> |s.value| < COMPRESSED_LIMIT
    ensures ConsumeSerString(EncodeSerString(s) + rest) == Success(Parsed(s, rest))
  {
    if s.Some? {
      var length := EncodeCompressedUInt(|s.value|);
      AppendAssoc(length, s.value, rest);
      CompressedUIntRoundTrip(|s.value|, s.value + rest);
      assert (s.value + rest)[..|s.value|] == s.value;
      assert (s.value + rest)[|s.value|..] == rest;
    } else {
      assert ([NULL_MARKER] + rest)[1..] == rest;
    }
  }

  /** The byte width of the fixed-size integer types. */
  function IntegerWidth(size: IntegerSize): (w: nat)
    requires size != IntPtr
    ensures 1 <= w <= 8
  {
    match size
    case Int8 => 1
    case Int16 => 2
    case Int32 => 4
    case Int64 => 8
  }

  /** `v` is a value of the integer type of that width and signedness. */
  predicate InIntegerRange(size: IntegerSize, signed: bool, v: int)
    requires size != IntPtr
  {
    var span := Pow256(IntegerWidth(size));
    if signed then -((span / 2) as int) <= v < span / 2 else 0 <= v < span
  }

  const UINT32_SPAN: nat := 0x1_0000_0000

  lemma Pow256Four()
    ensures Pow256(4) == UINT32_SPAN
  {
    assert Pow256(1) == 0x100;
    assert Pow256(2) == 0x1_0000;
    assert Pow256(3) == 0x100_0000;
  }

  /** The parameter types a custom attribute value can have in this decoder:
      the fixed-size primitives, strings, and single-dimensional arrays of
      those. Everything else (enums, `System.Type`, boxed objects, native
      integers) is rejected. */
  predicate IsElemType(t: TypeSig) {
    match t
    case Boolean => true
    case Char => true
    case Integer(size, _) => size != IntPtr
    case Real(_) => true
    case String => true
    case SzArray(_, _) => true
    case _ => false
  }

  /** The values a type's blob encoding can carry. */
  predicate ElemFits(e: Elem, t: TypeSig)
    decreases t
  {
    match t
    case Boolean => e.ConstantElem? && e.constant.BoolConst?
    case Char => e.ConstantElem? && e.constant.CharConst? && e.constant.codeUnit < 0x1_0000
    case Integer(size, signed) =>
      && size != IntPtr
      && e.ConstantElem? && e.constant.IntConst?
      && e.constant.size == size && e.constant.signed == signed
      && InIntegerRange(size, signed, e.constant.value)
    case Real(double) =>
      && e.ConstantElem?
      && if double then e.constant.DoubleConst? && |e.constant.bits| == 8
         else e.constant.SingleConst? && |e.constant.bits| == 4
    case String =>
      && e.ConstantElem?
      && (e.constant.NullConst? || (e.constant.StringConst? && |e.constant.utf8| < COMPRESSED_LIMIT))
    case SzArray(_, element) =>
      && e.ArrayElem?
      && |e.elems| < UINT32_SPAN
      && forall i :: 0 <= i < |e.elems| ==> ElemFits(e.elems[i], element)
    case _ => false
  }

  /** consumeElem: the value of one argument of type `t`. A boolean is any
      nonzero byte; signed integers are two's complement; floating-point
      values keep their raw bytes; a null string is the null constant; an
      array is a 32-bit element count and that many elements. */
  function ConsumeElem(buf: seq<byte>, t: TypeSig): (r: Outcome<Parsed<Elem>>)
    decreases t, 0
    ensures !IsElemType(t) ==> r == Thrown(SignatureBlob)
    ensures r.Success? ==> ElemFits(r.value.value, t)
    ensures r.Success? ==> |r.value.rest| < |buf|
  {
    match t
    case Boolean =>
      var b :- ConsumeUInt(buf, 1);
      Success(Parsed(ConstantElem(BoolConst(b.value != 0)), b.rest))
    case Char =>
      var c :- ConsumeUInt(buf, 2);
      Success(Parsed(ConstantElem(CharConst(c.value)), c.rest))
    case Integer(size, signed) =>
      if size == IntPtr then Thrown(SignatureBlob)
      else
        var width := IntegerWidth(size);
        var raw :- ConsumeUInt(buf, width);
        var value := if signed then ToSigned(raw.value, width) else raw.value;
        Success(Parsed(ConstantElem(IntConst(size, signed, value)), raw.rest))
    case Real(double) =>
      var bits :- Consume(buf, if double then 8 else 4);
      Success(Parsed(ConstantElem(if double then DoubleConst(bits.value) else SingleConst(bits.value)), bits.rest))
    case String =>
      var s :- ConsumeSerString(buf);
      Success(Parsed(ConstantElem(if s.value.None? then NullConst else StringConst(s.value.value)), s.rest))
    case SzArray(_, element) =>
      var length :- ConsumeUInt(buf, 4);
      Pow256Four();
      var elems :- ConsumeElems(length.rest, element, length.value);
      Success(Parsed(ArrayElem(elems.value), elems.rest))
    case _ => Thrown(SignatureBlob)
  }

  /** `count` values of type `t` one after the other. */
  function ConsumeElems(buf: seq<byte>, t: TypeSig, count: nat): (r: Outcome<Parsed<seq<Elem>>>)
    decreases t, count + 1
    ensures r.Success? ==> |r.value.value| == count
    ensures r.Success? ==> forall i :: 0 <= i < count ==> ElemFits(r.value.value[i], t)
    ensures r.Success? ==> |r.value.rest| <= |buf|
  {
    if count == 0 then Success(Parsed([], buf))
    else
      var first :- ConsumeElem(buf, t);
      var others :- ConsumeElems(first.rest, t, count - 1);
      Success(Parsed([first.value] + others.value, others.rest))
  }

  function BoolByte(b: bool): byte {
    if b then 1 else 0
  }

  /** The encoding of a value of type `t`. */
  function EncodeElem(e: Elem, t: TypeSig): (r: seq<byte>)
    requires ElemFits(e, t)
    decreases t, 0
  {
    match t
    case Boolean => [BoolByte(e.constant.b)]
    case Char => EncodeLittleEndian(e.constant.codeUnit, 2)
    case Integer(size, signed) =>
      var width := IntegerWidth(size);
      EncodeLittleEndian(if signed then FromSigned(e.constant.value, width) else e.constant.value, width)
    case Real(_) => e.constant.bits
    case String => EncodeSerString(if e.constant.NullConst? then None else Some(e.constant.utf8))
    case SzArray(_, element) => EncodeLittleEndian(|e.elems|, 4) + EncodeElems(e.elems, element)
  }

  function EncodeElems(es: seq<Elem>, t: TypeSig): seq<byte>
    requires forall i :: 0 <= i < |es| ==> ElemFits(es[i], t)
    decreases t, |es| + 1
  {
    if |es| == 0 then [] else EncodeElem(es[0], t) + EncodeElems(es[1..], t)
  }

  /** Value law: decoding the encoding of a value that fits its type gives
      the value back and stops exactly at its end. */
  lemma {:induction false} ElemRoundTrip(e: Elem, t: TypeSig, rest: seq<byte>)
    requires ElemFits(e, t)
    ensures ConsumeElem(EncodeElem(e, t) + rest, t) == Success(Parsed(e, rest))
    decreases t, 0
  {
    var buf := EncodeElem(e, t) + rest;
    match t
    case Boolean =>
      ConsumeUIntRoundTrip(BoolByte(e.constant.b) as nat, 1, rest);
      assert EncodeLittleEndian(BoolByte(e.constant.b) as nat, 1) == [BoolByte(e.constant.b)];
    case Char =>
      ConsumeUIntRoundTrip(e.constant.codeUnit, 2, rest);
    case Integer(size, signed) =>
      var width := IntegerWidth(size);
      if signed {
        ConsumeUIntRoundTrip(FromSigned(e.constant.value, width), width, rest);
      } else {
        ConsumeUIntRoundTrip(e.constant.value, width, rest);
      }
    case Real(double) =>
      assert buf[..|e.constant.bits|] == e.constant.bits;
      assert buf[|e.constant.bits|..] == rest;
    case String =>
      SerStringRoundTrip(if e.constant.NullConst? then None else Some(e.constant.utf8), rest);
    case SzArray(mods, element) =>
      Pow256Four();
      var elems := EncodeElems(e.elems, element);
      AppendAssoc(EncodeLittleEndian(|e.elems|, 4), elems, rest);
      ConsumeUIntRoundTrip(|e.elems|, 4, elems + rest);
      ElemsRoundTrip(e.elems, element, rest);
      assert ConsumeElem(buf, SzArray(mods, element)) == Success(Parsed(ArrayElem(e.elems), rest));
  }

  lemma {:induction false} ElemsRoundTrip(es: seq<Elem>, t: TypeSig, rest: seq<byte>)
    requires forall i :: 0 <= i < |es| ==> ElemFits(es[i], t)
    ensures ConsumeElems(EncodeElems(es, t) + rest, t, |es|) == Success(Parsed(es, rest))
    decreases t, |es| + 1
  {
    if |es| == 0 {
      assert EncodeElems(es, t) + rest == rest;
    } else {
      var others := EncodeElems(es[1..], t);
      ElemsRoundTrip(es[1..], t, rest);
      ElemRoundTrip(es[0], t, others + rest);
      ConsumeElemsCons(es, t, EncodeElem(es[0], t), others, rest);
    }
  }

  /** Decoding a list whose first element and remaining elements each
      decode from their part of the buffer. */
  lemma ConsumeElemsCons(es: seq<Elem>, t: TypeSig, head: seq<byte>, others: seq<byte>, rest: seq<byte>)
    requires |es| > 0
    requires ConsumeElem(head + (others + rest), t) == Success(Parsed(es[0], others + rest))
    requires ConsumeElems(others + rest, t, |es| - 1) == Success(Parsed(es[1..], rest))
    ensures ConsumeElems((head + others) + rest, t, |es|) == Success(Parsed(es, rest))
  {
    AppendAssoc(head, others, rest);
    ConsumeElemsStep((head + others) + rest, t, es, others + rest, rest);
  }

  /** One element, then the others. */
  lemma ConsumeElemsStep(buf: seq<byte>, t: TypeSig, es: seq<Elem>, mid: seq<byte>, rest: seq<byte>)
    requires |es| > 0
    requires ConsumeElem(buf, t) == Success(Parsed(es[0], mid))
    requires ConsumeElems(mid, t, |es| - 1) == Success(Parsed(es[1..], rest))
    ensures ConsumeElems(buf, t, |es|) == Success(Parsed(es, rest))
  {
    assert [es[0]] + es[1..] == es;
  }

  /** The fixed arguments: one value per constructor parameter, in order. A
      by-reference parameter is rejected when its turn comes. */
  function ConsumeFixedArgs(buf: seq<byte>, params: seq<ParamSig>): (r: Outcome<Parsed<seq<Elem>>>)
    decreases |params|
    ensures |params| > 0 && params[0].byRef ==> r == Thrown(SignatureBlob)
    ensures r.Success? ==> |r.value.value| == |params|
    ensures r.Success? ==> forall i :: 0 <= i < |params| ==>
      !params[i].byRef && ElemFits(r.value.value[i], params[i].paramType)
    ensures r.Success? ==> |r.value.rest| <= |buf|
  {
    if |params| == 0 then Success(Parsed([], buf))
    else if params[0].byRef then Thrown(SignatureBlob)
    else
      var first :- ConsumeElem(buf, params[0].paramType);
      var others :- ConsumeFixedArgs(first.rest, params[1..]);
      Success(Parsed([first.value] + others.value, others.rest))
  }

  function MemberKindOf(token: byte): Option<MemberKind> {
    if token == NAMED_FIELD then Some(FieldMember)
    else if token == NAMED_PROPERTY then Some(PropertyMember)
    else None
  }

  /** One named argument: the field-or-property byte (its absence traps), the
      member's type, its name (a null name is rejected) and its value. */
  function ConsumeNamedArg(buf: seq<byte>): (r: Outcome<Parsed<NamedArg>>)
    ensures |buf| == 0 ==> r.Fatal?
    ensures |buf| > 0 && MemberKindOf(buf[0]).None? ==> r == Thrown(SignatureBlob)
    ensures r.Success? ==> Some(r.value.value.memberKind) == MemberKindOf(buf[0])
    ensures r.Success? ==> |r.value.value.name| < COMPRESSED_LIMIT
    ensures r.Success? ==> |r.value.rest| < |buf|
    ensures |buf| > 0 && MemberKindOf(buf[0]).Some? && ConsumeTypeSig(buf[1..]).Success? ==>
      var name := ConsumeSerString(ConsumeTypeSig(buf[1..]).value.rest);
      name.Success? && name.value.value.None? ==> r == Thrown(SignatureBlob)
    ensures r.Success? ==>
      && ConsumeTypeSig(buf[1..]).Success?
      && var name := ConsumeSerString(ConsumeTypeSig(buf[1..]).value.rest);
         name.Success? && name.value.value == Some(r.value.value.name)
  {
    var token :- ConsumeToken(buf);
    var kind := MemberKindOf(token.value);
    if kind.None? then Thrown(SignatureBlob)
    else
      var argType :- ConsumeTypeSig(token.rest);
      var name :- ConsumeSerString(argType.rest);
      if name.value.None? then Thrown(SignatureBlob)
      else
        var value :- ConsumeElem(name.rest, argType.value);
        Success(Parsed(NamedArg(kind.value, name.value.value, value.value), value.rest))
  }

  function ConsumeNamedArgs(buf: seq<byte>, count: nat): (r: Outcome<Parsed<seq<NamedArg>>>)
    decreases count
    ensures r.Success? ==> |r.value.value| == count
    ensures r.Success? ==> |r.value.rest| <= |buf|
  {
    if count == 0 then Success(Parsed([], buf))
    else
      var first :- ConsumeNamedArg(buf);
      var others :- ConsumeNamedArgs(first.rest, count - 1);
      Success(Parsed([first.value] + others.value, others.rest))
  }

  /** CustomAttribSig.init(consuming:params:): the prolog 0x0001, the fixed
      arguments, a 16-bit count of named arguments, then those. */
  function ConsumeCustomAttrib(buf: seq<byte>, params: seq<ParamSig>): (r: Outcome<Parsed<CustomAttribSig>>)
    ensures !(|buf| >= 2 && buf[0] == PROLOG_0 && buf[1] == PROLOG_1) ==> r == Thrown(SignatureBlob)
    ensures r.Success? ==> |r.value.value.fixedArgs| == |params|
    ensures r.Success? ==> forall i :: 0 <= i < |params| ==>
      !params[i].byRef && ElemFits(r.value.value.fixedArgs[i], params[i].paramType)
    ensures r.Success? ==> |r.value.value.namedArgs| < 0x1_0000
    ensures r.Success? ==>
      var fixedArgs := ConsumeFixedArgs(buf[2..], params);
      && fixedArgs.Success?
      && fixedArgs.value.value == r.value.value.fixedArgs
      && |fixedArgs.value.rest| >= 2
      && |r.value.value.namedArgs| == fixedArgs.value.rest[0] as nat + 0x100 * fixedArgs.value.rest[1] as nat
  {
    var prolog0 := TryConsume(buf, PROLOG_0);
    if !prolog0.value then Thrown(SignatureBlob)
    else
      var prolog1 := TryConsume(prolog0.rest, PROLOG_1);
      if !prolog1.value then Thrown(SignatureBlob)
      else
        var fixedArgs :- ConsumeFixedArgs(prolog1.rest, params);
        var namedCount :- ConsumeUInt(fixedArgs.rest, 2);
        assert Pow256(2) == 0x1_0000;
        assert namedCount.value == fixedArgs.rest[0] as nat + 0x100 * fixedArgs.rest[1] as nat by {
          ConsumeUInt16(fixedArgs.rest);
        }
        var namedArgs :- ConsumeNamedArgs(namedCount.rest, namedCount.value);
        Success(Parsed(CustomAttribSig(fixedArgs.value, namedArgs.value), namedArgs.rest))
  }

  /** CustomAttribSig.init(blob:params:). */
  function CustomAttribFromBlob(blob: seq<byte>, params: seq<ParamSig>): (r: Outcome<CustomAttribSig>)
    ensures r == FromBlob(ConsumeCustomAttrib(blob, params))
    ensures !(|blob| >= 2 && blob[0] == PROLOG_0 && blob[1] == PROLOG_1) ==> r == Thrown(SignatureBlob)
  {
    FromBlob(ConsumeCustomAttrib(blob, params))
  }

  /** The smallest attribute blob: the prolog and a zero named-argument
      count, for a constructor without parameters. */
  lemma EmptyAttributeExample()
    ensures CustomAttribFromBlob([0x01, 0x00, 0x00, 0x00], []) == Success(CustomAttribSig([], []))
  {
    var blob: seq<byte> := [0x01, 0x00, 0x00, 0x00];
    assert blob[1..][1..] == [0x00, 0x00];
    assert ConsumeUInt([0x00, 0x00], 2) == Success(Parsed(0, [])) by {
      assert [0x00 as byte, 0x00][..2] == [0x00, 0x00];
      assert LittleEndian([0x00, 0x00]) == 0 by {
        assert [0x00 as byte, 0x00][1..] == [0x00];
        assert [0x00 as byte][1..] == [];
      }
    }
  }

  /** A named argument together with the type its value is encoded as: the
      blob records the type, but the decoded argument does not keep it. */
  datatype NamedArgSpec = NamedArgSpec(arg: NamedArg, argType: TypeSig)

  predicate NamedArgFits(s: NamedArgSpec) {
    && WfTypeSig(s.argType)
    && |s.arg.name| < COMPRESSED_LIMIT
    && ElemFits(s.arg.value, s.argType)
  }

  function MemberKindToken(kind: MemberKind): byte {
    if kind == FieldMember then NAMED_FIELD else NAMED_PROPERTY
  }

  function EncodeNamedArg(s: NamedArgSpec): (r: seq<byte>)
    requires NamedArgFits(s)
    ensures |r| > 0 && MemberKindOf(r[0]) == Some(s.arg.memberKind)
  {
    [MemberKindToken(s.arg.memberKind)]
      + (EncodeTypeSig(s.argType) + (EncodeSerString(Some(s.arg.name)) + EncodeElem(s.arg.value, s.argType)))
  }

  lemma NamedArgRoundTrip(s: NamedArgSpec, rest: seq<byte>)
    requires NamedArgFits(s)
    ensures ConsumeNamedArg(EncodeNamedArg(s) + rest) == Success(Parsed(s.arg, rest))
  {
    var typeBytes := EncodeTypeSig(s.argType);
    var nameBytes := EncodeSerString(Some(s.arg.name));
    var valueBytes := EncodeElem(s.arg.value, s.argType);
    ConsAppend(MemberKindToken(s.arg.memberKind), typeBytes + (nameBytes + valueBytes), rest);
    AppendAssoc(typeBytes, nameBytes + valueBytes, rest);
    AppendAssoc(nameBytes, valueBytes, rest);
    assert ConsumeTypeSig(typeBytes + (nameBytes + (valueBytes + rest))) == Success(Parsed(s.argType, nameBytes + (valueBytes + rest))) by {
      TypeSigRoundTrip(s.argType, nameBytes + (valueBytes + rest));
    }
    assert ConsumeSerString(nameBytes + (valueBytes + rest)) == Success(Parsed(Some(s.arg.name), valueBytes + rest)) by {
      SerStringRoundTrip(Some(s.arg.name), valueBytes + rest);
    }
    assert ConsumeElem(valueBytes + rest, s.argType) == Success(Parsed(s.arg.value, rest)) by {
      ElemRoundTrip(s.arg.value, s.argType, rest);
    }
  }

  function EncodeNamedArgs(specs: seq<NamedArgSpec>): seq<byte>
    requires forall i :: 0 <= i < |specs| ==> NamedArgFits(specs[i])
  {
    if |specs| == 0 then [] else EncodeNamedArg(specs[0]) + EncodeNamedArgs(specs[1..])
  }

  function Args(specs: seq<NamedArgSpec>): (r: seq<NamedArg>)
    ensures |r| == |specs| && forall i :: 0 <= i < |specs| ==> r[i] == specs[i].arg
  {
    if |specs| == 0 then [] else [specs[0].arg] + Args(specs[1..])
  }

  lemma {:induction false} NamedArgsRoundTrip(specs: seq<NamedArgSpec>, rest: seq<byte>)
    requires forall i :: 0 <= i < |specs| ==> NamedArgFits(specs[i])
    ensures ConsumeNamedArgs(EncodeNamedArgs(specs) + rest, |specs|) == Success(Parsed(Args(specs), rest))
    decreases |specs|
  {
    if |specs| == 0 {
      assert EncodeNamedArgs(specs) + rest == rest;
    } else {
      var others := EncodeNamedArgs(specs[1..]);
      AppendAssoc(EncodeNamedArg(specs[0]), others, rest);
      NamedArgRoundTrip(specs[0], others + rest);
      NamedArgsRoundTrip(specs[1..], rest);
    }
  }

  /** The fixed arguments `fixedArgs` fit the non-by-reference parameters. */
  predicate FixedArgsFit(fixedArgs: seq<Elem>, params: seq<ParamSig>) {
    && |fixedArgs| == |params|
    && forall i :: 0 <= i < |params| ==> !params[i].byRef && ElemFits(fixedArgs[i], params[i].paramType)
  }

  function EncodeFixedArgs(fixedArgs: seq<Elem>, params: seq<ParamSig>): seq<byte>
    requires FixedArgsFit(fixedArgs, params)
    decreases |params|
  {
    if |params| == 0 then []
    else EncodeElem(fixedArgs[0], params[0].paramType) + EncodeFixedArgs(fixedArgs[1..], params[1..])
  }

  lemma {:induction false} FixedArgsRoundTrip(fixedArgs: seq<Elem>, params: seq<ParamSig>, rest: seq<byte>)
    requires FixedArgsFit(fixedArgs, params)
    ensures ConsumeFixedArgs(EncodeFixedArgs(fixedArgs, params) + rest, params) == Success(Parsed(fixedArgs, rest))
    decreases |params|
  {
    if |params| == 0 {
      assert EncodeFixedArgs(fixedArgs, params) + rest == rest;
    } else {
      var others := EncodeFixedArgs(fixedArgs[1..], params[1..]);
      AppendAssoc(EncodeElem(fixedArgs[0], params[0].paramType), others, rest);
      ElemRoundTrip(fixedArgs[0], params[0].paramType, others + rest);
      FixedArgsRoundTrip(fixedArgs[1..], params[1..], rest);
      assert [fixedArgs[0]] + fixedArgs[1..] == fixedArgs;
    }
  }

  function EncodeCustomAttrib(fixedArgs: seq<Elem>, params: seq<ParamSig>, named: seq<NamedArgSpec>): seq<byte>
    requires FixedArgsFit(fixedArgs, params)
    requires |named| < 0x1_0000
    requires forall i :: 0 <= i < |named| ==> NamedArgFits(named[i])
  {
    [PROLOG_0] + ([PROLOG_1]
      + (EncodeFixedArgs(fixedArgs, params) + (EncodeLittleEndian(|named|, 2) + EncodeNamedArgs(named))))
  }

  lemma CustomAttribStreamRoundTrip(fixedArgs: seq<Elem>, params: seq<ParamSig>, named: seq<NamedArgSpec>, rest: seq<byte>)
    requires FixedArgsFit(fixedArgs, params)
    requires |named| < 0x1_0000
    requires forall i :: 0 <= i < |named| ==> NamedArgFits(named[i])
    ensures ConsumeCustomAttrib(EncodeCustomAttrib(fixedArgs, params, named) + rest, params)
      == Success(Parsed(CustomAttribSig(fixedArgs, Args(named)), rest))
  {
    var fixedBytes := EncodeFixedArgs(fixedArgs, params);
    var countBytes := EncodeLittleEndian(|named|, 2);
    var namedBytes := EncodeNamedArgs(named);
    var buf := EncodeCustomAttrib(fixedArgs, params, named) + rest;
    var afterProlog := fixedBytes + (countBytes + (namedBytes + rest));
    ConsAppend(PROLOG_0, [PROLOG_1] + (fixedBytes + (countBytes + namedBytes)), rest);
    ConsAppend(PROLOG_1, fixedBytes + (countBytes + namedBytes), rest);
    AppendAssoc(fixedBytes, countBytes + namedBytes, rest);
    AppendAssoc(countBytes, namedBytes, rest);
    assert ConsumeFixedArgs(afterProlog, params) == Success(Parsed(fixedArgs, countBytes + (namedBytes + rest))) by {
      FixedArgsRoundTrip(fixedArgs, params, countBytes + (namedBytes + rest));
    }
    assert ConsumeUInt(countBytes + (namedBytes + rest), 2) == Success(Parsed(|named|, namedBytes + rest)) by {
      assert Pow256(2) == 0x1_0000;
      ConsumeUIntRoundTrip(|named|, 2, namedBytes + rest);
    }
    assert ConsumeNamedArgs(namedBytes + rest, |named|) == Success(Parsed(Args(named), rest)) by {
      NamedArgsRoundTrip(named, rest);
    }
    CustomAttribSteps(buf, params, afterProlog, fixedArgs, countBytes + (namedBytes + rest), |named|, namedBytes + rest, Args(named), rest);
  }

  /** The steps of an attribute decode, over buffers kept abstract. */
  lemma CustomAttribSteps(buf: seq<byte>, params: seq<ParamSig>, afterProlog: seq<byte>, fixedArgs: seq<Elem>,
                          afterFixed: seq<byte>, count: nat, afterCount: seq<byte>, namedArgs: seq<NamedArg>, rest: seq<byte>)
    requires |buf| >= 2 && buf[0] == PROLOG_0 && buf[1..][0] == PROLOG_1 && buf[1..][1..] == afterProlog
    requires ConsumeFixedArgs(afterProlog, params) == Success(Parsed(fixedArgs, afterFixed))
    requires ConsumeUInt(afterFixed, 2) == Success(Parsed(count, afterCount))
    requires ConsumeNamedArgs(afterCount, count) == Success(Parsed(namedArgs, rest))
    ensures ConsumeCustomAttrib(buf, params) == Success(Parsed(CustomAttribSig(fixedArgs, namedArgs), rest))
  {
  }

  /** Attribute law: a blob built from arguments that fit the constructor's
      parameters decodes back to exactly those arguments. */
  lemma CustomAttribRoundTrip(fixedArgs: seq<Elem>, params: seq<ParamSig>, named: seq<NamedArgSpec>)
    requires FixedArgsFit(fixedArgs, params)
    requires |named| < 0x1_0000
    requires forall i :: 0 <= i < |named| ==> NamedArgFits(named[i])
    ensures CustomAttribFromBlob(EncodeCustomAttrib(fixedArgs, params, named), params)
      == Success(CustomAttribSig(fixedArgs, Args(named)))
  {
    var blob := EncodeCustomAttrib(fixedArgs, params, named);
    CustomAttribStreamRoundTrip(fixedArgs, params, named, []);
    AppendEmpty(blob);
  }
}
