/** The recursive-descent decoders for type, field, method, parameter and
    property signatures (Signatures+reading.swift). Each `Consume…` function
    takes the bytes still unread and returns the decoded tree together with
    the bytes after it; each `…FromBlob` function decodes a whole blob and
    rejects any byte left unread. */
module SignatureReading {
  import opened Wrappers
  import opened Cursor
  import opened SigToken
  import opened Signatures

  /** The `init(blob:)` wrapper every signature kind shares: decode, then
      throw `signatureBlob` if any byte is left. */
  function FromBlob<T>(consumed: Outcome<Parsed<T>>): (r: Outcome<T>)
    ensures r.Success? <==> consumed.Success? && consumed.value.rest == []
    ensures r.Success? ==> r.value == consumed.value.value
    ensures consumed.Success? && consumed.value.rest != [] ==> r == Thrown(SignatureBlob)
    ensures consumed.Thrown? ==> r == Thrown(consumed.error)
    ensures consumed.Fatal? ==> r.Fatal?
  {
    var p :- consumed;
    if |p.rest| > 0 then Thrown(SignatureBlob) else Success(p.value)
  }

  /** consumeSigUInt: a compressed unsigned integer that must be present. */
  function ConsumeSigUInt(buf: seq<byte>): (r: Outcome<Parsed<nat>>)
    ensures |buf| > 0 && buf[0] >= 0xE0 ==> r == Thrown(SignatureBlob)
    ensures r.Success? ==> r.value.value < COMPRESSED_LIMIT && |r.value.rest| < |buf|
  {
    var c :- ConsumeCompressedUInt(buf);
    if c.value.None? then Thrown(SignatureBlob) else Success(Parsed(c.value.value, c.rest))
  }

  /** The two low bits that select the table of a TypeDefOrRef coded index. */
  function TagOf(t: TypeDefOrRef): nat {
    match t
    case TypeDef(_) => 0
    case TypeRef(_) => 1
    case TypeSpec(_) => 2
  }

  /** consumeTypeDefOrRefEncoded (section II.23.2.8): tag = low two bits,
      row = the value shifted right by two; tag 0 is TypeDef, 1 TypeRef, 2
      TypeSpec only where a TypeSpec is allowed, anything else is rejected. */
  function ConsumeTypeDefOrRefEncoded(buf: seq<byte>, allowSpec: bool): (r: Outcome<Parsed<TypeDefOrRef>>)
    ensures r.Success? ==> WfTypeDefOrRef(r.value.value, allowSpec)
    ensures r.Success? ==> |r.value.rest| < |buf|
  {
    var encoded :- ConsumeSigUInt(buf);
    var tag := encoded.value % 4;
    var index := encoded.value / 4;
    if tag == 0 then Success(Parsed(TypeDef(index), encoded.rest))
    else if tag == 1 then Success(Parsed(TypeRef(index), encoded.rest))
    else if tag == 2 && allowSpec then Success(Parsed(TypeSpec(index), encoded.rest))
    else Thrown(SignatureBlob)
  }

  /** The coded index splits into tag (low two bits) and row (the rest);
      tag 0 is a TypeDef, 1 a TypeRef, 2 a TypeSpec only where one is
      allowed, and any other tag is rejected. */
  lemma TypeDefOrRefTagSplit(buf: seq<byte>, allowSpec: bool, encoded: nat, rest: seq<byte>)
    requires ConsumeSigUInt(buf) == Success(Parsed(encoded, rest))
    ensures var r := ConsumeTypeDefOrRefEncoded(buf, allowSpec);
      && (r.Success? <==> encoded % 4 == 0 || encoded % 4 == 1 || (encoded % 4 == 2 && allowSpec))
      && (!r.Success? ==> r == Thrown(SignatureBlob))
      && (r.Success? ==> TagOf(r.value.value) == encoded % 4 && r.value.value.row == encoded / 4 && r.value.rest == rest)
  {
  }

  predicate IsCustomModToken(b: byte) {
    b == CMOD_REQD || b == CMOD_OPT
  }

  /** consumeCustomMods: a greedy loop over `cmod_reqd`/`cmod_opt` tokens,
      each followed by a TypeDef or TypeRef (never a TypeSpec). The loop stops
      at the first other byte and leaves it unread. */
  function ConsumeCustomMods(buf: seq<byte>): (r: Outcome<Parsed<seq<CustomModSig>>>)
    decreases |buf|
    ensures |buf| == 0 || !IsCustomModToken(buf[0]) ==> r == Success(Parsed([], buf))
    ensures r.Success? ==> |r.value.rest| == 0 || !IsCustomModToken(r.value.rest[0])
    ensures r.Success? && |r.value.value| > 0 ==> |buf| > 0 && (r.value.value[0].isRequired <==> buf[0] == CMOD_REQD)
    ensures r.Success? ==> WfCustomMods(r.value.value)
    ensures r.Success? ==> |r.value.rest| <= |buf|
  {
    var required := TryConsume(buf, CMOD_REQD);
    var optional := if required.value then required else TryConsume(buf, CMOD_OPT);
    if !optional.value then Success(Parsed([], buf))
    else
      var modType :- ConsumeTypeDefOrRefEncoded(optional.rest, false);
      var more :- ConsumeCustomMods(modType.rest);
      Success(Parsed([CustomModSig(required.value, modType.value)] + more.value, more.rest))
  }

  /** The element types that are leaves of a TypeSig. */
  function LeafTypeSig(token: byte): (r: Option<TypeSig>)
    ensures r.Some? ==> WfTypeSig(r.value) && !r.value.DefOrRef? && !r.value.SzArray? && !r.value.GenericArg?
    ensures IsCompositeToken(token) ==> r.None?
  {
    if token == BOOLEAN then Some(Boolean)
    else if token == CHAR then Some(Char)
    else if token == I1 then Some(Integer(Int8, true))
    else if token == U1 then Some(Integer(Int8, false))
    else if token == I2 then Some(Integer(Int16, true))
    else if token == U2 then Some(Integer(Int16, false))
    else if token == I4 then Some(Integer(Int32, true))
    else if token == U4 then Some(Integer(Int32, false))
    else if token == I8 then Some(Integer(Int64, true))
    else if token == U8 then Some(Integer(Int64, false))
    else if token == I then Some(Integer(IntPtr, true))
    else if token == U then Some(Integer(IntPtr, false))
    else if token == R4 then Some(Real(false))
    else if token == R8 then Some(Real(true))
    else if token == OBJECT then Some(Object)
    else if token == STRING then Some(String)
    else None
  }

  /** Element types that introduce a composite TypeSig. */
  predicate IsCompositeToken(b: byte) {
    b == CLASS || b == VALUETYPE || b == GENERICINST || b == SZARRAY || b == VAR || b == MVAR
  }

  /** After `genericinst`, a `class` or `valuetype` byte says which; otherwise
      the token itself says whether the type is a class. */
  function ConsumeClassFlag(token: byte, buf: seq<byte>): (r: Outcome<Parsed<bool>>)
    ensures token != GENERICINST ==> r == Success(Parsed(token == CLASS, buf))
    ensures token == GENERICINST ==>
      if |buf| > 0 && (buf[0] == CLASS || buf[0] == VALUETYPE)
      then r == Success(Parsed(buf[0] == CLASS, buf[1..]))
      else r == Thrown(SignatureBlob)
  {
    if token == GENERICINST then
      var isClass := TryConsume(buf, CLASS);
      var isValueType := if isClass.value then isClass else TryConsume(buf, VALUETYPE);
      if !isValueType.value then Thrown(SignatureBlob) else Success(Parsed(isClass.value, isValueType.rest))
    else Success(Parsed(token == CLASS, buf))
  }

  /** TypeSig.init(consuming:): dispatch on one element-type byte. */
  function ConsumeTypeSig(buf: seq<byte>): (r: Outcome<Parsed<TypeSig>>)
    decreases |buf|, 0
    ensures |buf| == 0 ==> r.Fatal?
    ensures |buf| > 0 && LeafTypeSig(buf[0]).None? && !IsCompositeToken(buf[0]) ==> r == Thrown(SignatureBlob)
    ensures |buf| > 0 && LeafTypeSig(buf[0]).Some? ==> r == Success(Parsed(LeafTypeSig(buf[0]).value, buf[1..]))
    ensures |buf| > 0 && buf[0] == GENERICINST && (|buf| == 1 || (buf[1] != CLASS && buf[1] != VALUETYPE)) ==>
      r == Thrown(SignatureBlob)
    ensures r.Success? && r.value.value.GenericArg? ==>
      (buf[0] == VAR || buf[0] == MVAR) && (r.value.value.isMethod <==> buf[0] == MVAR)
    ensures r.Success? && r.value.value.DefOrRef? && buf[0] != GENERICINST ==>
      r.value.value.genericArgs == [] && (r.value.value.isClass <==> buf[0] == CLASS)
    ensures r.Success? && r.value.value.DefOrRef? && buf[0] == GENERICINST ==>
      (r.value.value.isClass <==> buf[1] == CLASS)
    ensures r.Success? ==> WfTypeSig(r.value.value)
    ensures r.Success? ==> |r.value.rest| < |buf|
  {
    if |buf| == 0 then Fatal
    else
      var token := buf[0];
      var leaf := LeafTypeSig(token);
      if leaf.Some? then Success(Parsed(leaf.value, buf[1..]))
      else if token == CLASS || token == VALUETYPE || token == GENERICINST then ConsumeDefOrRefSig(token, buf[1..])
      else if token == SZARRAY then ConsumeSzArraySig(buf[1..])
      else if token == VAR || token == MVAR then ConsumeGenericArgSig(token == MVAR, buf[1..])
      else Thrown(SignatureBlob)
  }

  /** A `class`, `valuetype` or `genericinst` type after its first byte. */
  function ConsumeDefOrRefSig(token: byte, buf: seq<byte>): (r: Outcome<Parsed<TypeSig>>)
    requires token == CLASS || token == VALUETYPE || token == GENERICINST
    decreases |buf|, 2
    ensures token == GENERICINST && (|buf| == 0 || (buf[0] != CLASS && buf[0] != VALUETYPE)) ==> r == Thrown(SignatureBlob)
    ensures r.Success? ==> r.value.value.DefOrRef?
    ensures r.Success? && token != GENERICINST ==>
      r.value.value.genericArgs == [] && (r.value.value.isClass <==> token == CLASS)
    ensures r.Success? && token == GENERICINST ==> |buf| > 0 && (r.value.value.isClass <==> buf[0] == CLASS)
    ensures r.Success? ==> WfTypeSig(r.value.value)
    ensures r.Success? ==> |r.value.rest| < |buf|
  {
    var isClass :- ConsumeClassFlag(token, buf);
    var index :- ConsumeTypeDefOrRefEncoded(isClass.rest, true);
    if token == GENERICINST then
      var count :- ConsumeSigUInt(index.rest);
      var args :- ConsumeTypeSigs(count.rest, count.value);
      Success(Parsed(DefOrRef(index.value, isClass.value, args.value), args.rest))
    else
      Success(Parsed(DefOrRef(index.value, isClass.value, []), index.rest))
  }

  /** An `szarray` type after its first byte: custom modifiers, then the
      element type. */
  function ConsumeSzArraySig(buf: seq<byte>): (r: Outcome<Parsed<TypeSig>>)
    decreases |buf|, 2
    ensures r.Success? ==> r.value.value.SzArray? && WfTypeSig(r.value.value)
    ensures r.Success? ==> |r.value.rest| < |buf|
  {
    var mods :- ConsumeCustomMods(buf);
    var element :- ConsumeTypeSig(mods.rest);
    Success(Parsed(SzArray(mods.value, element.value), element.rest))
  }

  /** A `var` or `mvar` type after its first byte: the parameter index. */
  function ConsumeGenericArgSig(isMethod: bool, buf: seq<byte>): (r: Outcome<Parsed<TypeSig>>)
    ensures r.Success? ==> r.value.value.GenericArg? && r.value.value.isMethod == isMethod && WfTypeSig(r.value.value)
    ensures r.Success? ==> |r.value.rest| < |buf|
  {
    var index :- ConsumeSigUInt(buf);
    Success(Parsed(GenericArg(index.value, isMethod), index.rest))
  }

  /** `count` type signatures one after the other. */
  function ConsumeTypeSigs(buf: seq<byte>, count: nat): (r: Outcome<Parsed<seq<TypeSig>>>)
    decreases |buf|, 1
    ensures r.Success? ==> |r.value.value| == count
    ensures r.Success? ==> forall i :: 0 <= i < count ==> WfTypeSig(r.value.value[i])
    ensures r.Success? ==> |r.value.rest| <= |buf|
  {
    if count == 0 then Success(Parsed([], buf))
    else
      var first :- ConsumeTypeSig(buf);
      var others :- ConsumeTypeSigs(first.rest, count - 1);
      Success(Parsed([first.value] + others.value, others.rest))
  }

  /** TypeSig.init(blob:). */
  function TypeSigFromBlob(blob: seq<byte>): (r: Outcome<TypeSig>)
    ensures r == FromBlob(ConsumeTypeSig(blob))
    ensures r.Success? ==> WfTypeSig(r.value)
  {
    FromBlob(ConsumeTypeSig(blob))
  }

  /** ParamSig.init(consuming:return:): custom modifiers, then either a bare
      `void` (return parameters only) or an optional `byref` and a type. */
  function ConsumeParamSig(buf: seq<byte>, isReturn: bool): (r: Outcome<Parsed<ParamSig>>)
    ensures r.Success? ==> WfParamSig(r.value.value, isReturn)
    ensures r.Success? && r.value.value.paramType == Void ==> isReturn && !r.value.value.byRef
    ensures r.Success? ==> |r.value.rest| < |buf|
  {
    var mods :- ConsumeCustomMods(buf);
    var void := TryConsume(mods.rest, VOID);
    if isReturn && void.value then
      Success(Parsed(ParamSig(mods.value, false, Void), void.rest))
    else
      var byRef := TryConsume(mods.rest, BYREF);
      var paramType :- ConsumeTypeSig(byRef.rest);
      Success(Parsed(ParamSig(mods.value, byRef.value, paramType.value), paramType.rest))
  }

  /** `count` ordinary (non-return) parameters one after the other. */
  function ConsumeParamSigs(buf: seq<byte>, count: nat): (r: Outcome<Parsed<seq<ParamSig>>>)
    decreases count
    ensures r.Success? ==> |r.value.value| == count && WfParamSigs(r.value.value)
    ensures r.Success? ==> |r.value.rest| <= |buf|
  {
    if count == 0 then Success(Parsed([], buf))
    else
      var first :- ConsumeParamSig(buf, false);
      var others :- ConsumeParamSigs(first.rest, count - 1);
      Success(Parsed([first.value] + others.value, others.rest))
  }

  /** FieldSig.init(consuming:): the `field` byte, custom modifiers, a type. */
  function ConsumeFieldSig(buf: seq<byte>): (r: Outcome<Parsed<FieldSig>>)
    ensures !(|buf| > 0 && buf[0] == FIELD) ==> r == Thrown(SignatureBlob)
    ensures r.Success? ==> WfFieldSig(r.value.value) && |r.value.rest| <= |buf|
  {
    var field := TryConsume(buf, FIELD);
    if !field.value then Thrown(SignatureBlob)
    else
      var mods :- ConsumeCustomMods(field.rest);
      var fieldType :- ConsumeTypeSig(mods.rest);
      Success(Parsed(FieldSig(mods.value, fieldType.value), fieldType.rest))
  }

  function FieldSigFromBlob(blob: seq<byte>): (r: Outcome<FieldSig>)
    ensures r == FromBlob(ConsumeFieldSig(blob))
    ensures !(|blob| > 0 && blob[0] == FIELD) ==> r == Thrown(SignatureBlob)
  {
    FromBlob(ConsumeFieldSig(blob))
  }

  /** The part of a MethodDefSig after the calling convention and the
      parameter count: the return parameter, the explicit `this` type when
      there is one (decoded first, then taking one of the counted slots; a
      count of zero underflows there and traps), and the remaining
      parameters. */
  function ConsumeMethodDefSigBody(buf: seq<byte>, hasThis: bool, hasExplicitThis: bool, paramCount: nat): (r: Outcome<Parsed<MethodDefSig>>)
    requires hasExplicitThis ==> hasThis
    requires paramCount < COMPRESSED_LIMIT
    ensures hasExplicitThis && paramCount == 0 ==> !r.Success?
    ensures hasExplicitThis && paramCount == 0 && ConsumeParamSig(buf, true).Success? ==>
      var explicitThis := ConsumeTypeSig(ConsumeParamSig(buf, true).value.rest);
      r == if explicitThis.Thrown? then Thrown(explicitThis.error) else Fatal
    ensures r.Success? ==> r.value.value.hasThis == hasThis && (r.value.value.explicitThis.Some? <==> hasExplicitThis)
    ensures r.Success? ==> |r.value.value.params| == if hasExplicitThis then paramCount - 1 else paramCount
    ensures r.Success? ==> WfMethodDefSig(r.value.value)
    ensures r.Success? ==> |r.value.rest| <= |buf|
  {
    var returnParam :- ConsumeParamSig(buf, true);
    if hasExplicitThis then
      var explicitThis :- ConsumeTypeSig(returnParam.rest);
      if paramCount == 0 then Fatal
      else
        var params :- ConsumeParamSigs(explicitThis.rest, paramCount - 1);
        Success(Parsed(MethodDefSig(hasThis, Some(explicitThis.value), 0, returnParam.value, params.value), params.rest))
    else
      var params :- ConsumeParamSigs(returnParam.rest, paramCount);
      Success(Parsed(MethodDefSig(hasThis, None, 0, returnParam.value, params.value), params.rest))
  }

  /** MethodDefSig.init(consuming:). Only the default calling convention is
      implemented; any other kind is a fatalError. Generic method signatures
      are not decoded: the arity is always 0. */
  function ConsumeMethodDefSig(buf: seq<byte>): (r: Outcome<Parsed<MethodDefSig>>)
    ensures |buf| == 0 ==> r.Fatal?
    ensures |buf| > 0 && buf[0] as nat % KIND_SPAN != DEFAULT as nat ==> r.Fatal?
    ensures r.Success? ==> r.value.value.genericArity == 0
    ensures r.Success? ==> (r.value.value.hasThis <==> HasFlag(buf[0], HASTHIS))
    ensures r.Success? ==> (r.value.value.explicitThis.Some? <==> HasFlag(buf[0], HASTHIS) && HasFlag(buf[0], EXPLICITTHIS))
    ensures r.Success? ==> WfMethodDefSig(r.value.value)
    ensures r.Success? ==> |r.value.rest| <= |buf|
    ensures r.Success? ==>
      var count := ConsumeSigUInt(buf[1..]);
      && count.Success?
      && |r.value.value.params| == if r.value.value.explicitThis.Some? then count.value.value - 1 else count.value.value
  {
    if |buf| == 0 then Fatal
    else
      var cc := buf[0];
      var hasThis := HasFlag(cc, HASTHIS);
      var hasExplicitThis := hasThis && HasFlag(cc, EXPLICITTHIS);
      if cc as nat % KIND_SPAN != DEFAULT as nat then Fatal
      else
        var paramCount :- ConsumeSigUInt(buf[1..]);
        ConsumeMethodDefSigBody(paramCount.rest, hasThis, hasExplicitThis, paramCount.value)
  }

  function MethodDefSigFromBlob(blob: seq<byte>): (r: Outcome<MethodDefSig>)
    ensures r == FromBlob(ConsumeMethodDefSig(blob))
    ensures r.Success? ==> WfMethodDefSig(r.value)
  {
    FromBlob(ConsumeMethodDefSig(blob))
  }

  /** Explicit `this` with a zero count: the `this` type is read before the
      count is decremented, so a malformed type throws... */
  lemma ExplicitThisMalformedTypeThrows()
    ensures ConsumeMethodDefSig([0x60, 0x00, 0x01, 0xFF]) == Thrown(SignatureBlob)
  {
    var blob: seq<byte> := [0x60, 0x00, 0x01, 0xFF];
    assert ConsumeSigUInt(blob[1..]) == Success(Parsed(0, [0x01, 0xFF]));
    assert ConsumeParamSig([0x01, 0xFF], true) == Success(Parsed(ParamSig([], false, Void), [0xFF]));
    assert ConsumeTypeSig([0xFF]) == Thrown(SignatureBlob);
  }

  /** ...and a well-formed one reaches the decrement, which traps. */
  lemma ExplicitThisZeroCountTraps()
    ensures ConsumeMethodDefSig([0x60, 0x00, 0x01, 0x08]) == Fatal
  {
    var blob: seq<byte> := [0x60, 0x00, 0x01, 0x08];
    assert ConsumeSigUInt(blob[1..]) == Success(Parsed(0, [0x01, 0x08]));
    assert ConsumeParamSig([0x01, 0x08], true) == Success(Parsed(ParamSig([], false, Void), [0x08]));
    assert ConsumeTypeSig([0x08]).Success?;
  }

  /** PropertySig.init(consuming:): `property|hasThis` or `property`, a
      parameter count, custom modifiers, the property type, then that many
      indexer parameters. */
  function ConsumePropertySig(buf: seq<byte>): (r: Outcome<Parsed<PropertySig>>)
    ensures !(|buf| > 0 && (buf[0] == PROPERTY || buf[0] == PROPERTY + HASTHIS)) ==> r == Thrown(SignatureBlob)
    ensures r.Success? ==> (r.value.value.hasThis <==> buf[0] == PROPERTY + HASTHIS)
    ensures r.Success? ==>
      var count := ConsumeSigUInt(buf[1..]);
      count.Success? && |r.value.value.params| == count.value.value
    ensures r.Success? ==> WfPropertySig(r.value.value) && |r.value.rest| <= |buf|
  {
    var withThis := TryConsume(buf, PROPERTY + HASTHIS);
    var plain := if withThis.value then withThis else TryConsume(buf, PROPERTY);
    if !plain.value then Thrown(SignatureBlob)
    else
      var paramCount :- ConsumeSigUInt(plain.rest);
      var mods :- ConsumeCustomMods(paramCount.rest);
      var propertyType :- ConsumeTypeSig(mods.rest);
      var params :- ConsumeParamSigs(propertyType.rest, paramCount.value);
      Success(Parsed(PropertySig(withThis.value, mods.value, propertyType.value, params.value), params.rest))
  }

  function PropertySigFromBlob(blob: seq<byte>): (r: Outcome<PropertySig>)
    ensures r == FromBlob(ConsumePropertySig(blob))
    ensures r.Success? ==> WfPropertySig(r.value)
  {
    FromBlob(ConsumePropertySig(blob))
  }
}
