/** The encoder that is the decoder's partner: the canonical byte form of
    every well-formed signature (shortest compressed integers, `class` or
    `valuetype` without `genericinst` when there are no type arguments), and
    the laws that decoding an encoding gives back the tree and leaves every
    following byte unread. */
module SignatureEncoding {
  import opened Wrappers
  import opened Cursor
  import opened SigToken
  import opened Signatures
  import opened SignatureReading

  function EncodeTypeDefOrRef(t: TypeDefOrRef): (r: seq<byte>)
    requires t.row < CODED_ROW_LIMIT
    ensures |r| > 0 && r[0] < 0xE0
  {
    EncodeCompressedUInt(t.row * 4 + TagOf(t))
  }

  lemma TypeDefOrRefRoundTrip(t: TypeDefOrRef, allowSpec: bool, rest: seq<byte>)
    requires WfTypeDefOrRef(t, allowSpec)
    ensures ConsumeTypeDefOrRefEncoded(EncodeTypeDefOrRef(t) + rest, allowSpec) == Success(Parsed(t, rest))
  {
    var n := t.row * 4 + TagOf(t);
    CompressedUIntRoundTrip(n, rest);
    assert n % 4 == TagOf(t) && n / 4 == t.row;
  }

  lemma SigUIntRoundTrip(n: nat, rest: seq<byte>)
    requires n < COMPRESSED_LIMIT
    ensures ConsumeSigUInt(EncodeCompressedUInt(n) + rest) == Success(Parsed(n, rest))
  {
    CompressedUIntRoundTrip(n, rest);
  }

  function CustomModToken(m: CustomModSig): byte {
    if m.isRequired then CMOD_REQD else CMOD_OPT
  }

  function EncodeCustomMods(mods: seq<CustomModSig>): (r: seq<byte>)
    requires WfCustomMods(mods)
    ensures |r| == 0 <==> |mods| == 0
    ensures |r| > 0 ==> IsCustomModToken(r[0])
  {
    if |mods| == 0 then []
    else [CustomModToken(mods[0])] + (EncodeTypeDefOrRef(mods[0].modType) + EncodeCustomMods(mods[1..]))
  }

  /** Custom modifiers read back exactly, provided the byte after them does
      not itself look like a modifier (the decoder's loop is greedy). */
  lemma {:induction false} CustomModsRoundTrip(mods: seq<CustomModSig>, rest: seq<byte>)
    requires WfCustomMods(mods)
    requires |rest| == 0 || !IsCustomModToken(rest[0])
    ensures ConsumeCustomMods(EncodeCustomMods(mods) + rest) == Success(Parsed(mods, rest))
    decreases |mods|
  {
    if |mods| == 0 {
      assert EncodeCustomMods(mods) + rest == rest;
    } else {
      var m := mods[0];
      var tail := EncodeCustomMods(mods[1..]);
      var idx := EncodeTypeDefOrRef(m.modType);
      var buf := EncodeCustomMods(mods) + rest;
      ConsAppend(CustomModToken(m), idx + tail, rest);
      AppendAssoc(idx, tail, rest);
      TypeDefOrRefRoundTrip(m.modType, false, tail + rest);
      assert ConsumeTypeDefOrRefEncoded(buf[1..], false) == Success(Parsed(m.modType, tail + rest));
      CustomModsRoundTrip(mods[1..], rest);
      assert [m] + mods[1..] == mods;
    }
  }

  /** The type signatures that are a single element-type byte. */
  predicate IsLeaf(t: TypeSig) {
    !t.Void? && !t.DefOrRef? && !t.SzArray? && !t.GenericArg?
  }

  function LeafToken(t: TypeSig): byte
    requires IsLeaf(t)
  {
    match t
    case Boolean => BOOLEAN
    case Char => CHAR
    case Integer(Int8, signed) => if signed then I1 else U1
    case Integer(Int16, signed) => if signed then I2 else U2
    case Integer(Int32, signed) => if signed then I4 else U4
    case Integer(Int64, signed) => if signed then I8 else U8
    case Integer(IntPtr, signed) => if signed then I else U
    case Real(double) => if double then R8 else R4
    case String => STRING
    case Object => OBJECT
  }

  /** The leaf element types and the leaf signatures are in one-to-one
      correspondence: each leaf has exactly one byte, and that byte decodes
      to it. */
  lemma LeafTokenBijection(t: TypeSig, token: byte)
    ensures IsLeaf(t) ==> LeafTypeSig(LeafToken(t)) == Some(t)
    ensures LeafTypeSig(token).Some? ==> IsLeaf(LeafTypeSig(token).value) && LeafToken(LeafTypeSig(token).value) == token
  {
  }

  function ClassToken(isClass: bool): byte {
    if isClass then CLASS else VALUETYPE
  }

  /** The canonical encoding of a type signature. */
  function EncodeTypeSig(t: TypeSig): (r: seq<byte>)
    requires WfTypeSig(t)
    decreases t
    ensures |r| > 0 && !IsCustomModToken(r[0]) && r[0] != VOID && r[0] != BYREF
  {
    match t
    case DefOrRef(index, isClass, args) =>
      if |args| == 0 then [ClassToken(isClass)] + EncodeTypeDefOrRef(index)
      else [GENERICINST] + ([ClassToken(isClass)] + (EncodeTypeDefOrRef(index) + (EncodeCompressedUInt(|args|) + EncodeTypeSigs(args))))
    case SzArray(mods, element) => [SZARRAY] + (EncodeCustomMods(mods) + EncodeTypeSig(element))
    case GenericArg(paramIndex, isMethod) => [if isMethod then MVAR else VAR] + EncodeCompressedUInt(paramIndex)
    case Boolean | Char | Integer(_, _) | Real(_) | String | Object => [LeafToken(t)]
  }

  function EncodeTypeSigs(ts: seq<TypeSig>): seq<byte>
    requires forall i :: 0 <= i < |ts| ==> WfTypeSig(ts[i])
    decreases ts
  {
    if |ts| == 0 then [] else EncodeTypeSig(ts[0]) + EncodeTypeSigs(ts[1..])
  }

  /** Type signature law: decoding the encoding of a well-formed type gives
      the type back and stops exactly at its end. */
  lemma {:induction false} TypeSigRoundTrip(t: TypeSig, rest: seq<byte>)
    requires WfTypeSig(t)
    ensures ConsumeTypeSig(EncodeTypeSig(t) + rest) == Success(Parsed(t, rest))
    decreases t, 1
  {
    match t
    case DefOrRef(index, isClass, args) => DefOrRefRoundTrip(index, isClass, args, rest);
    case SzArray(mods, element) => SzArrayRoundTrip(mods, element, rest);
    case GenericArg(paramIndex, isMethod) =>
      var buf := EncodeTypeSig(t) + rest;
      ConsAppend(if isMethod then MVAR else VAR, EncodeCompressedUInt(paramIndex), rest);
      SigUIntRoundTrip(paramIndex, rest);
      GenericArgDispatch(buf);
    case Boolean | Char | Integer(_, _) | Real(_) | String | Object =>
      LeafTokenBijection(t, 0);
      assert (EncodeTypeSig(t) + rest)[1..] == rest;
  }

  lemma {:induction false} DefOrRefRoundTrip(index: TypeDefOrRef, isClass: bool, args: seq<TypeSig>, rest: seq<byte>)
    requires WfTypeSig(DefOrRef(index, isClass, args))
    ensures ConsumeTypeSig(EncodeTypeSig(DefOrRef(index, isClass, args)) + rest) == Success(Parsed(DefOrRef(index, isClass, args), rest))
    decreases DefOrRef(index, isClass, args), 0
  {
    var buf := EncodeTypeSig(DefOrRef(index, isClass, args)) + rest;
    var idx := EncodeTypeDefOrRef(index);
    if |args| == 0 {
      ConsAppend(ClassToken(isClass), idx, rest);
      assert ConsumeTypeDefOrRefEncoded(idx + rest, true) == Success(Parsed(index, rest)) by {
        TypeDefOrRefRoundTrip(index, true, rest);
      }
      assert ConsumeDefOrRefSig(ClassToken(isClass), buf[1..]) == Success(Parsed(DefOrRef(index, isClass, args), rest));
    } else {
      var count := EncodeCompressedUInt(|args|);
      var elems := EncodeTypeSigs(args);
      var afterIndex := count + (elems + rest);
      var afterFlag := idx + afterIndex;
      ConsAppend(GENERICINST, [ClassToken(isClass)] + (idx + (count + elems)), rest);
      ConsAppend(ClassToken(isClass), idx + (count + elems), rest);
      AppendAssoc(idx, count + elems, rest);
      AppendAssoc(count, elems, rest);
      assert ConsumeClassFlag(GENERICINST, buf[1..]) == Success(Parsed(isClass, afterFlag));
      assert ConsumeTypeDefOrRefEncoded(afterFlag, true) == Success(Parsed(index, afterIndex)) by {
        TypeDefOrRefRoundTrip(index, true, afterIndex);
      }
      assert ConsumeSigUInt(afterIndex) == Success(Parsed(|args|, elems + rest)) by {
        SigUIntRoundTrip(|args|, elems + rest);
      }
      assert ConsumeTypeSigs(elems + rest, |args|) == Success(Parsed(args, rest)) by {
        TypeSigsRoundTrip(args, rest);
      }
      GenericInstSteps(buf[1..], isClass, afterFlag, index, afterIndex, args, elems + rest, rest);
    }
    DefOrRefDispatch(buf);
  }

  /** The first byte of a composite type selects its decoder. */
  lemma DefOrRefDispatch(buf: seq<byte>)
    requires |buf| > 0 && (buf[0] == CLASS || buf[0] == VALUETYPE || buf[0] == GENERICINST)
    ensures ConsumeTypeSig(buf) == ConsumeDefOrRefSig(buf[0], buf[1..])
  {
  }

  lemma SzArrayDispatch(buf: seq<byte>)
    requires |buf| > 0 && buf[0] == SZARRAY
    ensures ConsumeTypeSig(buf) == ConsumeSzArraySig(buf[1..])
  {
  }

  lemma GenericArgDispatch(buf: seq<byte>)
    requires |buf| > 0 && (buf[0] == VAR || buf[0] == MVAR)
    ensures ConsumeTypeSig(buf) == ConsumeGenericArgSig(buf[0] == MVAR, buf[1..])
  {
  }

  /** The steps of a `genericinst` decode, over buffers kept abstract. */
  lemma GenericInstSteps(buf: seq<byte>, isClass: bool, afterFlag: seq<byte>, index: TypeDefOrRef,
                         afterIndex: seq<byte>, args: seq<TypeSig>, afterCount: seq<byte>, rest: seq<byte>)
    requires ConsumeClassFlag(GENERICINST, buf) == Success(Parsed(isClass, afterFlag))
    requires ConsumeTypeDefOrRefEncoded(afterFlag, true) == Success(Parsed(index, afterIndex))
    requires ConsumeSigUInt(afterIndex) == Success(Parsed(|args|, afterCount))
    requires ConsumeTypeSigs(afterCount, |args|) == Success(Parsed(args, rest))
    ensures ConsumeDefOrRefSig(GENERICINST, buf) == Success(Parsed(DefOrRef(index, isClass, args), rest))
  {
  }

  lemma {:induction false} SzArrayRoundTrip(mods: seq<CustomModSig>, element: TypeSig, rest: seq<byte>)
    requires WfTypeSig(SzArray(mods, element))
    ensures ConsumeTypeSig(EncodeTypeSig(SzArray(mods, element)) + rest) == Success(Parsed(SzArray(mods, element), rest))
    decreases SzArray(mods, element), 0
  {
    var buf := EncodeTypeSig(SzArray(mods, element)) + rest;
    var afterMods := EncodeTypeSig(element) + rest;
    ConsAppend(SZARRAY, EncodeCustomMods(mods) + EncodeTypeSig(element), rest);
    AppendAssoc(EncodeCustomMods(mods), EncodeTypeSig(element), rest);
    assert ConsumeCustomMods(buf[1..]) == Success(Parsed(mods, afterMods)) by {
      CustomModsRoundTrip(mods, afterMods);
    }
    assert ConsumeTypeSig(afterMods) == Success(Parsed(element, rest)) by {
      TypeSigRoundTrip(element, rest);
    }
    SzArrayDispatch(buf);
  }

  lemma {:induction false} TypeSigsRoundTrip(ts: seq<TypeSig>, rest: seq<byte>)
    requires forall i :: 0 <= i < |ts| ==> WfTypeSig(ts[i])
    ensures ConsumeTypeSigs(EncodeTypeSigs(ts) + rest, |ts|) == Success(Parsed(ts, rest))
    decreases ts
  {
    if |ts| == 0 {
      assert EncodeTypeSigs(ts) + rest == rest;
    } else {
      var others := EncodeTypeSigs(ts[1..]);
      AppendAssoc(EncodeTypeSig(ts[0]), others, rest);
      TypeSigRoundTrip(ts[0], others + rest);
      TypeSigsRoundTrip(ts[1..], rest);
      assert [ts[0]] + ts[1..] == ts;
    }
  }

  /** A whole blob holding exactly one encoded type decodes to that type. */
  lemma TypeSigBlobRoundTrip(t: TypeSig)
    requires WfTypeSig(t)
    ensures TypeSigFromBlob(EncodeTypeSig(t)) == Success(t)
  {
    TypeSigRoundTrip(t, []);
    assert EncodeTypeSig(t) + [] == EncodeTypeSig(t);
  }

  /** A blob with bytes after the type is rejected. */
  lemma TypeSigBlobRejectsTrailing(t: TypeSig, trailing: seq<byte>)
    requires WfTypeSig(t)
    requires |trailing| > 0
    ensures TypeSigFromBlob(EncodeTypeSig(t) + trailing) == Thrown(SignatureBlob)
  {
    TypeSigRoundTrip(t, trailing);
  }

  function EncodeParamSig(p: ParamSig, isReturn: bool): (r: seq<byte>)
    requires WfParamSig(p, isReturn)
    ensures |r| > 0
  {
    EncodeCustomMods(p.customMods) + EncodeParamType(p)
  }

  /** What follows a parameter's custom modifiers: `void`, or an optional
      `byref` and the type. */
  function EncodeParamType(p: ParamSig): (r: seq<byte>)
    requires p.paramType == Void || WfTypeSig(p.paramType)
    ensures |r| > 0 && !IsCustomModToken(r[0])
  {
    if p.paramType == Void then [VOID]
    else if p.byRef then [BYREF] + EncodeTypeSig(p.paramType)
    else EncodeTypeSig(p.paramType)
  }

  lemma ParamSigRoundTrip(p: ParamSig, isReturn: bool, rest: seq<byte>)
    requires WfParamSig(p, isReturn)
    ensures ConsumeParamSig(EncodeParamSig(p, isReturn) + rest, isReturn) == Success(Parsed(p, rest))
  {
    var mods := EncodeCustomMods(p.customMods);
    var afterMods := EncodeParamType(p) + rest;
    AppendAssoc(mods, EncodeParamType(p), rest);
    assert ConsumeCustomMods(mods + afterMods) == Success(Parsed(p.customMods, afterMods)) by {
      CustomModsRoundTrip(p.customMods, afterMods);
    }
    if p.paramType == Void {
      assert afterMods[1..] == rest;
    } else {
      var encodedType := EncodeTypeSig(p.paramType);
      assert ConsumeTypeSig(encodedType + rest) == Success(Parsed(p.paramType, rest)) by {
        TypeSigRoundTrip(p.paramType, rest);
      }
      if p.byRef {
        ConsAppend(BYREF, encodedType, rest);
      }
    }
  }

  function EncodeParamSigs(ps: seq<ParamSig>): seq<byte>
    requires WfParamSigs(ps)
  {
    if |ps| == 0 then [] else EncodeParamSig(ps[0], false) + EncodeParamSigs(ps[1..])
  }

  lemma {:induction false} ParamSigsRoundTrip(ps: seq<ParamSig>, rest: seq<byte>)
    requires WfParamSigs(ps)
    ensures ConsumeParamSigs(EncodeParamSigs(ps) + rest, |ps|) == Success(Parsed(ps, rest))
    decreases |ps|
  {
    if |ps| == 0 {
      assert EncodeParamSigs(ps) + rest == rest;
    } else {
      var head := EncodeParamSig(ps[0], false);
      var others := EncodeParamSigs(ps[1..]);
      assert EncodeParamSigs(ps) + rest == head + (others + rest) by {
        AppendAssoc(head, others, rest);
      }
      assert ConsumeParamSig(head + (others + rest), false) == Success(Parsed(ps[0], others + rest)) by {
        ParamSigRoundTrip(ps[0], false, others + rest);
      }
      assert ConsumeParamSigs(others + rest, |ps[1..]|) == Success(Parsed(ps[1..], rest)) by {
        ParamSigsRoundTrip(ps[1..], rest);
      }
      ParamSigsStep(head + (others + rest), ps[0], others + rest, ps[1..], rest);
      assert [ps[0]] + ps[1..] == ps;
    }
  }

  /** Reading one more parameter in front of a run of parameters. */
  lemma ParamSigsStep(buf: seq<byte>, p: ParamSig, mid: seq<byte>, ps: seq<ParamSig>, rest: seq<byte>)
    requires ConsumeParamSig(buf, false) == Success(Parsed(p, mid))
    requires ConsumeParamSigs(mid, |ps|) == Success(Parsed(ps, rest))
    ensures ConsumeParamSigs(buf, |ps| + 1) == Success(Parsed([p] + ps, rest))
  {
  }

  function EncodeFieldSig(f: FieldSig): (r: seq<byte>)
    requires WfFieldSig(f)
    ensures |r| > 0 && r[0] == FIELD
  {
    [FIELD] + (EncodeCustomMods(f.customMods) + EncodeTypeSig(f.fieldType))
  }

  lemma FieldSigRoundTrip(f: FieldSig, rest: seq<byte>)
    requires WfFieldSig(f)
    ensures ConsumeFieldSig(EncodeFieldSig(f) + rest) == Success(Parsed(f, rest))
  {
    var mods := EncodeCustomMods(f.customMods);
    var encodedType := EncodeTypeSig(f.fieldType);
    ConsAppend(FIELD, mods + encodedType, rest);
    AppendAssoc(mods, encodedType, rest);
    assert ConsumeCustomMods(mods + (encodedType + rest)) == Success(Parsed(f.customMods, encodedType + rest)) by {
      CustomModsRoundTrip(f.customMods, encodedType + rest);
    }
    assert ConsumeTypeSig(encodedType + rest) == Success(Parsed(f.fieldType, rest)) by {
      TypeSigRoundTrip(f.fieldType, rest);
    }
  }

  lemma FieldSigBlobRoundTrip(f: FieldSig)
    requires WfFieldSig(f)
    ensures FieldSigFromBlob(EncodeFieldSig(f)) == Success(f)
  {
    FieldSigRoundTrip(f, []);
    assert EncodeFieldSig(f) + [] == EncodeFieldSig(f);
  }

  /** The calling-convention byte: `hasThis` and `explicitThis` flags over
      the default kind. */
  function MethodCallingConvention(m: MethodDefSig): byte {
    (if m.hasThis then HASTHIS else DEFAULT) + (if m.explicitThis.Some? then EXPLICITTHIS else DEFAULT)
  }

  /** The calling-convention byte has the default kind, and its flags read
      back as the signature's `hasThis` and explicit `this`. */
  lemma CallingConventionFlags(m: MethodDefSig)
    requires m.explicitThis.Some? ==> m.hasThis
    ensures MethodCallingConvention(m) as nat % KIND_SPAN == DEFAULT as nat
    ensures HasFlag(MethodCallingConvention(m), HASTHIS) <==> m.hasThis
    ensures HasFlag(MethodCallingConvention(m), HASTHIS) && HasFlag(MethodCallingConvention(m), EXPLICITTHIS) <==> m.explicitThis.Some?
  {
  }

  function EncodeMethodDefSig(m: MethodDefSig): (r: seq<byte>)
    requires WfMethodDefSig(m)
    ensures |r| > 0 && r[0] == MethodCallingConvention(m)
  {
    var count := |m.params| + (if m.explicitThis.Some? then 1 else 0);
    [MethodCallingConvention(m)] + (EncodeCompressedUInt(count) + EncodeMethodDefSigBody(m))
  }

  /** The bytes after a method signature's calling convention and count. */
  function EncodeMethodDefSigBody(m: MethodDefSig): seq<byte>
    requires WfMethodDefSig(m)
  {
    var thisType := if m.explicitThis.Some? then EncodeTypeSig(m.explicitThis.value) else [];
    EncodeParamSig(m.returnParam, true) + (thisType + EncodeParamSigs(m.params))
  }

  lemma MethodDefSigBodyRoundTrip(m: MethodDefSig, rest: seq<byte>)
    requires WfMethodDefSig(m)
    ensures var count := |m.params| + (if m.explicitThis.Some? then 1 else 0);
      ConsumeMethodDefSigBody(EncodeMethodDefSigBody(m) + rest, m.hasThis, m.explicitThis.Some?, count) == Success(Parsed(m, rest))
  {
    var thisType := if m.explicitThis.Some? then EncodeTypeSig(m.explicitThis.value) else [];
    var afterThis := EncodeParamSigs(m.params) + rest;
    var afterReturn := thisType + afterThis;
    AppendAssoc(EncodeParamSig(m.returnParam, true), thisType + EncodeParamSigs(m.params), rest);
    AppendAssoc(thisType, EncodeParamSigs(m.params), rest);
    assert ConsumeParamSig(EncodeParamSig(m.returnParam, true) + afterReturn, true) == Success(Parsed(m.returnParam, afterReturn)) by {
      ParamSigRoundTrip(m.returnParam, true, afterReturn);
    }
    assert ConsumeParamSigs(afterThis, |m.params|) == Success(Parsed(m.params, rest)) by {
      ParamSigsRoundTrip(m.params, rest);
    }
    if m.explicitThis.Some? {
      assert ConsumeTypeSig(afterReturn) == Success(Parsed(m.explicitThis.value, afterThis)) by {
        TypeSigRoundTrip(m.explicitThis.value, afterThis);
      }
    } else {
      assert afterReturn == afterThis;
    }
  }

  lemma MethodDefSigRoundTrip(m: MethodDefSig, rest: seq<byte>)
    requires WfMethodDefSig(m)
    ensures ConsumeMethodDefSig(EncodeMethodDefSig(m) + rest) == Success(Parsed(m, rest))
  {
    var count := |m.params| + (if m.explicitThis.Some? then 1 else 0);
    var afterCount := EncodeMethodDefSigBody(m) + rest;
    var buf := EncodeMethodDefSig(m) + rest;
    MethodDefSigLayout(m, rest);
    SigUIntRoundTrip(count, afterCount);
    MethodDefSigBodyRoundTrip(m, rest);
    MethodDefSigSteps(buf, m, count, afterCount, rest);
  }

  /** A method signature's bytes: the calling convention, then the count,
      then the body. */
  lemma MethodDefSigLayout(m: MethodDefSig, rest: seq<byte>)
    requires WfMethodDefSig(m)
    ensures var buf := EncodeMethodDefSig(m) + rest;
      var count := |m.params| + (if m.explicitThis.Some? then 1 else 0);
      |buf| > 0 && buf[0] == MethodCallingConvention(m)
      && buf[1..] == EncodeCompressedUInt(count) + (EncodeMethodDefSigBody(m) + rest)
  {
    var count := |m.params| + (if m.explicitThis.Some? then 1 else 0);
    ConsAppend(MethodCallingConvention(m), EncodeCompressedUInt(count) + EncodeMethodDefSigBody(m), rest);
    AppendAssoc(EncodeCompressedUInt(count), EncodeMethodDefSigBody(m), rest);
  }

  /** The steps of a method signature decode, over buffers kept abstract. */
  lemma MethodDefSigSteps(buf: seq<byte>, m: MethodDefSig, count: nat, afterCount: seq<byte>, rest: seq<byte>)
    requires m.explicitThis.Some? ==> m.hasThis
    requires |buf| > 0 && buf[0] == MethodCallingConvention(m)
    requires ConsumeSigUInt(buf[1..]) == Success(Parsed(count, afterCount))
    requires ConsumeMethodDefSigBody(afterCount, m.hasThis, m.explicitThis.Some?, count) == Success(Parsed(m, rest))
    ensures ConsumeMethodDefSig(buf) == Success(Parsed(m, rest))
  {
    CallingConventionFlags(m);
  }

  function PropertyCallingConvention(hasThis: bool): byte {
    if hasThis then PROPERTY + HASTHIS else PROPERTY
  }

  function EncodePropertySig(p: PropertySig): (r: seq<byte>)
    requires WfPropertySig(p)
    ensures |r| > 0 && r[0] == PropertyCallingConvention(p.hasThis)
  {
    [PropertyCallingConvention(p.hasThis)]
      + (EncodeCompressedUInt(|p.params|)
      + (EncodeCustomMods(p.customMods) + (EncodeTypeSig(p.propertyType) + EncodeParamSigs(p.params))))
  }

  lemma PropertySigRoundTrip(p: PropertySig, rest: seq<byte>)
    requires WfPropertySig(p)
    ensures ConsumePropertySig(EncodePropertySig(p) + rest) == Success(Parsed(p, rest))
  {
    var params := EncodeParamSigs(p.params);
    var propertyType := EncodeTypeSig(p.propertyType);
    var mods := EncodeCustomMods(p.customMods);
    var count := EncodeCompressedUInt(|p.params|);
    ConsAppend(PropertyCallingConvention(p.hasThis), count + (mods + (propertyType + params)), rest);
    AppendAssoc(count, mods + (propertyType + params), rest);
    AppendAssoc(mods, propertyType + params, rest);
    AppendAssoc(propertyType, params, rest);
    assert ConsumeSigUInt(count + (mods + (propertyType + (params + rest)))) == Success(Parsed(|p.params|, mods + (propertyType + (params + rest)))) by {
      SigUIntRoundTrip(|p.params|, mods + (propertyType + (params + rest)));
    }
    assert ConsumeCustomMods(mods + (propertyType + (params + rest))) == Success(Parsed(p.customMods, propertyType + (params + rest))) by {
      CustomModsRoundTrip(p.customMods, propertyType + (params + rest));
    }
    assert ConsumeTypeSig(propertyType + (params + rest)) == Success(Parsed(p.propertyType, params + rest)) by {
      TypeSigRoundTrip(p.propertyType, params + rest);
    }
    assert ConsumeParamSigs(params + rest, |p.params|) == Success(Parsed(p.params, rest)) by {
      ParamSigsRoundTrip(p.params, rest);
    }
  }

  /** Whole-blob forms of the method and property laws. */
  lemma MemberSigBlobRoundTrip(m: MethodDefSig, p: PropertySig)
    requires WfMethodDefSig(m) && WfPropertySig(p)
    ensures MethodDefSigFromBlob(EncodeMethodDefSig(m)) == Success(m)
    ensures PropertySigFromBlob(EncodePropertySig(p)) == Success(p)
  {
    MethodDefSigRoundTrip(m, []);
    assert EncodeMethodDefSig(m) + [] == EncodeMethodDefSig(m);
    PropertySigRoundTrip(p, []);
    assert EncodePropertySig(p) + [] == EncodePropertySig(p);
  }
}
