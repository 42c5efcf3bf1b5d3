/** The signature trees the blob decoder produces (section II.23.2 of
    ECMA-335 for type and member signatures, II.23.3 for custom attribute
    values), and the shape of every tree the decoder can produce. */
module Signatures {
  import opened Wrappers
  import opened Cursor
  import SigToken

  datatype IntegerSize = Int8 | Int16 | Int32 | Int64 | IntPtr

  /** A TypeDefOrRefOrSpecEncoded index (section II.23.2.8), one-based row. */
  datatype TypeDefOrRef = TypeDef(row: nat) | TypeRef(row: nat) | TypeSpec(row: nat)

  datatype CustomModSig = CustomModSig(isRequired: bool, modType: TypeDefOrRef)

  datatype TypeSig =
    | Void
    | Boolean
    | Char
    | Integer(size: IntegerSize, signed: bool)
    | Real(double: bool)
    | String
    | Object
    | DefOrRef(index: TypeDefOrRef, isClass: bool, genericArgs: seq<TypeSig>)
    | SzArray(customMods: seq<CustomModSig>, element: TypeSig)
    | GenericArg(paramIndex: nat, isMethod: bool)

  datatype ParamSig = ParamSig(customMods: seq<CustomModSig>, byRef: bool, paramType: TypeSig)

  datatype FieldSig = FieldSig(customMods: seq<CustomModSig>, fieldType: TypeSig)

  datatype MethodDefSig = MethodDefSig(
    hasThis: bool,
    explicitThis: Option<TypeSig>,
    genericArity: nat,
    returnParam: ParamSig,
    params: seq<ParamSig>)

  datatype PropertySig = PropertySig(
    hasThis: bool,
    customMods: seq<CustomModSig>,
    propertyType: TypeSig,
    params: seq<ParamSig>)

  /** A constant in a custom attribute blob. Floating-point values are kept
      as their raw little-endian bytes; strings as their UTF-8 bytes. */
  datatype Constant =
    | BoolConst(b: bool)
    | CharConst(codeUnit: nat)
    | IntConst(size: IntegerSize, signed: bool, value: int)
    | SingleConst(bits: seq<byte>)
    | DoubleConst(bits: seq<byte>)
    | StringConst(utf8: seq<byte>)
    | NullConst

  datatype Elem = ConstantElem(constant: Constant) | ArrayElem(elems: seq<Elem>)

  datatype MemberKind = FieldMember | PropertyMember

  datatype NamedArg = NamedArg(memberKind: MemberKind, name: seq<byte>, value: Elem)

  datatype CustomAttribSig = CustomAttribSig(fixedArgs: seq<Elem>, namedArgs: seq<NamedArg>)

  /** Rows a coded TypeDefOrRef index can address: `row << 2 | tag` must fit a
      compressed unsigned integer. */
  const CODED_ROW_LIMIT: nat := 0x800_0000

  predicate WfTypeDefOrRef(t: TypeDefOrRef, allowSpec: bool) {
    t.row < CODED_ROW_LIMIT && (allowSpec || !t.TypeSpec?)
  }

  /** Custom modifiers never name a TypeSpec. */
  predicate WfCustomMods(mods: seq<CustomModSig>) {
    forall i :: 0 <= i < |mods| ==> WfTypeDefOrRef(mods[i].modType, false)
  }

  /** The type signatures the TypeSig decoder can produce: never `Void`,
      counts and indices that fit a compressed integer. */
  predicate WfTypeSig(t: TypeSig) {
    match t
    case Void => false
    case DefOrRef(index, _, args) =>
      && WfTypeDefOrRef(index, true)
      && |args| < SigToken.COMPRESSED_LIMIT
      && forall i :: 0 <= i < |args| ==> WfTypeSig(args[i])
    case SzArray(mods, element) => WfCustomMods(mods) && WfTypeSig(element)
    case GenericArg(paramIndex, _) => paramIndex < SigToken.COMPRESSED_LIMIT
    case _ => true
  }

  /** A bare `void` is only a return type, and never by reference. */
  predicate WfParamSig(p: ParamSig, isReturn: bool) {
    && WfCustomMods(p.customMods)
    && if p.paramType == Void then isReturn && !p.byRef else WfTypeSig(p.paramType)
  }

  predicate WfParamSigs(ps: seq<ParamSig>) {
    forall i :: 0 <= i < |ps| ==> WfParamSig(ps[i], false)
  }

  predicate WfFieldSig(f: FieldSig) {
    WfCustomMods(f.customMods) && WfTypeSig(f.fieldType)
  }

  /** Method signatures the decoder produces: an explicit `this` only with
      `hasThis`, no generic parameters, and the parameter count (one more
      with an explicit `this`, which takes a counted slot) fits a compressed
      integer. */
  predicate WfMethodDefSig(m: MethodDefSig) {
    && m.genericArity == 0
    && (m.explicitThis.Some? ==> m.hasThis && WfTypeSig(m.explicitThis.value))
    && WfParamSig(m.returnParam, true)
    && WfParamSigs(m.params)
    && |m.params| + (if m.explicitThis.Some? then 1 else 0) < SigToken.COMPRESSED_LIMIT
  }

  predicate WfPropertySig(p: PropertySig) {
    && WfCustomMods(p.customMods)
    && WfTypeSig(p.propertyType)
    && WfParamSigs(p.params)
    && |p.params| < SigToken.COMPRESSED_LIMIT
  }
}
