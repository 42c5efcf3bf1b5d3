/** The mscorlib assembly and its registry of the special types core to the
    CLI: built all-or-nothing from lookups by full name, and the mapping
    from an integer size and signedness to its System type. */
module Mscorlib {
  import opened Wrappers
  import Signatures
  import TypeDefinitions

  /** The special types, one per field of `SpecialTypes`. */
  datatype SpecialType =
    | Void | Object | ValueType | Enum | Delegate | MulticastDelegate | Type | TypedReference
    | Exception | Attribute | String | Array
    | Boolean | Char | Byte | SByte | UInt16 | Int16 | UInt32 | Int32 | UInt64 | Int64
    | UIntPtr | IntPtr | Single | Double | Guid

  /** The special types in the order `SpecialTypes.init` looks them up. */
  const SPECIAL_TYPES: seq<SpecialType> := [
    Void, Object, ValueType, Enum, Delegate, MulticastDelegate, Type, TypedReference,
    Exception, Attribute, String, Array,
    Boolean, Char, Byte, SByte, UInt16, Int16, UInt32, Int32, UInt64, Int64,
    UIntPtr, IntPtr, Single, Double, Guid]

  /** Every special type is looked up. */
  lemma SpecialTypesAreAllLookedUp(t: SpecialType)
    ensures t in SPECIAL_TYPES
  {
  }

  /** The simple name of the type in the System namespace. */
  function TypeName(t: SpecialType): string {
    match t
    case Void => "Void"
    case Object => "Object"
    case ValueType => "ValueType"
    case Enum => "Enum"
    case Delegate => "Delegate"
    case MulticastDelegate => "MulticastDelegate"
    case Type => "Type"
    case TypedReference => "TypedReference"
    case Exception => "Exception"
    case Attribute => "Attribute"
    case String => "String"
    case Array => "Array"
    case Boolean => "Boolean"
    case Char => "Char"
    case Byte => "Byte"
    case SByte => "SByte"
    case UInt16 => "UInt16"
    case Int16 => "Int16"
    case UInt32 => "UInt32"
    case Int32 => "Int32"
    case UInt64 => "UInt64"
    case Int64 => "Int64"
    case UIntPtr => "UIntPtr"
    case IntPtr => "IntPtr"
    case Single => "Single"
    case Double => "Double"
    case Guid => "Guid"
  }

  /** The full name `find` looks up. */
  function FullTypeName(t: SpecialType): string {
    "System." + TypeName(t)
  }

  /** The definition class the field is declared with: Void, TypedReference,
      the primitive types and Guid are structs, the rest classes. */
  function ExpectedClass(t: SpecialType): TypeDefinitions.TypeDefinitionClass {
    match t
    case Object | ValueType | Enum | Delegate | MulticastDelegate | Type
      | Exception | Attribute | String | Array => TypeDefinitions.ClassDefinition
    case _ => TypeDefinitions.StructDefinition
  }

  /** The special type a full name in the System namespace names, if any. */
  function SpecialTypeNamed(fullName: string): (r: Option<SpecialType>)
    ensures r.Some? ==> FullTypeName(r.value) == fullName
  {
    FirstNamed(SPECIAL_TYPES, fullName)
  }

  function FirstNamed(ts: seq<SpecialType>, fullName: string): (r: Option<SpecialType>)
    ensures r.Some? ==> r.value in ts && FullTypeName(r.value) == fullName
  {
    if |ts| == 0 then None
    else if FullTypeName(ts[0]) == fullName then Some(ts[0])
    else FirstNamed(ts[1..], fullName)
  }

  /** Distinct special types have distinct full names: the name of each one
      leads back to it. */
  lemma FullTypeNameIsInjective(t: SpecialType)
    ensures SpecialTypeNamed(FullTypeName(t)) == Some(t)
  {
    var r := SpecialTypeNamed(FullTypeName(t));
    assert r.Some? by {
      SpecialTypesAreAllLookedUp(t);
      FirstNamedFinds(SPECIAL_TYPES, t);
    }
    TypeNameIsInjective(r.value, t);
  }

  lemma {:induction false} FirstNamedFinds(ts: seq<SpecialType>, t: SpecialType)
    requires t in ts
    ensures FirstNamed(ts, FullTypeName(t)).Some?
  {
    if ts[0] != t {
      assert t in ts[1..];
      FirstNamedFinds(ts[1..], t);
    }
  }

  lemma TypeNameIsInjective(a: SpecialType, b: SpecialType)
    requires FullTypeName(a) == FullTypeName(b)
    ensures a == b
  {
    assert "System." <= FullTypeName(a);
    assert TypeName(a) == FullTypeName(a)[7..] == FullTypeName(b)[7..] == TypeName(b);
    NamedInvertsTypeName(a);
    NamedInvertsTypeName(b);
  }

  /** The special type with a simple name, if any. */
  function Named(name: string): Option<SpecialType> {
    match name
    case "Void" => Some(Void)
    case "Object" => Some(Object)
    case "ValueType" => Some(ValueType)
    case "Enum" => Some(Enum)
    case "Delegate" => Some(Delegate)
    case "MulticastDelegate" => Some(MulticastDelegate)
    case "Type" => Some(Type)
    case "TypedReference" => Some(TypedReference)
    case "Exception" => Some(Exception)
    case "Attribute" => Some(Attribute)
    case "String" => Some(String)
    case "Array" => Some(Array)
    case "Boolean" => Some(Boolean)
    case "Char" => Some(Char)
    case "Byte" => Some(Byte)
    case "SByte" => Some(SByte)
    case "UInt16" => Some(UInt16)
    case "Int16" => Some(Int16)
    case "UInt32" => Some(UInt32)
    case "Int32" => Some(Int32)
    case "UInt64" => Some(UInt64)
    case "Int64" => Some(Int64)
    case "UIntPtr" => Some(UIntPtr)
    case "IntPtr" => Some(IntPtr)
    case "Single" => Some(Single)
    case "Double" => Some(Double)
    case "Guid" => Some(Guid)
    case _ => None
  }

  lemma NamedInvertsTypeName(t: SpecialType)
    ensures Named(TypeName(t)) == Some(t)
  {
  }

  /** What a lookup by full name yields: the type, and the class of its
      definition. */
  datatype Found = Found(id: TypeDefinitions.TypeId, definitionClass: TypeDefinitions.TypeDefinitionClass)

  /** `find`: the type named "System." followed by the name, which must be
      of the class the field is declared with; otherwise MissingSpecialType
      is thrown. */
  function Find(lookup: string -> Option<Found>, t: SpecialType): (r: Outcome<TypeDefinitions.TypeId>)
    ensures !r.Fatal?
    ensures r.Thrown? ==> r.error == MissingSpecialType
    ensures r.Success? <==> IsSpecial(lookup, t)
    ensures r.Success? ==> lookup(FullTypeName(t)) == Some(Found(r.value, ExpectedClass(t)))
  {
    match lookup(FullTypeName(t))
    case Some(found) =>
      if found.definitionClass == ExpectedClass(t) then Success(found.id) else Thrown(MissingSpecialType)
    case None => Thrown(MissingSpecialType)
  }

  /** The lookup finds a definition of the expected class for `t`. */
  predicate IsSpecial(lookup: string -> Option<Found>, t: SpecialType) {
    var found := lookup(FullTypeName(t));
    found.Some? && found.value.definitionClass == ExpectedClass(t)
  }

  /** The lookups of `ts`, in order, stopping at the first that throws. */
  function FindAll(lookup: string -> Option<Found>, ts: seq<SpecialType>): (r: Outcome<map<SpecialType, TypeDefinitions.TypeId>>)
    ensures !r.Fatal?
    ensures r.Thrown? ==> r.error == MissingSpecialType
    ensures r.Success? <==> forall t :: t in ts ==> IsSpecial(lookup, t)
    ensures r.Success? ==> forall t :: t in ts <==> t in r.value
    ensures r.Success? ==> forall t :: t in r.value ==> lookup(FullTypeName(t)) == Some(Found(r.value[t], ExpectedClass(t)))
  {
    if |ts| == 0 then Success(map[])
    else
      var id :- Find(lookup, ts[0]);
      var others :- FindAll(lookup, ts[1..]);
      assert forall t :: t in ts <==> t == ts[0] || t in ts[1..];
      Success(others[ts[0] := id])
  }

  /** `SpecialTypes.init`: all-or-nothing. It succeeds exactly when every
      special type is found with its expected class, and then holds every
      one of them. */
  function SpecialTypesInit(lookup: string -> Option<Found>): (r: Outcome<map<SpecialType, TypeDefinitions.TypeId>>)
    ensures !r.Fatal?
    ensures r.Thrown? ==> r.error == MissingSpecialType
    ensures r.Success? <==> forall t: SpecialType :: IsSpecial(lookup, t)
    ensures r.Success? ==> forall t: SpecialType :: t in r.value && lookup(FullTypeName(t)) == Some(Found(r.value[t], ExpectedClass(t)))
  {
    forall t: SpecialType
      ensures t in SPECIAL_TYPES
    {
      SpecialTypesAreAllLookedUp(t);
    }
    FindAll(lookup, SPECIAL_TYPES)
  }

  /** A loaded mscorlib: the assembly and its special types. */
  datatype LoadedMscorlib = LoadedMscorlib(assembly: nat, specialTypes: map<SpecialType, TypeDefinitions.TypeId>)

  /** `Mscorlib.init`: the assembly initialisation, which is not part of
      this model and arrives as `assembly`, then the special types; a
      failure of either fails the whole. */
  function LoadMscorlib(assembly: Outcome<nat>, lookup: string -> Option<Found>): (r: Outcome<LoadedMscorlib>)
    ensures r.Success? <==> assembly.Success? && SpecialTypesInit(lookup).Success?
    ensures assembly.Thrown? ==> r == Thrown(assembly.error)
    ensures assembly.Fatal? ==> r.Fatal?
    ensures assembly.Success? && !SpecialTypesInit(lookup).Success? ==> r == Thrown(MissingSpecialType)
    ensures r.Success? ==> r.value.assembly == assembly.value && r.value.specialTypes == SpecialTypesInit(lookup).value
  {
    match assembly
    case Success(a) =>
      var types := SpecialTypesInit(lookup);
      if types.Success? then Success(LoadedMscorlib(a, types.value)) else Thrown(MissingSpecialType)
    case Thrown(e) => Thrown(e)
    case Fatal => Fatal
  }

  /** The size and signedness of a special integer type: the reference
      `getInteger` is measured against. */
  function IntegerKind(t: SpecialType): Option<(Signatures.IntegerSize, bool)> {
    match t
    case SByte => Some((Signatures.Int8, true))
    case Byte => Some((Signatures.Int8, false))
    case Int16 => Some((Signatures.Int16, true))
    case UInt16 => Some((Signatures.Int16, false))
    case Int32 => Some((Signatures.Int32, true))
    case UInt32 => Some((Signatures.Int32, false))
    case Int64 => Some((Signatures.Int64, true))
    case UInt64 => Some((Signatures.Int64, false))
    case IntPtr => Some((Signatures.IntPtr, true))
    case UIntPtr => Some((Signatures.IntPtr, false))
    case _ => None
  }

  /** `getInteger` as the source writes it: for `int8` the signed flag
      picks Byte and the unsigned one SByte. */
  function GetIntegerAsWritten(size: Signatures.IntegerSize, signed: bool): (r: SpecialType)
    ensures size != Signatures.Int8 ==> IntegerKind(r) == Some((size, signed))
    ensures size == Signatures.Int8 ==> IntegerKind(r) == Some((size, !signed))
  {
    match size
    case Int8 => if signed then Byte else SByte
    case Int16 => if signed then Int16 else UInt16
    case Int32 => if signed then Int32 else UInt32
    case Int64 => if signed then Int64 else UInt64
    case IntPtr => if signed then IntPtr else UIntPtr
  }

  /** As written, the signed 8-bit integer is System.Byte, an unsigned type. */
  lemma GetIntegerInt8Swapped()
    ensures GetIntegerAsWritten(Signatures.Int8, true) == Byte
    ensures IntegerKind(GetIntegerAsWritten(Signatures.Int8, true)) == Some((Signatures.Int8, false))
  {
  }

  /** `getInteger` with SByte for the signed 8-bit integer, which the model
      uses. */
  function GetInteger(size: Signatures.IntegerSize, signed: bool): (r: SpecialType)
    ensures ExpectedClass(r) == TypeDefinitions.StructDefinition
  {
    match size
    case Int8 => if signed then SByte else Byte
    case Int16 => if signed then Int16 else UInt16
    case Int32 => if signed then Int32 else UInt32
    case Int64 => if signed then Int64 else UInt64
    case IntPtr => if signed then IntPtr else UIntPtr
  }

  /** `getInteger` and the size and signedness of the integer types are
      inverse: each size and signedness has its type, and each integer type
      is the answer for its own size and signedness. */
  lemma GetIntegerIsIntegerKindInverse(size: Signatures.IntegerSize, signed: bool, t: SpecialType)
    ensures IntegerKind(GetInteger(size, signed)) == Some((size, signed))
    ensures IntegerKind(t) == Some((size, signed)) ==> GetInteger(size, signed) == t
  {
  }
}
