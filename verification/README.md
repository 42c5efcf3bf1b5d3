# swift-dotnetmetadata core, modelled in Dafny

This project models the core of swift-dotnetmetadata, a reader for ECMA-335
(.NET/CLI) and Windows Runtime metadata. It covers the following:

- **The byte cursor.** This is the part of the raw-buffer extension that advances over a blob.
- **The signature blob decoder.** It reads TypeSig, FieldSig, MethodDefSig, PropertySig, ParamSig
  and CustomAttrib blobs, as laid out in section II.23.2 of ECMA-335.
- **MetadataToken.** A token packs a table tag and a one-based row index into 32 bits.
- **Type definitions as the metadata database derives them.** This covers:
  - kind, name and namespace;
  - the enclosing type;
  - base interfaces from the InterfaceImpl run;
  - method and field row ranges;
  - property and event ranges from PropertyMap/EventMap;
  - the MethodSemantics accessor run.
- **The logical TypeDefinition.** This covers:
  - the subclass chosen per kind;
  - the name without its generic suffix;
  - full names, including nested ones;
  - the generic parameters inherited from enclosing types;
  - layout;
  - member lookup through the base chain.
- **Property and event accessors.** These are bucketed by MethodSemantics value. The model
  also covers the preferred accessor and the traits a property or event takes from it.
- **The mscorlib special-type registry.** Every special type is found by full name,
  all-or-nothing. `getInteger` maps an integer size and signedness to its type.
- **The mock System type implementation.**
- **MIDL name mangling of WinRT type names.**

Each part is written as pure functions over immutable data:

- A buffer is a `seq<byte>`.
- A consuming read returns the value and the rest of the buffer.
- A type definition is a record in an arena, indexed by id.
- Table lookups that the model does not show are function-valued parameters:
  - the string heap;
  - the primary-key encoding of a token;
  - the physical layer's kind classification;
  - the lookup of a defined type by full name.

Failures come in two kinds:

- A thrown Swift error is `Thrown(error)`.
- A trap is `Fatal`. Traps include `fatalError`, a force-unwrap, `try!` and reading past the end of
  a buffer.

The properties proved are these:

- round trips between each signature and custom-attribute decoder and an encoder written alongside it, and
  for the cursor's little-endian integer reads; the other cursor decoders are characterised by what they
  consume and what they leave;
- the contents of every scan over a sorted table run;
- the ordering of tokens;
- inverse pairs for names, mangling and integer lookup;
- what each derived value is in terms of the rows it reads.

## Model

| member | source | states |
|---|---|---|
| Cursor.Sub | Sources/WinMD/UnsafePointers+Extensions.swift:2-4 | The buffer from an offset holds exactly the bytes from that offset on and is a suffix of the original |
| Cursor.SubRange | Sources/WinMD/UnsafePointers+Extensions.swift:6-8 | The window of `count` bytes at an offset holds exactly those bytes |
| Cursor.Consume | Sources/WinMD/UnsafePointers+Extensions.swift:20-24 | Consuming one value succeeds exactly when the buffer holds its stride; the value and the rest re-form the buffer; a short buffer traps |
| Cursor.ConsumeArray | Sources/WinMD/UnsafePointers+Extensions.swift:26-30 | Consuming `count` values succeeds exactly when `stride * count` bytes remain; element i is the i-th stride-sized slice and the rest starts after the last |
| Cursor.ConsumeNulPaddedString | Sources/WinMD/UnsafePointers+Extensions.swift:32-35 | A fixed field of `maxLength` bytes is consumed whole; the string is its longest NUL-free prefix, ended by a NUL or the field's end; a short buffer, or a prefix that is not well-formed UTF-8, traps |
| Cursor.AsciiIsUtf8 | Sources/WinMD/UnsafePointers+Extensions.swift:34 | Every ASCII name decodes, so its UTF-8 force-unwrap never traps |
| Cursor.MalformedUtf8Examples | Sources/WinMD/UnsafePointers+Extensions.swift:34 | A stray continuation byte, a truncated sequence, an overlong form and an encoded surrogate are rejected, so the force-unwrap traps; a two-byte letter is accepted |
| Cursor.ConsumeAllDropsSum | Sources/WinMD/UnsafePointers+Extensions.swift:20-30 | Consecutive consumes succeed exactly when the buffer holds the sum of their strides and leave the buffer after that sum |
| Cursor.LittleEndianRoundTrip | Sources/WinMD/UnsafePointers+Extensions.swift:20-24 | Reading the pointee of an unsigned integer as little-endian bytes inverts writing it |
| Cursor.FromSigned | Sources/DotNetMetadataFormat/Signatures+reading.swift:47-54 | Every signed value of a width has a two's-complement bit pattern that reads back as that value |
| Cursor.ConsumeUInt16 | Sources/DotNetMetadataFormat/Signatures+reading.swift:21 | A UInt16 read is the first byte plus 256 times the second, and it consumes two bytes |
| Cursor.ConsumeUIntRoundTrip | Sources/DotNetMetadataFormat/Signatures+reading.swift:21 | Consuming a fixed-width integer from its little-endian encoding gives the value and the bytes after it |
| Tokens.OneBasedRowIndex | Sources/DotNetMDPhysical/MetadataToken.swift:23 | The row index is the low 24 bits: with the tag byte it re-forms the raw value |
| Tokens.TableIndexOf | Sources/DotNetMDPhysical/MetadataToken.swift:22 | The table is the high byte; a byte that section II.22 of ECMA-335 assigns no table (the gaps 0x03, 0x05, 0x07, 0x13, 0x16, 0x1E, 0x1F or anything past 0x2C) traps on the force-unwrap |
| Tokens.GapTagsTrap | Sources/DotNetMDPhysical/MetadataToken.swift:21-22 | Tokens tagged with an unnumbered table or a non-table tag such as 0x70 (a string token) trap, whatever their row |
| Tokens.MakeToken | Sources/DotNetMDPhysical/MetadataToken.swift:8-11 | A token made from a table and row gives back that table and that row |
| Tokens.NullOf | Sources/DotNetMDPhysical/MetadataToken.swift:13-15 | The null token of a table is null and belongs to that table |
| Tokens.FromRowIndex | Sources/DotNetMDPhysical/MetadataToken.swift:17-19 | A missing row index gives the table's null token, a present one the token of that row |
| Tokens.TokenIsTableAndRow | Sources/DotNetMDPhysical/MetadataToken.swift:8-23 | Every token whose tag names a table is the token made from its table and row |
| Tokens.MakeTokenInjective | Sources/DotNetMDPhysical/MetadataToken.swift:8-11 | Distinct table/row pairs give distinct tokens |
| Tokens.IsNullIffNullOf | Sources/DotNetMDPhysical/MetadataToken.swift:13-24 | A token is null exactly when it is the null token of its own table |
| Tokens.LessIsStrictTotalOrder | Sources/DotNetMDPhysical/MetadataToken.swift:26-28 | `<` is irreflexive, transitive, total on distinct tokens and asymmetric |
| Tokens.LessOrdersByTableThenRow | Sources/DotNetMDPhysical/MetadataToken.swift:22-28 | Tokens order by table first and by row within a table |
| SigToken.ConsumeToken | Sources/DotNetMetadataFormat/Signatures+reading.swift:181 | Consuming a token yields the first byte and the rest; an empty buffer traps |
| SigToken.TryConsume | Sources/DotNetMetadataFormat/Signatures+reading.swift:11-12 | The token is consumed exactly when the buffer starts with it; otherwise the buffer is untouched |
| SigToken.ConsumeCompressedUInt | Sources/DotNetMetadataFormat/Signatures+reading.swift:243-244 | A lead byte of 0xE0 or more is the null marker; any value read is below 2^29 and at least one byte is consumed |
| SigToken.EncodeCompressedUInt | Sources/DotNetMetadataFormat/Signatures+reading.swift:243-244 | Values below 0x80 take one byte, below 0x4000 two, the rest four; the lead byte is never the null marker |
| SigToken.CompressedUIntRoundTrip | Sources/DotNetMetadataFormat/Signatures+reading.swift:248-250 | Decoding the compressed encoding of any value below 2^29 gives it back with the following bytes |
| SigToken.TwoByteExample | Sources/DotNetMetadataFormat/Signatures+reading.swift:243-244 | The two-byte form 0x92 0x34 decodes to 0x1234, as section II.23.2 of ECMA-335 shows |
| SignatureReading.FromBlob | Sources/DotNetMetadataFormat/Signatures+reading.swift:173-178 | A blob decodes only if consuming it leaves nothing; trailing bytes throw SignatureBlob; errors and traps pass through |
| SignatureReading.ConsumeSigUInt | Sources/DotNetMetadataFormat/Signatures+reading.swift:248-250 | The null marker throws SignatureBlob; any value read is below 2^29 |
| SignatureReading.ConsumeTypeDefOrRefEncoded | Sources/DotNetMetadataFormat/Signatures+reading.swift:253-268 | The result is a TypeDef, a TypeRef, or a TypeSpec only when that is allowed |
| SignatureReading.TypeDefOrRefTagSplit | Sources/DotNetMetadataFormat/Signatures+reading.swift:253-268 | The low two bits pick the table and the rest is the row; tag 3, or tag 2 without allowSpec, throws SignatureBlob |
| SignatureReading.ConsumeCustomMods | Sources/DotNetMetadataFormat/Signatures+reading.swift:270-283 | Reads modifiers while the next byte is CMOD_REQD/CMOD_OPT, stops before the first other byte, and marks the first modifier's kind by its token |
| SignatureReading.LeafTypeSig | Sources/DotNetMetadataFormat/Signatures+reading.swift:184-199 | The leaf element-type tokens map to well-formed leaf signatures; composite tokens are not leaves |
| SignatureReading.ConsumeClassFlag | Sources/DotNetMetadataFormat/Signatures+reading.swift:202-211 | Outside GENERICINST, the flag is whether the token is CLASS; after GENERICINST, CLASS or VALUETYPE must follow or SignatureBlob is thrown |
| SignatureReading.ConsumeTypeSig | Sources/DotNetMetadataFormat/Signatures+reading.swift:180-239 | An empty buffer traps; an unknown token throws SignatureBlob; a leaf token gives its leaf; a decoded signature is well formed; the rest is shorter |
| SignatureReading.ConsumeDefOrRefSig | Sources/DotNetMetadataFormat/Signatures+reading.swift:201-224 | CLASS/VALUETYPE give a class flag from the token; GENERICINST takes it from the next byte, and its absence throws |
| SignatureReading.ConsumeSzArraySig | Sources/DotNetMetadataFormat/Signatures+reading.swift:226-228 | SZARRAY yields a well-formed array of its modifiers and element |
| SignatureReading.ConsumeGenericArgSig | Sources/DotNetMetadataFormat/Signatures+reading.swift:230-232 | VAR and MVAR yield a generic argument, of the method exactly for MVAR |
| SignatureReading.ConsumeTypeSigs | Sources/DotNetMetadataFormat/Signatures+reading.swift:217-218 | `count` generic arguments, each well formed |
| SignatureReading.TypeSigFromBlob | Sources/DotNetMetadataFormat/Signatures+reading.swift:174-178 | A TypeSig blob must be consumed whole; the result is well formed |
| SignatureReading.ConsumeParamSig | Sources/DotNetMetadataFormat/Signatures+reading.swift:131-143 | Void is read only for a return parameter and never by-ref; the parameter is well formed |
| SignatureReading.ConsumeParamSigs | Sources/DotNetMetadataFormat/Signatures+reading.swift:118-120 | `count` well-formed non-return parameters |
| SignatureReading.ConsumeFieldSig | Sources/DotNetMetadataFormat/Signatures+reading.swift:79-87 | A FieldSig must start with FIELD or SignatureBlob is thrown; the result is well formed |
| SignatureReading.FieldSigFromBlob | Sources/DotNetMetadataFormat/Signatures+reading.swift:73-77 | A FieldSig blob must be consumed whole and start with FIELD |
| SignatureReading.ConsumeMethodDefSigBody | Sources/DotNetMetadataFormat/Signatures+reading.swift:106-127 | With explicit this, the first counted parameter is the this type and the parameter list is one shorter; a zero count with explicit this throws the explicit this type's error, or traps once that type decodes |
| SignatureReading.ConsumeMethodDefSig | Sources/DotNetMetadataFormat/Signatures+reading.swift:97-128 | An empty buffer or a non-default calling convention traps; hasThis and explicitThis follow the convention's flags; generic arity is 0 |
| SignatureReading.ExplicitThisMalformedTypeThrows | Sources/DotNetMetadataFormat/Signatures+reading.swift:110-114 | With explicit this and a zero count, the blob 60 00 01 FF throws SignatureBlob from the malformed this type before the count is touched |
| SignatureReading.ExplicitThisZeroCountTraps | Sources/DotNetMetadataFormat/Signatures+reading.swift:110-114 | With explicit this and a zero count, the blob 60 00 01 08 decodes the this type and then traps on the count |
| SignatureReading.MethodDefSigFromBlob | Sources/DotNetMetadataFormat/Signatures+reading.swift:91-95 | A MethodDefSig blob must be consumed whole; the result is well formed |
| SignatureReading.ConsumePropertySig | Sources/DotNetMetadataFormat/Signatures+reading.swift:152-170 | The lead byte must be PROPERTY, with or without HASTHIS, else SignatureBlob is thrown; hasThis is which of the two it was |
| SignatureReading.PropertySigFromBlob | Sources/DotNetMetadataFormat/Signatures+reading.swift:146-150 | A PropertySig blob must be consumed whole; the result is well formed |
| SignatureEncoding.TypeDefOrRefRoundTrip | Sources/DotNetMetadataFormat/Signatures+reading.swift:253-268 | Every allowed TypeDefOrRef coded index decodes back from its encoding |
| SignatureEncoding.SigUIntRoundTrip | Sources/DotNetMetadataFormat/Signatures+reading.swift:248-250 | Every value below 2^29 decodes back from its compressed encoding |
| SignatureEncoding.EncodeCustomMods | Sources/DotNetMetadataFormat/Signatures+reading.swift:270-283 | The encoding is empty exactly for no modifiers and otherwise starts with a modifier token |
| SignatureEncoding.CustomModsRoundTrip | Sources/DotNetMetadataFormat/Signatures+reading.swift:270-283 | Modifiers decode back from their encoding when no modifier token follows |
| SignatureEncoding.LeafTokenBijection | Sources/DotNetMetadataFormat/Signatures+reading.swift:184-199 | The leaf element types and their tokens are in one-to-one correspondence |
| SignatureEncoding.EncodeTypeSig | Sources/DotNetMetadataFormat/Signatures+reading.swift:180-239 | A type's encoding is non-empty and never starts with a modifier, VOID or BYREF, so the readers that look ahead for those cannot mistake it |
| SignatureEncoding.TypeSigRoundTrip | Sources/DotNetMetadataFormat/Signatures+reading.swift:180-239 | Every well-formed TypeSig decodes back from its encoding followed by anything |
| SignatureEncoding.DefOrRefRoundTrip | Sources/DotNetMetadataFormat/Signatures+reading.swift:201-224 | Class, value-type and generic-instance signatures decode back from their encoding |
| SignatureEncoding.SzArrayRoundTrip | Sources/DotNetMetadataFormat/Signatures+reading.swift:226-228 | SZARRAY signatures decode back from their encoding |
| SignatureEncoding.TypeSigsRoundTrip | Sources/DotNetMetadataFormat/Signatures+reading.swift:217-218 | Generic argument lists decode back from their encoding |
| SignatureEncoding.TypeSigBlobRoundTrip | Sources/DotNetMetadataFormat/Signatures+reading.swift:174-178 | A TypeSig blob of exactly an encoding decodes to the type |
| SignatureEncoding.TypeSigBlobRejectsTrailing | Sources/DotNetMetadataFormat/Signatures+reading.swift:177 | An encoding followed by any extra bytes throws SignatureBlob |
| SignatureEncoding.ParamSigRoundTrip | Sources/DotNetMetadataFormat/Signatures+reading.swift:131-143 | Every well-formed parameter, return or not, decodes back from its encoding |
| SignatureEncoding.ParamSigsRoundTrip | Sources/DotNetMetadataFormat/Signatures+reading.swift:118-120 | Parameter lists decode back from their encoding |
| SignatureEncoding.FieldSigRoundTrip | Sources/DotNetMetadataFormat/Signatures+reading.swift:79-87 | Field signatures decode back from their encoding |
| SignatureEncoding.FieldSigBlobRoundTrip | Sources/DotNetMetadataFormat/Signatures+reading.swift:73-77 | A FieldSig blob of exactly an encoding decodes to the signature |
| SignatureEncoding.CallingConventionFlags | Sources/DotNetMetadataFormat/Signatures+reading.swift:98-104 | The written calling convention is DEFAULT, and its HASTHIS/EXPLICITTHIS bits read back as the signature's flags |
| SignatureEncoding.MethodDefSigRoundTrip | Sources/DotNetMetadataFormat/Signatures+reading.swift:97-128 | Every well-formed method signature decodes back from its encoding, explicit this included |
| SignatureEncoding.PropertySigRoundTrip | Sources/DotNetMetadataFormat/Signatures+reading.swift:152-170 | Every well-formed property signature decodes back from its encoding |
| SignatureEncoding.MemberSigBlobRoundTrip | Sources/DotNetMetadataFormat/Signatures+reading.swift:91-150 | MethodDefSig and PropertySig blobs of exactly an encoding decode to the signature |
| CustomAttributes.ConsumeSerString | Sources/DotNetMetadataFormat/Signatures+reading.swift:242-246 | 0xFF is the null string; otherwise a length below 2^29 and that many bytes are consumed; an empty buffer traps |
| CustomAttributes.SerStringRoundTrip | Sources/DotNetMetadataFormat/Signatures+reading.swift:242-246 | Null and every string of a representable length decode back from their encoding |
| CustomAttributes.ConsumeElem | Sources/DotNetMetadataFormat/Signatures+reading.swift:43-68 | Only boolean, char, integer, real, string and szarray types have elements, others throw SignatureBlob; the element read fits its type |
| CustomAttributes.ConsumeElems | Sources/DotNetMetadataFormat/Signatures+reading.swift:61-65 | `count` elements, each fitting the element type |
| CustomAttributes.ElemRoundTrip | Sources/DotNetMetadataFormat/Signatures+reading.swift:43-68 | Every element that fits its type decodes back from its encoding, arrays included |
| CustomAttributes.ElemsRoundTrip | Sources/DotNetMetadataFormat/Signatures+reading.swift:61-65 | Array contents decode back from their encoding |
| CustomAttributes.ConsumeFixedArgs | Sources/DotNetMetadataFormat/Signatures+reading.swift:16-19 | One argument per constructor parameter, each fitting its type; a by-ref parameter throws SignatureBlob |
| CustomAttributes.ConsumeNamedArg | Sources/DotNetMetadataFormat/Signatures+reading.swift:23-39 | The kind byte must be FIELD or PROPERTY else SignatureBlob is thrown; the name is the SerString after the member type, and a null SerString there throws SignatureBlob |
| CustomAttributes.ConsumeNamedArgs | Sources/DotNetMetadataFormat/Signatures+reading.swift:22-40 | Exactly `count` named arguments |
| CustomAttributes.ConsumeCustomAttrib | Sources/DotNetMetadataFormat/Signatures+reading.swift:10-41 | The 0x0001 prolog is required; one fixed argument per parameter; the number of named arguments is the little-endian UInt16 right after the fixed arguments |
| CustomAttributes.CustomAttribFromBlob | Sources/DotNetMetadataFormat/Signatures+reading.swift:4-8 | A CustomAttrib blob must be consumed whole and start with the prolog |
| CustomAttributes.EmptyAttributeExample | Sources/DotNetMetadataFormat/Signatures+reading.swift:4-41 | The four-byte blob 01 00 00 00 is an attribute with no arguments |
| CustomAttributes.EncodeNamedArg | Sources/DotNetMetadataFormat/Signatures+reading.swift:24-28 | A named argument's encoding starts with its kind's token |
| CustomAttributes.NamedArgRoundTrip | Sources/DotNetMetadataFormat/Signatures+reading.swift:23-39 | Every named argument decodes back from its encoding |
| CustomAttributes.NamedArgsRoundTrip | Sources/DotNetMetadataFormat/Signatures+reading.swift:22-40 | Named argument lists decode back from their encoding |
| CustomAttributes.FixedArgsRoundTrip | Sources/DotNetMetadataFormat/Signatures+reading.swift:16-19 | Fixed arguments decode back from their encoding |
| CustomAttributes.CustomAttribStreamRoundTrip | Sources/DotNetMetadataFormat/Signatures+reading.swift:10-41 | A whole custom attribute decodes back from its encoding followed by anything |
| CustomAttributes.CustomAttribRoundTrip | Sources/DotNetMetadataFormat/Signatures+reading.swift:4-8 | A CustomAttrib blob of exactly an encoding decodes to the attribute |
| Tables.FindFirst | Sources/DotNetMD/TypeDefinition+MetadataImpl.swift:60-61 | The first row with the key, or none exactly when no row has it |
| Tables.RunFrom | Sources/DotNetMD/TypeDefinition+MetadataImpl.swift:62-67 | The maximal run of consecutive rows with the key from a start row |
| Tables.ScanKeyRun | Sources/DotNetMD/TypeDefinition+MetadataImpl.swift:57-70 | The scan loop yields the key run of the table |
| Tables.KeyRunIsAllRowsWithKey | Sources/DotNetMD/TypeDefinition+MetadataImpl.swift:57-70 | In a table sorted by key, a row is in the run exactly when it has the key, and the run is increasing |
| Tables.ChildRange | Sources/DotNetMD/TypeDefinition+MetadataImpl.swift:73-76 | A parent's children run from its list entry to the next parent's, or to the table end for the last parent |
| Tables.ChildRangesDisjoint | Sources/DotNetMD/TypeDefinition+MetadataImpl.swift:72-88 | Distinct parents with ordered list columns own disjoint child ranges |
| Tables.ChildRangeIsRange | Sources/DotNetMD/TypeDefinition+MetadataImpl.swift:72-88 | With ordered list columns a parent's children are every row from its list entry up to the next parent's entry, or to the table end |
| TypeMetadata.Kind | Sources/DotNetMD/TypeDefinition+MetadataImpl.swift:23-29 | An abstracted lookup: the kind is the physical layer's classification of the row (a parameter of the model), told whether the assembly is named mscorlib; KindDependsOnRowOnly is its frame lemma |
| TypeMetadata.Name | Sources/DotNetMD/TypeDefinition+MetadataImpl.swift:31 | An abstracted lookup: the name is the string-heap entry (a parameter of the model) of the row's TypeName column, kept even when empty |
| TypeMetadata.NameDependsOnRowOnly | Sources/DotNetMD/TypeDefinition+MetadataImpl.swift:21-31 | Frame lemma for the abstracted lookup: two rows with the same TypeName index over the same heap have the same name |
| TypeMetadata.Namespace | Sources/DotNetMD/TypeDefinition+MetadataImpl.swift:33-39 | No namespace exactly for a zero heap index or an empty string; otherwise the heap string |
| TypeMetadata.EnclosingType | Sources/DotNetMD/TypeDefinition+MetadataImpl.swift:43-47 | No enclosing type without a NestedClass row for this type; otherwise exactly the enclosing class of the first NestedClass row keyed by this type |
| TypeMetadata.BaseInterfaces | Sources/DotNetMD/TypeDefinition+MetadataImpl.swift:57-70 | Only InterfaceImpl rows keyed by this type |
| TypeMetadata.BaseInterfacesAreAllImplRows | Sources/DotNetMD/TypeDefinition+MetadataImpl.swift:57-70 | In a sorted InterfaceImpl table, every row keyed by the type is a base interface, in row order |
| TypeMetadata.Methods | Sources/DotNetMD/TypeDefinition+MetadataImpl.swift:72-79 | Consecutive existing MethodDef rows |
| TypeMetadata.MethodsFollowTypeDefRow | Sources/DotNetMD/TypeDefinition+MetadataImpl.swift:72-79 | With ordered MethodList entries, the methods are exactly the rows from the type's entry to the next type's entry, or to the table end |
| TypeMetadata.Fields | Sources/DotNetMD/TypeDefinition+MetadataImpl.swift:81-88 | Consecutive existing Field rows |
| TypeMetadata.FieldsFollowTypeDefRow | Sources/DotNetMD/TypeDefinition+MetadataImpl.swift:81-88 | With ordered FieldList entries, the fields are exactly the rows from the type's entry to the next type's entry, or to the table end |
| TypeMetadata.MethodsDisjoint | Sources/DotNetMD/TypeDefinition+MetadataImpl.swift:72-79 | Two distinct types own no method in common |
| TypeMetadata.Properties | Sources/DotNetMD/TypeDefinition+MetadataImpl.swift:90-98 | No properties without a PropertyMap row; otherwise existing Property rows |
| TypeMetadata.Events | Sources/DotNetMD/TypeDefinition+MetadataImpl.swift:100-108 | No events without an EventMap row; otherwise existing Event rows |
| TypeMetadata.MappedMembersFollowMapRow | Sources/DotNetMD/TypeDefinition+MetadataImpl.swift:90-108 | The members are the child range of the type's map row |
| TypeMetadata.EntriesOf | Sources/DotNetMD/TypeDefinition+MetadataImpl.swift:114-121 | Each semantics row becomes its method and semantics; a method outside the type traps on the force-unwrap |
| TypeMetadata.GetAccessors | Sources/DotNetMD/TypeDefinition+MetadataImpl.swift:110-124 | Accessors are methods of the type, one per MethodSemantics row in the owner's run |
| TypeMetadata.GetAccessorsTrapsOnForeignMethod | Sources/DotNetMD/TypeDefinition+MetadataImpl.swift:118 | It traps exactly when some semantics row of the owner names a method the type does not define |
| TypeMetadata.GetAccessorsListOwnerRows | Sources/DotNetMD/TypeDefinition+MetadataImpl.swift:110-124 | In a sorted table, every semantics row of the owner appears as an entry |
| TypeDefinitions.Create | Sources/DotNetMetadata/TypeDefinition.swift:20-28 | The subclass created for a kind has that kind |
| TypeDefinitions.CreateIsBijective | Sources/DotNetMetadata/TypeDefinition.swift:20-28 | Kinds and subclasses correspond one to one |
| TypeDefinitions.NameWithoutGenericSuffix | Sources/DotNetMetadata/TypeDefinition.swift:49-53 | A prefix of the name with no backtick, cut exactly at the first backtick |
| TypeDefinitions.GenericSuffixStripped | Sources/DotNetMetadata/TypeDefinition.swift:49-53 | A plain name followed by a backtick and an arity gives back the plain name |
| TypeDefinitions.MakeFullTypeName | Sources/DotNetMetadata/TypeDefinition.swift:250-253 | The name alone, or the namespace, a dot and the name |
| TypeDefinitions.FullTypeNameRoundTrip | Sources/DotNetMetadata/TypeDefinition.swift:250-253 | For a name without a dot, splitting at the last dot gives back the namespace and name |
| TypeDefinitions.MakeNestedFullTypeName | Sources/DotNetMetadata/TypeDefinition.swift:255-266 | The enclosing full name followed by "/" and each nested name |
| TypeDefinitions.FullName | Sources/DotNetMetadata/TypeDefinition.swift:55-61 | Every full name ends with the type's own name |
| TypeDefinitions.FullNameIsNestedFullTypeName | Sources/DotNetMetadata/TypeDefinition.swift:55-61 | The recursive full name equals the nested full-name builder applied to the outermost type and the names down the chain |
| TypeDefinitions.FullGenericParams | Sources/DotNetMetadata/TypeDefinition.swift:71-81 | The loop yields the enclosing types' parameters, outermost first, then the type's own |
| TypeDefinitions.OuterFirstParamsFollowChain | Sources/DotNetMetadata/TypeDefinition.swift:71-81 | The full parameters are the parameters of the enclosing chain concatenated outermost first, ending with the type's own |
| TypeDefinitions.Layout | Sources/DotNetMetadata/TypeDefinition.swift:83-92 | The layout kind follows the attributes; pack 0 means no pack; sequential and explicit carry the class size |
| TypeDefinitions.SequentialLayoutKeepsClassLayout | Sources/DotNetMetadata/TypeDefinition.swift:86-88 | A sequential layout gives back the class layout row it was made from |
| TypeDefinitions.FirstMatchFrom | Sources/DotNetMetadata/TypeDefinition.swift:178-186 | The first member from a position matching the name, visibility, static and predicate filters |
| TypeDefinitions.Single | Sources/DotNetMetadata/TypeDefinition.swift:178-186 | The index of the only match; none when there is no match or more than one |
| TypeDefinitions.FindMember | Sources/DotNetMetadata/TypeDefinition.swift:170-192 | The type's own single match wins; otherwise, only when inheriting, a match found up the base chain |
| TypeDefinitions.InheritedLookupDefersToBase | Sources/DotNetMetadata/TypeDefinition.swift:188-191 | An inherited lookup with no own match is the same lookup on the base |
| TypeDefinitions.FindMethod | Sources/DotNetMetadata/TypeDefinition.swift:102-126 | A method found matches the name and every given filter; without inheritance it is the type's own |
| TypeDefinitions.FindPlainMember | Sources/DotNetMetadata/TypeDefinition.swift:128-168 | A field, property or event found has the name and the given visibility and static filters |
| TypeDefinitions.Finalizer | Sources/DotNetMetadata/TypeDefinition.swift:196 | The finalizer is the type's own unique non-static Finalize of arity 0, and absent exactly when there is no such unique method |
| TypeDefinitions.InvokeMethod | Sources/DotNetMetadata/TypeDefinition.swift:203 | The delegate's public instance Invoke; its absence traps |
| TypeDefinitions.BackingField | Sources/DotNetMetadata/TypeDefinition.swift:211-214 | The enum's public instance value__ field; its absence traps |
| MockSystemType.MockSystemTypeImpl | Sources/DotNetMetadata/TypeDefinition+MockSystemTypeImpl.swift:10-38 | The given kind, name and attributes in namespace System, bound to the base if any, with no members, parameters or nesting |
| MockSystemType.MockTypeIsPlainSystemType | Sources/DotNetMetadata/TypeDefinition+MockSystemTypeImpl.swift:28-38 | The mock type's full name is System.name; it has no generic parameters and finds no member of its own |
| MockSystemType.MockTypeInheritsFromBase | Sources/DotNetMetadata/TypeDefinition+MockSystemTypeImpl.swift:18-22 | Every inherited lookup on the mock type is the lookup on its base |
| Accessors.LastIndexWith | Sources/DotNetMD/Property.swift:42-48 | The last entry with a semantics value, none exactly when no entry has it |
| Accessors.AllWith | Sources/DotNetMD/Property.swift:46 | Exactly the methods of the entries with a semantics value |
| Accessors.PositionsWith | Sources/DotNetMD/Property.swift:42-46 | The positions of the entries with a semantics value, each once and in ascending order |
| Accessors.AllWithInEntryOrder | Sources/DotNetMD/Property.swift:42-46 | The k-th method collected is the method of the k-th entry with that semantics, so entry order and repeats are kept |
| Accessors.FirstEntryLeadsItsBucket | Sources/DotNetMD/Event.swift:39 | The first entry heads the list of entries with its semantics |
| Properties.CreateProperty | Sources/DotNetMD/Property.swift:14-23 | An undecodable signature traps; the result is an indexer exactly when the signature has parameters |
| Properties.PropertyAccessorsOf | Sources/DotNetMD/Property.swift:41-50 | Getter and setter are the last entries of their kind, others all other entries in order; any other semantics traps |
| Properties.AnyPropertyAccessor | Sources/DotNetMD/Property.swift:58 | The getter, else the setter, else the first other accessor |
| Properties.AnyPropertyAccessorIsAnEntry | Sources/DotNetMD/Property.swift:41-58 | A preferred accessor exists exactly when the property has entries, and is one of them |
| Properties.PropertyTraitsAsWritten | Sources/DotNetMD/Property.swift:59-63 | The traits as the source reads them, with isVirtual and isAbstract taken from each other's flag |
| Properties.PropertyTraitsOf | Sources/DotNetMD/Property.swift:59-63 | The preferred accessor's visibility, static, virtual, abstract and final flags; public and all false without one |
| Properties.AbstractPropertyIsVirtual | Sources/DotNetMD/Property.swift:61-62 | For well-formed method flags, an abstract property is virtual |
| Properties.PropertyVirtualAbstractSwapped | Sources/DotNetMD/Property.swift:61-62 | As written, a virtual non-abstract getter makes the property abstract and not virtual |
| Events.EventAccessorsOf | Sources/DotNetMD/Event.swift:33-43 | Add, remove and fire are the last entries of their kind, others all other entries in order; any other semantics traps |
| Events.AnyEventAccessor | Sources/DotNetMD/Event.swift:50-55 | Add, else remove, else fire, else the first other accessor |
| Events.AnyEventAccessorIsAnEntry | Sources/DotNetMD/Event.swift:33-55 | A preferred accessor exists exactly when the event has entries, and is one of them |
| Events.EventVisibility | Sources/DotNetMD/Event.swift:59 | The preferred accessor's visibility, public without one |
| Events.EventVisibilityIsSharedAccessorVisibility | Sources/DotNetMD/Event.swift:57-59 | When all accessors share one accessibility, as section II.22.28 of ECMA-335 requires, the event has it |
| Mscorlib.SpecialTypeNamed | Sources/DotNetMetadata/Mscorlib.swift:18-19 | A full name names at most one special type, the one whose full name it is |
| Mscorlib.FullTypeNameIsInjective | Sources/DotNetMetadata/Mscorlib.swift:26-53 | Every special type is recovered from its full name, so no two share one |
| Mscorlib.Find | Sources/DotNetMetadata/Mscorlib.swift:18-24 | Succeeds exactly when System.name is defined with the expected class; otherwise throws MissingSpecialType |
| Mscorlib.FindAll | Sources/DotNetMetadata/Mscorlib.swift:26-53 | Succeeds exactly when every listed type is found; then it maps each exactly to its lookup |
| Mscorlib.SpecialTypesInit | Sources/DotNetMetadata/Mscorlib.swift:17-53 | All-or-nothing: succeeds exactly when every special type is found with its class, and then holds them all |
| Mscorlib.LoadMscorlib | Sources/DotNetMetadata/Mscorlib.swift:9-12 | Loading succeeds exactly when the assembly and the special types do; a failure of either propagates |
| Mscorlib.GetIntegerAsWritten | Sources/DotNetMetadata/Mscorlib.swift:85-93 | The type for a size and signedness, except that int8 answers with the opposite signedness |
| Mscorlib.GetIntegerInt8Swapped | Sources/DotNetMetadata/Mscorlib.swift:87 | As written, the signed 8-bit integer is System.Byte, which is unsigned |
| Mscorlib.GetInteger | Sources/DotNetMetadata/Mscorlib.swift:85-93 | Always a struct special type |
| Mscorlib.GetIntegerIsIntegerKindInverse | Sources/DotNetMetadata/Mscorlib.swift:85-93 | Each size and signedness gets the type of that size and signedness, and every integer type is that answer for its own |
| MidlMangling.DecimalStringRoundTrip | Sources/WindowsMetadata/WinRTTypeName+midlMangling.swift:30 | The decimal arity written parses back to the arity |
| MidlMangling.EscapeIsEscaped | Sources/WindowsMetadata/WinRTTypeName+midlMangling.swift:45 | In an escaped component every underscore is followed by another underscore or by "z", so no separator can begin inside it |
| MidlMangling.EscapeRoundTrip | Sources/WindowsMetadata/WinRTTypeName+midlMangling.swift:45 | Replacing "_" by "__z" is undone by unescaping |
| MidlMangling.Split | Sources/WindowsMetadata/WinRTTypeName+midlMangling.swift:50 | Splitting on "." yields non-empty pieces with no dot |
| MidlMangling.SplitJoinRoundTrip | Sources/WindowsMetadata/WinRTTypeName+midlMangling.swift:49-53 | Non-empty dot-free pieces joined by dots split back into the same pieces |
| MidlMangling.JoinEscapedDecodes | Sources/WindowsMetadata/WinRTTypeName+midlMangling.swift:39-47 | The escaped components joined by "_C" or "__C" decode back into the components |
| MidlMangling.DeclaredManglingDecodes | Sources/WindowsMetadata/WinRTTypeName+midlMangling.swift:36-55 | A declared name's mangling is its prefix followed by text that decodes to the namespace components and the name |
| MidlMangling.OnlyDeclaredDependsOnPosition | Sources/WindowsMetadata/WinRTTypeName+midlMangling.swift:17-57 | Primitive and parameterized manglings are the same as a generic argument and at the top level |
| MidlMangling.MidlMangling | Sources/WindowsMetadata/WinRTTypeName+midlMangling.swift:5-11 | A primitive's MIDL name; otherwise the top-level mangling, starting with the declared or parameterized prefix |
| MidlMangling.WriteMidlMangling | Sources/WindowsMetadata/WinRTTypeName+midlMangling.swift:13-34 | The writer appends exactly the mangling to the output |
| MidlMangling.WriteArguments | Sources/WindowsMetadata/WinRTTypeName+midlMangling.swift:31-34 | The loop appends "_" and each argument's parameter mangling |
| MidlMangling.WriteDeclared | Sources/WindowsMetadata/WinRTTypeName+midlMangling.swift:36-55 | The declared branch appends exactly the declared mangling |
| MidlMangling.WriteComponents | Sources/WindowsMetadata/WinRTTypeName+midlMangling.swift:39-55 | The component loop with its first-component flag appends the escaped components joined by the separator |

## Left out

- **Laziness and caching.** Lazy properties and the `Result` caches are left out, for example
  Property.swift:32-33 and the lazy members of the type implementation. Each value is computed
  on demand and is the same either way.
- **Floating point and text decoding.** The model does not decode floating-point values or UTF-8/UTF-16 text:
  - `single` and `double` elements keep their raw bit patterns;
  - `char` keeps its 16-bit code unit;
  - strings stay as their bytes and are never decoded. `Cursor.ConsumeNulPaddedString` alone checks them for
    well-formed UTF-8 (Table 3-7 of the Unicode Standard), because UnsafePointers+Extensions.swift:34 force-unwraps
    `String(bytes:encoding:)`. A SerString is decoded in Signatures+reading.swift:245 by `String(decoding:as:)`,
    which replaces malformed bytes with U+FFFD and never fails. `CustomAttributes.ConsumeSerString` keeps its raw
    bytes unchecked, so two different malformed SerStrings that Swift decodes to the same String stay different
    in the model.
- **Debug output.** Printing the unknown token in Signatures+reading.swift:235-236 is output only and is not modelled.
- **Identity.** Object identity and hashing of TypeDefinition and Event become equality of model ids and rows.
- **Other lookups and resolution.** These are not part of this model:
  - `isMscorlib(namespace:name:)`;
  - `isMscorlib(fullName:)`;
  - resolving generic parameters, attributes, nested types, base types, property types and event
    handler types.
- **Raw pointers.** The binding of raw memory to a Swift type becomes reading its little-endian bytes.
- **Helpers this model defines by contract.** The source of these helpers is not part of this model. Each is defined here by its contract:
  - The SigToken constants and `consumeCompressedUInt` follow section II.23.2 of ECMA-335. A lead byte of 111xxxxx reads as the null marker.
  - `findFirst` and `findAny` both give the first row with the key.
  - `findPropertyMap(forTypeDef:)` and `findEventMap(forTypeDef:)` give the first map row whose parent is the type.
  - `getChildRowRange` runs to the next parent's list entry, or to the table end.
  - `single(where:)` gives the unique match.
  - `bind()` gives a bound type without arguments.
  - These are parameters:
    - the string heap;
    - `tableKey`;
    - `getTypeDefinitionKind`;
    - `findDefinedType`;
    - the MIDL name of a primitive type;
    - `nameWithoutAritySuffix`.
- **Assembly initialisation.** The base assembly initialisation in `Mscorlib.init` is a parameter outcome.
- **Arena order.** The type arena orders each type after its enclosing type and its base. This stands in for
  the acyclic chains the source walks, and the walks terminate because of it.
- **Zero-based list columns.** List columns and row indices are zero-based in the model. Tokens carry the one-based index.
- SignatureReading.ConsumeMethodDefSigBody: the debug `assert(paramCount > 0)` for explicit this is not modelled.
  A release build first decodes the explicit `this` type, so a malformed type throws SignatureBlob. Only after a
  successful decode does it decrement a UInt32 zero, and that traps. The model follows this order: the result is
  the type's error, or a trap once the type decodes.
- **Unicode scalars, not Characters.** A Swift String compares by canonical equivalence, and `firstIndex(of:)`,
  `split(separator:)` and `replacing(_:with:)` work on Characters, which are grapheme clusters. The model's
  strings are sequences of Unicode scalars, compared and split scalar by scalar. Canonical equivalence and grapheme
  clustering are not modelled. This affects these members:
  - TypeDefinitions.Matches: a name filter compares scalars, so "Caf\u{E9}" and "Cafe\u{301}" do not match, although
    Swift's `==` finds them equal.
  - TypeDefinitions.NameWithoutGenericSuffix: the backtick is searched for scalar by scalar.
  - MidlMangling.Escape: "_" is replaced scalar by scalar.
  - MidlMangling.Split: "A.\u{301}B" splits at the dot, where Swift sees the dot and U+0301 as one Character and
    does not split.
  - Mscorlib.SpecialTypeNamed: full names are compared scalar by scalar.
- **Member arity.** A method's `arity` is taken to be the length of its parameter list, and to throw exactly when
  resolving `params` throws. Member lookup then compares `|params|` with the requested arity, and a member whose
  parameters fail to resolve matches no arity filter.
- TypeDefinitions.FullName: the debug assertion that a nested type has no namespace is not modelled. A
  nested type's namespace is ignored, as in a release build.
- MidlMangling.DecimalStringRoundTrip: the arity is a natural number. A negative arity's `String(Int)` is not modelled.
- **MIDL naming constants.** `IID_` and `Vtbl` are defined as constants only. They have no behaviour in these lines.
- **Documented mangling examples.** The example manglings in the writer's comments (lines 18-21) are not restated as
  lemmas. The general decoding lemmas cover the declared form.
- **Excluded files.** Param.swift, ThreadingModel.swift, the WinMDGraph copy of the mock type and the unit tests are not part of this model.

## Findings

| source | as written | input that shows it | evidently intended | confidence | as-written member | corrected member |
|---|---|---|---|---|---|---|
| Sources/DotNetMD/Property.swift:61-62 | `isVirtual` reads the accessor's `isAbstract`, and `isAbstract` reads its `isVirtual` | a property whose getter is virtual and not abstract: the source reports it abstract and not virtual | `isVirtual` reads `isVirtual`, and `isAbstract` reads `isAbstract`, so an abstract property is virtual | not executed | Properties.PropertyTraitsAsWritten, Properties.PropertyVirtualAbstractSwapped | Properties.PropertyTraitsOf, Properties.AbstractPropertyIsVirtual |
| Sources/DotNetMetadata/Mscorlib.swift:87 | `case .int8: return signed ? byte : sbyte` | `getInteger(.int8, signed: true)` returns System.Byte, which is unsigned | signed int8 gives SByte and unsigned gives Byte, like the other sizes | not executed | Mscorlib.GetIntegerAsWritten, Mscorlib.GetIntegerInt8Swapped | Mscorlib.GetInteger, Mscorlib.GetIntegerIsIntegerKindInverse |
