/** Properties: Property or Indexer by signature, accessor bucketing, and the
    flags a property takes from its preferred accessor. */
module Properties {
  import opened Wrappers
  import opened Cursor
  import opened Signatures
  import SignatureReading
  import opened TypeMetadata
  import opened TypeDefinitions
  import opened Accessors

  /** The class `create` instantiates, with the decoded signature. */
  datatype PropertyClass = PlainProperty(sig: PropertySig) | Indexer(sig: PropertySig)

  /** `create`: the signature blob decoded with `try!`, so a malformed blob
      traps; a property with parameters is an Indexer. */
  function CreateProperty(blob: seq<byte>): (r: Outcome<PropertyClass>)
    ensures !r.Thrown?
    ensures r.Fatal? <==> !SignatureReading.PropertySigFromBlob(blob).Success?
    ensures r.Success? ==> r.value.sig == SignatureReading.PropertySigFromBlob(blob).value
    ensures r.Success? ==> (r.value.Indexer? <==> |r.value.sig.params| > 0)
  {
    match SignatureReading.PropertySigFromBlob(blob)
    case Success(sig) => Success(if |sig.params| == 0 then PlainProperty(sig) else Indexer(sig))
    case _ => Fatal
  }

  datatype PropertyAccessors = PropertyAccessors(getter: Option<nat>, setter: Option<nat>, others: seq<nat>)

  predicate IsPropertySemantics(s: nat) {
    s == GETTER || s == SETTER || s == OTHER
  }

  /** One step of the bucketing loop; any other semantics is a fatalError. */
  function AddPropertyEntry(acc: PropertyAccessors, e: AccessorEntry): Outcome<PropertyAccessors> {
    if e.semantics == GETTER then Success(acc.(getter := Some(e.methodRow)))
    else if e.semantics == SETTER then Success(acc.(setter := Some(e.methodRow)))
    else if e.semantics == OTHER then Success(acc.(others := acc.others + [e.methodRow]))
    else Fatal
  }

  /** `accessors`: the entries folded in order, from empty buckets. The
      getter and setter are the last entries of their kind, the others every
      `other` entry in order; an unexpected semantics value traps. */
  function PropertyAccessorsOf(entries: seq<AccessorEntry>): (r: Outcome<PropertyAccessors>)
    ensures !r.Thrown?
    ensures r.Fatal? <==> exists i :: 0 <= i < |entries| && !IsPropertySemantics(entries[i].semantics)
    ensures r.Success? ==> r.value == PropertyAccessors(LastWith(entries, GETTER), LastWith(entries, SETTER), AllWith(entries, OTHER))
  {
    if |entries| == 0 then Success(PropertyAccessors(None, None, []))
    else
      var init := entries[..|entries| - 1];
      assert forall i :: 0 <= i < |entries| - 1 ==> init[i] == entries[i];
      var acc :- PropertyAccessorsOf(init);
      AddPropertyEntry(acc, entries[|entries| - 1])
  }

  /** `anyAccessor`: the getter, else the setter, else the first other
      accessor. */
  function AnyPropertyAccessor(acc: PropertyAccessors): (r: Option<nat>)
    ensures acc.getter.Some? ==> r == acc.getter
    ensures acc.getter.None? && acc.setter.Some? ==> r == acc.setter
    ensures acc.getter.None? && acc.setter.None? ==> (r.Some? <==> |acc.others| > 0)
    ensures acc.getter.None? && acc.setter.None? && |acc.others| > 0 ==> r == Some(acc.others[0])
  {
    if acc.getter.Some? then acc.getter
    else if acc.setter.Some? then acc.setter
    else if |acc.others| > 0 then Some(acc.others[0])
    else None
  }

  /** The preferred accessor exists exactly when the property has accessor
      entries at all, and it is the method of one of them. */
  lemma AnyPropertyAccessorIsAnEntry(entries: seq<AccessorEntry>)
    requires PropertyAccessorsOf(entries).Success?
    ensures AnyPropertyAccessor(PropertyAccessorsOf(entries).value).None? <==> |entries| == 0
    ensures AnyPropertyAccessor(PropertyAccessorsOf(entries).value).Some? ==>
      exists i :: 0 <= i < |entries| && entries[i].methodRow == AnyPropertyAccessor(PropertyAccessorsOf(entries).value).value
  {
    var acc := PropertyAccessorsOf(entries).value;
    if |entries| > 0 {
      assert IsPropertySemantics(entries[0].semantics);
      if acc.getter.None? && acc.setter.None? {
        assert entries[0].semantics == OTHER;
        assert entries[0].methodRow in acc.others;
      }
    }
  }

  /** The properties a property reports from its accessor. */
  datatype PropertyTraits = PropertyTraits(
    visibility: Visibility,
    isStatic: bool,
    isVirtual: bool,
    isAbstract: bool,
    isFinal: bool)

  /** `visibility`, `isStatic`, `isVirtual`, `isAbstract` and `isFinal` as the
      source writes them: `isVirtual` reads the accessor's abstract flag and
      `isAbstract` its virtual flag. */
  function PropertyTraitsAsWritten(acc: PropertyAccessors, flags: nat -> MethodFlags): (r: PropertyTraits)
    ensures AnyPropertyAccessor(acc).None? ==> r == PropertyTraits(Public, false, false, false, false)
    ensures AnyPropertyAccessor(acc).Some? ==>
      var f := flags(AnyPropertyAccessor(acc).value);
      r.visibility == f.visibility && r.isStatic == f.isStatic && r.isFinal == f.isFinal
      && r.isVirtual == f.isAbstract && r.isAbstract == f.isVirtual
  {
    match AnyPropertyAccessor(acc)
    case None => PropertyTraits(Public, false, false, false, false)
    case Some(m) =>
      var f := flags(m);
      PropertyTraits(f.visibility, f.isStatic, f.isAbstract, f.isVirtual, f.isFinal)
  }

  /** The same derivation with each flag read from its own namesake, which
      the model uses. */
  function PropertyTraitsOf(acc: PropertyAccessors, flags: nat -> MethodFlags): (r: PropertyTraits)
    ensures AnyPropertyAccessor(acc).None? ==> r == PropertyTraits(Public, false, false, false, false)
    ensures AnyPropertyAccessor(acc).Some? ==>
      var f := flags(AnyPropertyAccessor(acc).value);
      r == PropertyTraits(f.visibility, f.isStatic, f.isVirtual, f.isAbstract, f.isFinal)
  {
    match AnyPropertyAccessor(acc)
    case None => PropertyTraits(Public, false, false, false, false)
    case Some(m) =>
      var f := flags(m);
      PropertyTraits(f.visibility, f.isStatic, f.isVirtual, f.isAbstract, f.isFinal)
  }

  /** With well-formed method flags, an abstract property is virtual. */
  lemma AbstractPropertyIsVirtual(acc: PropertyAccessors, flags: nat -> MethodFlags)
    requires forall m :: WfMethodFlags(flags(m))
    ensures PropertyTraitsOf(acc, flags).isAbstract ==> PropertyTraitsOf(acc, flags).isVirtual
  {
    var any := AnyPropertyAccessor(acc);
    if any.Some? {
      assert WfMethodFlags(flags(any.value));
    }
  }

  /** The property whose getter is virtual but not abstract, the usual case
      of an overridable property. */
  const VirtualGetter: PropertyAccessors := PropertyAccessors(Some(0), None, [])

  function VirtualFlags(m: nat): MethodFlags {
    MethodFlags(Public, false, true, false, false)
  }

  /** As written, that property reports itself abstract but not virtual,
      against section II.22.26 of ECMA-335, while its accessor is virtual
      and not abstract. */
  lemma PropertyVirtualAbstractSwapped()
    ensures WfMethodFlags(VirtualFlags(0))
    ensures PropertyTraitsAsWritten(VirtualGetter, VirtualFlags).isAbstract
    ensures !PropertyTraitsAsWritten(VirtualGetter, VirtualFlags).isVirtual
    ensures PropertyTraitsOf(VirtualGetter, VirtualFlags).isVirtual
    ensures !PropertyTraitsOf(VirtualGetter, VirtualFlags).isAbstract
  {
  }
}
