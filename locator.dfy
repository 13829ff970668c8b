/**
 * The member locator of GemboxLicensePatches.ApplyAll: find the hidden
 * entry-point fields of the starting type, expand each field's type into its
 * public instance methods, keep those with the known call signature, and
 * require exactly one of them with an all-control-character name.
 */
module Locator {
  import opened Results
  import opened Linq
  import opened Metadata

  /** The fields GetFields(BindingFlags.NonPublic | BindingFlags.Static) enumerates. */
  predicate InFieldScope(f: FieldDesc) {
    f.access != Public && f.isStatic
  }

  /**
   * The structural fingerprint of an entry-point field: private, init-only,
   * marked DebuggerBrowsable(Never), of a class type, and both its name and
   * its type's name made of control characters only.
   */
  predicate IsEntryPoint(f: FieldDesc) {
    && f.access == Private
    && f.isInitOnly
    && f.browsable == Some(Never)
    && f.fieldType.isClass
    && AllControl(f.name)
    && AllControl(f.fieldType.name)
  }

  /** Every condition a field of the starting type must meet to be an entry point. */
  predicate IsStaticEntryPoint(f: FieldDesc) {
    f.isStatic && IsEntryPoint(f)
  }

  /** The entry-point search over the starting type's fields. */
  function EntryPoints(fields: seq<FieldDesc>): (r: seq<FieldDesc>)
    ensures |r| <= |fields|
    ensures forall f :: f in r <==> f in fields && f.isStatic && IsEntryPoint(f)
  {
    Where(Where(fields, InFieldScope), IsEntryPoint)
  }

  /**
   * The entry points are exactly the fields meeting all the conditions, in
   * input order: the two-stage search is one order-preserving filter.
   */
  lemma EntryPointsInOrder(fields: seq<FieldDesc>)
    ensures EntryPoints(fields) == Where(fields, IsStaticEntryPoint)
    ensures forall a, b :: EntryPoints(a + b) == EntryPoints(a) + EntryPoints(b)
  {
    WhereConjunction(fields, InFieldScope, IsEntryPoint, IsStaticEntryPoint);
    forall a, b ensures EntryPoints(a + b) == EntryPoints(a) + EntryPoints(b) {
      WhereAppend(a, b, InFieldScope);
      WhereAppend(Where(a, InFieldScope), Where(b, InFieldScope), IsEntryPoint);
    }
  }

  /** The methods GetMethods(BindingFlags.Public | BindingFlags.Instance) enumerates. */
  predicate InMethodScope(m: MethodDesc) {
    m.isPublic && !m.isStatic
  }

  /** The return type matches and the parameter types equal the signature, position by position. */
  predicate HasSignature(m: MethodDesc, signature: seq<TypeId>, returnType: TypeId) {
    m.returnType == returnType && SequenceEqual(m.paramTypes, signature)
  }

  /** The SingleOrDefault condition: the method name is made of control characters only. */
  predicate HasControlName(m: MethodDesc) {
    AllControl(m.name)
  }

  /** Everything a method must satisfy to be selected. */
  predicate IsTarget(m: MethodDesc, signature: seq<TypeId>, returnType: TypeId) {
    InMethodScope(m) && HasSignature(m, signature, returnType) && HasControlName(m)
  }

  /** The signature-matching methods of one entry point's declared type. */
  function DeclaredMatches(f: FieldDesc, signature: seq<TypeId>, returnType: TypeId): seq<MethodDesc> {
    Where(Where(f.fieldType.methods, InMethodScope), m => HasSignature(m, signature, returnType))
  }

  /** The SelectMany over all entry points of their signature-matching methods. */
  function SignatureMatches(entryPoints: seq<FieldDesc>, signature: seq<TypeId>, returnType: TypeId): (r: seq<MethodDesc>)
    ensures forall m :: m in r ==>
      && InMethodScope(m)
      && m.returnType == returnType
      && |m.paramTypes| == |signature|
      && (forall i :: 0 <= i < |signature| ==> m.paramTypes[i] == signature[i])
    ensures forall m :: m in r <==>
      InMethodScope(m) && HasSignature(m, signature, returnType) &&
      exists f :: f in entryPoints && m in f.fieldType.methods
  {
    SelectMany(entryPoints, f => DeclaredMatches(f, signature, returnType))
  }

  /** The candidates SingleOrDefault chooses among. */
  function Finalists(fields: seq<FieldDesc>, signature: seq<TypeId>, returnType: TypeId): seq<MethodDesc> {
    Where(SignatureMatches(EntryPoints(fields), signature, returnType), HasControlName)
  }

  /** The two InvalidOperationExceptions the search can raise. */
  datatype LocatorError =
    | NotFound   // SingleOrDefault gave null and `?? throw` raised
    | Ambiguous  // SingleOrDefault itself raised on a second match

  /** The complete locator: entry points, signature search, then single-or-fail. */
  function Locate(fields: seq<FieldDesc>, signature: seq<TypeId>, returnType: TypeId): (r: Result<MethodDesc, LocatorError>)
    ensures r.Ok? ==>
      && IsTarget(r.value, signature, returnType)
      && r.value.returnType == returnType
      && r.value.paramTypes == signature
      && exists f :: f in EntryPoints(fields) && r.value in f.fieldType.methods
    ensures r.Ok? <==> |Finalists(fields, signature, returnType)| == 1
    ensures r.Ok? ==> Finalists(fields, signature, returnType) == [r.value]
    ensures r == Err(NotFound) <==> Finalists(fields, signature, returnType) == []
    ensures r == Err(Ambiguous) <==> |Finalists(fields, signature, returnType)| >= 2
  {
    match SingleOrDefault(SignatureMatches(EntryPoints(fields), signature, returnType), HasControlName)
    case Ok(Some(m)) =>
      assert m in Finalists(fields, signature, returnType);
      Ok(m)
    case Ok(None) => Err(NotFound)
    case Err(_) => Err(Ambiguous)
  }

  /** The parameter types of the license check: (string, string, Action<bool>, ref int, ref int, ref int). */
  const LicenseCheckSignature: seq<TypeId> :=
    [StringType, StringType, ActionOfBoolType, ByRef(Int32Type), ByRef(Int32Type), ByRef(Int32Type)]

  /** The search ApplyAll performs: the fixed signature, returning bool. */
  function LocateLicenseCheck(fields: seq<FieldDesc>): (r: Result<MethodDesc, LocatorError>)
    ensures r.Ok? ==> r.value.returnType == BoolType && r.value.paramTypes == LicenseCheckSignature
    ensures r.Ok? ==> AllControl(r.value.name)
  {
    Locate(fields, LicenseCheckSignature, BoolType)
  }

  /** With no entry point there is nothing to search, and the search reports NotFound. */
  lemma NoEntryPointsNotFound(fields: seq<FieldDesc>, signature: seq<TypeId>, returnType: TypeId)
    requires forall i :: 0 <= i < |fields| ==> !IsStaticEntryPoint(fields[i])
    ensures EntryPoints(fields) == []
    ensures Locate(fields, signature, returnType) == Err(NotFound)
  {
    EntryPointsInOrder(fields);
    WhereEmptyIffNoneMatch(fields, IsStaticEntryPoint);
  }

  /** One entry point whose type has exactly one selectable method: that method is found. */
  lemma UniqueMatchFound(fields: seq<FieldDesc>, signature: seq<TypeId>, returnType: TypeId, f: FieldDesc, m: MethodDesc)
    requires EntryPoints(fields) == [f]
    requires Where(f.fieldType.methods, x => IsTarget(x, signature, returnType)) == [m]
    ensures Locate(fields, signature, returnType) == Ok(m)
  {
    var hasSig := x => HasSignature(x, signature, returnType);
    var both := x => InMethodScope(x) && HasSignature(x, signature, returnType);
    var target := x => IsTarget(x, signature, returnType);
    var methods := f.fieldType.methods;
    var declared := Where(Where(methods, InMethodScope), hasSig);
    assert SignatureMatches([f], signature, returnType) == declared by {
      assert SelectMany([f], g => DeclaredMatches(g, signature, returnType)) == DeclaredMatches(f, signature, returnType) + [];
    }
    WhereConjunction(methods, InMethodScope, hasSig, both);
    WhereConjunction(methods, both, HasControlName, target);
    assert Where(declared, HasControlName) == Where(methods, target);
  }

  /**
   * Two entry points that share a declared type contribute its methods twice,
   * so a selectable method there makes the search ambiguous.
   */
  lemma SharedFieldTypeAmbiguous(fields: seq<FieldDesc>, signature: seq<TypeId>, returnType: TypeId, i: nat, j: nat, m: MethodDesc)
    requires i < j < |EntryPoints(fields)|
    requires EntryPoints(fields)[i].fieldType == EntryPoints(fields)[j].fieldType
    requires m in EntryPoints(fields)[i].fieldType.methods
    requires IsTarget(m, signature, returnType)
    ensures Locate(fields, signature, returnType) == Err(Ambiguous)
  {
    var eps := EntryPoints(fields);
    var g := f => DeclaredMatches(f, signature, returnType);
    assert m in Where(eps[i].fieldType.methods, InMethodScope);
    assert m in g(eps[i]) && m in g(eps[j]);
    SelectManyRepeats(eps, g, HasControlName, i, j, m);
  }
}
