/**
 * A snapshot of the reflection metadata the locator reads: fields of the
 * starting type, the declared type of each field and that type's methods.
 * Type identities are plain values compared by equality, as System.Type
 * objects are compared by reference in the runtime.
 */
module Metadata {
  import opened Results
  import Linq

  /** A runtime type identity: a named type, or the by-reference type `T&` of one. */
  datatype TypeId = Named(fullName: string) | ByRef(element: TypeId)

  const StringType := Named("System.String")
  const BoolType := Named("System.Boolean")
  const Int32Type := Named("System.Int32")
  const ActionOfBoolType := Named("System.Action`1[System.Boolean]")

  /** The states of System.Diagnostics.DebuggerBrowsableState. */
  datatype BrowsableState = Never | Collapsed | RootHidden

  /** The member-access levels of the runtime's field attributes. */
  datatype Access = Private | FamilyAndAssembly | Assembly | Family | FamilyOrAssembly | Public

  /** A method as the runtime reports it: name, binding flags, return and parameter types. */
  datatype MethodDesc = MethodDesc(
    name: string,
    isPublic: bool,
    isStatic: bool,
    returnType: TypeId,
    paramTypes: seq<TypeId>)

  /** A declared type: its simple name, whether it is a class, and every method it exposes (inherited ones included). */
  datatype TypeDesc = TypeDesc(name: string, isClass: bool, methods: seq<MethodDesc>)

  /**
   * A field: name, access, static and init-only flags, the state of its
   * DebuggerBrowsable attribute (None when the attribute is absent) and its declared type.
   */
  datatype FieldDesc = FieldDesc(
    name: string,
    access: Access,
    isStatic: bool,
    isInitOnly: bool,
    browsable: Option<BrowsableState>,
    fieldType: TypeDesc)

  /**
   * char.IsControl on one UTF-16 code unit: the Unicode category Cc,
   * that is U+0000..U+001F and U+007F..U+009F.
   */
  predicate IsControl(c: char)
    ensures c as int < 0x80 ==> (IsControl(c) <==> !(' ' <= c <= '~'))
    ensures IsControl(c) ==> c as int < 0xA0
  {
    c as int <= 0x1F || (0x7F <= c as int <= 0x9F)
  }

  /** `name.All(c => char.IsControl(c))`: every character is a control character (vacuously so for ""). */
  predicate AllControl(name: string)
    ensures AllControl(name) <==> forall i :: 0 <= i < |name| ==> IsControl(name[i])
    ensures name == "" ==> AllControl(name)
  {
    Linq.All(name, IsControl)
  }
}
