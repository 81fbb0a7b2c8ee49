/**
  The reflection data the injector consults, as explicit values: every type is described by
  its base type, the interfaces `GetInterfaces()` reports (in that order), and the instance
  fields and properties it declares itself (`BindingFlags.DeclaredOnly`), in declaration order.
  A member carries the `InjectSharedObjectAttribute` that `Attribute.GetCustomAttribute`
  would return for it, if any.
*/
module Reflection {
  import opened Wrappers
  import opened Attribute

  /** A type is identified by its full name. */
  type TypeName = string

  /** `typeof(object)`, where the hierarchy walk stops. */
  const OBJECT: TypeName := "System.Object"

  datatype FieldInfo = FieldInfo(name: string, fieldType: TypeName, inject: Option<InjectAttr>)

  /** `hasSetter` is `SetMethod != null`: the property has a set accessor of any visibility. */
  datatype PropertyInfo = PropertyInfo(name: string, propertyType: TypeName, hasSetter: bool, inject: Option<InjectAttr>)

  datatype Member = FieldMember(field: FieldInfo) | PropertyMember(property: PropertyInfo)
  {
    function Name(): string {
      match this
      case FieldMember(f) => f.name
      case PropertyMember(p) => p.name
    }

    /** `FieldType` or `PropertyType`: the member's own declared type. */
    function DeclaredType(): TypeName {
      match this
      case FieldMember(f) => f.fieldType
      case PropertyMember(p) => p.propertyType
    }

    function Inject(): Option<InjectAttr> {
      match this
      case FieldMember(f) => f.inject
      case PropertyMember(p) => p.inject
    }
  }

  /** `base` is `None` where `BaseType` is null (interfaces and `object` itself). */
  datatype TypeInfo = TypeInfo(
    base: Option<TypeName>,
    interfaces: seq<TypeName>,
    fields: seq<FieldInfo>,
    properties: seq<PropertyInfo>)

  type TypeGraph = map<TypeName, TypeInfo>

  /** A type the graph can describe; `object` need not be described, the walk never looks inside it. */
  predicate Known(g: TypeGraph, t: TypeName) {
    t == OBJECT || t in g
  }

  predicate KnownOpt(g: TypeGraph, ot: Option<TypeName>) {
    ot.Some? ==> Known(g, ot.value)
  }

  predicate AllKnown(g: TypeGraph, types: seq<TypeName>) {
    forall i | 0 <= i < |types| :: Known(g, types[i])
  }

  /** Every base type and interface the graph mentions is itself described, as reflection guarantees. */
  predicate WellFormed(g: TypeGraph) {
    forall t | t in g :: KnownOpt(g, g[t].base) && AllKnown(g, g[t].interfaces)
  }

  /** The name the C# compiler gives the hidden field behind an auto-property. */
  function BackingFieldName(propertyName: string): (r: string)
    ensures |r| == |propertyName| + 17
    ensures r[0] == '<' && r[1..|propertyName| + 1] == propertyName
    ensures r[|propertyName| + 1..] == ">k__BackingField"
  {
    "<" + propertyName + ">k__BackingField"
  }

  /** Different properties have different backing fields, so two read-only properties never share one. */
  lemma BackingFieldNameInjective(a: string, b: string)
    requires BackingFieldName(a) == BackingFieldName(b)
    ensures a == b
  {
    var r := BackingFieldName(a);
    assert r[1..|a| + 1] == a && r[1..|b| + 1] == b;
  }

  /**
    `Type.Name` of a type whose full name is `fullName`: what follows the last namespace dot or
    nested-type `+`, that is, the longest suffix holding neither.
  */
  function SimpleName(fullName: string): (r: string)
    ensures |r| <= |fullName| && r == fullName[|fullName| - |r|..]
    ensures forall i | 0 <= i < |r| :: r[i] != '.' && r[i] != '+'
    ensures |r| < |fullName| ==> fullName[|fullName| - |r| - 1] == '.' || fullName[|fullName| - |r| - 1] == '+'
  {
    if fullName == [] then []
    else
      var last := fullName[|fullName| - 1];
      if last == '.' || last == '+' then [] else SimpleName(fullName[..|fullName| - 1]) + [last]
  }

  /** A type nested in another is reported by its own name alone. */
  lemma SimpleNameOfNestedType()
    ensures SimpleName("Ui+Hud") == "Hud"
  {
    assert "Ui+Hud"[..5] == "Ui+Hu" && "Ui+Hu"[..4] == "Ui+H" && "Ui+H"[..3] == "Ui+";
    assert SimpleName("Ui+") == [];
  }

  /** `type.GetField(name, NonPublic | Instance) != null` for a compiler-generated (private) field. */
  predicate DeclaresField(info: TypeInfo, name: string) {
    exists i :: 0 <= i < |info.fields| && info.fields[i].name == name
  }
}
