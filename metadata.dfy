/** Type metadata the conversion transform consults: simple (JVM) type tags,
    type references and definitions, member references and the conversion
    classification. The catalogs that produce these values are collaborators;
    here they are plain values. */
module Metadata {

  /** The simple type tag of a type reference (`TypeReference.getSimpleType()`). */
  datatype JvmType =
    | Boolean | Byte | Character | Short | Integer | Long | Float | Double
    | Object | Array | TypeVariable | Wildcard | Void
  {
    /** The tags the rules treat as numeric: the eight primitive value types. */
    predicate IsNumeric() {
      match this
      case Boolean | Byte | Character | Short | Integer | Long | Float | Double => true
      case _ => false
    }

    /** Width in bits of a primitive value of this tag (0 for reference tags). */
    function BitWidth(): (w: nat)
      ensures IsNumeric() <==> w > 0
      ensures w < 32 && IsNumeric() <==> this in {Boolean, Byte, Character, Short}
    {
      match this
      case Boolean => 1
      case Byte => 8
      case Character | Short => 16
      case Integer | Float => 32
      case Long | Double => 64
      case _ => 0
    }
  }

  /** A resolved type reference. `Ref` stands for any class, array or primitive
      type known by its internal name; `UnboundedWildcard` is `?`. */
  datatype TypeRef =
    | Ref(internalName: string, simple: JvmType, typeArguments: seq<TypeRef>)
    | UnboundedWildcard
  {
    function SimpleType(): JvmType {
      if Ref? then simple else Wildcard
    }
  }

  /** `BuiltinTypes.Object`. */
  const ObjectType: TypeRef := Ref("java/lang/Object", JvmType.Object, [])

  /** What `TypeReference.resolve()` yields: the definition, sitting at
      `reference` among type references, with its generic parameters. */
  datatype TypeDefinition = TypeDefinition(
    reference: TypeRef,
    isGenericDefinition: bool,
    genericParameters: seq<TypeRef>)

  /** The `MEMBER_REFERENCE` annotation of a node: a field or method
      reference, its declaring type and whether its signature mentions
      generic parameters. */
  datatype MemberReference = MemberReference(
    name: string,
    declaringType: TypeRef,
    containsGenericParameters: bool)

  /** `MetadataHelper.getConversionType(target, source)`'s classification. */
  datatype ConversionType = NONE | IMPLICIT | EXPLICIT | EXPLICIT_TO_UNBOXED

  /** The type arguments the member-reference rule passes to
      `makeGenericType`: `count` unbounded wildcards. */
  function UnboundedWildcards(count: nat): (args: seq<TypeRef>)
    ensures |args| == count
    ensures forall i :: 0 <= i < count ==> args[i] == UnboundedWildcard
  {
    seq(count, _ => UnboundedWildcard)
  }

  /** The `for` loop of the member-reference rule: a fresh array of
      `count` entries, each set to `WildcardType.unbounded()`. */
  method FillUnboundedWildcards(count: nat) returns (typeArguments: array<TypeRef>)
    ensures typeArguments.Length == count
    ensures typeArguments[..] == UnboundedWildcards(count)
  {
    typeArguments := new TypeRef[count](_ => Ref("", Void, []));
    for i := 0 to typeArguments.Length
      invariant forall k :: 0 <= k < i ==> typeArguments[k] == UnboundedWildcard
    {
      typeArguments[i] := UnboundedWildcard;
    }
  }
}
