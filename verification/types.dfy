/** The type description the ABI logic consumes from the debugger's type
    system: a closed variant over the categories it distinguishes, with the
    size, signedness, Swift and register-passing attributes it queries, and
    the fields of aggregates with their bit offsets. */
module Types {
  import opened Base

  /** The category of a type. `Int` is a builtin integer (bool and the
      character types included), `Enum` a C enumeration; `SwiftEnum` is a
      Swift enumeration, whose cases are its children; `Record` is a struct,
      union or class with its fields. */
  datatype Kind =
    | Int(signed: bool)
    | Enum(signed: bool)
    | Ptr
    | Ref
    | Float(complex: bool)
    | Vector
    | Record(fields: seq<Field>)
    | SwiftEnum(cases: seq<Field>)
    | Other

  /** A field of an aggregate: its offset in bits from the start of the
      aggregate, and its type. */
  datatype Field = Field(bitOffset: nat, ty: CType)

  /** A type: its size in bytes (absent when the type system cannot tell),
      its category, whether it comes from Swift, and the type system's
      answer to "can this aggregate be passed in registers". */
  datatype CType = CType(byteSize: Option<nat>, kind: Kind, swift: bool, regPassable: bool)

  /** The children the type system enumerates. */
  function Children(t: CType): seq<Field>
  {
    match t.kind
    case Record(fs) => fs
    case SwiftEnum(cs) => cs
    case _ => []
  }

  /** The type-information flag "is integer": builtin integers only. */
  predicate IsInteger(t: CType) { t.kind.Int? }

  predicate IsIntegerOrEnumeration(t: CType) { t.kind.Int? || t.kind.Enum? }

  predicate IsPointer(t: CType) { t.kind.Ptr? }

  predicate IsFloatingPoint(t: CType) { t.kind.Float? }

  predicate HasChildren(t: CType) { t.kind.Record? || t.kind.SwiftEnum? }

  /** Records and vectors are aggregates; a vector has no fields. */
  predicate IsAggregate(t: CType) { t.kind.Record? || t.kind.Vector? }

  /** A primitive the flattening keeps as a leaf. */
  predicate IsLeafType(t: CType)
  {
    IsIntegerOrEnumeration(t) || IsPointer(t) || IsFloatingPoint(t)
  }

  /** Every type in the tree, this one included, has a known non-zero size. */
  predicate SizedTree(t: CType)
    decreases t, 1
  {
    t.byteSize.Some? && t.byteSize.value > 0 && SizedChildren(t, 0)
  }

  predicate SizedChildren(t: CType, i: nat)
    requires i <= |Children(t)|
    decreases t, 0, |Children(t)| - i
  {
    i == |Children(t)| || (SizedTree(Children(t)[i].ty) && SizedChildren(t, i + 1))
  }

  lemma SizedChildAt(t: CType, i: nat, k: nat)
    requires i <= k < |Children(t)|
    requires SizedChildren(t, i)
    ensures SizedTree(Children(t)[k].ty)
    decreases k - i
  {
    if i < k {
      SizedChildAt(t, i + 1, k);
    }
  }
}
