/** `ApexPrimative`: the strict primitive type nodes the factory produces.
    The Java constructor is private and only the six static constants exist,
    so the model is a closed enumeration. */
module Primatives {
  import opened Util

  datatype ApexPrimative = STRING | INT | DOUBLE | OBJECT | BOOLEAN | LONG

  /** All six constants, in declaration order. */
  const ALL: seq<ApexPrimative> := [STRING, INT, DOUBLE, OBJECT, BOOLEAN, LONG]

  /** The type name each constant is built with; `toString` returns it. */
  function TypeName(p: ApexPrimative): string {
    match p
    case STRING => "String"
    case INT => "Integer"
    case DOUBLE => "Double"
    case OBJECT => "Object"
    case BOOLEAN => "Boolean"
    case LONG => "Long"
  }

  /** `hashCode`: `31 * 1 + type.hashCode()` in Java `int` arithmetic. */
  function HashCode(p: ApexPrimative): (h: int)
    ensures IsInt32(h)
    ensures forall q: ApexPrimative :: TypeName(q) == TypeName(p) ==> HashCode(q) == h
  {
    Wrap32(31 * 1 + StringHash(TypeName(p)))
  }

  /** The enumeration lists every constant exactly once, and no two
      constants share a name: name equality is identity. */
  lemma ConstantsAreSixDistinctNames()
    ensures |ALL| == 6
    ensures forall p: ApexPrimative :: p in ALL
    ensures forall i, j :: 0 <= i < j < |ALL| ==> TypeName(ALL[i]) != TypeName(ALL[j])
    ensures forall p, q: ApexPrimative :: TypeName(p) == TypeName(q) <==> p == q
  {
    forall p: ApexPrimative ensures p in ALL {
      match p
      case STRING => assert p == ALL[0];
      case INT => assert p == ALL[1];
      case DOUBLE => assert p == ALL[2];
      case OBJECT => assert p == ALL[3];
      case BOOLEAN => assert p == ALL[4];
      case LONG => assert p == ALL[5];
    }
  }
}
