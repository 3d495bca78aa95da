/** `ApexPrimitive`: the later primitive type nodes, each with a parser
    expression template. Like `ApexPrimative` the constructor is private, so
    the constants form a closed enumeration. Their equality (a wildcard
    `Object`) needs the whole type hierarchy and lives in `ApexTypes`. */
module Primitives {
  import opened Util

  datatype ApexPrimitive = STRING | INT | DOUBLE | BOOLEAN | LONG | OBJECT

  /** The placeholder every template mentions for the parser variable. */
  const PLACEHOLDER: string := "{p}"

  function TypeName(q: ApexPrimitive): string {
    match q
    case STRING => "String"
    case INT => "Integer"
    case DOUBLE => "Double"
    case BOOLEAN => "Boolean"
    case LONG => "Long"
    case OBJECT => "Object"
  }

  /** What follows the placeholder in each constant's template. */
  function ParserCall(q: ApexPrimitive): string {
    match q
    case STRING => ".getText()"
    case INT => ".getIntegerValue()"
    case DOUBLE => ".getDoubleValue()"
    case BOOLEAN => ".getBooleanValue()"
    case LONG => ".getLongValue()"
    case OBJECT => ".readValueAs(Object.class)"
  }

  /** The `parserMethod` template the constant is constructed with. */
  function ParserMethod(q: ApexPrimitive): string {
    PLACEHOLDER + ParserCall(q)
  }

  /** `getParserExpr`: every `{p}` of the template replaced by the parser name. */
  function GetParserExpr(q: ApexPrimitive, parserName: string): (r: string)
    ensures r == parserName + ParserCall(q)
  {
    CallHasNoBrace(q);
    ReplaceAllLeading(PLACEHOLDER, ParserCall(q), parserName);
    ReplaceAllAbsent(ParserCall(q), PLACEHOLDER, parserName);
    ReplaceAll(ParserMethod(q), PLACEHOLDER, parserName)
  }

  /** No call text contains `{`, so no placeholder can start inside it. */
  lemma CallHasNoBrace(q: ApexPrimitive)
    ensures '{' !in ParserCall(q)
  {
    match q
    case STRING =>
    case INT =>
    case DOUBLE =>
    case BOOLEAN =>
    case LONG =>
    case OBJECT =>
  }

  /** `additionalMethods`: primitives need no helper methods. */
  function AdditionalMethods(q: ApexPrimitive): string {
    ""
  }

  /** `hashCode`: `Objects.hash(type, parserMethod)`, in Java `int` arithmetic. */
  function HashCode(q: ApexPrimitive): (h: int)
    ensures IsInt32(h)
  {
    Wrap32(31 * Wrap32(31 * 1 + StringHash(TypeName(q))) + StringHash(ParserMethod(q)))
  }

  /** Two examples of the rendered parser expression. */
  lemma ParserExprExamples(p: string)
    ensures GetParserExpr(STRING, p) == p + ".getText()"
    ensures GetParserExpr(LONG, p) == p + ".getLongValue()"
    ensures AdditionalMethods(STRING) == ""
  {
  }

  lemma TypeNamesDistinct()
    ensures forall a, b: ApexPrimitive :: TypeName(a) == TypeName(b) <==> a == b
  {
  }
}
