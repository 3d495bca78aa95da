/** `ApexMember`: a JSON field name paired with the Apex member name used
    for it, which differs when the JSON name clashes with a reserved word. */
module Members {
  import opened Util

  datatype ApexMember = ApexMember(jsonFieldName: string, apexMemberName: string)

  const COMMENT_PREFIX: string := "// in json: "

  /** `getMemberComment`: empty when the two names agree, otherwise a
      comment naming the JSON field. */
  function GetMemberComment(m: ApexMember): (r: string)
    ensures r == "" <==> m.jsonFieldName == m.apexMemberName
    ensures r != "" ==> r == COMMENT_PREFIX + m.jsonFieldName
  {
    if m.jsonFieldName == m.apexMemberName then "" else COMMENT_PREFIX + m.jsonFieldName
  }

  /** `toString`: the JSON field name. */
  function ToString(m: ApexMember): string {
    m.jsonFieldName
  }

  /** `equals`: both names must match. */
  predicate Equals(m: ApexMember, other: ApexMember) {
    other.jsonFieldName == m.jsonFieldName && other.apexMemberName == m.apexMemberName
  }

  /** `hashCode`: `Objects.hash(jsonFieldName, apexMemberName)` in Java
      `int` arithmetic. */
  function HashCode(m: ApexMember): (h: int)
    ensures IsInt32(h)
  {
    Wrap32(31 * Wrap32(31 * 1 + StringHash(m.jsonFieldName)) + StringHash(m.apexMemberName))
  }

  /** Member equality is value identity, so a JSON name rewritten two
      different ways gives two different members; equal members hash
      alike, and `toString` does not tell them apart. */
  lemma EqualsIsIdentity(a: ApexMember, b: ApexMember)
    ensures Equals(a, b) <==> a == b
    ensures Equals(a, b) ==> HashCode(a) == HashCode(b)
    ensures a.jsonFieldName == b.jsonFieldName && a.apexMemberName != b.apexMemberName
            ==> !Equals(a, b) && ToString(a) == ToString(b)
  {
  }
}
