/** `ApexClass`: construction with a capitalised name, `toString`,
    `getMembers`, and `membersEqual` (Java's `Map.equals` on the member
    maps), together with the `LinkedHashMap` operations the factory uses. */
module Classes {
  import opened Util
  import opened ApexTypes
  import Primatives

  // ---------------------------------------------------------------------
  // Member maps (LinkedHashMap<String, ApexType>)
  // ---------------------------------------------------------------------

  /** The keys of an ordered map (a member map, or a decoded JSON object's
      entries) in insertion order. */
  function Keys<V>(m: seq<(string, V)>): (ks: seq<string>)
    ensures |ks| == |m|
    ensures forall i :: 0 <= i < |m| ==> ks[i] == m[i].0
  {
    seq(|m|, i requires 0 <= i < |m| => m[i].0)
  }

  function KeySet(m: MemberMap): set<string> {
    set i | 0 <= i < |m| :: m[i].0
  }

  predicate HasKey(m: MemberMap, k: string) {
    k in Keys(m)
  }

  /** Map keys are unique; every map the model builds satisfies this. */
  predicate UniqueKeys(m: MemberMap) {
    forall i, j :: 0 <= i < j < |m| ==> m[i].0 != m[j].0
  }

  /** Every member type is strict (built without the wildcard primitive). */
  predicate StrictMembers(m: MemberMap) {
    forall i :: 0 <= i < |m| ==> Strict(m[i].1)
  }

  function IndexOf(m: MemberMap, k: string): (i: nat)
    requires HasKey(m, k)
    ensures i < |m| && m[i].0 == k
    ensures forall j :: 0 <= j < i ==> m[j].0 != k
  {
    if m[0].0 == k then 0 else 1 + IndexOf(m[1..], k)
  }

  /** `get(k)` for a present key. */
  function Get(m: MemberMap, k: string): Type
    requires HasKey(m, k)
  {
    m[IndexOf(m, k)].1
  }

  /** `LinkedHashMap.put`: a present key keeps its position and gets the new
      value; an absent key is appended. */
  function Put(m: MemberMap, k: string, t: Type): (r: MemberMap)
    ensures HasKey(r, k) && Get(r, k) == t
    ensures HasKey(m, k) ==> Keys(r) == Keys(m)
    ensures !HasKey(m, k) ==> Keys(r) == Keys(m) + [k]
    ensures forall i :: 0 <= i < |m| && m[i].0 != k ==> r[i] == m[i]
    ensures forall i :: 0 <= i < |r| ==> r[i] == (k, t) || (i < |m| && r[i] == m[i])
    ensures UniqueKeys(m) ==> UniqueKeys(r)
  {
    if HasKey(m, k) then
      var i := IndexOf(m, k);
      var r := m[i := (k, t)];
      assert Keys(r)[i] == k;
      assert IndexOf(r, k) == i;
      r
    else
      var r := m + [(k, t)];
      assert Keys(r)[|m|] == k;
      assert forall j :: 0 <= j < |m| ==> Keys(m)[j] != k;
      assert IndexOf(r, k) == |m|;
      r
  }

  lemma GetAt(m: MemberMap, i: nat)
    requires UniqueKeys(m) && i < |m|
    ensures HasKey(m, m[i].0) && Get(m, m[i].0) == m[i].1
  {
    assert Keys(m)[i] == m[i].0;
  }

  lemma {:induction false} KeySetSize(m: MemberMap)
    requires UniqueKeys(m)
    ensures |KeySet(m)| == |m|
    decreases |m|
  {
    if m != [] {
      var init := m[..|m| - 1];
      KeySetSize(init);
      assert KeySet(m) == KeySet(init) + {m[|m| - 1].0};
      assert m[|m| - 1].0 !in KeySet(init);
    }
  }

  lemma KeySetIsKeys(m: MemberMap)
    ensures forall k :: k in KeySet(m) <==> HasKey(m, k)
  {
    forall k | HasKey(m, k) ensures k in KeySet(m) {
      var i :| 0 <= i < |m| && Keys(m)[i] == k;
      assert m[i].0 == k;
    }
  }

  // ---------------------------------------------------------------------
  // ApexClass
  // ---------------------------------------------------------------------

  /** The constructor's name rule: a name longer than one character has its
      first character upper-cased; shorter names are kept as given. */
  function Capitalize(name: string): (r: string)
    ensures |r| == |name|
    ensures |name| > 1 ==> r[0] == ToUpper(name[0]) && r[1..] == name[1..]
    ensures |name| <= 1 ==> r == name
  {
    if |name| > 1 then [ToUpper(name[0])] + name[1..] else name
  }

  /** `new ApexClass(className, members)`. */
  function NewClass(className: string, members: MemberMap): ApexClass {
    ApexClass(Capitalize(className), members)
  }

  /** `getMembers`. */
  function GetMembers(c: ApexClass): MemberMap {
    c.members
  }

  /** What construction keeps: `toString` is the capitalised name and
      `getMembers` is the very map passed in, in its order. */
  lemma NewClassAccessors(className: string, members: MemberMap)
    ensures ToString(ClassType(NewClass(className, members))) == Capitalize(className)
    ensures GetMembers(NewClass(className, members)) == members
  {
  }

  /** Capitalising twice changes nothing. */
  lemma CapitalizeIdempotent(name: string)
    ensures Capitalize(Capitalize(name)) == Capitalize(name)
  {
  }

  /** Two raw names that differ only in the case of their first letter give
      classes with the same name, so they are equal whatever their members. */
  lemma ClassEqualityIgnoresMembers(n1: string, m1: MemberMap, n2: string, m2: MemberMap)
    ensures Equals(ClassType(NewClass(n1, m1)), ClassType(NewClass(n2, m2))) <==> Capitalize(n1) == Capitalize(n2)
    ensures Capitalize("foo") == Capitalize("Foo") == "Foo"
  {
  }

  // ---------------------------------------------------------------------
  // membersEqual
  // ---------------------------------------------------------------------

  /** `membersEqual(other)`, i.e. `members.equals(other)`: same size, and
      each of our entries has its key in `other` with a value our value
      `equals`. */
  predicate MembersEqual(mine: MemberMap, other: MemberMap) {
    |mine| == |other|
    && forall i :: 0 <= i < |mine| ==> HasKey(other, mine[i].0) && Equals(mine[i].1, Get(other, mine[i].0))
  }

  /** For maps with unique keys, `membersEqual` is equality of key sets
      together with equal values at every key; the order of entries plays
      no part. */
  lemma MembersEqualIff(a: MemberMap, b: MemberMap)
    requires UniqueKeys(a) && UniqueKeys(b)
    ensures MembersEqual(a, b)
        <==> KeySet(a) == KeySet(b)
             && forall k :: k in KeySet(a) ==> HasKey(a, k) && HasKey(b, k) && Equals(Get(a, k), Get(b, k))
  {
    KeySetSize(a);
    KeySetSize(b);
    KeySetIsKeys(a);
    KeySetIsKeys(b);
    if MembersEqual(a, b) {
      assert KeySet(a) <= KeySet(b) by {
        forall k | k in KeySet(a) ensures k in KeySet(b) {
          var i :| 0 <= i < |a| && a[i].0 == k;
        }
      }
      SubsetSize(KeySet(a), KeySet(b));
      forall k | k in KeySet(a) ensures Equals(Get(a, k), Get(b, k)) {
        var i :| 0 <= i < |a| && a[i].0 == k;
        GetAt(a, i);
      }
    }
    if KeySet(a) == KeySet(b) && forall k :: k in KeySet(a) ==> HasKey(a, k) && HasKey(b, k) && Equals(Get(a, k), Get(b, k)) {
      forall i | 0 <= i < |a| ensures HasKey(b, a[i].0) && Equals(a[i].1, Get(b, a[i].0)) {
        GetAt(a, i);
        assert a[i].0 in KeySet(a);
      }
    }
  }

  /** Entry order does not matter. */
  lemma MembersEqualExample()
    ensures var a := [("a", PrimativeType(Primatives.INT)), ("b", PrimativeType(Primatives.STRING))];
            var b := [("b", PrimativeType(Primatives.STRING)), ("a", PrimativeType(Primatives.INT))];
            MembersEqual(a, b) && !MembersEqual(a, a[..1])
  {
    var a := [("a", PrimativeType(Primatives.INT)), ("b", PrimativeType(Primatives.STRING))];
    var b := [("b", PrimativeType(Primatives.STRING)), ("a", PrimativeType(Primatives.INT))];
    assert Keys(b)[1] == "a" && Keys(b)[0] == "b";
  }

  lemma MembersEqualReflexive(a: MemberMap)
    requires UniqueKeys(a)
    ensures MembersEqual(a, a)
  {
    forall i | 0 <= i < |a| ensures HasKey(a, a[i].0) && Equals(a[i].1, Get(a, a[i].0)) {
      GetAt(a, i);
      EqualsReflexive(a[i].1);
    }
  }

  /** On maps with unique keys and strict values `membersEqual` is an
      equivalence relation. */
  lemma MembersEqualSymmetric(a: MemberMap, b: MemberMap)
    requires UniqueKeys(a) && UniqueKeys(b) && StrictMembers(a) && StrictMembers(b)
    requires MembersEqual(a, b)
    ensures MembersEqual(b, a)
  {
    MembersEqualIff(a, b);
    MembersEqualIff(b, a);
    forall k | k in KeySet(b) ensures Equals(Get(b, k), Get(a, k)) {
      var i := IndexOf(a, k);
      var j := IndexOf(b, k);
      EqualsSymmetric(Get(a, k), Get(b, k));
    }
  }

  lemma MembersEqualTransitive(a: MemberMap, b: MemberMap, c: MemberMap)
    requires UniqueKeys(a) && UniqueKeys(b) && UniqueKeys(c)
    requires StrictMembers(a) && StrictMembers(b) && StrictMembers(c)
    requires MembersEqual(a, b) && MembersEqual(b, c)
    ensures MembersEqual(a, c)
  {
    MembersEqualIff(a, b);
    MembersEqualIff(b, c);
    MembersEqualIff(a, c);
    forall k | k in KeySet(a) ensures Equals(Get(a, k), Get(c, k)) {
      var i := IndexOf(a, k);
      var j := IndexOf(b, k);
      var l := IndexOf(c, k);
      EqualsTransitive(Get(a, k), Get(b, k), Get(c, k));
    }
  }
}
