/** The type-node hierarchy under `ApexType`: one variant per Java class
    (`ApexPrimative`, `ApexPrimitive`, `ApexList`, `ApexClass`), each class's
    own `equals` as a separately named predicate, and `toString`.

    `equals` is written from the receiver's side: `Equals(a, obj)` is
    `a.equals(obj)`. It is not Dafny's `==` and it is not symmetric in
    general, because `ApexPrimitive.OBJECT` equals everything. */
module ApexTypes {
  import opened Util
  import Primatives
  import Primitives

  datatype Type =
    | PrimativeType(primative: Primatives.ApexPrimative)
    | PrimitiveType(primitive: Primitives.ApexPrimitive)
    | ListType(itemType: Type)
    | ClassType(cls: ApexClass)

  /** A class: its (already capitalised) name and its members in insertion
      order, keyed by JSON field name. */
  datatype ApexClass = ApexClass(className: string, members: MemberMap)

  /** A `LinkedHashMap<String, ApexType>` as its sequence of entries. */
  type MemberMap = seq<(string, Type)>

  // ---------------------------------------------------------------------
  // equals, per Java class
  // ---------------------------------------------------------------------

  /** `a.equals(obj)`, dispatched on the receiver's class. */
  function Equals(a: Type, obj: Type): bool
    decreases a, 1
  {
    match a
    case PrimativeType(p) => PrimativeEquals(p, obj)
    case PrimitiveType(q) => PrimitiveEquals(q, obj)
    case ListType(item) => ListEquals(item, obj)
    case ClassType(c) => ClassEquals(c, obj)
  }

  /** `ApexPrimative.equals`: same class and same type name. */
  predicate PrimativeEquals(p: Primatives.ApexPrimative, obj: Type) {
    obj.PrimativeType? && Primatives.TypeName(p) == Primatives.TypeName(obj.primative)
  }

  /** `ApexPrimitive.equals`: an `Object` receiver equals anything; otherwise
      the argument must be an `ApexPrimitive` that is `Object` or has the
      same type name. */
  predicate PrimitiveEquals(q: Primitives.ApexPrimitive, obj: Type) {
    if Primitives.TypeName(q) == "Object" then true
    else obj.PrimitiveType?
         && (Primitives.TypeName(obj.primitive) == "Object"
             || Primitives.TypeName(q) == Primitives.TypeName(obj.primitive))
  }

  /** `ApexList.equals` for a list with item type `item`: same class and
      equal item types (receiver's item type on the left). */
  predicate ListEquals(item: Type, obj: Type)
    decreases item, 2
  {
    obj.ListType? && Equals(item, obj.itemType)
  }

  /** `ApexClass.equals`: same class and same class name; members are not
      compared. */
  predicate ClassEquals(c: ApexClass, obj: Type) {
    obj.ClassType? && c.className == obj.cls.className
  }

  // ---------------------------------------------------------------------
  // toString
  // ---------------------------------------------------------------------

  function ToString(t: Type): string {
    match t
    case PrimativeType(p) => Primatives.TypeName(p)
    case PrimitiveType(q) => Primitives.TypeName(q)
    case ListType(item) => "List<" + ToString(item) + ">"
    case ClassType(c) => c.className
  }

  /** `ApexList.itemType()`: the item type's name; it is the list's own
      name with the `List<` and `>` around it removed. */
  function ItemTypeName(list: Type): (r: string)
    requires list.ListType?
    ensures |ToString(list)| == |r| + 6
    ensures r == ToString(list)[5..|ToString(list)| - 1]
  {
    var s := ToString(list);
    assert s == "List<" + ToString(list.itemType) + ">";
    assert s[5..|s| - 1] == ToString(list.itemType);
    ToString(list.itemType)
  }

  // ---------------------------------------------------------------------
  // ApexPrimitive.canBePromotedTo
  // ---------------------------------------------------------------------

  /** `a.canBePromotedTo(b)`: `a.equals(INT) && b.equals(LONG)`. */
  predicate CanBePromotedTo(a: Primitives.ApexPrimitive, b: Primitives.ApexPrimitive) {
    PrimitiveEquals(a, PrimitiveType(Primitives.INT)) && PrimitiveEquals(b, PrimitiveType(Primitives.LONG))
  }

  /** Promotion holds exactly from Integer to Long, except that the
      wildcard `OBJECT` satisfies either side. */
  lemma CanBePromotedToIff(a: Primitives.ApexPrimitive, b: Primitives.ApexPrimitive)
    ensures CanBePromotedTo(a, b)
        <==> (a == Primitives.INT || a == Primitives.OBJECT) && (b == Primitives.LONG || b == Primitives.OBJECT)
  {
    Primitives.TypeNamesDistinct();
  }

  lemma PromotionIsOneWay()
    ensures CanBePromotedTo(Primitives.INT, Primitives.LONG)
    ensures !CanBePromotedTo(Primitives.LONG, Primitives.INT)
    ensures CanBePromotedTo(Primitives.OBJECT, Primitives.OBJECT)
  {
  }

  // ---------------------------------------------------------------------
  // Strict types: the ones built without the wildcard ApexPrimitive
  // ---------------------------------------------------------------------

  /** A type that mentions no `ApexPrimitive` at any list depth; every type
      the factory builds is strict. */
  predicate Strict(t: Type) {
    match t
    case PrimativeType(_) => true
    case PrimitiveType(_) => false
    case ListType(item) => Strict(item)
    case ClassType(_) => true
  }

  // ---------------------------------------------------------------------
  // Properties of equals
  // ---------------------------------------------------------------------

  /** Every type equals itself (the `this == obj` short-cut of each class
      agrees with the field comparison). */
  lemma {:induction false} EqualsReflexive(a: Type)
    ensures Equals(a, a)
  {
    if a.ListType? {
      EqualsReflexive(a.itemType);
    }
  }

  /** On strict types `equals` is symmetric ... */
  lemma {:induction false} EqualsSymmetric(a: Type, b: Type)
    requires Strict(a) && Strict(b)
    ensures Equals(a, b) ==> Equals(b, a)
  {
    if Equals(a, b) {
      match a
      case PrimativeType(p) =>
        assert PrimativeEquals(p, b);
        assert PrimativeEquals(b.primative, a);
      case ListType(item) =>
        assert ListEquals(item, b);
        EqualsSymmetric(item, b.itemType);
        assert ListEquals(b.itemType, a);
      case ClassType(c) =>
        assert ClassEquals(c, b);
        assert ClassEquals(b.cls, a);
    }
  }

  /** ... and transitive, so it is an equivalence relation there. */
  lemma {:induction false} EqualsTransitive(a: Type, b: Type, c: Type)
    requires Strict(a) && Strict(b) && Strict(c)
    ensures Equals(a, b) && Equals(b, c) ==> Equals(a, c)
  {
    if Equals(a, b) && Equals(b, c) {
      match a
      case PrimativeType(p) =>
        assert PrimativeEquals(p, b) && PrimativeEquals(b.primative, c);
      case ListType(item) =>
        assert ListEquals(item, b) && ListEquals(b.itemType, c);
        EqualsTransitive(item, b.itemType, c.itemType);
        assert ListEquals(item, c);
      case ClassType(cl) =>
        assert ClassEquals(cl, b) && ClassEquals(b.cls, c);
    }
  }

  /** A strict type equals only strict types. */
  lemma {:induction false} EqualsKeepsStrict(a: Type, b: Type)
    requires Strict(a) && Equals(a, b)
    ensures Strict(b)
  {
    if a.ListType? {
      EqualsKeepsStrict(a.itemType, b.itemType);
    }
  }

  /** Equal strict types print the same name. */
  lemma {:induction false} EqualsPrintsSame(a: Type, b: Type)
    requires Strict(a) && Equals(a, b)
    ensures ToString(a) == ToString(b)
  {
    if a.ListType? {
      EqualsPrintsSame(a.itemType, b.itemType);
    }
  }

  /** The converse fails: a class whose name is `String` prints like the
      primitive but is not equal to it. */
  lemma PrintsSameButUnequal()
    ensures var c := ClassType(ApexClass("String", []));
            ToString(c) == ToString(PrimativeType(Primatives.STRING))
            && !Equals(c, PrimativeType(Primatives.STRING))
            && !Equals(PrimativeType(Primatives.STRING), c)
  {
  }

  /** `ApexPrimative.equals` is identity: the six constants are pairwise
      unequal, and `Object` is no wildcard there. */
  lemma PrimativeEqualsIsIdentity(p: Primatives.ApexPrimative, obj: Type)
    ensures Equals(PrimativeType(p), obj) <==> obj == PrimativeType(p)
  {
    Primatives.ConstantsAreSixDistinctNames();
  }

  /** A type built from `ApexPrimative` constants and lists alone. */
  predicate Plain(t: Type) {
    match t
    case PrimativeType(_) => true
    case ListType(item) => Plain(item)
    case _ => false
  }

  /** On such types `equals` is structural identity: `ApexList.equals`
      compares item types all the way down, and a list never equals a
      non-list. */
  lemma {:induction false} EqualsIsIdentityOnPlain(a: Type, b: Type)
    requires Plain(a)
    ensures Equals(a, b) <==> a == b
  {
    match a
    case PrimativeType(p) =>
      PrimativeEqualsIsIdentity(p, b);
    case ListType(item) =>
      if b.ListType? {
        EqualsIsIdentityOnPlain(item, b.itemType);
      }
  }

  /** `ApexPrimitive.OBJECT` equals every type, of any class. */
  lemma WildcardEqualsEverything(obj: Type)
    ensures Equals(PrimitiveType(Primitives.OBJECT), obj)
  {
  }

  /** A non-Object `ApexPrimitive` equals exactly itself and `OBJECT`; in
      particular it never equals a list, a class or an `ApexPrimative`. */
  lemma PrimitiveEqualsIff(q: Primitives.ApexPrimitive, obj: Type)
    requires q != Primitives.OBJECT
    ensures Equals(PrimitiveType(q), obj)
        <==> obj == PrimitiveType(q) || obj == PrimitiveType(Primitives.OBJECT)
  {
    Primitives.TypeNamesDistinct();
  }

  /** The wildcard makes `equals` asymmetric. */
  lemma WildcardIsAsymmetric(item: Type)
    ensures Equals(PrimitiveType(Primitives.OBJECT), ListType(item))
    ensures !Equals(ListType(item), PrimitiveType(Primitives.OBJECT))
    ensures !Equals(PrimitiveType(Primitives.INT), PrimativeType(Primatives.INT))
  {
  }
}
