/** Worked examples of the factory on small JSON values. Each is stated for
    every reserved-word set that does (or does not) contain the words it
    depends on, and then for the Apex reserved words themselves. */
module FactoryExamples {
  import opened Util
  import opened ApexTypes
  import opened Classes
  import opened Factory
  import ClassNames
  import Primatives

  const INT := PrimativeType(Primatives.INT)
  const STRING := PrimativeType(Primatives.STRING)
  const OBJECT := PrimativeType(Primatives.OBJECT)

  // ---------------------------------------------------------------------
  // Lists
  // ---------------------------------------------------------------------

  /** `[1, "x", null]` is a list of `Object`: typing stops at `"x"`, so the
      null is never looked at and nothing is registered. */
  lemma MixedListIsObjectList(reserved: set<string>)
    ensures TypeOfObject(reserved, "p", Arr([Int(1), Str("x"), Null]), map[])
            == Ok((ListType(OBJECT), map[]))
  {
    var v := Arr([Int(1), Str("x"), Null]);
    EmptyRegistryWellFormed();
    TypeOfCollectionStep(reserved, "p", v, map[], INT, map[]);
    TypeOfItemsStep(reserved, "p", v, 1, INT, map[], STRING, map[]);
  }

  /** A JSON null on its own is the NullPointerException. */
  lemma NullFails(reserved: set<string>)
    ensures TypeOfObject(reserved, "p", Null, map[]) == Err(NullValue)
  {
  }

  /** A long inside a list fails the whole list, because the strict
      primitives have no `Long`. */
  lemma LongItemFails(reserved: set<string>)
    ensures TypeOfObject(reserved, "p", Arr([Int(1), Long(5_000_000_000)]), map[])
            == Err(UnexpectedType("java.lang.Long"))
  {
    var v := Arr([Int(1), Long(5_000_000_000)]);
    EmptyRegistryWellFormed();
    TypeOfCollectionStep(reserved, "p", v, map[], INT, map[]);
    assert TypeOfObject(reserved, "p", v.items[1], map[]) == Err(UnexpectedType("java.lang.Long"));
  }

  /** `[1, 2]` is a list of `Integer`. */
  lemma IntListIsIntList(reserved: set<string>)
    ensures TypeOfObject(reserved, "p", Arr([Int(1), Int(2)]), map[]) == Ok((ListType(INT), map[]))
  {
    var v := Arr([Int(1), Int(2)]);
    EmptyRegistryWellFormed();
    TypeOfCollectionStep(reserved, "p", v, map[], INT, map[]);
    TypeOfItemsStep(reserved, "p", v, 1, INT, map[], INT, map[]);
  }

  // ---------------------------------------------------------------------
  // Objects
  // ---------------------------------------------------------------------

  /** The member map of `{"a": 1}`. */
  lemma MembersOfA(reserved: set<string>, reg: Registry)
    requires WellFormed(reg)
    ensures MakeMembers(reserved, Obj([("a", Int(1))]), 0, [], reg) == Ok(([("a", INT)], reg))
  {
    var v := Obj([("a", Int(1))]);
    assert Put([], "a", INT) == [("a", INT)];
    assert MakeMembers(reserved, v, 1, [("a", INT)], reg) == Ok(([("a", INT)], reg));
  }

  /** The member map of `{"b": "s"}`. */
  lemma MembersOfB(reserved: set<string>, reg: Registry)
    requires WellFormed(reg)
    ensures MakeMembers(reserved, Obj([("b", Str("s"))]), 0, [], reg) == Ok(([("b", STRING)], reg))
  {
    var v := Obj([("b", Str("s"))]);
    assert Put([], "b", STRING) == [("b", STRING)];
    assert MakeMembers(reserved, v, 1, [("b", STRING)], reg) == Ok(([("b", STRING)], reg));
  }

  lemma CapitalizeRow()
    ensures NewClass("row", [("a", INT)]) == ApexClass("Row", [("a", INT)])
  {
    assert Capitalize("row") == "Row";
  }

  lemma CapitalizeClassZ()
    ensures NewClass("class_Z", [("a", INT)]) == ApexClass("Class_Z", [("a", INT)])
  {
    assert Capitalize("class_Z") == "Class_Z";
  }

  lemma CapitalizeFoo()
    ensures NewClass("Foo", [("b", STRING)]) == ApexClass("Foo", [("b", STRING)])
  {
    assert Capitalize("Foo") == "Foo";
  }

  /** Single-entry member maps. */
  lemma SingleKey(k: string, t: Type)
    ensures Keys([(k, t)]) == [k]
    ensures forall x :: HasKey([(k, t)], x) <==> x == k
  {
  }

  /** `{"a": Integer}` and `{"b": String}` do not `membersEqual`: the key
      `a` is missing from the second. */
  lemma DifferentMembers()
    ensures !MembersEqual([("a", INT)], [("b", STRING)])
  {
    var a, b := [("a", INT)], [("b", STRING)];
    SingleKey("b", STRING);
    assert !HasKey(b, a[0].0);
  }

  /** A first object is registered under its property name, and its class
      name is that name capitalised. */
  lemma FirstObjectRegistered(reserved: set<string>)
    requires "row" !in reserved
    ensures var c := ApexClass("Row", [("a", INT)]);
            TypeOfObject(reserved, "row", Obj([("a", Int(1))]), map[]) == Ok((ClassType(c), map["row" := c]))
  {
    var v := Obj([("a", Int(1))]);
    EmptyRegistryWellFormed();
    MembersOfA(reserved, map[]);
    ClassNames.LowerRow();
    assert ClassNames.FreshName({}, reserved, "row") == "row" by {
      assert !ClassNames.Clash({}, reserved, "row");
    }
    var empty: Registry := map[];
    assert empty.Keys == {};
    TypeOfObjectOnObject(reserved, "row", v, map[]);
    TypeOfMapAdds(reserved, "row", v, map[], [("a", INT)], map[], "row");
    CapitalizeRow();
  }

  /** A second object with the same members reuses the class, and the
      registry does not change. */
  lemma SameShapeReused(reserved: set<string>)
    ensures var c := ApexClass("Row", [("a", INT)]);
            TypeOfObject(reserved, "other", Obj([("a", Int(2))]), map["row" := c]) == Ok((ClassType(c), map["row" := c]))
  {
    var c := ApexClass("Row", [("a", INT)]);
    var reg := map["row" := c];
    assert WellFormed(reg);
    var v := Obj([("a", Int(2))]);
    assert MakeMembers(reserved, v, 0, [], reg) == Ok(([("a", INT)], reg)) by {
      assert Put([], "a", INT) == [("a", INT)];
      assert MakeMembers(reserved, v, 1, [("a", INT)], reg) == Ok(([("a", INT)], reg));
    }
    MembersEqualReflexive([("a", INT)]);
    TypeOfObjectOnObject(reserved, "other", v, reg);
    TypeOfMapReuses(reserved, "other", v, reg, [("a", INT)], reg, "row");
  }

  /** A reserved property name is suffixed for the registry key; the class
      name is the suffixed key capitalised. */
  lemma ReservedNameSuffixed(reserved: set<string>)
    requires "class" in reserved && "class_z" !in reserved
    ensures var c := ApexClass("Class_Z", [("a", INT)]);
            TypeOfObject(reserved, "class", Obj([("a", Int(1))]), map[]) == Ok((ClassType(c), map["class_Z" := c]))
  {
    var v := Obj([("a", Int(1))]);
    EmptyRegistryWellFormed();
    MembersOfA(reserved, map[]);
    ClassNames.ReservedProposalFor(reserved);
    var empty: Registry := map[];
    assert empty.Keys == {};
    TypeOfObjectOnObject(reserved, "class", v, map[]);
    TypeOfMapAdds(reserved, "class", v, map[], [("a", INT)], map[], "class_Z");
    CapitalizeClassZ();
  }

  /** `Foo` is free next to the key `foo` when `foo` is not reserved. */
  lemma FooIsFreeNextToLowerFoo(reserved: set<string>)
    requires "foo" !in reserved
    ensures ClassNames.FreshName({"foo"}, reserved, "Foo") == "Foo"
  {
    ClassNames.LowerFoo();
    assert !ClassNames.Clash({"foo"}, reserved, "Foo");
  }

  /** The registry holding the class `Foo {a: Integer}` under `foo`. */
  lemma LowerFooRegistry()
    ensures var reg: Registry := map["foo" := ApexClass("Foo", [("a", INT)])];
            WellFormed(reg) && reg.Keys == {"foo"}
            && forall k :: k in reg ==> !MembersEqual(reg[k].members, [("b", STRING)])
  {
    DifferentMembers();
  }

  /** Keys are compared with case but class names are capitalised: an
      object under `Foo` next to a class registered under `foo` gets the
      key `Foo` and the same class name `Foo`, although its members differ. */
  lemma DisplayNameCollision(reserved: set<string>)
    requires "foo" !in reserved
    ensures var old_ := ApexClass("Foo", [("a", INT)]);
            var new_ := ApexClass("Foo", [("b", STRING)]);
            TypeOfObject(reserved, "Foo", Obj([("b", Str("s"))]), map["foo" := old_])
            == Ok((ClassType(new_), map["foo" := old_, "Foo" := new_]))
  {
    var reg: Registry := map["foo" := ApexClass("Foo", [("a", INT)])];
    LowerFooRegistry();
    MembersOfB(reserved, reg);
    FooIsFreeNextToLowerFoo(reserved);
    TypeOfObjectOnObject(reserved, "Foo", Obj([("b", Str("s"))]), reg);
    TypeOfMapAdds(reserved, "Foo", Obj([("b", Str("s"))]), reg, [("b", STRING)], reg, "Foo");
    CapitalizeFoo();
  }

  /** The two classes are `equals`, so the generated sources collide,
      although their members differ. */
  lemma CollidingClassesAreEqual()
    ensures var old_ := ApexClass("Foo", [("a", INT)]);
            var new_ := ApexClass("Foo", [("b", STRING)]);
            Equals(ClassType(old_), ClassType(new_)) && !MembersEqual(old_.members, new_.members)
  {
    DifferentMembers();
  }

  // ---------------------------------------------------------------------
  // With the Apex reserved words
  // ---------------------------------------------------------------------

  lemma ReservedNameSuffixedApex()
    ensures var c := ApexClass("Class_Z", [("a", INT)]);
            TypeOfObjectApex("class", Obj([("a", Int(1))]), map[])
            == Ok((ClassType(c), map["class_Z" := c]))
  {
    ClassNames.ClassIsReserved();
    ClassNames.ClassZIsFree();
    ReservedNameSuffixed(ClassNames.Reserved);
  }

  lemma DisplayNameCollisionApex()
    ensures var old_ := ApexClass("Foo", [("a", INT)]);
            var new_ := ApexClass("Foo", [("b", STRING)]);
            TypeOfObjectApex("Foo", Obj([("b", Str("s"))]), map["foo" := old_])
            == Ok((ClassType(new_), map["foo" := old_, "Foo" := new_]))
  {
    ClassNames.FooIsFree();
    DisplayNameCollision(ClassNames.Reserved);
  }
}
