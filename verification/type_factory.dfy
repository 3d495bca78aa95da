/** `TypeFactory`: walks a decoded JSON value and maps it to Apex types,
    registering one class per distinct object shape.

    The factory's only state, its `classes` map, is threaded through the
    functions as an explicit `Registry`: every operation takes the registry
    before the call and returns the registry after it. A thrown exception is
    an `Err` result; the registry it would have left behind is dropped,
    because the caller abandons the factory.

    The factory's operations take the reserved-word list as a parameter
    `reserved`, so their contracts hold for any word list. The Java factory
    always uses the fixed Apex list, `ClassNames.Reserved`; that instance is
    `TypeOfObjectApex`. */
module Factory {
  import opened Util
  import opened ApexTypes
  import opened Classes
  import ClassNames
  import Primatives

  newtype int32 = x: int | -0x8000_0000 <= x < 0x8000_0000
  newtype int64 = x: int | -0x8000_0000_0000_0000 <= x < 0x8000_0000_0000_0000

  /** A decoded JSON value, by the Java class the decoder boxes it in. */
  datatype Value =
    | Null                                // JSON null
    | Bool(b: bool)                       // java.lang.Boolean
    | Int(i: int32)                       // java.lang.Integer
    | Long(l: int64)                      // java.lang.Long
    | Dbl(repr: string)                   // java.lang.Double, kept as an opaque tag
    | Str(s: string)                      // java.lang.String
    | Arr(items: seq<Value>)              // java.util.List
    | Obj(entries: seq<(string, Value)>)  // java.util.Map, in iteration order
    | Other(kind: string)                 // any other boxed class (java.math.BigInteger, ...)

  datatype Error =
    | NullValue                   // `o.getClass()` on null throws NullPointerException
    | UnexpectedType(kind: string)  // the "Unexpected type ..." RuntimeException

  /** `classes`: proposed (raw) class name to class. */
  type Registry = map<string, ApexClass>

  type Inferred = (Type, Registry)

  // ---------------------------------------------------------------------
  // The registry invariant
  // ---------------------------------------------------------------------

  /** Every class a type mentions (through any depth of lists) is one of the
      registered classes. */
  predicate Closed(t: Type, reg: Registry) {
    match t
    case ClassType(c) => c in reg.Values
    case ListType(item) => Closed(item, reg)
    case _ => true
  }

  predicate MembersClosed(m: MemberMap, reg: Registry) {
    forall i :: 0 <= i < |m| ==> Closed(m[i].1, reg)
  }

  /** What the factory keeps true of `classes` between calls. */
  predicate WellFormed(reg: Registry) {
    && (forall k :: k in reg ==> reg[k].className == Capitalize(k))
    && (forall k :: k in reg ==> UniqueKeys(reg[k].members) && StrictMembers(reg[k].members))
    && (forall k1, k2 :: k1 in reg && k2 in reg && k1 != k2 ==> !MembersEqual(reg[k1].members, reg[k2].members))
  }

  /** Every class a registered class's members mention is registered too:
      the registry is everything the generator must emit. */
  predicate RegistryClosed(reg: Registry) {
    forall k :: k in reg ==> MembersClosed(reg[k].members, reg)
  }

  /** Registration only adds: no class is ever replaced or removed. */
  predicate Grows(reg: Registry, reg': Registry) {
    forall k :: k in reg ==> k in reg' && reg'[k] == reg[k]
  }

  /** The facts every successful inference establishes. */
  predicate Produced(reg: Registry, out: Inferred) {
    WellFormed(out.1) && Grows(reg, out.1) && Strict(out.0) && Closed(out.0, out.1)
  }

  /** A value with no JSON null, no long and no other unexpected class
      anywhere in it. */
  predicate Supported(v: Value) {
    match v
    case Null => false
    case Long(_) => false
    case Other(_) => false
    case Arr(items) => forall i :: 0 <= i < |items| ==> Supported(items[i])
    case Obj(entries) => forall i :: 0 <= i < |entries| ==> Supported(entries[i].1)
    case _ => true
  }

  predicate DistinctKeys(entries: seq<(string, Value)>) {
    forall i, j :: 0 <= i < j < |entries| ==> entries[i].0 != entries[j].0
  }

  /** `getClasses`: every registered class, once. */
  function GetClasses(reg: Registry): (r: set<ApexClass>)
    ensures forall c :: c in r <==> exists k :: k in reg && reg[k] == c
    ensures |r| <= |reg|
  {
    reg.Values
  }

  // ---------------------------------------------------------------------
  // typeOfObject and friends
  // ---------------------------------------------------------------------

  /** `typeOfObject(propertyName, o)`. */
  function TypeOfObject(reserved: set<string>, propertyName: string, v: Value, reg: Registry): (r: Result<Inferred, Error>)
    requires WellFormed(reg)
    ensures r.Ok? && RegistryClosed(reg) ==> RegistryClosed(r.value.1)
    ensures r.Ok? ==> Produced(reg, r.value)
    ensures r.Ok? ==> r.value.0 != PrimativeType(Primatives.OBJECT)
    ensures r.Ok? ==> (v.Arr? <==> r.value.0.ListType?) && (v.Obj? <==> r.value.0.ClassType?)
    ensures v.Str? ==> r == Ok((PrimativeType(Primatives.STRING), reg))
    ensures v.Int? ==> r == Ok((PrimativeType(Primatives.INT), reg))
    ensures v.Dbl? ==> r == Ok((PrimativeType(Primatives.DOUBLE), reg))
    ensures v.Bool? ==> r == Ok((PrimativeType(Primatives.BOOLEAN), reg))
    ensures v.Null? ==> r == Err(NullValue)
    ensures v.Long? ==> r == Err(UnexpectedType("java.lang.Long"))
    ensures v.Other? ==> r == Err(UnexpectedType(v.kind))
    ensures Supported(v) ==> r.Ok?
    decreases v, 2, 0
  {
    match v
    case Arr(_) =>
      var item :- TypeOfCollection(reserved, propertyName, v, reg);
      Ok((ListType(item.0), item.1))
    case Obj(_) => TypeOfMap(reserved, propertyName, v, reg)
    case Str(_) => Ok((PrimativeType(Primatives.STRING), reg))
    case Int(_) => Ok((PrimativeType(Primatives.INT), reg))
    case Dbl(_) => Ok((PrimativeType(Primatives.DOUBLE), reg))
    case Bool(_) => Ok((PrimativeType(Primatives.BOOLEAN), reg))
    case Null => Err(NullValue)
    case Long(_) => Err(UnexpectedType("java.lang.Long"))
    case Other(kind) => Err(UnexpectedType(kind))
  }

  /** `typeOfObject` as the Java factory runs it, with the Apex reserved
      words. */
  function TypeOfObjectApex(propertyName: string, v: Value, reg: Registry): Result<Inferred, Error>
    requires WellFormed(reg)
  {
    TypeOfObject(ClassNames.Reserved, propertyName, v, reg)
  }

  /** `typeOfCollection(propertyName, col)`: `OBJECT` for an empty list,
      otherwise the first item's type, or `OBJECT` as soon as an item's type
      differs from it. */
  function TypeOfCollection(reserved: set<string>, propertyName: string, v: Value, reg: Registry): (r: Result<Inferred, Error>)
    requires v.Arr? && WellFormed(reg)
    ensures r.Ok? && RegistryClosed(reg) ==> RegistryClosed(r.value.1)
    ensures r.Ok? ==> Produced(reg, r.value)
    ensures |v.items| == 0 ==> r == Ok((PrimativeType(Primatives.OBJECT), reg))
    ensures r.Ok? && r.value.0 != PrimativeType(Primatives.OBJECT) ==>
              |v.items| > 0 && TypeOfObject(reserved, propertyName, v.items[0], reg).Ok?
              && r.value.0 == TypeOfObject(reserved, propertyName, v.items[0], reg).value.0
    ensures Supported(v) ==> r.Ok?
    decreases v, 1, 0
  {
    if |v.items| == 0 then
      Ok((PrimativeType(Primatives.OBJECT), reg))
    else
      var first :- TypeOfObject(reserved, propertyName, v.items[0], reg);
      TypeOfItems(reserved, propertyName, v, 1, first.0, first.1)
  }

  /** The `for` loop of `typeOfCollection` from item `i` on, with the first
      item's type `itemType`. */
  function TypeOfItems(reserved: set<string>, propertyName: string, v: Value, i: nat, itemType: Type, reg: Registry): (r: Result<Inferred, Error>)
    requires v.Arr? && 1 <= i <= |v.items|
    requires WellFormed(reg) && Strict(itemType) && Closed(itemType, reg)
    ensures r.Ok? && RegistryClosed(reg) ==> RegistryClosed(r.value.1)
    ensures r.Ok? ==> Produced(reg, r.value)
    ensures r.Ok? ==> r.value.0 == itemType || r.value.0 == PrimativeType(Primatives.OBJECT)
    ensures Supported(v) ==> r.Ok?
    decreases v, 0, |v.items| - i
  {
    if i == |v.items| then
      Ok((itemType, reg))
    else
      var next :- TypeOfObject(reserved, propertyName, v.items[i], reg);
      if !Equals(itemType, next.0) then
        Ok((PrimativeType(Primatives.OBJECT), next.1))
      else
        ClosedGrows(itemType, reg, next.1);
        TypeOfItems(reserved, propertyName, v, i + 1, itemType, next.1)
  }

  /** The outcome `typeOfMap` promises: an existing class with an equal
      member map and an unchanged registry, or else exactly one new class,
      named by `getClassName`, under a key that was free. */
  predicate ReusedOrAdded(reserved: set<string>, propertyName: string, members: MemberMap, reg: Registry, out: Inferred) {
    out.0.ClassType?
    && if exists k :: k in reg && MembersEqual(reg[k].members, members) then
         out.1 == reg && out.0.cls in reg.Values && MembersEqual(out.0.cls.members, members)
       else
         var name := ClassNames.FreshName(reg.Keys, reserved, propertyName);
         && name !in reg
         && out.0.cls == NewClass(name, members)
         && out.1 == reg[name := out.0.cls]
         && |out.1| == |reg| + 1
  }

  /** `typeOfMap(propertyName, o)`. */
  function TypeOfMap(reserved: set<string>, propertyName: string, v: Value, reg: Registry): (r: Result<Inferred, Error>)
    requires v.Obj? && WellFormed(reg)
    ensures r.Ok? && RegistryClosed(reg) ==> RegistryClosed(r.value.1)
    ensures r.Ok? ==> Produced(reg, r.value)
    ensures r.Ok? ==> MakeMembers(reserved, v, 0, [], reg).Ok?
                      && var (members, reg1) := MakeMembers(reserved, v, 0, [], reg).value;
                         ReusedOrAdded(reserved, propertyName, members, reg1, r.value)
    ensures Supported(v) ==> r.Ok?
    decreases v, 1, 0
  {
    var made :- MakeMembers(reserved, v, 0, [], reg);
    var (members, reg1) := made;
    match FindClass(reg1, members)
    case Some(c) =>
      Ok((ClassType(c), reg1))
    case None =>
      var name := ClassNames.FreshName(reg1.Keys, reserved, propertyName);
      var c := NewClass(name, members);
      AddClass(reg1, name, members);
      AddClassClosed(reg1, name, members);
      Ok((ClassType(c), reg1[name := c]))
  }

  /** `makeMembers(o)` from entry `i` on, with the members built so far in
      `acc`: each key kept verbatim, paired with its value's inferred type. */
  function MakeMembers(reserved: set<string>, v: Value, i: nat, acc: MemberMap, reg: Registry): (r: Result<(MemberMap, Registry), Error>)
    requires v.Obj? && i <= |v.entries|
    requires WellFormed(reg) && UniqueKeys(acc) && StrictMembers(acc) && MembersClosed(acc, reg)
    ensures r.Ok? && RegistryClosed(reg) ==> RegistryClosed(r.value.1)
    ensures r.Ok? ==> WellFormed(r.value.1) && Grows(reg, r.value.1)
    ensures r.Ok? ==> UniqueKeys(r.value.0) && StrictMembers(r.value.0) && MembersClosed(r.value.0, r.value.1)
    ensures r.Ok? && DistinctKeys(v.entries) && Keys(acc) == Keys(v.entries[..i]) ==>
              Keys(r.value.0) == Keys(v.entries)
    ensures Supported(v) ==> r.Ok?
    decreases v, 0, |v.entries| - i
  {
    if i == |v.entries| then
      Ok((acc, reg))
    else
      var entry := v.entries[i];
      var member :- TypeOfObject(reserved, entry.0, entry.1, reg);
      PutMember(acc, entry.0, member.0, reg, member.1);
      PutKeyOrder(v.entries, i, acc, member.0);
      MakeMembers(reserved, v, i + 1, Put(acc, entry.0, member.0), member.1)
  }

  /** The registered class whose member map `membersEqual`s `members`, if
      any. The search order of the Java loop does not matter: at most one
      class can match. */
  function FindClass(reg: Registry, members: MemberMap): (r: Option<ApexClass>)
    requires WellFormed(reg) && UniqueKeys(members) && StrictMembers(members)
    ensures r.Some? ==> r.value in reg.Values && MembersEqual(r.value.members, members)
    ensures r.None? ==> forall k :: k in reg ==> !MembersEqual(reg[k].members, members)
  {
    if exists k :: k in reg && MembersEqual(reg[k].members, members) then
      AtMostOneMatch(reg, members);
      var k :| k in reg && MembersEqual(reg[k].members, members);
      Some(reg[k])
    else
      None
  }

  /** `typeOfMap` when a registered class `membersEqual`s the new member
      map: that class is returned and nothing is registered. */
  lemma TypeOfMapReuses(reserved: set<string>, p: string, v: Value, reg: Registry,
                        members: MemberMap, reg1: Registry, k: string)
    requires v.Obj? && WellFormed(reg)
    requires MakeMembers(reserved, v, 0, [], reg) == Ok((members, reg1))
    requires k in reg1 && MembersEqual(reg1[k].members, members)
    ensures TypeOfMap(reserved, p, v, reg) == Ok((ClassType(reg1[k]), reg1))
  {
    FindClassFinds(reg1, members, k);
  }

  /** On a JSON object, `typeOfObject` is `typeOfMap`. */
  lemma TypeOfObjectOnObject(reserved: set<string>, p: string, v: Value, reg: Registry)
    requires v.Obj? && WellFormed(reg)
    ensures TypeOfObject(reserved, p, v, reg) == TypeOfMap(reserved, p, v, reg)
  {
  }

  /** On a JSON array, `typeOfObject` wraps the item type `typeOfCollection`
      infers in a list, keeps its registry, and throws exactly when it does. */
  lemma TypeOfObjectOnArray(reserved: set<string>, p: string, v: Value, reg: Registry)
    requires v.Arr? && WellFormed(reg)
    ensures TypeOfObject(reserved, p, v, reg).Err? <==> TypeOfCollection(reserved, p, v, reg).Err?
    ensures TypeOfCollection(reserved, p, v, reg).Err? ==>
              TypeOfObject(reserved, p, v, reg) == TypeOfCollection(reserved, p, v, reg)
    ensures TypeOfCollection(reserved, p, v, reg).Ok? ==>
              var (item, reg') := TypeOfCollection(reserved, p, v, reg).value;
              TypeOfObject(reserved, p, v, reg) == Ok((ListType(item), reg'))
  {
  }

  /** `typeOfMap` when no registered class matches: a new class named by
      `getClassName` is registered under that name. */
  lemma TypeOfMapAdds(reserved: set<string>, p: string, v: Value, reg: Registry,
                      members: MemberMap, reg1: Registry, name: string)
    requires v.Obj? && WellFormed(reg)
    requires MakeMembers(reserved, v, 0, [], reg) == Ok((members, reg1))
    requires forall k :: k in reg1 ==> !MembersEqual(reg1[k].members, members)
    requires name == ClassNames.FreshName(reg1.Keys, reserved, p)
    ensures TypeOfMap(reserved, p, v, reg) == Ok((ClassType(NewClass(name, members)), reg1[name := NewClass(name, members)]))
  {
  }

  /** The search finds the one matching class. */
  lemma FindClassFinds(reg: Registry, members: MemberMap, k: string)
    requires WellFormed(reg) && UniqueKeys(members) && StrictMembers(members)
    requires k in reg && MembersEqual(reg[k].members, members)
    ensures FindClass(reg, members) == Some(reg[k])
  {
    AtMostOneMatch(reg, members);
  }

  // ---------------------------------------------------------------------
  // A reference for typeOfCollection
  // ---------------------------------------------------------------------

  /** Types the items `i..end` one after another, threading the registry,
      and fails on the first item that fails. */
  function TypeRange(reserved: set<string>, propertyName: string, items: seq<Value>, i: nat, end: nat, reg: Registry)
    : (r: Result<(seq<Type>, Registry), Error>)
    requires i <= end <= |items| && WellFormed(reg)
    ensures r.Ok? ==> |r.value.0| == end - i && WellFormed(r.value.1) && Grows(reg, r.value.1)
    ensures (forall j :: i <= j < end ==> Supported(items[j])) ==> r.Ok?
    decreases end - i
  {
    if i == end then
      Ok(([], reg))
    else
      var first :- TypeOfObject(reserved, propertyName, items[i], reg);
      var rest :- TypeRange(reserved, propertyName, items, i + 1, end, first.1);
      Ok(([first.0] + rest.0, rest.1))
  }

  /** The first `n` types all equal `t` (from `t`'s side). */
  predicate AllEqualTo(t: Type, ts: seq<Type>, n: nat) {
    n <= |ts| && forall j :: 0 <= j < n ==> Equals(t, ts[j])
  }

  /** The types all equal `t` except the last, which does not. */
  predicate MismatchAtEnd(t: Type, ts: seq<Type>) {
    |ts| > 0 && AllEqualTo(t, ts, |ts| - 1) && !Equals(t, ts[|ts| - 1])
  }

  /** Dropping the first type keeps "all equal to t". */
  lemma AllEqualToTail(t: Type, ts: seq<Type>, n: nat)
    requires 0 < n && AllEqualTo(t, ts, n)
    ensures AllEqualTo(t, ts[1..], n - 1)
  {
    forall j | 0 <= j < n - 1 ensures Equals(t, ts[1..][j]) {
      assert ts[1..][j] == ts[j + 1];
    }
  }

  /** Dropping a leading equal type keeps the mismatch at the end. */
  lemma MismatchAtEndTail(t: Type, ts: seq<Type>)
    requires |ts| > 1 && MismatchAtEnd(t, ts)
    ensures Equals(t, ts[0]) && MismatchAtEnd(t, ts[1..])
  {
    AllEqualToTail(t, ts, |ts| - 1);
    assert ts[1..][|ts| - 2] == ts[|ts| - 1];
  }

  /** One step of the reference, with the item's outcome named. */
  lemma TypeRangeStep(reserved: set<string>, p: string, items: seq<Value>, i: nat, end: nat, reg: Registry,
                      ts: seq<Type>, reg': Registry, nt: Type, nreg: Registry)
    requires i < end <= |items| && WellFormed(reg)
    requires TypeRange(reserved, p, items, i, end, reg) == Ok((ts, reg'))
    requires TypeOfObject(reserved, p, items[i], reg) == Ok((nt, nreg))
    ensures WellFormed(nreg) && |ts| == end - i && ts[0] == nt
    ensures TypeRange(reserved, p, items, i + 1, end, nreg) == Ok((ts[1..], reg'))
  {
    var rest := TypeRange(reserved, p, items, i + 1, end, nreg).value;
    assert ts == [nt] + rest.0;
  }

  /** A successful reference run has typed its first item. */
  lemma TypeRangeFirst(reserved: set<string>, p: string, items: seq<Value>, i: nat, end: nat, reg: Registry)
    requires i < end <= |items| && WellFormed(reg)
    requires TypeRange(reserved, p, items, i, end, reg).Ok?
    ensures TypeOfObject(reserved, p, items[i], reg).Ok?
  {
  }

  /** A non-empty list: type the first item, then run the loop. */
  lemma TypeOfCollectionStep(reserved: set<string>, p: string, v: Value, reg: Registry, nt: Type, nreg: Registry)
    requires v.Arr? && |v.items| > 0 && WellFormed(reg)
    requires TypeOfObject(reserved, p, v.items[0], reg) == Ok((nt, nreg))
    ensures WellFormed(nreg) && Strict(nt) && Closed(nt, nreg)
    ensures TypeOfCollection(reserved, p, v, reg) == TypeOfItems(reserved, p, v, 1, nt, nreg)
  {
  }

  /** One step of the loop: an item of an equal type moves on, any other
      item ends it. */
  lemma TypeOfItemsStep(reserved: set<string>, p: string, v: Value, i: nat, t: Type, reg: Registry, nt: Type, nreg: Registry)
    requires v.Arr? && 1 <= i < |v.items|
    requires WellFormed(reg) && Strict(t) && Closed(t, reg)
    requires TypeOfObject(reserved, p, v.items[i], reg) == Ok((nt, nreg))
    ensures WellFormed(nreg) && Closed(t, nreg)
    ensures TypeOfItems(reserved, p, v, i, t, reg)
            == if Equals(t, nt) then TypeOfItems(reserved, p, v, i + 1, t, nreg)
               else Ok((PrimativeType(Primatives.OBJECT), nreg))
  {
    ClosedGrows(t, reg, nreg);
  }

  /** The loop over items whose types all equal `t` ends with `t` and the
      registry the reference leaves. */
  lemma {:induction false} ItemsUniform(reserved: set<string>, p: string, v: Value, i: nat, t: Type, reg: Registry,
                                        ts: seq<Type>, reg': Registry)
    requires v.Arr? && 1 <= i <= |v.items|
    requires WellFormed(reg) && Strict(t) && Closed(t, reg)
    requires TypeRange(reserved, p, v.items, i, |v.items|, reg) == Ok((ts, reg')) && AllEqualTo(t, ts, |ts|)
    ensures TypeOfItems(reserved, p, v, i, t, reg) == Ok((t, reg'))
    decreases |v.items| - i
  {
    if i < |v.items| {
      TypeRangeFirst(reserved, p, v.items, i, |v.items|, reg);
      var next := TypeOfObject(reserved, p, v.items[i], reg).value;
      ItemsUniformStep(reserved, p, v, i, |v.items|, t, reg, ts, reg', next.0, next.1);
      ItemsUniform(reserved, p, v, i + 1, t, next.1, ts[1..], reg');
    }
  }

  /** An item of a run whose types all equal `t`: the loop moves on. */
  lemma ItemsUniformStep(reserved: set<string>, p: string, v: Value, i: nat, end: nat, t: Type, reg: Registry,
                         ts: seq<Type>, reg': Registry, nt: Type, nreg: Registry)
    requires v.Arr? && 1 <= i < end <= |v.items|
    requires WellFormed(reg) && Strict(t) && Closed(t, reg)
    requires TypeRange(reserved, p, v.items, i, end, reg) == Ok((ts, reg')) && AllEqualTo(t, ts, |ts|)
    requires TypeOfObject(reserved, p, v.items[i], reg) == Ok((nt, nreg))
    ensures WellFormed(nreg) && Closed(t, nreg)
    ensures TypeRange(reserved, p, v.items, i + 1, end, nreg) == Ok((ts[1..], reg')) && AllEqualTo(t, ts[1..], |ts[1..]|)
    ensures TypeOfItems(reserved, p, v, i, t, reg) == TypeOfItems(reserved, p, v, i + 1, t, nreg)
  {
    TypeRangeStep(reserved, p, v.items, i, end, reg, ts, reg', nt, nreg);
    AllEqualToTail(t, ts, |ts|);
    TypeOfItemsStep(reserved, p, v, i, t, reg, nt, nreg);
  }

  /** The loop meets the mismatching item at `i`. */
  lemma ItemsMismatchHere(reserved: set<string>, p: string, v: Value, i: nat, t: Type, reg: Registry,
                          ts: seq<Type>, reg': Registry, nt: Type, nreg: Registry)
    requires v.Arr? && 1 <= i < |v.items|
    requires WellFormed(reg) && Strict(t) && Closed(t, reg)
    requires TypeRange(reserved, p, v.items, i, i + 1, reg) == Ok((ts, reg')) && MismatchAtEnd(t, ts)
    requires TypeOfObject(reserved, p, v.items[i], reg) == Ok((nt, nreg))
    ensures TypeOfItems(reserved, p, v, i, t, reg) == Ok((PrimativeType(Primatives.OBJECT), reg'))
  {
    TypeRangeStep(reserved, p, v.items, i, i + 1, reg, ts, reg', nt, nreg);
    TypeOfItemsStep(reserved, p, v, i, t, reg, nt, nreg);
  }

  /** An item before the mismatching one: its type equals `t`, so the loop
      moves on. */
  lemma ItemsMismatchBefore(reserved: set<string>, p: string, v: Value, i: nat, end: nat, t: Type, reg: Registry,
                            ts: seq<Type>, reg': Registry, nt: Type, nreg: Registry)
    requires v.Arr? && 1 <= i && i + 1 < end <= |v.items|
    requires WellFormed(reg) && Strict(t) && Closed(t, reg)
    requires TypeRange(reserved, p, v.items, i, end, reg) == Ok((ts, reg')) && MismatchAtEnd(t, ts)
    requires TypeOfObject(reserved, p, v.items[i], reg) == Ok((nt, nreg))
    ensures WellFormed(nreg) && Closed(t, nreg)
    ensures TypeRange(reserved, p, v.items, i + 1, end, nreg) == Ok((ts[1..], reg')) && MismatchAtEnd(t, ts[1..])
    ensures TypeOfItems(reserved, p, v, i, t, reg) == TypeOfItems(reserved, p, v, i + 1, t, nreg)
  {
    TypeRangeStep(reserved, p, v.items, i, end, reg, ts, reg', nt, nreg);
    MismatchAtEndTail(t, ts);
    TypeOfItemsStep(reserved, p, v, i, t, reg, nt, nreg);
  }

  /** The loop over items `i..end`, whose last type is the first that
      differs from `t`, ends with `OBJECT` and the registry the reference
      leaves after item `end - 1`. */
  lemma {:induction false} ItemsMismatch(reserved: set<string>, p: string, v: Value, i: nat, end: nat, t: Type, reg: Registry,
                                         ts: seq<Type>, reg': Registry)
    requires v.Arr? && 1 <= i < end <= |v.items|
    requires WellFormed(reg) && Strict(t) && Closed(t, reg)
    requires TypeRange(reserved, p, v.items, i, end, reg) == Ok((ts, reg')) && MismatchAtEnd(t, ts)
    ensures TypeOfItems(reserved, p, v, i, t, reg) == Ok((PrimativeType(Primatives.OBJECT), reg'))
    decreases end - i
  {
    TypeRangeFirst(reserved, p, v.items, i, end, reg);
    var next := TypeOfObject(reserved, p, v.items[i], reg).value;
    if i + 1 < end {
      ItemsMismatchBefore(reserved, p, v, i, end, t, reg, ts, reg', next.0, next.1);
      ItemsMismatch(reserved, p, v, i + 1, end, t, next.1, ts[1..], reg');
    } else {
      ItemsMismatchHere(reserved, p, v, i, t, reg, ts, reg', next.0, next.1);
    }
  }

  /** When every item's type equals the first item's, the list's item type
      is the first item's type, and the registry is the one left after
      typing every item. */
  lemma CollectionUniform(reserved: set<string>, p: string, v: Value, reg: Registry, ts: seq<Type>, reg': Registry)
    requires v.Arr? && |v.items| > 0 && WellFormed(reg)
    requires TypeRange(reserved, p, v.items, 0, |v.items|, reg) == Ok((ts, reg')) && AllEqualTo(ts[0], ts, |ts|)
    ensures TypeOfCollection(reserved, p, v, reg) == Ok((ts[0], reg'))
  {
    TypeRangeFirst(reserved, p, v.items, 0, |v.items|, reg);
    var first := TypeOfObject(reserved, p, v.items[0], reg).value;
    TypeRangeStep(reserved, p, v.items, 0, |v.items|, reg, ts, reg', first.0, first.1);
    AllEqualToTail(first.0, ts, |ts|);
    TypeOfCollectionStep(reserved, p, v, reg, first.0, first.1);
    ItemsUniform(reserved, p, v, 1, first.0, first.1, ts[1..], reg');
  }

  /** When the item at `m` is the first whose type differs from the first
      item's, the list is a list of `Object`, and the registry is the one
      left after typing items `0..m`. The reference is run up to `m` alone:
      the items after the mismatch are never typed, so they can neither
      fail nor register classes. */
  lemma CollectionMismatch(reserved: set<string>, p: string, v: Value, reg: Registry, m: nat, ts: seq<Type>, reg': Registry)
    requires v.Arr? && 0 < m < |v.items| && WellFormed(reg)
    requires TypeRange(reserved, p, v.items, 0, m + 1, reg) == Ok((ts, reg'))
    requires AllEqualTo(ts[0], ts, m) && !Equals(ts[0], ts[m])
    ensures TypeOfCollection(reserved, p, v, reg) == Ok((PrimativeType(Primatives.OBJECT), reg'))
  {
    TypeRangeFirst(reserved, p, v.items, 0, m + 1, reg);
    var first := TypeOfObject(reserved, p, v.items[0], reg).value;
    TypeRangeStep(reserved, p, v.items, 0, m + 1, reg, ts, reg', first.0, first.1);
    assert MismatchAtEnd(ts[0], ts);
    MismatchAtEndTail(ts[0], ts);
    TypeOfCollectionStep(reserved, p, v, reg, first.0, first.1);
    ItemsMismatch(reserved, p, v, 1, m + 1, first.0, first.1, ts[1..], reg');
  }

  /** The loop over items `i..m`, whose types all equal `t`, reaches item
      `m` and ends with the exception that item throws. */
  lemma {:induction false} ItemsFail(reserved: set<string>, p: string, v: Value, i: nat, m: nat, t: Type, reg: Registry,
                                     ts: seq<Type>, reg': Registry)
    requires v.Arr? && 1 <= i <= m < |v.items|
    requires WellFormed(reg) && Strict(t) && Closed(t, reg)
    requires TypeRange(reserved, p, v.items, i, m, reg) == Ok((ts, reg')) && AllEqualTo(t, ts, |ts|)
    requires TypeOfObject(reserved, p, v.items[m], reg').Err?
    ensures TypeOfItems(reserved, p, v, i, t, reg) == Err(TypeOfObject(reserved, p, v.items[m], reg').error)
    decreases m - i
  {
    if i < m {
      TypeRangeFirst(reserved, p, v.items, i, m, reg);
      var next := TypeOfObject(reserved, p, v.items[i], reg).value;
      ItemsUniformStep(reserved, p, v, i, m, t, reg, ts, reg', next.0, next.1);
      ItemsFail(reserved, p, v, i + 1, m, t, next.1, ts[1..], reg');
    }
  }

  /** When every item before `m` has the first item's type and item `m`
      throws, the list throws the same exception: the loop is still running
      when it reaches `m`. With `m == 0` the first item itself throws. */
  lemma CollectionFails(reserved: set<string>, p: string, v: Value, reg: Registry, m: nat, ts: seq<Type>, reg': Registry)
    requires v.Arr? && m < |v.items| && WellFormed(reg)
    requires TypeRange(reserved, p, v.items, 0, m, reg) == Ok((ts, reg'))
    requires 0 < m ==> AllEqualTo(ts[0], ts, m)
    requires TypeOfObject(reserved, p, v.items[m], reg').Err?
    ensures TypeOfCollection(reserved, p, v, reg) == Err(TypeOfObject(reserved, p, v.items[m], reg').error)
  {
    if 0 < m {
      TypeRangeFirst(reserved, p, v.items, 0, m, reg);
      var first := TypeOfObject(reserved, p, v.items[0], reg).value;
      TypeRangeStep(reserved, p, v.items, 0, m, reg, ts, reg', first.0, first.1);
      AllEqualToTail(first.0, ts, m);
      TypeOfCollectionStep(reserved, p, v, reg, first.0, first.1);
      ItemsFail(reserved, p, v, 1, m, first.0, first.1, ts[1..], reg');
    }
  }

  // ---------------------------------------------------------------------
  // A reference for makeMembers
  // ---------------------------------------------------------------------

  /** Types the entries `i..` one after another, each under its own key as
      property name, threading the registry; fails on the first entry that
      fails. */
  function TypeEntries(reserved: set<string>, entries: seq<(string, Value)>, i: nat, reg: Registry)
    : (r: Result<(seq<Type>, Registry), Error>)
    requires i <= |entries| && WellFormed(reg)
    ensures r.Ok? ==> |r.value.0| == |entries| - i
    decreases |entries| - i
  {
    if i == |entries| then
      Ok(([], reg))
    else
      var first :- TypeOfObject(reserved, entries[i].0, entries[i].1, reg);
      var rest :- TypeEntries(reserved, entries, i + 1, first.1);
      Ok(([first.0] + rest.0, rest.1))
  }

  /** Each entry's key paired with the corresponding type. */
  function Pairs(entries: seq<(string, Value)>, ts: seq<Type>): (m: MemberMap)
    requires |ts| == |entries|
    ensures |m| == |ts|
    ensures forall j :: 0 <= j < |m| ==> m[j] == (entries[j].0, ts[j])
  {
    seq(|ts|, j requires 0 <= j < |ts| => (entries[j].0, ts[j]))
  }

  lemma PairsCons(entries: seq<(string, Value)>, t: Type, ts: seq<Type>)
    requires |entries| == |ts| + 1
    ensures Pairs(entries, [t] + ts) == [(entries[0].0, t)] + Pairs(entries[1..], ts)
  {
  }

  /** With distinct keys, `put` of the i-th entry appends it. */
  lemma PutAppends(entries: seq<(string, Value)>, i: nat, acc: MemberMap, t: Type)
    requires i < |entries| && DistinctKeys(entries) && Keys(acc) == Keys(entries[..i])
    ensures Put(acc, entries[i].0, t) == acc + [(entries[i].0, t)]
  {
    assert !HasKey(acc, entries[i].0) by {
      forall j | 0 <= j < |acc| ensures Keys(acc)[j] != entries[i].0 {
        assert Keys(acc)[j] == Keys(entries[..i])[j] == entries[j].0;
      }
    }
  }

  /** One step of `makeMembers` on a successfully typed entry. */
  lemma MakeMembersStep(reserved: set<string>, v: Value, i: nat, acc: MemberMap, reg: Registry, t: Type, reg1: Registry)
    requires v.Obj? && i < |v.entries|
    requires WellFormed(reg) && UniqueKeys(acc) && StrictMembers(acc) && MembersClosed(acc, reg)
    requires DistinctKeys(v.entries) && Keys(acc) == Keys(v.entries[..i])
    requires TypeOfObject(reserved, v.entries[i].0, v.entries[i].1, reg) == Ok((t, reg1))
    ensures var acc' := acc + [(v.entries[i].0, t)];
            WellFormed(reg1) && UniqueKeys(acc') && StrictMembers(acc') && MembersClosed(acc', reg1)
            && Keys(acc') == Keys(v.entries[..i + 1])
            && MakeMembers(reserved, v, i, acc, reg) == MakeMembers(reserved, v, i + 1, acc', reg1)
  {
    PutAppends(v.entries, i, acc, t);
    PutMember(acc, v.entries[i].0, t, reg, reg1);
    PutKeyOrder(v.entries, i, acc, t);
  }

  /** One step of the reference on a successfully typed entry. */
  lemma TypeEntriesStep(reserved: set<string>, entries: seq<(string, Value)>, i: nat, reg: Registry, t: Type, reg1: Registry)
    requires i < |entries| && WellFormed(reg)
    requires TypeOfObject(reserved, entries[i].0, entries[i].1, reg) == Ok((t, reg1))
    ensures WellFormed(reg1)
    ensures TypeEntries(reserved, entries, i, reg).Ok? <==> TypeEntries(reserved, entries, i + 1, reg1).Ok?
    ensures TypeEntries(reserved, entries, i + 1, reg1).Ok? ==>
              TypeEntries(reserved, entries, i, reg).value
              == ([t] + TypeEntries(reserved, entries, i + 1, reg1).value.0, TypeEntries(reserved, entries, i + 1, reg1).value.1)
  {
  }

  /** An entry that fails fails both. */
  lemma EntryFails(reserved: set<string>, v: Value, i: nat, acc: MemberMap, reg: Registry)
    requires v.Obj? && i < |v.entries|
    requires WellFormed(reg) && UniqueKeys(acc) && StrictMembers(acc) && MembersClosed(acc, reg)
    requires TypeOfObject(reserved, v.entries[i].0, v.entries[i].1, reg).Err?
    ensures MakeMembers(reserved, v, i, acc, reg).Err? && TypeEntries(reserved, v.entries, i, reg).Err?
  {
  }

  /** `makeMembers` from entry `i` on appends, to the members built so far,
      each remaining key paired with the type the reference gives it, and
      leaves the reference's registry; it fails exactly when the reference
      does. */
  predicate MatchesReference(reserved: set<string>, v: Value, i: nat, acc: MemberMap, reg: Registry)
    requires v.Obj? && i <= |v.entries|
    requires WellFormed(reg) && UniqueKeys(acc) && StrictMembers(acc) && MembersClosed(acc, reg)
  {
    var made := MakeMembers(reserved, v, i, acc, reg);
    var ref := TypeEntries(reserved, v.entries, i, reg);
    && (made.Ok? <==> ref.Ok?)
    && (ref.Ok? ==> made.value == (acc + Pairs(v.entries[i..], ref.value.0), ref.value.1))
  }

  /** Moving one entry from the reference's types onto the built members. */
  lemma PairsShift(entries: seq<(string, Value)>, i: nat, acc: MemberMap, t: Type, ts: seq<Type>)
    requires i < |entries| && |ts| == |entries| - i - 1
    ensures (acc + [(entries[i].0, t)]) + Pairs(entries[i + 1..], ts) == acc + Pairs(entries[i..], [t] + ts)
  {
    assert entries[i..][1..] == entries[i + 1..];
    PairsCons(entries[i..], t, ts);
  }

  /** The step case: a typed entry followed by a matching rest. */
  lemma MatchesReferenceStep(reserved: set<string>, v: Value, i: nat, acc: MemberMap, reg: Registry, t: Type, reg1: Registry)
    requires v.Obj? && i < |v.entries|
    requires WellFormed(reg) && UniqueKeys(acc) && StrictMembers(acc) && MembersClosed(acc, reg)
    requires DistinctKeys(v.entries) && Keys(acc) == Keys(v.entries[..i])
    requires TypeOfObject(reserved, v.entries[i].0, v.entries[i].1, reg) == Ok((t, reg1))
    requires WellFormed(reg1)
    requires var acc' := acc + [(v.entries[i].0, t)];
             UniqueKeys(acc') && StrictMembers(acc') && MembersClosed(acc', reg1)
             && MatchesReference(reserved, v, i + 1, acc', reg1)
    ensures MatchesReference(reserved, v, i, acc, reg)
  {
    var acc' := acc + [(v.entries[i].0, t)];
    MakeMembersStep(reserved, v, i, acc, reg, t, reg1);
    TypeEntriesStep(reserved, v.entries, i, reg, t, reg1);
    var made := MakeMembers(reserved, v, i + 1, acc', reg1);
    var rest := TypeEntries(reserved, v.entries, i + 1, reg1);
    assert MakeMembers(reserved, v, i, acc, reg) == made;
    assert made.Ok? <==> rest.Ok?;
    if rest.Ok? {
      var ts, reg' := rest.value.0, rest.value.1;
      assert made.value == (acc' + Pairs(v.entries[i + 1..], ts), reg');
      assert TypeEntries(reserved, v.entries, i, reg).value == ([t] + ts, reg');
      PairsShift(v.entries, i, acc, t, ts);
    }
  }

  lemma {:induction false} MakeMembersFrom(reserved: set<string>, v: Value, i: nat, acc: MemberMap, reg: Registry)
    requires v.Obj? && i <= |v.entries|
    requires WellFormed(reg) && UniqueKeys(acc) && StrictMembers(acc) && MembersClosed(acc, reg)
    requires DistinctKeys(v.entries) && Keys(acc) == Keys(v.entries[..i])
    ensures MatchesReference(reserved, v, i, acc, reg)
    decreases |v.entries| - i
  {
    if i == |v.entries| {
      assert acc + Pairs(v.entries[i..], []) == acc;
    } else {
      var first := TypeOfObject(reserved, v.entries[i].0, v.entries[i].1, reg);
      if first.Err? {
        EntryFails(reserved, v, i, acc, reg);
      } else {
        var t, reg1 := first.value.0, first.value.1;
        MakeMembersStep(reserved, v, i, acc, reg, t, reg1);
        MakeMembersFrom(reserved, v, i + 1, acc + [(v.entries[i].0, t)], reg1);
        MatchesReferenceStep(reserved, v, i, acc, reg, t, reg1);
      }
    }
  }

  /** `makeMembers(o)`: the member map pairs every key of the object, in
      document order, with its value's type as inferred entry by entry. */
  lemma MakeMembersIsReference(reserved: set<string>, v: Value, reg: Registry)
    requires v.Obj? && WellFormed(reg) && DistinctKeys(v.entries)
    ensures MakeMembers(reserved, v, 0, [], reg).Ok? <==> TypeEntries(reserved, v.entries, 0, reg).Ok?
    ensures TypeEntries(reserved, v.entries, 0, reg).Ok? ==>
              var (ts, reg') := TypeEntries(reserved, v.entries, 0, reg).value;
              MakeMembers(reserved, v, 0, [], reg).value == (Pairs(v.entries, ts), reg')
  {
    var empty: MemberMap := [];
    assert Keys(empty) == Keys(v.entries[..0]);
    MakeMembersFrom(reserved, v, 0, [], reg);
    assert v.entries[0..] == v.entries;
    if TypeEntries(reserved, v.entries, 0, reg).Ok? {
      var ts := TypeEntries(reserved, v.entries, 0, reg).value.0;
      assert [] + Pairs(v.entries, ts) == Pairs(v.entries, ts);
    }
  }

  // ---------------------------------------------------------------------
  // Registry lemmas
  // ---------------------------------------------------------------------

  lemma EmptyRegistryWellFormed()
    ensures WellFormed(map[])
  {
  }

  lemma {:induction false} ClosedGrows(t: Type, reg: Registry, reg': Registry)
    requires Closed(t, reg) && Grows(reg, reg')
    ensures Closed(t, reg')
  {
    match t
    case ClassType(c) =>
      var k :| k in reg && reg[k] == c;
      assert reg'[k] == c;
    case ListType(item) =>
      ClosedGrows(item, reg, reg');
    case _ =>
  }

  lemma MembersClosedGrows(m: MemberMap, reg: Registry, reg': Registry)
    requires MembersClosed(m, reg) && Grows(reg, reg')
    ensures MembersClosed(m, reg')
  {
    forall i | 0 <= i < |m| ensures Closed(m[i].1, reg') {
      ClosedGrows(m[i].1, reg, reg');
    }
  }

  /** Putting a strict type the new registry closes keeps the member map's
      invariants. */
  lemma PutMember(acc: MemberMap, key: string, t: Type, reg: Registry, reg': Registry)
    requires UniqueKeys(acc) && StrictMembers(acc) && MembersClosed(acc, reg)
    requires Grows(reg, reg') && Strict(t) && Closed(t, reg')
    ensures var acc' := Put(acc, key, t);
            UniqueKeys(acc') && StrictMembers(acc') && MembersClosed(acc', reg')
  {
    MembersClosedGrows(acc, reg, reg');
  }

  /** With distinct JSON keys every entry's key is new, so `put` appends and
      the member keys follow the entries. */
  lemma PutKeyOrder(entries: seq<(string, Value)>, i: nat, acc: MemberMap, t: Type)
    requires i < |entries|
    ensures DistinctKeys(entries) && Keys(acc) == Keys(entries[..i]) ==>
              Keys(Put(acc, entries[i].0, t)) == Keys(entries[..i + 1])
  {
    if DistinctKeys(entries) && Keys(acc) == Keys(entries[..i]) {
      assert !HasKey(acc, entries[i].0);
      assert Keys(entries[..i + 1]) == Keys(entries[..i]) + [entries[i].0];
    }
  }

  /** No two registered classes `membersEqual` the same map. */
  lemma AtMostOneMatch(reg: Registry, members: MemberMap)
    requires WellFormed(reg) && UniqueKeys(members) && StrictMembers(members)
    ensures forall k1, k2 ::
              (k1 in reg && k2 in reg && MembersEqual(reg[k1].members, members)
               && MembersEqual(reg[k2].members, members)) ==> k1 == k2
  {
    forall k1, k2 | k1 in reg && k2 in reg && MembersEqual(reg[k1].members, members) && MembersEqual(reg[k2].members, members)
      ensures k1 == k2
    {
      if k1 != k2 {
        MembersEqualSymmetric(reg[k2].members, members);
        MembersEqualTransitive(reg[k1].members, members, reg[k2].members);
      }
    }
  }

  /** A new class whose members mention only registered classes keeps the
      registry closed. */
  lemma AddClassClosed(reg: Registry, name: string, members: MemberMap)
    requires name !in reg && MembersClosed(members, reg)
    ensures RegistryClosed(reg) ==> RegistryClosed(reg[name := NewClass(name, members)])
  {
    var reg' := reg[name := NewClass(name, members)];
    assert Grows(reg, reg');
    MembersClosedGrows(members, reg, reg');
    if RegistryClosed(reg) {
      forall k | k in reg ensures MembersClosed(reg[k].members, reg') {
        MembersClosedGrows(reg[k].members, reg, reg');
      }
    }
  }

  /** Registering a new class under a free key keeps the invariant, provided
      no registered class already matches its members. */
  lemma AddClass(reg: Registry, name: string, members: MemberMap)
    requires WellFormed(reg) && name !in reg
    requires UniqueKeys(members) && StrictMembers(members)
    requires forall k :: k in reg ==> !MembersEqual(reg[k].members, members)
    ensures var reg' := reg[name := NewClass(name, members)];
            WellFormed(reg') && Grows(reg, reg') && Closed(ClassType(NewClass(name, members)), reg')
            && |reg'| == |reg| + 1
  {
    var c := NewClass(name, members);
    var reg' := reg[name := c];
    assert Grows(reg, reg');
    forall k | k in reg ensures !MembersEqual(members, reg[k].members) {
      if MembersEqual(members, reg[k].members) {
        MembersEqualSymmetric(members, reg[k].members);
      }
    }
    assert reg'[name] == c;
    assert c in reg'.Values;
  }
}
