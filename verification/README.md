# json2apex type inference, in Dafny

This project models the core of json2apex. That tool reads a sample JSON
document and generates Apex classes that can hold it. The core is
`TypeFactory`. It walks an already-decoded JSON value and gives every part
of it an Apex type:

- a string, integer, double or boolean becomes the matching `ApexPrimative`
  constant;
- a list becomes an `ApexList` of its items' common type, or of `Object`
  as soon as two item types disagree;
- an object becomes an `ApexClass`. An already-registered class is reused
  when its member map is equal. Otherwise a new class is registered under
  a name from `getClassName`, which avoids registered keys and Apex
  reserved words by appending `_Z`, `_Y`, … `_A`, `_AZ`, ….

The model also covers:

- the type nodes `ApexPrimative`, `ApexPrimitive`, `ApexList` and
  `ApexClass`, each with its own `equals`, `toString` and
  parser-expression behaviour;
- the field-name pair `ApexMember`;
- the template helper `escapeApex`.

The files come from different revisions, and each is modelled by its own
text. The factory builds types from the strict `ApexPrimative` constants
and has no case for `Long`. The wildcard `ApexPrimitive` and `ApexMember`
are modelled on their own, because the factory does not use them.

## Layout

| file | module | contents |
|---|---|---|
| `util.dfy` | `Util` | `Option`/`Result`; ASCII case mapping; Java's literal `String.replace`; Java `int` wrap-around and `String.hashCode` |
| `apex_primative.dfy` | `Primatives` | the six strict primitive constants |
| `apex_primitive.dfy` | `Primitives` | the wildcard primitives, with parser templates |
| `apex_types.dfy` | `ApexTypes` | the `Type` sum type, each Java class's `equals`, `toString`, `itemType()`, `canBePromotedTo` |
| `apex_class.dfy` | `Classes` | member maps as `LinkedHashMap`s; `ApexClass` construction; `membersEqual` |
| `apex_member.dfy` | `Members` | `ApexMember` |
| `class_names.dfy` | `ClassNames` | the reserved words; `getClassName` and its termination proof |
| `type_factory.dfy` | `Factory` | JSON values; the class registry; `typeOfObject`, `typeOfCollection`, `typeOfMap`, `makeMembers` |
| `factory_examples.dfy` | `FactoryExamples` | the factory on small concrete inputs |
| `apex_extensions.dfy` | `Extensions` | `escapeApex` |

The factory's only state is its `classes` map. It is threaded through
the functions as an explicit `Registry`. Every call takes the registry
before the call and returns the registry after it. An exception is an
`Err` result. `WellFormed` is the invariant that every successful call
keeps:

- each key maps to a class named by the capitalised key;
- member maps have unique keys and strict types;
- no two registered classes have equal member maps.

The factory functions take the reserved-word set as a parameter
`reserved`. Their contracts therefore hold for any word set.
`TypeOfObjectApex` is the instance the Java factory runs, with
`ClassNames.Reserved`, the list in `TypeFactory`; the `...Apex` examples
use it.

## Model

| member | source | states |
|---|---|---|
| Factory.TypeOfObject | app/models/TypeFactory.java:48-63 | Strings, integers, doubles and booleans give the STRING, INT, DOUBLE and BOOLEAN constants with the registry unchanged. A list gives a list type and an object gives a class type. A JSON null is the null error; a long, or any other boxed class, is the unexpected-type error naming that class. A value with none of these anywhere in it always succeeds. A success keeps the registry invariant and only adds classes. The result is strict, mentions only registered classes, and is never the bare OBJECT constant. |
| Factory.TypeOfCollection | app/models/TypeFactory.java:66-78 | An empty list has item type OBJECT and leaves the registry unchanged. Any item type other than OBJECT is the first item's type. A list of supported values always succeeds. CollectionUniform, CollectionMismatch and CollectionFails state the rest against the reference. |
| Factory.TypeOfItems | app/models/TypeFactory.java:69-77 | The loop over the remaining items ends with either the first item's type or OBJECT, keeping the registry invariant. |
| Factory.TypeOfObjectOnObject | app/models/TypeFactory.java:51-52 | On a JSON object, typeOfObject is typeOfMap. |
| Factory.TypeOfObjectOnArray | app/models/TypeFactory.java:49-50 | On a JSON array, typeOfObject is a list of typeOfCollection's item type with typeOfCollection's registry, and it throws exactly when typeOfCollection throws, with the same error. |
| Factory.CollectionUniform | app/models/TypeFactory.java:66-78 | Checked against the independent item-by-item reference TypeRange: when every item's type equals the first item's, the result is the first item's type with the registry left after typing every item. |
| Factory.CollectionMismatch | app/models/TypeFactory.java:69-75 | When item m is the first whose type differs from the first item's, the result is OBJECT with the registry the reference leaves after items 0..m. The reference is run up to m alone, so the later items are never typed: they cannot fail and register no class. |
| Factory.ItemsUniform | app/models/TypeFactory.java:69-77 | The loop over items that all equal t returns t with the reference's final registry (induction over the items). |
| Factory.CollectionFails | app/models/TypeFactory.java:66-78 | When every item before m has the first item's type and typing item m (with the registry the reference leaves after items 0..m-1) throws, the list throws that same error. With m = 0 the first item throws. Together with CollectionUniform and CollectionMismatch this covers every list. |
| Factory.ItemsFail | app/models/TypeFactory.java:69-71 | The loop over items that all equal t reaches the throwing item m and ends with its error (induction over the items). |
| Factory.ItemsMismatch | app/models/TypeFactory.java:73-74 | The loop returns OBJECT at the first mismatching item, with the reference's registry up to that item (induction over the items). |
| Factory.TypeRange | app/models/TypeFactory.java:69-70 | The reference gives one type per item and keeps the registry invariant. It only adds classes, and succeeds on supported items. |
| Factory.TypeOfMap | app/models/TypeFactory.java:81-92 | Success implies that the member map was built. Then either a registered class with an equal member map is returned with the registry unchanged, or exactly one class is added under the fresh name from getClassName, a key that was free. The registry invariant is kept, and a supported object always succeeds. |
| Factory.TypeOfMapReuses | app/models/TypeFactory.java:84-87 | If a registered class's members equal the new member map, typeOfMap returns that class and registers nothing. |
| Factory.TypeOfMapAdds | app/models/TypeFactory.java:88-91 | If no registered class matches, typeOfMap returns new ApexClass(getClassName(p), members) and registers it under that name. |
| Factory.FindClass | app/models/TypeFactory.java:84-87 | The search returns a registered class whose members equal the given map, or none exists. |
| Factory.FindClassFinds | app/models/TypeFactory.java:84-87 | Whatever the iteration order, the search finds the one matching class. |
| Factory.AtMostOneMatch | app/models/TypeFactory.java:84-91 | In a well-formed registry at most one class matches a member map, so HashMap iteration order cannot change the result. |
| Factory.AddClass | app/models/TypeFactory.java:88-90 | Registering a class under a free key, when no registered class matches it, keeps the invariant and grows the registry by one. |
| Factory.AddClassClosed | app/models/TypeFactory.java:88-90 | A new class whose members mention only registered classes keeps the registry closed. |
| Factory.MakeMembers | app/models/TypeFactory.java:95-102 | The member map has unique keys and strict types, and mentions only registered classes. For an object with distinct keys, the member keys are the object's keys verbatim and in document order. A supported object always succeeds. |
| Factory.MakeMembersIsReference | app/models/TypeFactory.java:95-102 | Checked against the independent entry-by-entry reference TypeEntries: for an object with distinct keys, makeMembers fails exactly when some entry fails. Otherwise the member map pairs every key, in document order, with the type inferred for its value under that key as property name, and the registry is the one left after typing all entries. |
| Factory.MakeMembersFrom | app/models/TypeFactory.java:97-100 | The loop from entry i on appends each remaining key, paired with the reference's type for it, to the members built so far (induction over the entries). |
| Factory.PutKeyOrder | app/models/TypeFactory.java:97-99 | With distinct JSON keys, each put appends, so the member keys follow the entries. |
| Factory.PutMember | app/models/TypeFactory.java:98-99 | Putting a strict, registered type keeps the member map's invariants. |
| Factory.GetClasses | app/models/TypeFactory.java:43-45 | The classes returned are exactly the registered ones, and there are no more of them than keys. |
| Factory.EmptyRegistryWellFormed | app/models/TypeFactory.java:37-39 | The new factory's empty registry satisfies the invariant. |
| Factory.ClosedGrows | app/models/TypeFactory.java:90 | Registration only adds, so a type that mentioned only registered classes still does. |
| Classes.Put | app/models/TypeFactory.java:99 | LinkedHashMap.put: a present key keeps its position and takes the new value, and an absent key is appended. No other entry changes, and unique keys stay unique. |
| Classes.IndexOf | app/models/ApexClass.java:47 | The position of a key is its first occurrence. |
| Classes.Capitalize | app/models/ApexClass.java:11 | A name longer than one character has its first character upper-cased and the rest kept. Shorter names are kept as given. |
| Classes.CapitalizeIdempotent | app/models/ApexClass.java:11 | Capitalising an already capitalised name changes nothing. |
| Classes.NewClassAccessors | app/models/ApexClass.java:11-25 | toString of a constructed class is the capitalised name, and getMembers is the very map passed in, in its order. |
| Classes.ClassEqualityIgnoresMembers | app/models/ApexClass.java:37-43 | Two classes are equal iff their capitalised names are, whatever their members. "foo" and "Foo" give equal classes. |
| Classes.MembersEqualIff | app/models/ApexClass.java:46-48 | For maps with unique keys, membersEqual holds iff the key sets are equal and the values at every key are equal. Entry order plays no part. |
| Classes.MembersEqualExample | app/models/ApexClass.java:46-48 | Maps with the same entries in a different order are membersEqual, and a map is not membersEqual to a proper prefix of itself. |
| Classes.MembersEqualReflexive | app/models/ApexClass.java:46-48 | A map is membersEqual to itself. |
| Classes.MembersEqualSymmetric | app/models/ApexClass.java:46-48 | On strict maps with unique keys, membersEqual is symmetric. |
| Classes.MembersEqualTransitive | app/models/ApexClass.java:46-48 | On strict maps with unique keys, membersEqual is transitive. |
| Classes.KeySetSize | app/models/ApexClass.java:46-48 | A map with unique keys has as many distinct keys as entries. |
| ApexTypes.ItemTypeName | app/models/ApexList.java:17-19 | itemType() is the list's own name with the surrounding "List<" and ">" removed. |
| ApexTypes.EqualsIsIdentityOnPlain | app/models/ApexList.java:29-36 | On types built from ApexPrimative constants and lists, equals is structural identity. In particular a list equals only a list with an equal item type. |
| ApexTypes.EqualsReflexive | app/models/ApexList.java:29-36 | Every type equals itself. |
| ApexTypes.EqualsSymmetric | app/models/ApexList.java:29-36 | On strict types, equals is symmetric. |
| ApexTypes.EqualsTransitive | app/models/ApexList.java:29-36 | On strict types, equals is transitive. |
| ApexTypes.EqualsKeepsStrict | app/models/ApexList.java:29-36 | A strict type equals only strict types. |
| ApexTypes.EqualsPrintsSame | app/models/ApexList.java:13-15 | Equal strict types print the same name, lists included. |
| ApexTypes.PrintsSameButUnequal | app/models/ApexClass.java:37-43 | The converse fails: a class named String prints like the String primitive but is unequal to it, both ways. |
| ApexTypes.PrimativeEqualsIsIdentity | app/models/ApexPrimative.java:33-39 | ApexPrimative.equals holds exactly for the same constant. Object is no wildcard here, and the six constants are pairwise unequal. |
| ApexTypes.WildcardEqualsEverything | app/models/ApexPrimitive.java:49-52 | ApexPrimitive.OBJECT equals every type, of any class. |
| ApexTypes.PrimitiveEqualsIff | app/models/ApexPrimitive.java:49-57 | A non-Object ApexPrimitive equals exactly itself and OBJECT, never a list, a class or an ApexPrimative. |
| ApexTypes.WildcardIsAsymmetric | app/models/ApexPrimitive.java:49-57 | OBJECT equals every list, but no list equals OBJECT. ApexPrimitive.INT does not equal ApexPrimative.INT. |
| ApexTypes.CanBePromotedToIff | app/models/ApexPrimitive.java:44-46 | canBePromotedTo(a, b) holds iff a is INT or OBJECT and b is LONG or OBJECT. |
| ApexTypes.PromotionIsOneWay | app/models/ApexPrimitive.java:44-46 | INT promotes to LONG, LONG does not promote to INT, and the wildcard satisfies either side. |
| Primatives.ConstantsAreSixDistinctNames | app/models/ApexPrimative.java:5-10 | There are exactly six constants, and no two share a name. |
| Primatives.HashCode | app/models/ApexPrimative.java:25-30 | hashCode is a 32-bit int that depends only on the name, so equal constants hash alike. |
| Primitives.GetParserExpr | app/models/ApexPrimitive.java:35-37 | getParserExpr(p) is p followed by the constant's parser call: the one placeholder is replaced, and nothing else changes. |
| Primitives.ParserExprExamples | app/models/ApexPrimitive.java:7-13 | STRING gives p + ".getText()", LONG gives p + ".getLongValue()", and additionalMethods is empty. |
| Primitives.HashCode | app/models/ApexPrimitive.java:30-32 | hashCode is a 32-bit int (Objects.hash of name and template). |
| Primitives.TypeNamesDistinct | app/models/ApexPrimitive.java:7-13 | No two constants share a type name. |
| Members.GetMemberComment | app/models/ApexMember.java:22-27 | The comment is empty iff the JSON and Apex names agree. Otherwise it is "// in json: " followed by the JSON name. |
| Members.EqualsIsIdentity | app/models/ApexMember.java:40-47 | Members are equal iff both names match, and equal members hash alike. The same JSON name with another Apex name is a different member that prints the same. |
| Members.HashCode | app/models/ApexMember.java:35-37 | hashCode is a 32-bit int. |
| ClassNames.FreshName | app/models/TypeFactory.java:104-116 | The result is neither a registered key nor, lower-cased, a reserved word. A free proposal is returned unchanged. Otherwise the result is the first free candidate, every earlier candidate being taken. |
| ClassNames.FreshNameIs | app/models/TypeFactory.java:104-116 | Conversely, whichever candidate is the first free one is the answer. |
| ClassNames.GetClassName | app/models/TypeFactory.java:104-116 | With the Apex reserved words: a free name is returned unchanged, and otherwise the result is the first free candidate. |
| ClassNames.GetClassNameIs | app/models/TypeFactory.java:104-116 | The first free candidate is the answer, for the Apex reserved words. |
| ClassNames.NameSearch | app/models/TypeFactory.java:107-114 | The while loop from any reachable state ends at the first free candidate. It terminates because it can try no more names than there are taken words. |
| ClassNames.CandidateSequence | app/models/TypeFactory.java:108-112 | The first candidates are p, p_Z, p_Y, then p_A (26th), p_AZ, p_AA (52nd) and p_AAZ. |
| ClassNames.AdvanceStep | app/models/TypeFactory.java:108-112 | One pass of the loop body turns the k-th candidate and letter into the next candidate and letter. |
| ClassNames.AdvanceFirst | app/models/TypeFactory.java:108-112 | The first pass appends _Z, drops the Z and appends it again. |
| ClassNames.AdvanceWithin | app/models/TypeFactory.java:109-112 | Within a round, the last letter is replaced by the next one down. |
| ClassNames.AdvanceWrap | app/models/TypeFactory.java:109-112 | At the end of a round the final A is kept and Z is appended. |
| ClassNames.CandidatesDistinct | app/models/TypeFactory.java:108-112 | The loop never tries the same name twice. |
| ClassNames.LowerCandidateInjective | app/models/TypeFactory.java:107-112 | The candidates stay pairwise distinct after lower-casing. |
| ClassNames.TriedSize | app/models/TypeFactory.java:107-112 | After n failed tests, n distinct lower-cased names have been tried. |
| ClassNames.Pigeonhole | app/models/TypeFactory.java:107 | If the first n candidates are all taken, at least n words are taken. |
| ClassNames.SearchStep | app/models/TypeFactory.java:107-113 | A failed test at step k means that at least k + 1 words are taken, and the body yields the next candidate. |
| ClassNames.ReservedByInitial | app/models/TypeFactory.java:12-34 | Every reserved word is a non-empty lower-case-initial word in its alphabetical group. |
| ClassNames.ReservedProposal | app/models/TypeFactory.java:107-108 | The reserved proposal "class" becomes "class_Z". |
| ClassNames.ReservedProposalAnyCase | app/models/TypeFactory.java:107 | Reserved words match whatever the proposal's case: "Class" becomes "Class_Z". |
| ClassNames.RegisteredProposal | app/models/TypeFactory.java:107-112 | With Foo and Foo_Z registered, "Foo" becomes "Foo_Y". |
| ClassNames.FreeProposal | app/models/TypeFactory.java:107-115 | A free name such as "row" is kept. |
| ClassNames.RegisteredKeysKeepCase | app/models/TypeFactory.java:107 | Registered keys are compared with case: "Foo" is free next to the key "foo". |
| Extensions.EscapeApex | app/ext/ApexExtensions.java:7-9 | The replace chain equals the one-pass reference escaping. The output has no CR or LF, and every double quote in it is preceded by a backslash. |
| Extensions.EscapeApexPlain | app/ext/ApexExtensions.java:7-9 | A string with no backslash, quote, CR or LF is returned unchanged. |
| Extensions.ChainMatchesReference | app/ext/ApexExtensions.java:8 | The five replace-alls, backslashes first, compute the left-to-right escaping: a CRLF pair is one \n and every other special character is escaped once. |
| Extensions.EscapedIsSafe | app/ext/ApexExtensions.java:8 | The escaping leaves no raw line break, and every quote is preceded by a backslash. |
| Extensions.EscapedPlain | app/ext/ApexExtensions.java:8 | A string with no special character is its own escaping. |
| Util.ReplaceCharIsMap | app/ext/ApexExtensions.java:8 | Replacing a single character is a character-by-character map. |
| Util.ReplaceAllAppend2 | app/ext/ApexExtensions.java:8 | Replacing the CRLF pair distributes over concatenation unless a pair straddles the seam. |
| Util.Lower | app/models/TypeFactory.java:107 | toLowerCase keeps the length and lower-cases each character. |
| Util.StringHash | app/models/ApexPrimative.java:28 | String.hashCode stays within 32-bit int range. |
| FactoryExamples.MixedListIsObjectList | app/models/TypeFactory.java:73-74 | [1, "x", null] is a List of Object: typing stops at "x", so the null is never examined. |
| FactoryExamples.NullFails | app/models/TypeFactory.java:62 | A JSON null is an error. |
| FactoryExamples.LongItemFails | app/models/TypeFactory.java:62 | A long inside a list fails the whole list. |
| FactoryExamples.IntListIsIntList | app/models/TypeFactory.java:66-77 | [1, 2] is a List of Integer. |
| FactoryExamples.FirstObjectRegistered | app/models/TypeFactory.java:88-91 | A first object under "row" registers class Row under key "row". |
| FactoryExamples.SameShapeReused | app/models/TypeFactory.java:84-87 | A second object with the same members reuses the class, and the registry does not change. |
| FactoryExamples.ReservedNameSuffixed | app/models/TypeFactory.java:88-91 | An object under the reserved name "class" registers Class_Z under the key "class_Z". |
| FactoryExamples.ReservedNameSuffixedApex | app/models/TypeFactory.java:12-34 | The same with the Apex reserved words. |
| FactoryExamples.DisplayNameCollision | app/models/TypeFactory.java:88-90 | An object under "Foo" next to the key "foo" is registered under "Foo", and both classes are named Foo. |
| FactoryExamples.DisplayNameCollisionApex | app/models/TypeFactory.java:88-90 | The same with the Apex reserved words. |
| FactoryExamples.CollidingClassesAreEqual | app/models/ApexClass.java:42 | The two Foo classes are equal, although their member maps are not membersEqual. |

## Left out

- Null arguments. The model has no Java null, so the constructors' NullPointerException guards (ApexClass.java:9-10, ApexList.java:6, ApexPrimative.java:13) are not modelled. A JSON null in the data is modelled, and is the `NullValue` error.
- Exception messages. An error keeps only its kind: null, or the Java class of the unexpected value. The message text is dropped.
- The registry after an exception. A failed call returns no registry, because the caller abandons the factory; classes registered before the throw are not modelled.
- The ApexClass and ApexList hash codes. They depend on Java's `Map.hashCode` over member maps. Neither is consistent with its `equals`; ApexClass's hashes members that `equals` ignores. `ApexPrimitive.hashCode` is modelled, but its disagreement with the wildcard `equals` (OBJECT equals INT while their hashes differ) is not proved, because it needs `String.hashCode` evaluated on literals.
- Unicode case mapping. `toUpperCase` and `toLowerCase` are ASCII case mapping.
- Double values. They are kept as an opaque tag, with no floating-point reasoning.
- Integer versus long. Which JSON numbers the decoder boxes as `Long` is the decoder's choice. The model takes the boxed kind as given in `Value`. Any other boxed class, such as the `BigInteger` of an integer beyond 64 bits, is the `Other` case and gets the unexpected-type error.
- Util.StringHash: hashes Dafny characters (Unicode scalar values), while Java's `String.hashCode` hashes UTF-16 code units. The two agree on the Basic Multilingual Plane and differ for characters beyond it, which a surrogate pair counts twice; `Members.HashCode` and the `Primatives`/`Primitives` hash codes inherit this.
- ApexType's abstract methods. The strict primitives, lists and classes do not implement `getParserExpr` or `additionalMethods`, so only `ApexPrimitive` has them.
- The controller, templates, JSON parsing and packaging (app/controllers/Application.java) and the integration scripts. They are I/O and network code around the core.
- test/models/ListsTest.java. It expects Integer-to-Long promotion and `ApexPrimitive` results from a newer factory. The factory modelled here throws on a long, and its `ApexPrimative.INT` does not equal `ApexPrimitive.INT` (`ApexTypes.WildcardIsAsymmetric`).
- The reserved words as a fixed set. The Java factory always uses its fixed list; the model leaves it as a parameter `reserved` of the factory functions, and `Factory.TypeOfObjectApex` and the `...Apex` examples pass `ClassNames.Reserved`.
- Reserved keys in the invariant. The registry invariant does not say that keys avoid reserved words. Keys come from `getClassName` and so avoid them, but no contract relies on that.
- The display-name collision is reproduced, not corrected. Registry keys compare with case but class names are capitalised, so `foo` and `Foo` are registered as two classes named `Foo` (`FactoryExamples.DisplayNameCollision`).
