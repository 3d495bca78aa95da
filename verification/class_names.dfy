/** `TypeFactory.getClassName` and the reserved-word set it avoids.

    The loop tries `p`, then `p_Z, p_Y, …, p_A`, then `p_AZ, …, p_AA`, then
    `p_AAZ, …`: `Candidate(p, k)` is the name tried on the k-th test. The
    loop stops at the first candidate that is neither a registered key nor,
    lower-cased, a reserved word. It terminates because the candidates are
    pairwise distinct even after lower-casing, while only finitely many
    lower-cased names are taken (a pigeonhole argument). */
module ClassNames {
  import opened Util

  /** Apex reserved words, lower case (configuration data), kept as a
      union of small alphabetical groups. */
  const Reserved: set<string> := ReservedAC + ReservedDH + ReservedIN + ReservedOS + ReservedTZ

  const ReservedAC: set<string> := {
    "abstract", "activate", "and", "any", "array", "as", "asc", "autonomous", "begin", "bigdecimal",
    "blob", "break", "bulk", "by", "byte", "case", "cast", "catch", "char", "class", "collect",
    "commit", "const", "continue", "convertcurrency"
  }

  const ReservedDH: set<string> := {
    "decimal", "default", "delete", "desc", "do", "else", "end", "enum", "exit", "export",
    "extends", "false", "final", "finally", "float", "for", "from", "future", "global", "goto",
    "group", "having", "hint"
  }

  const ReservedIN: set<string> := {
    "if", "implements", "import", "inner", "insert", "instanceof", "interface", "into", "int",
    "join", "last_90_days", "last_month", "last_n_days", "last_week", "like", "limit", "list",
    "long", "loop", "map", "merge", "new", "next_90_days", "next_month", "next_n_days", "next_week",
    "not", "null", "nulls", "number"
  }

  const ReservedOS: set<string> := {
    "object", "of", "on", "or", "outer", "override", "package", "parallel", "pragma", "private",
    "protected", "public", "retrieve", "return", "returning", "rollback", "savepoint", "search",
    "select", "set", "short", "sort", "stat", "super", "switch", "synchronized", "system"
  }

  const ReservedTZ: set<string> := {
    "testmethod", "then", "this", "this_month", "this_week", "throw", "today", "tolabel",
    "tomorrow", "transaction", "trigger", "true", "try", "type", "undelete", "update", "upsert",
    "using", "virtual", "webservice", "when", "where", "while", "yesterday"
  }

  /** The loop condition against a given word set: a registered key, or a
      word of `reserved` once lower-cased. */
  predicate Clash(registered: set<string>, reserved: set<string>, name: string) {
    name in registered || Lower(name) in reserved
  }

  /** The loop condition of `getClassName`. */
  predicate Taken(registered: set<string>, name: string) {
    Clash(registered, Reserved, name)
  }

  // ---------------------------------------------------------------------
  // The candidate sequence
  // ---------------------------------------------------------------------

  /** The r-th suffix letter, counting down from 'Z'. */
  function Letter(r: nat): (c: char)
    requires r < 26
    ensures IsUpper(c)
  {
    ('Z' as int - r) as char
  }

  /** The value of the loop's `letter` variable after k iterations. */
  function LetterAt(k: nat): char {
    Letter(k % 26)
  }

  function Repeat(c: char, n: nat): (s: string)
    ensures |s| == n
    ensures forall i :: 0 <= i < n ==> s[i] == c
  {
    if n == 0 then [] else Repeat(c, n - 1) + [c]
  }

  /** The name tested on the k-th evaluation of the loop condition. */
  function Candidate(p: string, k: nat): string {
    if k == 0 then p
    else p + "_" + Repeat('A', (k - 1) / 26) + [Letter((k - 1) % 26)]
  }

  /** The start of the sequence, as the loop produces it. */
  lemma CandidateSequence(p: string)
    ensures Candidate(p, 1) == p + "_Z"
    ensures Candidate(p, 2) == p + "_Y"
    ensures Candidate(p, 26) == p + "_A"
    ensures Candidate(p, 27) == p + "_AZ"
    ensures Candidate(p, 52) == p + "_AA"
    ensures Candidate(p, 53) == p + "_AAZ"
  {
    assert Repeat('A', 1) == "A";
    assert Repeat('A', 2) == "AA";
  }

  // ---------------------------------------------------------------------
  // The loop body
  // ---------------------------------------------------------------------

  /** One iteration of the loop body: on the first pass append `_Z`; drop
      the last character unless it is `A`; append `letter`; step `letter`
      down, wrapping from `A` to `Z`. */
  function Advance(proposed: string, letter: char, first: bool): (string, char)
    requires IsUpper(letter)
    requires first || proposed != []
  {
    var p1 := if first then proposed + "_Z" else proposed;
    var p2 := if !EndsWith(p1, "A") then p1[..|p1| - 1] else p1;
    (p2 + [letter], if letter == 'A' then 'Z' else (letter as int - 1) as char)
  }

  /** The candidate after `q` full rounds of 26 letters and `r` more. */
  lemma CandidateAt(p: string, q: nat, r: nat)
    requires r < 26
    ensures Candidate(p, 26 * q + r + 1) == p + "_" + Repeat('A', q) + [Letter(r)]
    ensures LetterAt(26 * q + r) == Letter(r)
  {
    DivMod26(q, r);
  }

  lemma DivMod26(q: nat, r: nat)
    requires r < 26
    ensures (26 * q + r) / 26 == q && (26 * q + r) % 26 == r
  {
  }

  /** The first pass appends `_Z`, drops the `Z` and appends it again. */
  lemma AdvanceFirst(p: string)
    ensures Advance(Candidate(p, 0), LetterAt(0), true) == (Candidate(p, 1), LetterAt(1))
  {
    CandidateAt(p, 0, 0);
    CandidateAt(p, 0, 1);
    var p1 := p + "_Z";
    assert p1[|p1| - 1..] == "Z";
    assert p1[..|p1| - 1] == p + "_";
    assert p + "_" + Repeat('A', 0) == p + "_";
  }

  /** Within a round the last letter is replaced by the next one down. */
  lemma AdvanceWithin(p: string, q: nat, r: nat)
    requires r < 25
    ensures var k := 26 * q + r + 1;
            Advance(Candidate(p, k), LetterAt(k), false) == (Candidate(p, k + 1), LetterAt(k + 1))
  {
    CandidateAt(p, q, r);
    CandidateAt(p, q, r + 1);
    if r + 2 < 26 {
      CandidateAt(p, q, r + 2);
    } else {
      CandidateAt(p, q + 1, 0);
    }
    var prefix := p + "_" + Repeat('A', q);
    var c := prefix + [Letter(r)];
    assert c[|c| - 1..] == [Letter(r)];
    assert c[..|c| - 1] == prefix;
  }

  /** At the end of a round the final `A` is kept and `Z` is appended. */
  lemma AdvanceWrap(p: string, q: nat)
    ensures var k := 26 * q + 26;
            Advance(Candidate(p, k), LetterAt(k), false) == (Candidate(p, k + 1), LetterAt(k + 1))
  {
    CandidateAt(p, q, 25);
    CandidateAt(p, q + 1, 0);
    CandidateAt(p, q + 1, 1);
    var c := p + "_" + Repeat('A', q) + ['A'];
    assert c[|c| - 1..] == "A";
    assert Repeat('A', q + 1) == Repeat('A', q) + ['A'];
    assert c == p + "_" + Repeat('A', q + 1);
  }

  /** The loop body moves from the k-th candidate to the next one. */
  lemma AdvanceStep(p: string, k: nat)
    ensures Advance(Candidate(p, k), LetterAt(k), k == 0) == (Candidate(p, k + 1), LetterAt(k + 1))
  {
    if k == 0 {
      AdvanceFirst(p);
    } else {
      var q, r := (k - 1) / 26, (k - 1) % 26;
      assert k == 26 * q + r + 1;
      if r == 25 {
        AdvanceWrap(p, q);
      } else {
        AdvanceWithin(p, q, r);
      }
    }
  }

  // ---------------------------------------------------------------------
  // Distinctness and the pigeonhole bound
  // ---------------------------------------------------------------------

  lemma CandidateShape(p: string, k: nat)
    requires k > 0
    ensures |Candidate(p, k)| == |p| + 2 + (k - 1) / 26
    ensures Candidate(p, k)[|Candidate(p, k)| - 1] == Letter((k - 1) % 26)
  {
  }

  /** Lower-casing keeps the candidates apart. */
  lemma LowerCandidateInjective(p: string, k1: nat, k2: nat)
    requires Lower(Candidate(p, k1)) == Lower(Candidate(p, k2))
    ensures k1 == k2
  {
    var c1, c2 := Candidate(p, k1), Candidate(p, k2);
    assert |c1| == |c2|;
    if k1 > 0 && k2 > 0 {
      CandidateShape(p, k1);
      CandidateShape(p, k2);
      var n := |c1| - 1;
      assert Lower(c1)[n] == ToLower(Letter((k1 - 1) % 26));
      assert Lower(c2)[n] == ToLower(Letter((k2 - 1) % 26));
      assert (k1 - 1) / 26 == (k2 - 1) / 26;
      assert (k1 - 1) % 26 == (k2 - 1) % 26;
    } else if k1 > 0 {
      CandidateShape(p, k1);
    } else if k2 > 0 {
      CandidateShape(p, k2);
    }
  }

  /** The loop never tries the same name twice. */
  lemma CandidatesDistinct(p: string, k1: nat, k2: nat)
    requires k1 != k2
    ensures Candidate(p, k1) != Candidate(p, k2)
  {
    if Candidate(p, k1) == Candidate(p, k2) {
      LowerCandidateInjective(p, k1, k2);
    }
  }

  /** Every lower-cased name the loop condition rejects. */
  function TakenWords(registered: set<string>, reserved: set<string>): set<string> {
    (set s | s in registered :: Lower(s)) + reserved
  }

  function Tried(p: string, n: nat): set<string> {
    set j: nat | j < n :: Lower(Candidate(p, j))
  }

  lemma TriedSize(p: string, n: nat)
    ensures |Tried(p, n)| == n
  {
    var f := (j: nat) => Lower(Candidate(p, j));
    forall i, j | 0 <= i < j < n ensures f(i) != f(j) {
      if f(i) == f(j) {
        LowerCandidateInjective(p, i, j);
      }
    }
    InjectiveImageSize(f, n);
    var image := set j: nat | j < n :: f(j);
    forall w | w in Tried(p, n) ensures w in image {
      var j: nat :| j < n && w == Lower(Candidate(p, j));
      assert w == f(j);
    }
    forall w | w in image ensures w in Tried(p, n) {
      var j: nat :| j < n && w == f(j);
      assert w == Lower(Candidate(p, j));
    }
    assert Tried(p, n) == image;
  }

  /** If the first n candidates are all taken, there are at least n taken
      words. */
  lemma Pigeonhole(p: string, registered: set<string>, reserved: set<string>, n: nat)
    requires forall j :: 0 <= j < n ==> Clash(registered, reserved, Candidate(p, j))
    ensures n <= |TakenWords(registered, reserved)|
  {
    TriedSize(p, n);
    assert Tried(p, n) <= TakenWords(registered, reserved);
    SubsetSize(Tried(p, n), TakenWords(registered, reserved));
  }

  // ---------------------------------------------------------------------
  // getClassName
  // ---------------------------------------------------------------------

  /** A failed test at step k: at least k + 1 names are taken, and the loop
      body produces the next candidate and letter. */
  lemma SearchStep(registered: set<string>, reserved: set<string>, p: string, k: nat)
    requires forall j :: 0 <= j < k ==> Clash(registered, reserved, Candidate(p, j))
    requires Clash(registered, reserved, Candidate(p, k))
    ensures k + 1 <= |TakenWords(registered, reserved)|
    ensures forall j :: 0 <= j < k + 1 ==> Clash(registered, reserved, Candidate(p, j))
    ensures IsUpper(LetterAt(k)) && (k == 0 || Candidate(p, k) != [])
    ensures Advance(Candidate(p, k), LetterAt(k), k == 0) == (Candidate(p, k + 1), LetterAt(k + 1))
  {
    Pigeonhole(p, registered, reserved, k + 1);
    AdvanceStep(p, k);
    if k > 0 {
      CandidateShape(p, k);
    }
  }

  /** The `while` loop, from its state after k iterations, for any finite
      word set. */
  function NameSearch(registered: set<string>, reserved: set<string>, ghost p: string,
                      proposed: string, letter: char, first: bool, ghost k: nat): (r: string)
    requires proposed == Candidate(p, k) && letter == LetterAt(k) && first == (k == 0)
    requires forall j :: 0 <= j < k ==> Clash(registered, reserved, Candidate(p, j))
    ensures !Clash(registered, reserved, r)
    ensures exists n: nat :: k <= n && r == Candidate(p, n)
                             && forall j :: 0 <= j < n ==> Clash(registered, reserved, Candidate(p, j))
    decreases |TakenWords(registered, reserved)| - k
  {
    if !Clash(registered, reserved, proposed) then
      proposed
    else
      SearchStep(registered, reserved, p, k);
      var (next, nextLetter) := Advance(proposed, letter, first);
      NameSearch(registered, reserved, p, next, nextLetter, false, k + 1)
  }

  /** `getClassName(proposed)` against the registered keys and a given
      reserved-word set: the first candidate that is free, which is
      `proposed` itself when that is free. */
  function FreshName(registered: set<string>, reserved: set<string>, proposed: string): (r: string)
    ensures !Clash(registered, reserved, r)
    ensures !Clash(registered, reserved, proposed) ==> r == proposed
    ensures exists n: nat :: r == Candidate(proposed, n)
                             && forall j :: 0 <= j < n ==> Clash(registered, reserved, Candidate(proposed, j))
  {
    NameSearch(registered, reserved, proposed, proposed, 'Z', true, 0)
  }

  /** `getClassName(proposed)` with the Apex reserved words. */
  function GetClassName(registered: set<string>, proposed: string): (r: string)
    ensures !Taken(registered, r)
    ensures !Taken(registered, proposed) ==> r == proposed
    ensures exists n: nat :: r == Candidate(proposed, n) && forall j :: 0 <= j < n ==> Taken(registered, Candidate(proposed, j))
  {
    FreshName(registered, Reserved, proposed)
  }

  /** The converse of `FreshName`'s contract: whichever candidate is the
      first free one is the answer, so the answer depends on the registered
      keys, the reserved words and the proposal alone. */
  lemma FreshNameIs(registered: set<string>, reserved: set<string>, p: string, n: nat)
    requires !Clash(registered, reserved, Candidate(p, n))
    requires forall j :: 0 <= j < n ==> Clash(registered, reserved, Candidate(p, j))
    ensures FreshName(registered, reserved, p) == Candidate(p, n)
  {
    var r := FreshName(registered, reserved, p);
    var m: nat :| r == Candidate(p, m) && forall j :: 0 <= j < m ==> Clash(registered, reserved, Candidate(p, j));
    if m != n {
      CandidatesDistinct(p, m, n);
    }
  }

  /** The same for the Apex reserved words. */
  lemma GetClassNameIs(registered: set<string>, p: string, n: nat)
    requires !Taken(registered, Candidate(p, n))
    requires forall j :: 0 <= j < n ==> Taken(registered, Candidate(p, j))
    ensures GetClassName(registered, p) == Candidate(p, n)
  {
    FreshNameIs(registered, Reserved, p, n);
  }

  lemma InitialsAC(w: string)
    requires w in ReservedAC
    ensures |w| > 0 && 'a' <= w[0] <= 'c'
  {
  }

  lemma InitialsDH(w: string)
    requires w in ReservedDH
    ensures |w| > 0 && 'd' <= w[0] <= 'h'
  {
  }

  lemma InitialsIN(w: string)
    requires w in ReservedIN
    ensures |w| > 0 && 'i' <= w[0] <= 'n'
  {
  }

  lemma InitialsOS(w: string)
    requires w in ReservedOS
    ensures |w| > 0 && 'o' <= w[0] <= 's'
  {
  }

  lemma InitialsTZ(w: string)
    requires w in ReservedTZ
    ensures |w| > 0 && 't' <= w[0] <= 'z'
  {
  }

  /** Membership in `Reserved` is decided by the group of the first letter. */
  lemma ReservedByInitial(w: string)
    ensures w in Reserved ==> |w| > 0 && 'a' <= w[0] <= 'z'
    ensures |w| > 0 && 'a' <= w[0] <= 'c' ==> (w in Reserved <==> w in ReservedAC)
    ensures |w| > 0 && 'd' <= w[0] <= 'h' ==> (w in Reserved <==> w in ReservedDH)
    ensures |w| > 0 && 'i' <= w[0] <= 'n' ==> (w in Reserved <==> w in ReservedIN)
    ensures |w| > 0 && 'o' <= w[0] <= 's' ==> (w in Reserved <==> w in ReservedOS)
    ensures |w| > 0 && 't' <= w[0] <= 'z' ==> (w in Reserved <==> w in ReservedTZ)
  {
    if w in ReservedAC {
      InitialsAC(w);
    }
    if w in ReservedDH {
      InitialsDH(w);
    }
    if w in ReservedIN {
      InitialsIN(w);
    }
    if w in ReservedOS {
      InitialsOS(w);
    }
    if w in ReservedTZ {
      InitialsTZ(w);
    }
  }

  lemma ClassIsReserved()
    ensures "class" in Reserved
  {
    assert "class" in ReservedAC;
  }

  lemma ClassZIsFree()
    ensures "class_z" !in Reserved
  {
    assert "class_z" !in ReservedAC;
    assert "class_z" !in ReservedDH + ReservedIN + ReservedOS + ReservedTZ by {
      ReservedByInitial("class_z");
    }
  }

  lemma FooIsFree()
    ensures "foo" !in Reserved
  {
    assert "foo" !in ReservedDH;
    assert "foo" !in ReservedAC + ReservedIN + ReservedOS + ReservedTZ by {
      ReservedByInitial("foo");
    }
  }

  lemma FooYIsFree()
    ensures "foo_y" !in Reserved
  {
    assert "foo_y" !in ReservedDH;
    assert "foo_y" !in ReservedAC + ReservedIN + ReservedOS + ReservedTZ by {
      ReservedByInitial("foo_y");
    }
  }

  lemma RowIsFree()
    ensures "row" !in Reserved
  {
    assert "row" !in ReservedOS;
    assert "row" !in ReservedAC + ReservedDH + ReservedIN + ReservedTZ by {
      ReservedByInitial("row");
    }
  }

  lemma LowerClass()
    ensures Lower("class") == "class" == Lower("Class")
  {
  }

  lemma LowerClassZ()
    ensures Lower("class_Z") == "class_z" == Lower("Class_Z")
  {
  }

  lemma LowerFoo()
    ensures Lower("Foo") == "foo" == Lower("foo")
  {
  }

  lemma LowerFooY()
    ensures Lower("Foo_Y") == "foo_y"
  {
  }

  lemma LowerRow()
    ensures Lower("row") == "row"
  {
  }

  /** The first suffixed candidate, spelled out. */
  lemma FirstSuffix(p: string)
    ensures Candidate(p, 1) == p + "_Z"
  {
    CandidateAt(p, 0, 0);
    assert p + "_" + Repeat('A', 0) == p + "_";
  }

  /** A reserved proposal gets the `_Z` suffix, for any word set that
      reserves `class` but not `class_z`. */
  lemma ReservedProposalFor(reserved: set<string>)
    requires "class" in reserved && "class_z" !in reserved
    ensures FreshName({}, reserved, "class") == "class_Z"
  {
    LowerClass();
    LowerClassZ();
    assert Candidate("class", 1) == "class_Z" by {
      FirstSuffix("class");
      assert "class" + "_Z" == "class_Z";
    }
    assert Clash({}, reserved, Candidate("class", 0));
    FreshNameIs({}, reserved, "class", 1);
  }

  /** The same with the proposal capitalised: the reserved test lower-cases. */
  lemma ReservedProposalAnyCaseFor(reserved: set<string>)
    requires "class" in reserved && "class_z" !in reserved
    ensures FreshName({}, reserved, "Class") == "Class_Z"
  {
    LowerClass();
    LowerClassZ();
    assert Candidate("Class", 1) == "Class_Z" by {
      FirstSuffix("Class");
      assert "Class" + "_Z" == "Class_Z";
    }
    assert Clash({}, reserved, Candidate("Class", 0));
    FreshNameIs({}, reserved, "Class", 1);
  }

  /** A reserved proposal gets the `_Z` suffix. */
  lemma ReservedProposal()
    ensures GetClassName({}, "class") == "class_Z"
  {
    ClassIsReserved();
    ClassZIsFree();
    ReservedProposalFor(Reserved);
  }

  /** Reserved words are matched whatever their case. */
  lemma ReservedProposalAnyCase()
    ensures GetClassName({}, "Class") == "Class_Z"
  {
    ClassIsReserved();
    ClassZIsFree();
    ReservedProposalAnyCaseFor(Reserved);
  }

  /** With `Foo` and `Foo_Z` registered, `Foo` moves on to `Foo_Y`, for any
      word set that does not reserve `foo_y`. */
  lemma RegisteredProposalFor(reserved: set<string>)
    requires "foo_y" !in reserved
    ensures FreshName({"Foo", "Foo_Z"}, reserved, "Foo") == "Foo_Y"
  {
    LowerFooY();
    var reg := {"Foo", "Foo_Z"};
    var c1, c2 := Candidate("Foo", 1), Candidate("Foo", 2);
    assert c1 == "Foo_Z" && c2 == "Foo_Y" by {
      FirstSuffix("Foo");
      CandidateAt("Foo", 0, 1);
      assert "Foo" + "_" + Repeat('A', 0) + ['Y'] == "Foo_Y";
    }
    assert !Clash(reg, reserved, c2);
    forall j | 0 <= j < 2 ensures Clash(reg, reserved, Candidate("Foo", j)) {
      if j == 1 {
        assert Candidate("Foo", j) == c1;
      }
    }
    FreshNameIs(reg, reserved, "Foo", 2);
  }

  /** A clash with `_Z` too moves on to `_Y`. */
  lemma RegisteredProposal()
    ensures GetClassName({"Foo", "Foo_Z"}, "Foo") == "Foo_Y"
  {
    FooYIsFree();
    RegisteredProposalFor(Reserved);
  }

  /** A proposal that is neither registered nor reserved is kept. */
  lemma FreeProposal()
    ensures GetClassName({}, "row") == "row"
  {
    LowerRow();
    RowIsFree();
  }

  /** Registered keys, unlike reserved words, are compared with case. */
  lemma RegisteredKeysKeepCase()
    ensures GetClassName({"foo"}, "Foo") == "Foo"
  {
    LowerFoo();
    FooIsFree();
    assert !Taken({"foo"}, "Foo");
  }
}
