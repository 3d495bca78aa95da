/** Small building blocks shared by the model: failure-compatible wrappers,
    ASCII case mapping, Java's literal `String.replace` and Java's 32-bit
    string hash. */
module Util {

  /** An optional value, used where the Java code returns a value or nothing. */
  datatype Option<+T> = None | Some(value: T)

  /** The outcome of a computation that may throw: `Err` stands for the
      exception, `Ok` for a normal return. Usable with `:-`. */
  datatype Result<+T, +E> = Ok(value: T) | Err(error: E) {
    predicate IsFailure() {
      Err?
    }

    function PropagateFailure<U>(): Result<U, E>
      requires Err?
    {
      Err(error)
    }

    function Extract(): T
      requires Ok?
    {
      value
    }
  }

  // ---------------------------------------------------------------------
  // ASCII case mapping (the model of Java's toUpperCase / toLowerCase)
  // ---------------------------------------------------------------------

  predicate IsUpper(c: char) {
    'A' <= c <= 'Z'
  }

  predicate IsLower(c: char) {
    'a' <= c <= 'z'
  }

  function ToUpper(c: char): char {
    if IsLower(c) then (c as int - 32) as char else c
  }

  function ToLower(c: char): char {
    if IsUpper(c) then (c as int + 32) as char else c
  }

  /** `s.toLowerCase()`, character by character. */
  function Lower(s: string): (r: string)
    ensures |r| == |s|
    ensures forall i :: 0 <= i < |s| ==> r[i] == ToLower(s[i])
  {
    if s == [] then [] else [ToLower(s[0])] + Lower(s[1..])
  }

  lemma LowerAppend(a: string, b: string)
    ensures Lower(a + b) == Lower(a) + Lower(b)
  {
  }

  // ---------------------------------------------------------------------
  // Prefixes and suffixes
  // ---------------------------------------------------------------------

  predicate StartsWith(s: string, prefix: string) {
    |prefix| <= |s| && s[..|prefix|] == prefix
  }

  predicate EndsWith(s: string, suffix: string) {
    |suffix| <= |s| && s[|s| - |suffix|..] == suffix
  }

  // ---------------------------------------------------------------------
  // Java's String.replace(CharSequence, CharSequence)
  // ---------------------------------------------------------------------

  /** Replaces every occurrence of `pat` in `s` by `rep`, scanning from left
      to right; a replacement is never rescanned, so occurrences of `pat`
      inside `rep` survive. */
  function ReplaceAll(s: string, pat: string, rep: string): string
    requires |pat| > 0
    decreases |s|
  {
    if |s| < |pat| then s
    else if s[..|pat|] == pat then rep + ReplaceAll(s[|pat|..], pat, rep)
    else [s[0]] + ReplaceAll(s[1..], pat, rep)
  }

  /** Replacing a single character is a character-by-character map. */
  function MapChar(s: string, c: char, rep: string): (r: string)
    ensures c !in s ==> r == s
  {
    if s == [] then [] else (if s[0] == c then rep else [s[0]]) + MapChar(s[1..], c, rep)
  }

  lemma MapCharAppend(a: string, b: string, c: char, rep: string)
    ensures MapChar(a + b, c, rep) == MapChar(a, c, rep) + MapChar(b, c, rep)
  {
    if a == [] {
      assert a + b == b;
    } else {
      assert (a + b)[0] == a[0];
      assert (a + b)[1..] == a[1..] + b;
      MapCharAppend(a[1..], b, c, rep);
    }
  }

  lemma {:induction false} ReplaceCharIsMap(s: string, c: char, rep: string)
    ensures ReplaceAll(s, [c], rep) == MapChar(s, c, rep)
    decreases |s|
  {
    if s != [] {
      ReplaceCharIsMap(s[1..], c, rep);
    }
  }

  /** When the first character of `pat` never occurs, nothing is replaced. */
  lemma {:induction false} ReplaceAllAbsent(s: string, pat: string, rep: string)
    requires |pat| > 0 && pat[0] !in s
    ensures ReplaceAll(s, pat, rep) == s
    decreases |s|
  {
    if |s| >= |pat| {
      assert s[0] != pat[0];
      assert s[..|pat|] != pat;
      ReplaceAllAbsent(s[1..], pat, rep);
    }
  }

  /** Replacing a leading occurrence, then the rest. */
  lemma ReplaceAllLeading(pat: string, rest: string, rep: string)
    requires |pat| > 0
    ensures ReplaceAll(pat + rest, pat, rep) == rep + ReplaceAll(rest, pat, rep)
  {
    assert (pat + rest)[..|pat|] == pat;
    assert (pat + rest)[|pat|..] == rest;
  }

  /** A two-character pattern distributes over concatenation unless an
      occurrence straddles the seam. */
  lemma {:induction false} ReplaceAllAppend2(a: string, b: string, pat: string, rep: string)
    requires |pat| == 2
    requires a == [] || b == [] || a[|a| - 1] != pat[0] || b[0] != pat[1]
    ensures ReplaceAll(a + b, pat, rep) == ReplaceAll(a, pat, rep) + ReplaceAll(b, pat, rep)
    decreases |a|
  {
    if a == [] {
      assert a + b == b;
    } else if b == [] {
      assert a + b == a;
    } else if |a| == 1 {
      assert (a + b)[..2] == [a[0], b[0]];
      assert (a + b)[1..] == b;
    } else {
      assert (a + b)[..2] == a[..2];
      if a[..2] == pat {
        assert (a + b)[2..] == a[2..] + b;
        ReplaceAllAppend2(a[2..], b, pat, rep);
      } else {
        assert (a + b)[1..] == a[1..] + b;
        ReplaceAllAppend2(a[1..], b, pat, rep);
      }
    }
  }

  // ---------------------------------------------------------------------
  // Java int arithmetic and String.hashCode
  // ---------------------------------------------------------------------

  const TWO_TO_THE_32: int := 0x1_0000_0000
  const TWO_TO_THE_31: int := 0x8000_0000

  predicate IsInt32(x: int) {
    -TWO_TO_THE_31 <= x < TWO_TO_THE_31
  }

  /** Two's-complement wrap-around of a Java `int` expression. */
  function Wrap32(x: int): (r: int)
    ensures IsInt32(r)
    ensures (r - x) % TWO_TO_THE_32 == 0
  {
    (x + TWO_TO_THE_31) % TWO_TO_THE_32 - TWO_TO_THE_31
  }

  /** Java's `String.hashCode`: `h = 31 * h + c` over the characters, in
      `int` arithmetic. */
  function StringHash(s: string): (h: int)
    ensures IsInt32(h)
  {
    if s == [] then 0 else Wrap32(31 * StringHash(s[..|s| - 1]) + s[|s| - 1] as int)
  }

  // ---------------------------------------------------------------------
  // Finite sets
  // ---------------------------------------------------------------------

  lemma SubsetSize<T>(a: set<T>, b: set<T>)
    requires a <= b
    ensures |a| <= |b|
    ensures |a| == |b| ==> a == b
  {
    var d := b - a;
    assert b == a + d;
    assert a * d == {};
  }

  /** An injective image of `0..n` has exactly n elements. */
  lemma {:induction false} InjectiveImageSize<T>(f: nat -> T, n: nat)
    requires forall i, j :: 0 <= i < j < n ==> f(i) != f(j)
    ensures |set j: nat | j < n :: f(j)| == n
  {
    if n > 0 {
      InjectiveImageSize(f, n - 1);
      var s := set j: nat | j < n - 1 :: f(j);
      assert (set j: nat | j < n :: f(j)) == s + {f(n - 1)};
      assert f(n - 1) !in s;
    }
  }
}
