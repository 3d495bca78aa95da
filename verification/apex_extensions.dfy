/** The template helper `escapeApex`: turns an arbitrary string into the body
    of an Apex string literal by a fixed chain of five replace-alls. */
module Extensions {
  import opened Util

  const BACKSLASH: char := '\\'
  const QUOTE: char := '\"'
  const CR: char := '\r'
  const LF: char := '\n'

  /** The two characters `\` `n` that stand for a line break in the output. */
  const ESCAPED_NEWLINE: string := [BACKSLASH, 'n']

  /** The replace chain exactly as written: backslashes first, then quotes,
      then CRLF pairs, then lone CRs, then lone LFs. */
  function ReplaceChain(src: string): string {
    var s1 := ReplaceAll(src, [BACKSLASH], [BACKSLASH, BACKSLASH]);
    var s2 := ReplaceAll(s1, [QUOTE], [BACKSLASH, QUOTE]);
    var s3 := ReplaceAll(s2, [CR, LF], ESCAPED_NEWLINE);
    var s4 := ReplaceAll(s3, [CR], ESCAPED_NEWLINE);
    ReplaceAll(s4, [LF], ESCAPED_NEWLINE)
  }

  // ---------------------------------------------------------------------
  // An independent, one-pass reference definition of the escaping
  // ---------------------------------------------------------------------

  /** How one character (not the start of a CRLF pair) is written. */
  function EscapeChar(c: char): string {
    if c == BACKSLASH then [BACKSLASH, BACKSLASH]
    else if c == QUOTE then [BACKSLASH, QUOTE]
    else if c == CR || c == LF then ESCAPED_NEWLINE
    else [c]
  }

  /** Left-to-right escaping: a CRLF pair is one line break, every other
      character is escaped on its own. */
  function Escaped(s: string): string
    decreases |s|
  {
    if s == [] then []
    else if s[0] == CR && |s| > 1 && s[1] == LF then ESCAPED_NEWLINE + Escaped(s[2..])
    else EscapeChar(s[0]) + Escaped(s[1..])
  }

  predicate IsSpecial(c: char) {
    c == BACKSLASH || c == QUOTE || c == CR || c == LF
  }

  /** No raw line break survives. */
  predicate NoLineBreaks(t: string) {
    forall i :: 0 <= i < |t| ==> t[i] != CR && t[i] != LF
  }

  /** Every double quote is immediately preceded by a backslash. */
  predicate QuotesEscaped(t: string) {
    forall i :: 0 <= i < |t| && t[i] == QUOTE ==> 0 < i && t[i - 1] == BACKSLASH
  }

  // ---------------------------------------------------------------------
  // The operation
  // ---------------------------------------------------------------------

  /** `ApexExtensions.escapeApex`. */
  function EscapeApex(src: string): (r: string)
    ensures r == Escaped(src)
    ensures NoLineBreaks(r)
    ensures QuotesEscaped(r)
  {
    ChainMatchesReference(src);
    EscapedIsSafe(src);
    ReplaceChain(src)
  }

  /** A string with no backslash, quote, CR or LF is returned unchanged. */
  lemma EscapeApexPlain(src: string)
    requires forall i :: 0 <= i < |src| ==> !IsSpecial(src[i])
    ensures EscapeApex(src) == src
  {
    EscapedPlain(src);
  }

  // ---------------------------------------------------------------------
  // Proofs
  // ---------------------------------------------------------------------

  /** The first two steps: backslashes, then quotes. */
  function QuoteStep(s: string): string {
    MapChar(MapChar(s, BACKSLASH, [BACKSLASH, BACKSLASH]), QUOTE, [BACKSLASH, QUOTE])
  }

  /** The last two steps: lone CRs, then lone LFs. */
  function BreakStep(s: string): string {
    MapChar(MapChar(s, CR, ESCAPED_NEWLINE), LF, ESCAPED_NEWLINE)
  }

  lemma QuoteStepAppend(a: string, b: string)
    ensures QuoteStep(a + b) == QuoteStep(a) + QuoteStep(b)
  {
    MapCharAppend(a, b, BACKSLASH, [BACKSLASH, BACKSLASH]);
    MapCharAppend(MapChar(a, BACKSLASH, [BACKSLASH, BACKSLASH]), MapChar(b, BACKSLASH, [BACKSLASH, BACKSLASH]), QUOTE, [BACKSLASH, QUOTE]);
  }

  lemma BreakStepAppend(a: string, b: string)
    ensures BreakStep(a + b) == BreakStep(a) + BreakStep(b)
  {
    MapCharAppend(a, b, CR, ESCAPED_NEWLINE);
    MapCharAppend(MapChar(a, CR, ESCAPED_NEWLINE), MapChar(b, CR, ESCAPED_NEWLINE), LF, ESCAPED_NEWLINE);
  }

  lemma QuoteStepChar(c: char)
    ensures QuoteStep([c]) == (if c == BACKSLASH then [BACKSLASH, BACKSLASH] else if c == QUOTE then [BACKSLASH, QUOTE] else [c])
  {
    assert MapChar([BACKSLASH, BACKSLASH], QUOTE, [BACKSLASH, QUOTE]) == [BACKSLASH, BACKSLASH] by {
      assert [BACKSLASH, BACKSLASH][1..] == [BACKSLASH];
    }
  }

  /** The first character of QuoteStep(s) is a line-feed exactly when the
      first character of `s` is. */
  lemma QuoteStepHead(s: string)
    requires s != []
    ensures QuoteStep(s) != []
    ensures QuoteStep(s)[0] == LF <==> s[0] == LF
  {
    assert s == [s[0]] + s[1..];
    QuoteStepAppend([s[0]], s[1..]);
    QuoteStepChar(s[0]);
  }

  /** The replace chain, with its single-character steps as maps. */
  function Steps(s: string): string {
    BreakStep(ReplaceAll(QuoteStep(s), [CR, LF], ESCAPED_NEWLINE))
  }

  lemma ChainIsSteps(s: string)
    ensures ReplaceChain(s) == Steps(s)
  {
    ReplaceCharIsMap(s, BACKSLASH, [BACKSLASH, BACKSLASH]);
    ReplaceCharIsMap(MapChar(s, BACKSLASH, [BACKSLASH, BACKSLASH]), QUOTE, [BACKSLASH, QUOTE]);
    var s3 := ReplaceAll(QuoteStep(s), [CR, LF], ESCAPED_NEWLINE);
    ReplaceCharIsMap(s3, CR, ESCAPED_NEWLINE);
    ReplaceCharIsMap(MapChar(s3, CR, ESCAPED_NEWLINE), LF, ESCAPED_NEWLINE);
  }

  /** A leading CRLF pair becomes one escaped line break. */
  lemma StepsCRLF(t: string)
    ensures Steps([CR, LF] + t) == ESCAPED_NEWLINE + Steps(t)
  {
    QuoteStepAppend([CR, LF], t);
    assert QuoteStep([CR, LF]) == [CR, LF] by {
      assert [CR, LF] == [CR] + [LF];
      QuoteStepAppend([CR], [LF]);
      QuoteStepChar(CR);
      QuoteStepChar(LF);
    }
    ReplaceAllLeading([CR, LF], QuoteStep(t), ESCAPED_NEWLINE);
    var rest := ReplaceAll(QuoteStep(t), [CR, LF], ESCAPED_NEWLINE);
    BreakStepAppend(ESCAPED_NEWLINE, rest);
    assert BreakStep(ESCAPED_NEWLINE) == ESCAPED_NEWLINE;
  }

  /** A single character after the first two steps: no CRLF pair is inside
      it, and the last two steps finish its escaping. */
  lemma HeadEscaped(c: char)
    ensures ReplaceAll(QuoteStep([c]), [CR, LF], ESCAPED_NEWLINE) == QuoteStep([c])
    ensures BreakStep(QuoteStep([c])) == EscapeChar(c)
  {
    QuoteStepChar(c);
    var head := QuoteStep([c]);
    if |head| == 2 {
      assert head[..2] == head;
      assert head[2..] == [];
      assert head == [head[0]] + [head[1]];
      BreakStepAppend([head[0]], [head[1]]);
    }
  }

  /** No CRLF pair straddles the seam after a character that does not start
      one. */
  lemma HeadSeam(c: char, t: string)
    requires !(c == CR && t != [] && t[0] == LF)
    ensures var head := QuoteStep([c]);
            head == [] || QuoteStep(t) == [] || head[|head| - 1] != CR || QuoteStep(t)[0] != LF
  {
    QuoteStepChar(c);
    if t != [] {
      QuoteStepHead(t);
    }
  }

  /** Any other leading character is escaped on its own. */
  lemma StepsChar(c: char, t: string)
    requires !(c == CR && t != [] && t[0] == LF)
    ensures Steps([c] + t) == EscapeChar(c) + Steps(t)
  {
    QuoteStepAppend([c], t);
    var head := QuoteStep([c]);
    HeadSeam(c, t);
    ReplaceAllAppend2(head, QuoteStep(t), [CR, LF], ESCAPED_NEWLINE);
    HeadEscaped(c);
    var rest := ReplaceAll(QuoteStep(t), [CR, LF], ESCAPED_NEWLINE);
    BreakStepAppend(head, rest);
  }

  /** The five-step replace chain computes the one-pass escaping. */
  lemma {:induction false} ChainMatchesReference(s: string)
    ensures ReplaceChain(s) == Escaped(s)
    decreases |s|
  {
    ChainIsSteps(s);
    if s == [] {
    } else if s[0] == CR && |s| > 1 && s[1] == LF {
      assert s == [CR, LF] + s[2..];
      StepsCRLF(s[2..]);
      ChainIsSteps(s[2..]);
      ChainMatchesReference(s[2..]);
    } else {
      assert s == [s[0]] + s[1..];
      StepsChar(s[0], s[1..]);
      ChainIsSteps(s[1..]);
      ChainMatchesReference(s[1..]);
    }
  }

  lemma {:induction false} EscapedIsSafe(s: string)
    ensures NoLineBreaks(Escaped(s))
    ensures QuotesEscaped(Escaped(s))
    decreases |s|
  {
    if s == [] {
    } else {
      var head, t :=
        if s[0] == CR && |s| > 1 && s[1] == LF then ESCAPED_NEWLINE else EscapeChar(s[0]),
        if s[0] == CR && |s| > 1 && s[1] == LF then s[2..] else s[1..];
      EscapedIsSafe(t);
      var tail := Escaped(t);
      assert Escaped(s) == head + tail;
      assert tail != [] ==> tail[0] != QUOTE;
      forall i | 0 <= i < |head + tail| && (head + tail)[i] == QUOTE
        ensures 0 < i && (head + tail)[i - 1] == BACKSLASH
      {
        if i >= |head| {
          assert (head + tail)[i] == tail[i - |head|];
        }
      }
    }
  }

  lemma {:induction false} EscapedPlain(s: string)
    ensures (forall i :: 0 <= i < |s| ==> !IsSpecial(s[i])) ==> Escaped(s) == s
    decreases |s|
  {
    if s != [] && forall i :: 0 <= i < |s| ==> !IsSpecial(s[i]) {
      EscapedPlain(s[1..]);
      assert s == [s[0]] + s[1..];
    }
  }
}
