/**
 * `cleanupRendered` (Formatter.php lines 296-372): twelve regular-expression
 * rewrites applied in order, a dedupe of lines and of the comma-separated
 * pieces within each line, and a final trim plus newline.
 *
 * Every rewrite is written as the left-to-right scan PCRE performs for a
 * global `preg_replace`: at each position the leftmost-longest match of the
 * pattern is replaced and scanning resumes after it.  None of the patterns
 * has a look-behind, so a scan that emits one character and moves on is
 * exact wherever the pattern does not match.
 */
module Cleanup {
  import opened Chars
  import opened Text
  import opened Dedupe

  predicate IsComma(c: char) { c == ',' }
  predicate IsNewline(c: char) { c == '\n' }

  /** The character classes the rewrites collapse or skip over. */
  datatype Class = HSpace | Space | Comma | Newline

  function ClassPred(k: Class): char -> bool {
    match k
    case HSpace => IsHSpace
    case Space => IsSpace
    case Comma => IsComma
    case Newline => IsNewline
  }

  predicate In(c: char, k: Class) {
    ClassPred(k)(c)
  }

  /** Length of the run of class-`k` characters `s` starts with. */
  function Run(s: string, k: Class): nat {
    LeadingRun(s, ClassPred(k))
  }

  /** Characters of a class are never word characters. */
  lemma {:induction false} ClassNotWord(c: char, k: Class)
    requires In(c, k)
    ensures !IsWordChar(c)
  {
  }

  /** The first `n` characters of `s` are not word characters. */
  predicate NoWordBefore(s: string, n: nat) {
    forall i :: 0 <= i < n && i < |s| ==> !IsWordChar(s[i])
  }

  lemma {:induction false} RunNotWord(s: string, k: Class, n: nat)
    requires n <= Run(s, k)
    ensures NoWordBefore(s, n)
  {
    forall i | 0 <= i < n && i < |s|
      ensures !IsWordChar(s[i])
    {
      ClassNotWord(s[i], k);
    }
  }

  /** A run after a first non-word character: the first `1 + n` characters hold no word character. */
  lemma {:induction false} RunAfterNotWord(s: string, k: Class, n: nat)
    requires |s| > 0 && !IsWordChar(s[0]) && n <= Run(s[1..], k)
    ensures NoWordBefore(s, 1 + n)
  {
    RunNotWord(s[1..], k, n);
    forall i | 0 < i < 1 + n && i < |s|
      ensures !IsWordChar(s[i])
    {
      assert s[i] == s[1..][i - 1];
    }
  }

  /** Replacing a prefix without word characters by a text without word characters keeps the words. */
  lemma {:induction false} WordsReplacePrefix(s: string, n: nat, out: string, rest: string)
    requires n <= |s| && NoWordBefore(s, n) && NoWordBefore(out, |out|)
    requires Words(rest) == Words(s[n..])
    ensures Words(out + rest) == Words(s)
  {
    WordsConcat(out, rest);
    WordsOfNonWord(out);
    WordsDropPrefix(s, n);
    assert [] + Words(rest) == Words(rest);
  }

  /** Emitting the first character unchanged keeps the words. */
  lemma {:induction false} WordsKeepFirst(s: string, rest: string)
    requires |s| > 0 && Words(rest) == Words(s[1..])
    ensures Words([s[0]] + rest) == Words(s)
  {
    WordsConcat([s[0]], rest);
    assert [s[0]][1..] == [];
  }

  // ----- the twelve rewrites -----

  /** `[\},\s]`, the class of rewrite 1. */
  predicate IsEndJunk(c: char) { c == '}' || c == ',' || IsSpace(c) }

  /** `[,\s]`, the class of rewrite 2. */
  predicate IsStartJunk(c: char) { c == ',' || IsSpace(c) }

  /** `/^- /u` => '' (3): a text that began with a missing value. */
  function DropDashPrefix(s: string): string {
    if StartsWith(s, "- ") then s[2..] else s
  }

  /** `/,\s*,/u` => ', ' (4): two commas with only white space between become one. */
  function MergeCommas(s: string): string
    decreases |s|
  {
    if |s| == 0 then ""
    else
      var n := Run(s[1..], Space);
      if s[0] == ',' && 1 + n < |s| && s[1 + n] == ',' then ", " + MergeCommas(s[2 + n..])
      else [s[0]] + MergeCommas(s[1..])
  }

  /** `/\h+,\h+/u` => ', ' (5): white space on both sides of a comma becomes one space after it. */
  function SpaceAroundComma(s: string): string
    decreases |s|
  {
    if |s| == 0 then ""
    else
      var n := Run(s, HSpace);
      if n > 0 && n + 1 < |s| && s[n] == ',' && IsHSpace(s[n + 1]) then
        ", " + SpaceAroundComma(s[n + 1 + Run(s[n + 1..], HSpace)..])
      else [s[0]] + SpaceAroundComma(s[1..])
  }

  /** `/kk+/u` => `rep`: every run of two or more class-`k` characters becomes `rep` (6, 9, 12). */
  function CollapseRuns(s: string, k: Class, rep: string): string
    decreases |s|
  {
    if |s| == 0 then ""
    else
      var n := Run(s, k);
      if n >= 2 then rep + CollapseRuns(s[n..], k, rep)
      else [s[0]] + CollapseRuns(s[1..], k, rep)
  }

  /** `/ab/u` => `out` for single characters of classes `a` and `b` (7, 8, 10). */
  function ReplacePair(s: string, a: Class, b: Class, out: string): string
    decreases |s|
  {
    if |s| == 0 then ""
    else if |s| >= 2 && In(s[0], a) && In(s[1], b) then out + ReplacePair(s[2..], a, b, out)
    else [s[0]] + ReplacePair(s[1..], a, b, out)
  }

  /** `/\n\h+/u` => "\n" (11): white space at the start of a line goes. */
  function DropIndent(s: string): string
    decreases |s|
  {
    if |s| == 0 then ""
    else
      var n := Run(s[1..], HSpace);
      if s[0] == '\n' && n > 0 then "\n" + DropIndent(s[1 + n..])
      else [s[0]] + DropIndent(s[1..])
  }

  /** The twelve rewrites of lines 298-315, in their order. */
  function Rewrites(s: string): string {
    var t1 := TrimRightWhile(s, IsEndJunk);
    var t2 := TrimLeftWhile(t1, IsStartJunk);
    var t3 := DropDashPrefix(t2);
    var t4 := MergeCommas(t3);
    var t5 := SpaceAroundComma(t4);
    var t6 := CollapseRuns(t5, HSpace, " ");
    var t7 := ReplacePair(t6, HSpace, Newline, "\n");
    var t8 := ReplacePair(t7, Newline, Comma, "\n");
    var t9 := CollapseRuns(t8, Comma, ",");
    var t10 := ReplacePair(t9, Comma, Newline, "\n");
    var t11 := DropIndent(t10);
    CollapseRuns(t11, Newline, "\n")
  }

  // ----- what each rewrite keeps -----

  lemma {:induction false} MergeCommasKeepsWords(s: string)
    ensures Words(MergeCommas(s)) == Words(s)
    decreases |s|
  {
    if |s| > 0 {
      var n := Run(s[1..], Space);
      if s[0] == ',' && 1 + n < |s| && s[1 + n] == ',' {
        MergeCommasKeepsWords(s[2 + n..]);
        MergeCommasStep(s, n);
      } else {
        MergeCommasKeepsWords(s[1..]);
        MergeCommasSkip(s);
      }
    }
  }

  /** One merge: `,`, white space and `,` become `, `, which keeps the words. */
  lemma {:induction false} MergeCommasStep(s: string, n: nat)
    requires 1 + n < |s| && n == Run(s[1..], Space) && s[0] == ',' && s[1 + n] == ','
    requires Words(MergeCommas(s[2 + n..])) == Words(s[2 + n..])
    ensures Words(MergeCommas(s)) == Words(s)
  {
    var rest := MergeCommas(s[2 + n..]);
    assert MergeCommas(s) == ", " + rest by {
      MergeCommasUnfold(s, n);
    }
    assert NoWordBefore(s, 2 + n) by {
      RunAfterNotWord(s, Space, n);
    }
    assert Words(", " + rest) == Words(s) by {
      CommaSpaceNoWord();
      WordsReplacePrefix(s, 2 + n, ", ", rest);
    }
  }

  lemma {:induction false} MergeCommasUnfold(s: string, n: nat)
    requires 1 + n < |s| && n == Run(s[1..], Space) && s[0] == ',' && s[1 + n] == ','
    ensures MergeCommas(s) == ", " + MergeCommas(s[2 + n..])
  {
  }

  /** No merge at the first character: it is kept. */
  lemma {:induction false} MergeCommasSkip(s: string)
    requires |s| > 0
    requires var n := Run(s[1..], Space); !(s[0] == ',' && 1 + n < |s| && s[1 + n] == ',')
    requires Words(MergeCommas(s[1..])) == Words(s[1..])
    ensures Words(MergeCommas(s)) == Words(s)
  {
    assert MergeCommas(s) == [s[0]] + MergeCommas(s[1..]);
    WordsKeepFirst(s, MergeCommas(s[1..]));
  }

  lemma {:induction false} CommaSpaceNoWord()
    ensures NoWordBefore(", ", 2)
  {
    assert !IsWordChar(", "[0]) && !IsWordChar(", "[1]);
  }

  lemma {:induction false} SpaceAroundCommaKeepsWords(s: string)
    ensures Words(SpaceAroundComma(s)) == Words(s)
    decreases |s|, 1
  {
    if |s| > 0 {
      var n := Run(s, HSpace);
      if n > 0 && n + 1 < |s| && s[n] == ',' && IsHSpace(s[n + 1]) {
        SpaceAroundCommaMatch(s, n);
      } else {
        var rest := SpaceAroundComma(s[1..]);
        SpaceAroundCommaKeepsWords(s[1..]);
        WordsKeepFirst(s, rest);
      }
    }
  }

  lemma {:induction false} SpaceAroundCommaMatch(s: string, n: nat)
    requires n == Run(s, HSpace) && n > 0 && n + 1 < |s| && s[n] == ',' && IsHSpace(s[n + 1])
    ensures Words(SpaceAroundComma(s)) == Words(s)
    decreases |s|, 0
  {
    var m := Run(s[n + 1..], HSpace);
    var k := n + 1 + m;
    SpaceAroundCommaStep(s, n, m);
    var rest := SpaceAroundComma(s[k..]);
    SpaceAroundCommaKeepsWords(s[k..]);
    assert SpaceAroundComma(s) == ", " + rest by {
      SpaceAroundCommaUnfold(s, n);
    }
    assert Words(", " + rest) == Words(s) by {
      CommaSpaceNoWord();
      WordsReplacePrefix(s, k, ", ", rest);
    }
  }

  lemma {:induction false} SpaceAroundCommaUnfold(s: string, n: nat)
    requires n == Run(s, HSpace) && n > 0 && n + 1 < |s| && s[n] == ',' && IsHSpace(s[n + 1])
    ensures SpaceAroundComma(s) == ", " + SpaceAroundComma(s[n + 1 + Run(s[n + 1..], HSpace)..])
  {
  }

  lemma {:induction false} SpaceAroundCommaStep(s: string, n: nat, m: nat)
    requires n <= Run(s, HSpace) && n < |s| && s[n] == ',' && m <= Run(s[n + 1..], HSpace)
    ensures n + 1 + m <= |s| && NoWordBefore(s, n + 1 + m)
  {
    var t := s[n..];
    assert t[1..] == s[n + 1..];
    RunNotWord(s, HSpace, n);
    RunAfterNotWord(t, HSpace, m);
    forall i | n <= i < n + 1 + m && i < |s|
      ensures !IsWordChar(s[i])
    {
      assert s[i] == t[i - n];
    }
  }

  lemma {:induction false} CollapseRunsKeepsWords(s: string, k: Class, rep: string)
    requires NoWordBefore(rep, |rep|)
    ensures Words(CollapseRuns(s, k, rep)) == Words(s)
    decreases |s|
  {
    if |s| > 0 {
      var n := Run(s, k);
      if n >= 2 {
        CollapseRunsKeepsWords(s[n..], k, rep);
        RunNotWord(s, k, n);
        WordsReplacePrefix(s, n, rep, CollapseRuns(s[n..], k, rep));
      } else {
        CollapseRunsKeepsWords(s[1..], k, rep);
        WordsKeepFirst(s, CollapseRuns(s[1..], k, rep));
      }
    }
  }

  lemma {:induction false} ReplacePairKeepsWords(s: string, a: Class, b: Class, out: string)
    requires NoWordBefore(out, |out|)
    ensures Words(ReplacePair(s, a, b, out)) == Words(s)
    decreases |s|
  {
    if |s| >= 2 && In(s[0], a) && In(s[1], b) {
      ReplacePairKeepsWords(s[2..], a, b, out);
      ClassNotWord(s[0], a);
      ClassNotWord(s[1], b);
      WordsReplacePrefix(s, 2, out, ReplacePair(s[2..], a, b, out));
    } else if |s| > 0 {
      ReplacePairKeepsWords(s[1..], a, b, out);
      WordsKeepFirst(s, ReplacePair(s[1..], a, b, out));
    }
  }

  lemma {:induction false} DropIndentKeepsWords(s: string)
    ensures Words(DropIndent(s)) == Words(s)
    decreases |s|
  {
    if |s| > 0 {
      var n := Run(s[1..], HSpace);
      if s[0] == '\n' && n > 0 {
        DropIndentKeepsWords(s[1 + n..]);
        RunAfterNotWord(s, HSpace, n);
        WordsReplacePrefix(s, 1 + n, "\n", DropIndent(s[1 + n..]));
      } else {
        DropIndentKeepsWords(s[1..]);
        WordsKeepFirst(s, DropIndent(s[1..]));
      }
    }
  }

  lemma {:induction false} EndJunkNotWord()
    ensures forall c :: IsEndJunk(c) ==> !IsWordChar(c)
  {
  }

  lemma {:induction false} StartJunkNotWord()
    ensures forall c :: IsStartJunk(c) ==> !IsWordChar(c)
  {
  }

  lemma {:induction false} SpaceNotWord()
    ensures forall c :: IsSpace(c) ==> !IsWordChar(c)
  {
  }

  lemma {:induction false} WordsTrimLeft(s: string, p: char -> bool)
    requires forall c :: p(c) ==> !IsWordChar(c)
    ensures Words(TrimLeftWhile(s, p)) == Words(s)
  {
    WordsDropPrefix(s, |s| - |TrimLeftWhile(s, p)|);
  }

  lemma {:induction false} WordsTrimRight(s: string, p: char -> bool)
    requires forall c :: p(c) ==> !IsWordChar(c)
    ensures Words(TrimRightWhile(s, p)) == Words(s)
  {
    WordsDropSuffix(s, |TrimRightWhile(s, p)|);
  }

  /** Rewrites 1-3 only delete characters that are not word characters. */
  lemma {:induction false} RewritesStartKeepWords(s: string)
    ensures Words(DropDashPrefix(TrimLeftWhile(TrimRightWhile(s, IsEndJunk), IsStartJunk))) == Words(s)
  {
    var t1 := TrimRightWhile(s, IsEndJunk);
    var t2 := TrimLeftWhile(t1, IsStartJunk);
    assert Words(t1) == Words(s) by {
      EndJunkNotWord();
      WordsTrimRight(s, IsEndJunk);
    }
    assert Words(t2) == Words(t1) by {
      StartJunkNotWord();
      WordsTrimLeft(t1, IsStartJunk);
    }
    if StartsWith(t2, "- ") {
      assert Words(t2[2..]) == Words(t2) by {
        assert !IsWordChar(t2[0]) && !IsWordChar(t2[1]);
        WordsDropPrefix(t2, 2);
      }
    }
  }

  /** None of the twelve rewrites adds or removes a word character. */
  lemma {:induction false} RewritesKeepWords(s: string)
    ensures Words(Rewrites(s)) == Words(s)
  {
    var t3 := DropDashPrefix(TrimLeftWhile(TrimRightWhile(s, IsEndJunk), IsStartJunk));
    assert Words(t3) == Words(s) by { RewritesStartKeepWords(s); }
    var t4 := MergeCommas(t3);
    assert Words(t4) == Words(t3) by { MergeCommasKeepsWords(t3); }
    var t5 := SpaceAroundComma(t4);
    assert Words(t5) == Words(t4) by { SpaceAroundCommaKeepsWords(t4); }
    var t6 := CollapseRuns(t5, HSpace, " ");
    assert Words(t6) == Words(t5) by { CollapseRunsKeepsWords(t5, HSpace, " "); }
    var t7 := ReplacePair(t6, HSpace, Newline, "\n");
    assert Words(t7) == Words(t6) by { ReplacePairKeepsWords(t6, HSpace, Newline, "\n"); }
    var t8 := ReplacePair(t7, Newline, Comma, "\n");
    assert Words(t8) == Words(t7) by { ReplacePairKeepsWords(t7, Newline, Comma, "\n"); }
    var t9 := CollapseRuns(t8, Comma, ",");
    assert Words(t9) == Words(t8) by { CollapseRunsKeepsWords(t8, Comma, ","); }
    var t10 := ReplacePair(t9, Comma, Newline, "\n");
    assert Words(t10) == Words(t9) by { ReplacePairKeepsWords(t9, Comma, Newline, "\n"); }
    var t11 := DropIndent(t10);
    assert Words(t11) == Words(t10) by { DropIndentKeepsWords(t10); }
    assert Words(CollapseRuns(t11, Newline, "\n")) == Words(t11) by {
      CollapseRunsKeepsWords(t11, Newline, "\n");
    }
    assert Rewrites(s) == CollapseRuns(t11, Newline, "\n");
  }

  /** No two class-`k` characters are adjacent in `r`. */
  predicate NoPair(r: string, k: Class) {
    forall i :: 0 <= i < |r| - 1 ==> !(In(r[i], k) && In(r[i + 1], k))
  }

  /** Collapsing runs into one class character leaves no two of them adjacent. */
  lemma {:induction false} CollapseRunsNoPair(s: string, k: Class, rep: string)
    requires |rep| == 1 && In(rep[0], k)
    ensures NoPair(CollapseRuns(s, k, rep), k)
    ensures |CollapseRuns(s, k, rep)| > 0 && In(CollapseRuns(s, k, rep)[0], k) ==> |s| > 0 && In(s[0], k)
    decreases |s|
  {
    if |s| > 0 {
      var n := Run(s, k);
      var r := CollapseRuns(s, k, rep);
      if n >= 2 {
        var rest := CollapseRuns(s[n..], k, rep);
        CollapseRunsNoPair(s[n..], k, rep);
        assert r == rep + rest;
        assert |rest| > 0 ==> !In(rest[0], k);
        forall i | 0 <= i < |r| - 1
          ensures !(In(r[i], k) && In(r[i + 1], k))
        {
          if i > 0 {
            assert r[i] == rest[i - 1] && r[i + 1] == rest[i];
          }
        }
      } else {
        var rest := CollapseRuns(s[1..], k, rep);
        CollapseRunsNoPair(s[1..], k, rep);
        assert r == [s[0]] + rest;
        assert In(s[0], k) && |rest| > 0 ==> !In(rest[0], k);
        forall i | 0 <= i < |r| - 1
          ensures !(In(r[i], k) && In(r[i + 1], k))
        {
          if i > 0 {
            assert r[i] == rest[i - 1] && r[i + 1] == rest[i];
          }
        }
      }
    }
  }

  /** After rewrite 11 no line starts with horizontal white space. */
  lemma {:induction false} DropIndentNoIndent(s: string)
    ensures forall i :: 0 <= i < |DropIndent(s)| - 1 ==> !(DropIndent(s)[i] == '\n' && IsHSpace(DropIndent(s)[i + 1]))
    ensures |DropIndent(s)| > 0 && IsHSpace(DropIndent(s)[0]) ==> |s| > 0 && IsHSpace(s[0])
    decreases |s|
  {
    if |s| > 0 {
      var n := Run(s[1..], HSpace);
      var r := DropIndent(s);
      if s[0] == '\n' && n > 0 {
        var rest := DropIndent(s[1 + n..]);
        DropIndentNoIndent(s[1 + n..]);
        assert r == "\n" + rest;
        assert s[1..][n..] == s[1 + n..];
        assert |rest| > 0 ==> !IsHSpace(rest[0]);
        forall i | 0 <= i < |r| - 1
          ensures !(r[i] == '\n' && IsHSpace(r[i + 1]))
        {
          if i > 0 {
            assert r[i] == rest[i - 1] && r[i + 1] == rest[i];
          }
        }
      } else {
        var rest := DropIndent(s[1..]);
        DropIndentNoIndent(s[1..]);
        assert r == [s[0]] + rest;
        assert s[0] == '\n' && |rest| > 0 ==> !IsHSpace(rest[0]);
        forall i | 0 <= i < |r| - 1
          ensures !(r[i] == '\n' && IsHSpace(r[i + 1]))
        {
          if i > 0 {
            assert r[i] == rest[i - 1] && r[i + 1] == rest[i];
          }
        }
      }
    }
  }

  // ----- dedupe of lines and of the pieces within a line -----

  /** `preg_replace('/^\h+/u', '')` then `preg_replace('/\h+$/u', '')`. */
  function TrimH(t: string): string {
    TrimRightWhile(TrimLeftWhile(t, IsHSpace), IsHSpace)
  }

  lemma {:induction false} HSpaceNotWord()
    ensures forall c :: IsHSpace(c) ==> !IsWordChar(c)
  {
  }

  lemma {:induction false} TrimHKeepsWords(t: string)
    ensures Words(TrimH(t)) == Words(t)
  {
    var a := TrimLeftWhile(t, IsHSpace);
    assert Words(a) == Words(t) by {
      HSpaceNotWord();
      WordsTrimLeft(t, IsHSpace);
    }
    assert Words(TrimRightWhile(a, IsHSpace)) == Words(a) by {
      HSpaceNotWord();
      WordsTrimRight(a, IsHSpace);
    }
  }

  /** Trimming cannot create an occurrence of a separator. */
  lemma {:induction false} TrimHKeepsAbsent(t: string, sep: string)
    requires |sep| > 0 && !Contains(t, sep)
    ensures !Contains(TrimH(t), sep)
  {
    var a := TrimLeftWhile(t, IsHSpace);
    var b := TrimH(t);
    if Contains(b, sep) {
      assert b == a[0..|b|];
      SliceContains(a, 0, |b|, sep);
      assert a == t[|t| - |a|..|t|];
      SliceContains(t, |t| - |a|, |t|, sep);
    }
  }

  function MapTrimH(ts: seq<string>): (r: seq<string>)
    ensures |r| == |ts|
    ensures forall i :: 0 <= i < |ts| ==> r[i] == TrimH(ts[i])
  {
    seq(|ts|, i requires 0 <= i < |ts| => TrimH(ts[i]))
  }

  /** The pieces of a line between ", ", trimmed, each kept once, joined again (lines 338-360). */
  function DedupeTokens(line: string): string {
    Join(", ", Dedup(MapTrimH(Split(line, ", "))))
  }

  /** The lines of a text, trimmed, each kept once, each deduplicated within (lines 318-362). */
  function DedupeLines(text: string): seq<string> {
    var lines := Dedup(MapTrimH(Split(text, "\n")));
    seq(|lines|, i requires 0 <= i < |lines| => DedupeTokens(lines[i]))
  }

  /** Lines 366-369: trim white space at both ends, add the final newline. */
  function Finish(text: string): string {
    TrimRightWhile(TrimLeftWhile(text, IsSpace), IsSpace) + "\n"
  }

  /** `cleanupRendered`. */
  function CleanupRendered(text: string): string {
    Finish(Join("\n", DedupeLines(Rewrites(text))))
  }

  // ----- properties -----

  /** What a cleaned text looks like: one final newline, no white space at either end of the rest. */
  predicate WellFormed(r: string) {
    |r| >= 1 && r[|r| - 1] == '\n'
    && (|r| == 1 || (!IsSpace(r[0]) && !IsSpace(r[|r| - 2])))
  }

  /** Every cleaned text is newline-terminated and trimmed. */
  lemma {:induction false} CleanupWellFormed(text: string)
    ensures WellFormed(CleanupRendered(text))
  {
    FinishWellFormed(Join("\n", DedupeLines(Rewrites(text))));
  }

  lemma {:induction false} FinishWellFormed(joined: string)
    ensures WellFormed(Finish(joined))
  {
    var a := TrimLeftWhile(joined, IsSpace);
    var b := TrimRightWhile(a, IsSpace);
    assert Finish(joined) == b + "\n";
    if |b| > 0 {
      assert b[0] == a[0];
    }
  }

  /** Some piece has a word character. */
  predicate AnyWord(ts: seq<string>) {
    exists i :: 0 <= i < |ts| && HasWord(ts[i])
  }

  lemma {:induction false} HasWordOfWords(a: string, b: string)
    requires Words(a) == Words(b)
    ensures HasWord(a) <==> HasWord(b)
  {
    WordsEmptyIffNoWord(a);
    WordsEmptyIffNoWord(b);
  }

  lemma {:induction false} NoWordNoHasWord(t: string)
    requires NoWordBefore(t, |t|)
    ensures !HasWord(t)
  {
  }

  /** A text has a word character exactly when one of its `explode` pieces has. */
  lemma {:induction false} HasWordSplit(s: string, sep: string)
    requires |sep| > 0 && NoWordBefore(sep, |sep|)
    ensures HasWord(s) <==> AnyWord(Split(s, sep))
  {
    JoinSplit(s, sep);
    HasWordJoin(sep, Split(s, sep));
  }

  lemma {:induction false} AnyWordMapTrimH(ts: seq<string>)
    ensures AnyWord(MapTrimH(ts)) <==> AnyWord(ts)
  {
    var r := MapTrimH(ts);
    forall i | 0 <= i < |ts|
      ensures HasWord(r[i]) <==> HasWord(ts[i])
    {
      TrimHKeepsWords(ts[i]);
      HasWordOfWords(r[i], ts[i]);
    }
  }

  lemma {:induction false} AnyWordDedup(ts: seq<string>)
    ensures AnyWord(Dedup(ts)) <==> AnyWord(ts)
  {
    DedupSpec(ts);
    var d := Dedup(ts);
    if AnyWord(ts) {
      var i :| 0 <= i < |ts| && HasWord(ts[i]);
      assert ts[i] in d;
    }
    if AnyWord(d) {
      var i :| 0 <= i < |d| && HasWord(d[i]);
      assert d[i] in ts;
    }
  }

  /** Deduplicating the pieces of a line keeps it free of, or holding, word characters. */
  lemma {:induction false} HasWordDedupeTokens(line: string)
    ensures HasWord(DedupeTokens(line)) <==> HasWord(line)
  {
    var pieces := Split(line, ", ");
    HasWordSplit(line, ", ");
    AnyWordMapTrimH(pieces);
    AnyWordDedup(MapTrimH(pieces));
    HasWordJoin(", ", Dedup(MapTrimH(pieces)));
  }

  lemma {:induction false} HasWordDedupeLines(text: string)
    ensures HasWord(Join("\n", DedupeLines(text))) <==> HasWord(text)
  {
    var lines := Dedup(MapTrimH(Split(text, "\n")));
    var out := DedupeLines(text);
    HasWordSplit(text, "\n");
    AnyWordMapTrimH(Split(text, "\n"));
    AnyWordDedup(MapTrimH(Split(text, "\n")));
    forall i | 0 <= i < |lines|
      ensures HasWord(out[i]) <==> HasWord(lines[i])
    {
      HasWordDedupeTokens(lines[i]);
    }
    HasWordJoin("\n", out);
  }

  /**
   * Cleanup neither loses nor invents word characters: the rendered text
   * has one exactly when the cleaned text has.  `render` relies on this to
   * decide whether to fall back to the plain list of values.
   */
  lemma {:induction false} CleanupKeepsWords(text: string)
    ensures HasWord(CleanupRendered(text)) <==> HasWord(text)
  {
    var t := Rewrites(text);
    RewritesKeepWords(text);
    HasWordOfWords(t, text);
    HasWordDedupeLines(t);
    FinishKeepsWords(Join("\n", DedupeLines(t)));
  }

  lemma {:induction false} FinishKeepsWords(joined: string)
    ensures HasWord(Finish(joined)) <==> HasWord(joined)
  {
    var a := TrimLeftWhile(joined, IsSpace);
    var b := TrimRightWhile(a, IsSpace);
    assert Words(b) == Words(joined) by {
      SpaceNotWord();
      WordsTrimLeft(joined, IsSpace);
      WordsTrimRight(a, IsSpace);
    }
    assert HasWord(b) <==> HasWord(joined) by {
      HasWordOfWords(b, joined);
    }
    assert Finish(joined) == b + "\n";
    HasWordConcat(b, "\n");
  }

  /** Nothing survives the rewrites of a text made only of white space, commas and closing braces. */
  lemma {:induction false} RewritesOfJunk(text: string)
    requires forall i :: 0 <= i < |text| ==> IsEndJunk(text[i])
    ensures Rewrites(text) == ""
  {
    var t1 := TrimRightWhile(text, IsEndJunk);
    assert |t1| == 0;
  }

  lemma {:induction false} DedupeLinesOfEmpty()
    ensures Join("\n", DedupeLines("")) == ""
  {
    assert DedupeTokens("") == "" by {
      assert Split("", ", ") == [""];
      assert MapTrimH([""]) == [""];
      assert Dedup([""]) == [""];
    }
    assert DedupeLines("") == [""] by {
      assert Split("", "\n") == [""];
      assert MapTrimH([""]) == [""];
      assert Dedup([""]) == [""];
    }
  }

  /** A text of white space, commas and closing braces cleans to a lone newline (`allownull` renders ' '). */
  lemma {:induction false} CleanupOfJunk(text: string)
    requires forall i :: 0 <= i < |text| ==> IsEndJunk(text[i])
    ensures CleanupRendered(text) == "\n"
  {
    RewritesOfJunk(text);
    DedupeLinesOfEmpty();
    assert Finish("") == "\n";
  }

  lemma {:induction false} BorderFreeCommaSpace()
    ensures BorderFree(", ")
  {
    assert ", "[1..][0] == ' ';
  }

  /**
   * The pieces of a deduplicated line are exactly the first occurrences of
   * its trimmed pieces, so no piece repeats: `explode(', ', ...)` of the
   * emitted line gives them back.
   */
  lemma {:induction false} DedupedTokens(line: string)
    ensures Split(DedupeTokens(line), ", ") == Dedup(MapTrimH(Split(line, ", ")))
    ensures Distinct(Split(DedupeTokens(line), ", "))
  {
    var pieces := Split(line, ", ");
    var trimmed := MapTrimH(pieces);
    var d := Dedup(trimmed);
    SplitPieces(line, ", ");
    SplitNonEmpty(line, ", ");
    DedupSpec(trimmed);
    DedupNonEmpty(trimmed);
    forall i | 0 <= i < |d|
      ensures !Contains(d[i], ", ")
    {
      assert d[i] in trimmed;
      var j :| 0 <= j < |trimmed| && trimmed[j] == d[i];
      TrimHKeepsAbsent(pieces[j], ", ");
    }
    BorderFreeCommaSpace();
    SplitJoin(", ", d);
  }

  /**
   * No line is emitted twice, and the emitted lines are exactly these: no
   * kept line holds a newline, so `explode("\n", ...)` of the joined text
   * gives them back one for one.
   */
  lemma {:induction false} DedupedLines(text: string)
    ensures Distinct(Dedup(MapTrimH(Split(text, "\n"))))
    ensures |DedupeLines(text)| == |Dedup(MapTrimH(Split(text, "\n")))|
    ensures Split(Join("\n", DedupeLines(text)), "\n") == DedupeLines(text)
  {
    var pieces := Split(text, "\n");
    var lines := Dedup(MapTrimH(pieces));
    var out := DedupeLines(text);
    DedupSpec(MapTrimH(pieces));
    SplitNonEmpty(text, "\n");
    DedupNonEmpty(MapTrimH(pieces));
    SplitPieces(text, "\n");
    forall i | 0 <= i < |out|
      ensures !Contains(out[i], "\n")
    {
      assert lines[i] in MapTrimH(pieces);
      var j :| 0 <= j < |pieces| && TrimH(pieces[j]) == lines[i];
      TrimHKeepsAbsent(pieces[j], "\n");
      AbsentCharNowhere(lines[i], '\n');
      TokensKeepAbsentChar(lines[i], '\n');
      AbsentChar(out[i], '\n');
    }
    assert BorderFree("\n");
    SplitJoin("\n", out);
  }

  /** Deduplicating the tokens of a line adds no character the line does not hold, other than `,` and space. */
  lemma {:induction false} TokensKeepAbsentChar(line: string, c: char)
    requires c !in line && c != ',' && c != ' '
    ensures c !in DedupeTokens(line)
  {
    var pieces := Split(line, ", ");
    var d := Dedup(MapTrimH(pieces));
    SplitKeepsAbsentChar(line, ", ", c);
    DedupSpec(MapTrimH(pieces));
    forall i | 0 <= i < |d|
      ensures c !in d[i]
    {
      assert d[i] in MapTrimH(pieces);
      var j :| 0 <= j < |pieces| && TrimH(pieces[j]) == d[i];
      TrimHSlice(pieces[j], c);
    }
    JoinKeepsAbsentChar(", ", d, c);
  }

  /** Trimming only drops characters. */
  lemma {:induction false} TrimHSlice(t: string, c: char)
    requires c !in t
    ensures c !in TrimH(t)
  {
    var a := TrimLeftWhile(t, IsHSpace);
    assert a == t[|t| - |a|..];
    assert c !in a by {
      forall k | 0 <= k < |a|
        ensures a[k] != c
      {
        assert a[k] == t[|t| - |a| + k];
      }
    }
    var b := TrimRightWhile(a, IsHSpace);
    assert b == a[..|b|];
    forall k | 0 <= k < |b|
      ensures b[k] != c
    {
      assert b[k] == a[k];
    }
  }
}
