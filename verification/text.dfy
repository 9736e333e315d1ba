/**
 * String primitives of PHP the formatter relies on: `explode`, `implode`,
 * literal search and replace, trimming by a character class, and the
 * word characters a text keeps.
 */
module Text {
  import opened Wrappers
  import opened Chars

  predicate StartsWith(s: string, p: string) {
    |p| <= |s| && s[..|p|] == p
  }

  /** `pat` occurs in `s` starting at index `j`. */
  predicate OccursAt(s: string, pat: string, j: nat) {
    j + |pat| <= |s| && s[j..j + |pat|] == pat
  }

  /** Index of the first occurrence of `pat` in `s` (`strpos`). */
  function IndexOf(s: string, pat: string): Option<nat>
    decreases |s|
  {
    if StartsWith(s, pat) then Some(0)
    else if |s| == 0 then None
    else
      match IndexOf(s[1..], pat)
      case None => None
      case Some(i) => Some(i + 1)
  }

  /** What `IndexOf` reports is an occurrence. */
  lemma {:induction false} IndexOfOccurs(s: string, pat: string)
    ensures IndexOf(s, pat).Some? ==> OccursAt(s, pat, IndexOf(s, pat).value)
    decreases |s|
  {
    if !StartsWith(s, pat) && |s| > 0 {
      IndexOfOccurs(s[1..], pat);
      if IndexOf(s[1..], pat).Some? {
        ShiftOne(s, pat, IndexOf(s[1..], pat).value);
      }
    }
  }

  /** The occurrence `IndexOf` reports lies inside `s`. */
  lemma {:induction false} IndexOfBound(s: string, pat: string)
    ensures IndexOf(s, pat).Some? ==> IndexOf(s, pat).value + |pat| <= |s|
    decreases |s|
  {
    if !StartsWith(s, pat) && |s| > 0 {
      IndexOfBound(s[1..], pat);
    }
  }

  lemma {:induction false} ShiftOne(s: string, pat: string, i: nat)
    requires |s| > 0 && OccursAt(s[1..], pat, i)
    ensures OccursAt(s, pat, i + 1)
  {
    assert s[1..][i..i + |pat|] == s[i + 1..i + 1 + |pat|];
  }

  /** `IndexOf` finds the first occurrence, and finds one whenever there is one. */
  lemma {:induction false} IndexOfIsFirst(s: string, pat: string)
    ensures IndexOf(s, pat).Some? ==> forall j :: 0 <= j < IndexOf(s, pat).value ==> !OccursAt(s, pat, j)
    ensures IndexOf(s, pat).None? ==> forall j :: 0 <= j ==> !OccursAt(s, pat, j)
    decreases |s|
  {
    assert |pat| <= |s| ==> s[0..|pat|] == s[..|pat|];
    if !StartsWith(s, pat) && |s| > 0 {
      IndexOfIsFirst(s[1..], pat);
      ShiftOccurrences(s, pat);
    }
  }

  lemma {:induction false} ShiftOccurrences(s: string, pat: string)
    requires |s| > 0
    ensures forall j: nat :: OccursAt(s[1..], pat, j) ==> OccursAt(s, pat, j + 1)
    ensures forall j: nat :: 0 < j && OccursAt(s, pat, j) ==> OccursAt(s[1..], pat, j - 1)
  {
    forall j: nat
      ensures OccursAt(s[1..], pat, j) ==> OccursAt(s, pat, j + 1)
      ensures 0 < j && OccursAt(s, pat, j) ==> OccursAt(s[1..], pat, j - 1)
    {
      if j + |pat| <= |s[1..]| {
        assert s[1..][j..j + |pat|] == s[j + 1..j + 1 + |pat|];
      }
      if 0 < j && j + |pat| <= |s| {
        assert s[1..][j - 1..j - 1 + |pat|] == s[j..j + |pat|];
      }
    }
  }

  predicate Contains(s: string, pat: string) {
    IndexOf(s, pat).Some?
  }

  /** A text that does not contain `pat` has no occurrence of it anywhere. */
  lemma {:induction false} AbsentNowhere(s: string, pat: string, j: nat)
    requires !Contains(s, pat)
    ensures !OccursAt(s, pat, j)
  {
    IndexOfIsFirst(s, pat);
  }

  /** The first occurrence of `pat` is at `i` when it occurs there and nowhere before. */
  lemma {:induction false} FirstOccurrence(s: string, pat: string, i: nat)
    requires OccursAt(s, pat, i)
    requires forall j :: 0 <= j < i ==> !OccursAt(s, pat, j)
    ensures IndexOf(s, pat) == Some(i)
  {
    IndexOfIsFirst(s, pat);
    IndexOfOccurs(s, pat);
  }

  /** An occurrence inside a slice is an occurrence in the whole string. */
  lemma {:induction false} SliceContains(s: string, lo: nat, hi: nat, pat: string)
    requires lo <= hi <= |s|
    requires Contains(s[lo..hi], pat)
    ensures Contains(s, pat)
  {
    IndexOfOccurs(s[lo..hi], pat);
    var j := IndexOf(s[lo..hi], pat).value;
    SliceOfSlice(s, lo, hi, j, j + |pat|);
    assert OccursAt(s, pat, lo + j);
    IndexOfIsFirst(s, pat);
  }

  lemma {:induction false} SliceOfSlice(s: string, lo: nat, hi: nat, a: nat, b: nat)
    requires lo <= hi <= |s| && a <= b <= hi - lo
    ensures s[lo..hi][a..b] == s[lo + a..lo + b]
  {
    var x, y := s[lo..hi][a..b], s[lo + a..lo + b];
    assert |x| == |y|;
    forall n | 0 <= n < |x|
      ensures x[n] == y[n]
    {
      assert x[n] == s[lo..hi][a + n];
    }
  }

  /** `explode(sep, s)`: the pieces between the non-overlapping occurrences of `sep`, left to right. */
  function Split(s: string, sep: string): (r: seq<string>)
    requires |sep| > 0
    decreases |s|
  {
    match IndexOf(s, sep)
    case None => [s]
    case Some(i) => if i + |sep| <= |s| then [s[..i]] + Split(s[i + |sep|..], sep) else [s]
  }

  /** `explode` returns at least one piece. */
  lemma {:induction false} SplitNonEmpty(s: string, sep: string)
    requires |sep| > 0
    ensures |Split(s, sep)| >= 1
  {
  }

  /** A text holding the separator has at least two pieces (so `list($k, $v) = explode(...)` is defined). */
  lemma {:induction false} SplitOnPresent(s: string, sep: string)
    requires |sep| > 0 && Contains(s, sep)
    ensures |Split(s, sep)| >= 2
  {
    IndexOfBound(s, sep);
    SplitAt(s, sep, IndexOf(s, sep).value);
    SplitNonEmpty(s[IndexOf(s, sep).value + |sep|..], sep);
  }

  /** No piece of `explode` holds the separator. */
  lemma {:induction false} SplitPieces(s: string, sep: string)
    requires |sep| > 0
    ensures forall i :: 0 <= i < |Split(s, sep)| ==> !Contains(Split(s, sep)[i], sep)
    decreases |s|
  {
    var r := IndexOf(s, sep);
    if r.Some? {
      var i := r.value;
      IndexOfOccurs(s, sep);
      IndexOfIsFirst(s, sep);
      NoEarlierOccurrence(s, sep, i);
      SplitPieces(s[i + |sep|..], sep);
      assert Split(s, sep) == [s[..i]] + Split(s[i + |sep|..], sep);
    }
  }

  lemma {:induction false} NoEarlierOccurrence(s: string, sep: string, i: nat)
    requires |sep| > 0 && i <= |s|
    requires forall j :: 0 <= j < i ==> !OccursAt(s, sep, j)
    ensures !Contains(s[..i], sep)
  {
    if Contains(s[..i], sep) {
      IndexOfOccurs(s[..i], sep);
      var j := IndexOf(s[..i], sep).value;
      IndexOfIsFirst(s, sep);
      assert s[..i][j..j + |sep|] == s[j..j + |sep|];
      assert OccursAt(s, sep, j);
    }
  }

  /** A character that `s` does not contain (as a one-character pattern) occurs nowhere in it. */
  lemma {:induction false} AbsentCharNowhere(s: string, c: char)
    requires !Contains(s, [c])
    ensures c !in s
  {
    if c in s {
      var i :| 0 <= i < |s| && s[i] == c;
      assert s[i..i + 1] == [c];
      AbsentNowhere(s, [c], i);
    }
  }

  lemma {:induction false} SliceKeepsAbsentChar(s: string, lo: nat, hi: nat, c: char)
    requires lo <= hi <= |s| && c !in s
    ensures c !in s[lo..hi]
  {
    forall k | 0 <= k < hi - lo
      ensures s[lo..hi][k] != c
    {
      assert s[lo..hi][k] == s[lo + k];
    }
  }

  /** A character absent from a text is absent from every piece `explode` gives. */
  lemma {:induction false} SplitKeepsAbsentChar(s: string, sep: string, c: char)
    requires |sep| > 0 && c !in s
    ensures forall i :: 0 <= i < |Split(s, sep)| ==> c !in Split(s, sep)[i]
    decreases |s|
  {
    match IndexOf(s, sep)
    case None =>
    case Some(i) =>
      if i + |sep| <= |s| {
        var rest := s[i + |sep|..];
        SliceKeepsAbsentChar(s, 0, i, c);
        SliceKeepsAbsentChar(s, i + |sep|, |s|, c);
        assert s[0..i] == s[..i] && s[i + |sep|..|s|] == rest;
        SplitKeepsAbsentChar(rest, sep, c);
        assert Split(s, sep) == [s[..i]] + Split(rest, sep);
      }
  }

  /** `implode(sep, ts)`. */
  function Join(sep: string, ts: seq<string>): string {
    if |ts| == 0 then ""
    else if |ts| == 1 then ts[0]
    else ts[0] + sep + Join(sep, ts[1..])
  }

  lemma {:induction false} JoinCons(sep: string, t: string, ts: seq<string>)
    requires |ts| >= 1
    ensures Join(sep, [t] + ts) == t + sep + Join(sep, ts)
  {
    assert ([t] + ts)[1..] == ts;
  }

  /** A character in neither the separator nor any piece is not in the joined text. */
  lemma {:induction false} JoinKeepsAbsentChar(sep: string, ts: seq<string>, c: char)
    requires c !in sep
    requires forall i :: 0 <= i < |ts| ==> c !in ts[i]
    ensures c !in Join(sep, ts)
    decreases |ts|
  {
    if |ts| > 1 {
      JoinKeepsAbsentChar(sep, ts[1..], c);
      var rest := Join(sep, ts[1..]);
      assert Join(sep, ts) == ts[0] + sep + rest;
      assert c !in ts[0] + sep + rest;
    }
  }

  /** `implode` undoes `explode`. */
  lemma {:induction false} JoinSplit(s: string, sep: string)
    requires |sep| > 0
    ensures Join(sep, Split(s, sep)) == s
    decreases |s|
  {
    match IndexOf(s, sep) {
      case None =>
        assert Split(s, sep) == [s];
      case Some(i) =>
        IndexOfOccurs(s, sep);
        SplitAt(s, sep, i);
        var rest := s[i + |sep|..];
        JoinSplit(rest, sep);
        SplitNonEmpty(rest, sep);
        JoinCons(sep, s[..i], Split(rest, sep));
        Recompose(s, sep, i);
    }
  }

  /** Cutting out an occurrence and putting it back gives the text again. */
  lemma {:induction false} Recompose(s: string, pat: string, i: nat)
    requires OccursAt(s, pat, i)
    ensures s == s[..i] + pat + s[i + |pat|..]
  {
    assert s == s[..i] + s[i..i + |pat|] + s[i + |pat|..];
  }

  /** No proper suffix of `sep` is also a prefix of it, so occurrences cannot overlap. */
  predicate BorderFree(sep: string) {
    forall k :: 0 < k < |sep| ==> sep[k..] != sep[..|sep| - k]
  }

  /** `explode` undoes `implode` when no piece holds the separator. */
  lemma {:induction false} SplitJoin(sep: string, ts: seq<string>)
    requires |sep| > 0 && BorderFree(sep)
    requires |ts| >= 1
    requires forall i :: 0 <= i < |ts| ==> !Contains(ts[i], sep)
    ensures Split(Join(sep, ts), sep) == ts
    decreases |ts|
  {
    if |ts| == 1 {
      assert Join(sep, ts) == ts[0];
    } else {
      var t := ts[0];
      var rest := Join(sep, ts[1..]);
      var s := Join(sep, ts);
      assert s == t + sep + rest;
      assert OccursAt(s, sep, |t|) by {
        assert s[|t|..|t| + |sep|] == sep;
      }
      forall j | 0 <= j < |t|
        ensures !OccursAt(s, sep, j)
      {
        if j + |sep| <= |t| {
          if OccursAt(s, sep, j) {
            assert s[j..j + |sep|] == t[j..j + |sep|];
            IndexOfIsFirst(t, sep);
            assert OccursAt(t, sep, j);
          }
        } else {
          var k := |t| - j;
          var w := s[j..j + |sep|];
          assert w[k..] == s[|t|..|t| + |sep| - k];
          assert s[|t|..|t| + |sep| - k] == sep[..|sep| - k];
          assert sep[k..] != sep[..|sep| - k];
          assert w != sep;
        }
      }
      FirstOccurrence(s, sep, |t|);
      assert s[..|t|] == t;
      assert s[|t| + |sep|..] == rest;
      SplitJoin(sep, ts[1..]);
      assert ts == [t] + ts[1..];
    }
  }

  /** `str_replace(pat, rep, s)`: every non-overlapping occurrence, left to right. */
  function ReplaceAll(s: string, pat: string, rep: string): string
    requires |pat| > 0
  {
    Join(rep, Split(s, pat))
  }

  /** Replacing a text that does not occur changes nothing. */
  lemma {:induction false} ReplaceAbsent(s: string, pat: string, rep: string)
    requires |pat| > 0 && !Contains(s, pat)
    ensures ReplaceAll(s, pat, rep) == s
  {
    assert Split(s, pat) == [s];
  }

  /** A single occurrence is replaced in place. */
  lemma {:induction false} ReplaceOnce(a: string, pat: string, b: string, rep: string)
    requires |pat| > 0 && BorderFree(pat)
    requires !Contains(a, pat) && !Contains(b, pat)
    ensures ReplaceAll(a + pat + b, pat, rep) == a + rep + b
  {
    var ts := [a, b];
    assert ts[1..] == [b];
    assert Join(pat, ts) == a + pat + b;
    SplitJoin(pat, ts);
    assert Join(rep, ts) == a + rep + b;
  }

  /** An occurrence of `pat` is an occurrence of its first character. */
  lemma {:induction false} ContainsFirstChar(s: string, pat: string)
    requires |pat| > 0 && Contains(s, pat)
    ensures Contains(s, pat[..1])
  {
    IndexOfOccurs(s, pat);
    var j := IndexOf(s, pat).value;
    assert s[j..j + 1] == pat[..1];
    assert OccursAt(s, pat[..1], j);
    IndexOfIsFirst(s, pat[..1]);
  }

  /** A character that does not occur is not contained. */
  lemma {:induction false} AbsentChar(s: string, c: char)
    requires forall i :: 0 <= i < |s| ==> s[i] != c
    ensures !Contains(s, [c])
    decreases |s|
  {
    if |s| > 0 {
      AbsentChar(s[1..], c);
      assert s[..1] == [s[0]];
    }
  }

  /** Replacing a text by itself changes nothing. */
  lemma {:induction false} ReplaceBySelf(s: string, pat: string)
    requires |pat| > 0
    ensures ReplaceAll(s, pat, pat) == s
  {
    JoinSplit(s, pat);
  }

  lemma {:induction false} SplitAt(s: string, pat: string, i: nat)
    requires |pat| > 0 && IndexOf(s, pat) == Some(i)
    ensures i + |pat| <= |s|
    ensures Split(s, pat) == [s[..i]] + Split(s[i + |pat|..], pat)
  {
    IndexOfBound(s, pat);
  }

  /** Length of the longest prefix of `s` whose characters all satisfy `p`. */
  function LeadingRun(s: string, p: char -> bool): (n: nat)
    ensures n <= |s|
    ensures forall i :: 0 <= i < n ==> p(s[i])
    ensures n == |s| || !p(s[n])
    decreases |s|
  {
    if |s| == 0 || !p(s[0]) then 0 else 1 + LeadingRun(s[1..], p)
  }

  /** The run ends where a prefix of `p` characters meets a character that is not one. */
  lemma {:induction false} RunOfPrefix(a: string, b: string, p: char -> bool)
    requires forall i :: 0 <= i < |a| ==> p(a[i])
    requires |b| == 0 || !p(b[0])
    ensures LeadingRun(a + b, p) == |a|
    decreases |a|
  {
    if |a| == 0 {
      assert a + b == b;
    } else {
      assert (a + b)[1..] == a[1..] + b;
      RunOfPrefix(a[1..], b, p);
    }
  }

  /** Length of the longest suffix of `s` whose characters all satisfy `p`. */
  function TrailingRun(s: string, p: char -> bool): (n: nat)
    ensures n <= |s|
    ensures forall i :: |s| - n <= i < |s| ==> p(s[i])
    ensures n == |s| || !p(s[|s| - n - 1])
    decreases |s|
  {
    if |s| == 0 || !p(s[|s| - 1]) then 0 else 1 + TrailingRun(s[..|s| - 1], p)
  }

  /** Removes the leading run of characters satisfying `p` (`preg_replace('/^[..]+/', '')`). */
  function TrimLeftWhile(s: string, p: char -> bool): (r: string)
    ensures |r| <= |s| && r == s[|s| - |r|..]
    ensures forall i :: 0 <= i < |s| - |r| ==> p(s[i])
    ensures |r| == 0 || !p(r[0])
  {
    s[LeadingRun(s, p)..]
  }

  /** Removes the trailing run of characters satisfying `p` (`preg_replace('/[..]+$/', '')`). */
  function TrimRightWhile(s: string, p: char -> bool): (r: string)
    ensures |r| <= |s| && r == s[..|r|]
    ensures forall i :: |r| <= i < |s| ==> p(s[i])
    ensures |r| == 0 || !p(r[|r| - 1])
  {
    s[..|s| - TrailingRun(s, p)]
  }

  /** The word characters of `s`, in order. */
  function Words(s: string): seq<char> {
    if |s| == 0 then [] else (if IsWordChar(s[0]) then [s[0]] else []) + Words(s[1..])
  }

  /** `preg_match('/\w/u', s)`. */
  predicate HasWord(s: string) {
    exists i :: 0 <= i < |s| && IsWordChar(s[i])
  }

  lemma {:induction false} WordsConcat(a: string, b: string)
    ensures Words(a + b) == Words(a) + Words(b)
    decreases |a|
  {
    if |a| > 0 {
      assert (a + b)[0] == a[0];
      assert (a + b)[1..] == a[1..] + b;
      WordsConcat(a[1..], b);
    } else {
      assert a + b == b;
    }
  }

  lemma {:induction false} WordsEmptyIffNoWord(s: string)
    ensures Words(s) == [] <==> !HasWord(s)
    decreases |s|
  {
    if |s| > 0 {
      WordsEmptyIffNoWord(s[1..]);
      if HasWord(s[1..]) {
        var i :| 0 <= i < |s[1..]| && IsWordChar(s[1..][i]);
        assert IsWordChar(s[i + 1]);
      }
      if HasWord(s) && !IsWordChar(s[0]) {
        var i :| 0 <= i < |s| && IsWordChar(s[i]);
        assert IsWordChar(s[1..][i - 1]);
      }
    }
  }

  lemma {:induction false} WordsOfNonWord(s: string)
    requires forall i :: 0 <= i < |s| ==> !IsWordChar(s[i])
    ensures Words(s) == []
  {
    WordsEmptyIffNoWord(s);
  }

  /** Dropping a prefix of non-word characters keeps the word characters. */
  lemma {:induction false} WordsDropPrefix(s: string, k: nat)
    requires k <= |s|
    requires forall i :: 0 <= i < k ==> !IsWordChar(s[i])
    ensures Words(s) == Words(s[k..])
  {
    assert s == s[..k] + s[k..];
    WordsConcat(s[..k], s[k..]);
    WordsOfNonWord(s[..k]);
  }

  /** Dropping a suffix of non-word characters keeps the word characters. */
  lemma {:induction false} WordsDropSuffix(s: string, k: nat)
    requires k <= |s|
    requires forall i :: k <= i < |s| ==> !IsWordChar(s[i])
    ensures Words(s) == Words(s[..k])
  {
    assert s == s[..k] + s[k..];
    WordsConcat(s[..k], s[k..]);
    WordsOfNonWord(s[k..]);
  }

  lemma {:induction false} HasWordConcat(a: string, b: string)
    ensures HasWord(a + b) <==> HasWord(a) || HasWord(b)
  {
    WordsConcat(a, b);
    WordsEmptyIffNoWord(a);
    WordsEmptyIffNoWord(b);
    WordsEmptyIffNoWord(a + b);
  }

  /** A joined text has a word character exactly when one of its pieces has. */
  lemma {:induction false} HasWordJoin(sep: string, ts: seq<string>)
    requires !HasWord(sep)
    ensures HasWord(Join(sep, ts)) <==> exists i :: 0 <= i < |ts| && HasWord(ts[i])
    decreases |ts|
  {
    if |ts| >= 2 {
      HasWordJoin(sep, ts[1..]);
      HasWordConcat(ts[0] + sep, Join(sep, ts[1..]));
      HasWordConcat(ts[0], sep);
      if exists i :: 0 <= i < |ts[1..]| && HasWord(ts[1..][i]) {
        var i :| 0 <= i < |ts[1..]| && HasWord(ts[1..][i]);
        assert HasWord(ts[i + 1]);
      }
      if exists i :: 0 <= i < |ts| && HasWord(ts[i]) {
        var i :| 0 <= i < |ts| && HasWord(ts[i]);
        if i > 0 {
          assert HasWord(ts[1..][i - 1]);
        }
      }
    }
  }
}
