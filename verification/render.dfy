/**
 * Rendering (Formatter.php lines 254-294): the Mustache call with its
 * `first` helper, the cleanup of the result, and the fallback when the
 * rendered text holds no word character; and the token dedupe of
 * `postFormatReplace` (lines 221-252).
 */
module Render {
  import opened Wrappers
  import opened Chars
  import opened Text
  import opened Fields
  import opened Config
  import opened Dedupe
  import opened Cleanup

  // ----- the `first` helper -----

  /** PHP truthiness of a string: `""` and `"0"` are false. */
  predicate IsTruthy(s: string) {
    s != "" && s != "0"
  }

  /** Removes the white space that `\s*\|\|\s*` swallows on the sides of a piece that touch a separator. */
  function TrimPiece(p: string, left: bool, right: bool): string {
    var a := if left then TrimLeftWhile(p, IsAsciiSpace) else p;
    if right then TrimRightWhile(a, IsAsciiSpace) else a
  }

  /** `preg_split` on `\s*\|\|\s*`: the pieces between `||`, with the white space next to each `||` dropped. */
  function FirstCandidates(text: string): (r: seq<string>)
    ensures |r| == |Split(text, "||")|
  {
    var ps := Split(text, "||");
    seq(|ps|, i requires 0 <= i < |ps| => TrimPiece(ps[i], i > 0, i < |ps| - 1))
  }

  /** `current(array_filter(...))`: the first truthy piece; `false`, which renders as nothing, when there is none. */
  function FirstTruthy(ps: seq<string>): string
    decreases |ps|
  {
    if |ps| == 0 then ""
    else if IsTruthy(ps[0]) then ps[0]
    else FirstTruthy(ps[1..])
  }

  /** Lines 259-265, given the text Mustache rendered for the section. */
  function First(rendered: string): string {
    FirstTruthy(FirstCandidates(rendered))
  }

  /** The helper returns the first truthy piece, or nothing when every piece is `""` or `"0"`. */
  lemma {:induction false} FirstTruthySpec(ps: seq<string>)
    ensures FirstTruthy(ps) == "" ==> forall i :: 0 <= i < |ps| ==> !IsTruthy(ps[i])
    ensures FirstTruthy(ps) != "" ==>
      exists i :: 0 <= i < |ps| && ps[i] == FirstTruthy(ps) && IsTruthy(ps[i]) && forall j :: 0 <= j < i ==> !IsTruthy(ps[j])
    decreases |ps|
  {
    if |ps| > 0 && !IsTruthy(ps[0]) {
      FirstTruthySpec(ps[1..]);
      if FirstTruthy(ps) != "" {
        var i :| 0 <= i < |ps[1..]| && ps[1..][i] == FirstTruthy(ps) && IsTruthy(ps[1..][i])
          && forall j :: 0 <= j < i ==> !IsTruthy(ps[1..][j]);
        assert ps[i + 1] == ps[1..][i];
        forall j | 0 <= j < i + 1
          ensures !IsTruthy(ps[j])
        {
          if j > 0 {
            assert ps[j] == ps[1..][j - 1];
          }
        }
      }
    } else if |ps| > 0 {
      assert ps[0] == FirstTruthy(ps);
    }
  }

  /** A section without `||` is its own answer, unless it is `""` or `"0"`. */
  lemma {:induction false} FirstOfSingle(text: string)
    requires !Contains(text, "||")
    ensures First(text) == if IsTruthy(text) then text else ""
  {
    assert Split(text, "||") == [text];
    var c := FirstCandidates(text);
    assert c == [text];
    assert c[1..] == [];
    assert First(text) == FirstTruthy(c);
    assert FirstTruthy(c[1..]) == "";
  }

  /** The first `||` of `a || b` is the one between them. */
  lemma {:induction false} SplitPair(a: string, b: string)
    requires !Contains(a, "||") && !Contains(b, "||")
    requires |a| == 0 || a[|a| - 1] != '|'
    ensures Split(a + "||" + b, "||") == [a, b]
  {
    var text := a + "||" + b;
    NoBarsBefore(a, b);
    assert OccursAt(text, "||", |a|);
    FirstOccurrence(text, "||", |a|);
    SplitAt(text, "||", |a|);
    assert text[..|a|] == a && text[|a| + 2..] == b;
    assert Split(b, "||") == [b];
  }

  lemma {:induction false} NoBarsBefore(a: string, b: string)
    requires !Contains(a, "||")
    requires |a| == 0 || a[|a| - 1] != '|'
    ensures forall j :: 0 <= j < |a| ==> !OccursAt(a + "||" + b, "||", j)
  {
    var text := a + "||" + b;
    forall j | 0 <= j < |a|
      ensures !OccursAt(text, "||", j)
    {
      if j + 1 < |a| {
        AbsentNowhere(a, "||", j);
        assert text[j..j + 2] == a[j..j + 2];
      } else {
        assert text[j..j + 2][0] == a[j];
      }
    }
  }

  /** `a || b` picks `a` when `a` is truthy and `b` otherwise, white space around `||` dropped. */
  lemma {:induction false} FirstOfPair(a: string, b: string)
    requires !Contains(a, "||") && !Contains(b, "||")
    requires |a| == 0 || (a[|a| - 1] != '|' && !IsAsciiSpace(a[|a| - 1]))
    requires |b| == 0 || !IsAsciiSpace(b[0])
    ensures First(a + "||" + b) == if IsTruthy(a) then a else if IsTruthy(b) then b else ""
  {
    CandidatesOfPair(a, b);
    var c := [a, b];
    assert First(a + "||" + b) == FirstTruthy(c);
    assert c[1..] == [b] && c[1..][1..] == [];
    assert FirstTruthy(c[1..][1..]) == "";
    assert FirstTruthy(c[1..]) == if IsTruthy(b) then b else "";
  }

  lemma {:induction false} CandidatesOfPair(a: string, b: string)
    requires !Contains(a, "||") && !Contains(b, "||")
    requires |a| == 0 || (a[|a| - 1] != '|' && !IsAsciiSpace(a[|a| - 1]))
    requires |b| == 0 || !IsAsciiSpace(b[0])
    ensures FirstCandidates(a + "||" + b) == [a, b]
  {
    SplitPair(a, b);
    CandidatesOfTwo(a + "||" + b);
    assert TrimPiece(a, false, true) == a by {
      if |a| > 0 {
        assert TrailingRun(a, IsAsciiSpace) == 0;
      }
    }
    assert TrimPiece(b, true, false) == b by {
      if |b| > 0 {
        assert LeadingRun(b, IsAsciiSpace) == 0;
      }
    }
  }

  /** With one separator, the first piece is trimmed on the right and the second on the left. */
  lemma {:induction false} CandidatesOfTwo(text: string)
    requires |Split(text, "||")| == 2
    ensures var ps := Split(text, "||");
      FirstCandidates(text) == [TrimPiece(ps[0], false, true), TrimPiece(ps[1], true, false)]
  {
  }

  // ----- render -----

  /** The backup parts of lines 277-283: every non-empty value, in order. */
  function NonEmptyValues(m: Fields): seq<string> {
    Values(FilterEntries(m, (e: Entry) => Utf8Len(e.1) > 0))
  }

  /** What Mustache produces for the template, with the `first` helper in the context. */
  function Rendered(ext: Externals, tplText: string, m: Fields): string {
    ext.mustache(tplText, m, Some((t: string) => First(ext.mustache(t, m, None))))
  }

  /** Line 273-288: a text without word characters is replaced by the list of values, or by a blank when null output is allowed. */
  function Fallback(cleaned: string, m: Fields, allowNull: bool): string {
    if HasWord(cleaned) then cleaned
    else if !allowNull then Join(", ", NonEmptyValues(m))
    else " "
  }

  /** `render`: clean the Mustache output, fall back if it is empty of words, clean again. */
  function RenderText(ext: Externals, tplText: string, m: Fields, allowNull: bool): string {
    CleanupRendered(Fallback(CleanupRendered(Rendered(ext, tplText, m)), m, allowNull))
  }

  /** Some field value has a word character. */
  predicate AnyValueHasWord(m: Fields) {
    exists e :: e in m && HasWord(e.1)
  }

  lemma {:induction false} NonEmptyValuesWords(m: Fields)
    ensures AnyWord(NonEmptyValues(m)) <==> AnyValueHasWord(m)
  {
    var keep := (e: Entry) => Utf8Len(e.1) > 0;
    var vs := NonEmptyValues(m);
    FilterMembers(m, keep);
    ValuesMembers(FilterEntries(m, keep));
    if AnyWord(vs) {
      var i :| 0 <= i < |vs| && HasWord(vs[i]);
      assert vs[i] in vs;
    }
    if AnyValueHasWord(m) {
      var e :| e in m && HasWord(e.1);
      assert |e.1| > 0;
      assert e in FilterEntries(m, keep);
      assert e.1 in vs;
    }
  }

  /** Whatever the template and fields, the result is newline-terminated and trimmed. */
  lemma {:induction false} RenderWellFormed(ext: Externals, tplText: string, m: Fields, allowNull: bool)
    ensures WellFormed(RenderText(ext, tplText, m, allowNull))
  {
    CleanupWellFormed(Fallback(CleanupRendered(Rendered(ext, tplText, m)), m, allowNull));
  }

  /**
   * The result has a word character exactly when Mustache produced one, or,
   * without `allownull`, when some field value has one.
   */
  lemma {:induction false} RenderHasWord(ext: Externals, tplText: string, m: Fields, allowNull: bool)
    ensures HasWord(RenderText(ext, tplText, m, allowNull)) <==>
      HasWord(Rendered(ext, tplText, m)) || (!allowNull && AnyValueHasWord(m))
  {
    var raw := Rendered(ext, tplText, m);
    var c1 := CleanupRendered(raw);
    CleanupKeepsWords(raw);
    CleanupKeepsWords(Fallback(c1, m, allowNull));
    FallbackHasWord(c1, m, allowNull);
  }

  lemma {:induction false} FallbackHasWord(c1: string, m: Fields, allowNull: bool)
    ensures HasWord(Fallback(c1, m, allowNull)) <==> HasWord(c1) || (!allowNull && AnyValueHasWord(m))
  {
    if !HasWord(c1) && !allowNull {
      NotWordCommaSpace();
      HasWordJoin(", ", NonEmptyValues(m));
      NonEmptyValuesWords(m);
    }
    if !HasWord(c1) && allowNull {
      assert !IsWordChar(" "[0]);
    }
  }

  lemma {:induction false} NotWordCommaSpace()
    ensures !HasWord(", ")
  {
    assert !IsWordChar(", "[0]) && !IsWordChar(", "[1]);
  }

  /** With `allownull`, a template that renders no word character gives a lone newline. */
  lemma {:induction false} RenderAllowNull(ext: Externals, tplText: string, m: Fields)
    requires !HasWord(Rendered(ext, tplText, m))
    ensures RenderText(ext, tplText, m, true) == "\n"
  {
    CleanupKeepsWords(Rendered(ext, tplText, m));
    CleanupOfBlank();
  }

  lemma {:induction false} CleanupOfBlank()
    ensures CleanupRendered(" ") == "\n"
  {
    assert IsEndJunk(" "[0]);
    CleanupOfJunk(" ");
  }

  /** Without `allownull`, such a template gives the cleaned list of the non-empty values in field order. */
  lemma {:induction false} RenderBackup(ext: Externals, tplText: string, m: Fields)
    requires !HasWord(Rendered(ext, tplText, m))
    ensures RenderText(ext, tplText, m, false) == CleanupRendered(Join(", ", NonEmptyValues(m)))
  {
    CleanupKeepsWords(Rendered(ext, tplText, m));
  }

  /** A template that renders a word character is kept: cleaned, and cleaned once more. */
  lemma {:induction false} RenderKeeps(ext: Externals, tplText: string, m: Fields, allowNull: bool)
    requires HasWord(Rendered(ext, tplText, m))
    ensures RenderText(ext, tplText, m, allowNull) == CleanupRendered(CleanupRendered(Rendered(ext, tplText, m)))
  {
    CleanupKeepsWords(Rendered(ext, tplText, m));
  }

  // ----- postFormatReplace -----

  /** `preg_replace('/^\s+/u', '', piece)`. */
  function TrimLeadingSpace(t: string): string {
    TrimLeftWhile(t, IsSpace)
  }

  function MapTrimLeading(ts: seq<string>): (r: seq<string>)
    ensures |r| == |ts|
    ensures forall i :: 0 <= i < |ts| ==> r[i] == TrimLeadingSpace(ts[i])
  {
    seq(|ts|, i requires 0 <= i < |ts| => TrimLeadingSpace(ts[i]))
  }

  /** Lines 224-244: the pieces between ", ", trimmed at the front, each kept once, joined again. */
  function DedupePieces(text: string): string {
    Join(", ", Dedup(MapTrimLeading(Split(text, ", "))))
  }

  /** Lines 247-249: the template's rules in order, as Unicode regular expressions. */
  function ApplyRules(ext: Externals, text: string, rules: seq<(string, string)>): string
    decreases |rules|
  {
    if |rules| == 0 then text
    else ApplyRules(ext, ext.pregReplace(rules[0].0, rules[0].1, text, true), rules[1..])
  }

  function PostFormatReplace(ext: Externals, text: string, rules: seq<(string, string)>): string {
    ApplyRules(ext, DedupePieces(text), rules)
  }

  /** Trimming the front cannot create an occurrence of a separator. */
  lemma {:induction false} TrimLeadingKeepsAbsent(t: string, sep: string)
    requires |sep| > 0 && !Contains(t, sep)
    ensures !Contains(TrimLeadingSpace(t), sep)
  {
    var a := TrimLeadingSpace(t);
    if Contains(a, sep) {
      assert a == t[|t| - |a|..|t|];
      SliceContains(t, |t| - |a|, |t|, sep);
    }
  }

  /**
   * Before the rules run, the pieces of the text are exactly the first
   * occurrences of the trimmed pieces, so none repeats.
   */
  lemma {:induction false} DedupedPieces(text: string)
    ensures Split(DedupePieces(text), ", ") == Dedup(MapTrimLeading(Split(text, ", ")))
    ensures Distinct(Split(DedupePieces(text), ", "))
  {
    var pieces := Split(text, ", ");
    var trimmed := MapTrimLeading(pieces);
    var d := Dedup(trimmed);
    SplitPieces(text, ", ");
    SplitNonEmpty(text, ", ");
    DedupSpec(trimmed);
    DedupNonEmpty(trimmed);
    forall i | 0 <= i < |d|
      ensures !Contains(d[i], ", ")
    {
      assert d[i] in trimmed;
      var j :| 0 <= j < |trimmed| && trimmed[j] == d[i];
      TrimLeadingKeepsAbsent(pieces[j], ", ");
    }
    BorderFreeCommaSpace();
    SplitJoin(", ", d);
  }

  /** Every trimmed piece survives deduplication, and nothing else appears. */
  lemma {:induction false} DedupedPiecesKept(text: string)
    ensures forall t :: t in Split(DedupePieces(text), ", ") <==> t in MapTrimLeading(Split(text, ", "))
  {
    DedupedPieces(text);
    DedupSpec(MapTrimLeading(Split(text, ", ")));
  }
}
