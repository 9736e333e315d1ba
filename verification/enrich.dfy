/**
 * The stages between template choice and rendering that rewrite field
 * values: `fixCountry` (Formatter.php lines 374-392), `applyReplacements`
 * (lines 394-412), `addCode` for states and counties (lines 414-477), the
 * folding of unknown fields into `attention` (lines 150-154, 174-185) and
 * `abbreviate` (lines 187-219).
 */
module Enrich {
  import opened Wrappers
  import opened Chars
  import opened Text
  import opened Fields
  import opened Config
  import opened Normalize

  // ----- fixCountry -----

  /** `[eE][+-]?[0-9]+` and nothing after it, or nothing at all. */
  predicate IsExponentOrEmpty(s: string) {
    |s| == 0 ||
    (|s| >= 2 && (s[0] == 'e' || s[0] == 'E') &&
      var t := if s[1] == '+' || s[1] == '-' then s[2..] else s[1..];
      |t| > 0 && LeadingRun(t, IsDigit) == |t|)
  }

  /** A decimal number: sign, digits with at most one point and at least one digit, optional exponent. */
  predicate IsDecimal(s: string) {
    var t := if |s| > 0 && (s[0] == '+' || s[0] == '-') then s[1..] else s;
    var whole := LeadingRun(t, IsDigit);
    var rest := t[whole..];
    if |rest| > 0 && rest[0] == '.' then
      var frac := LeadingRun(rest[1..], IsDigit);
      whole + frac > 0 && IsExponentOrEmpty(rest[1 + frac..])
    else
      whole > 0 && IsExponentOrEmpty(rest)
  }

  /** `is_numeric` on a string, as PHP 8 reads it: a decimal number with ASCII whitespace allowed on both sides. */
  predicate IsNumeric(s: string) {
    IsDecimal(TrimRightWhile(TrimLeftWhile(s, IsAsciiSpace), IsAsciiSpace))
  }

  /** A numeric country is bad data: the state takes its place and is removed. */
  function FixCountry(m: Fields): Fields {
    if HasKey(m, "country") && HasKey(m, "state") && IsNumeric(Get(m, "country")) then
      Remove(Set(m, "country", Get(m, "state")), "state")
    else m
  }

  /** When the country is numeric and a state is present, the state moves into `country`; nothing else changes. */
  lemma {:induction false} FixCountryLookup(m: Fields, k: string)
    requires UniqueKeys(m)
    ensures var fix := HasKey(m, "country") && HasKey(m, "state") && IsNumeric(Get(m, "country"));
      Lookup(FixCountry(m), k) ==
        if fix && k == "country" then Lookup(m, "state")
        else if fix && k == "state" then None
        else Lookup(m, k)
    ensures UniqueKeys(FixCountry(m))
  {
    if HasKey(m, "country") && HasKey(m, "state") {
      var m' := Set(m, "country", Get(m, "state"));
      SetUnique(m, "country", Get(m, "state"));
      SetLookup(m, "country", Get(m, "state"), k);
      RemoveLookup(m', "state", k);
    }
  }

  /** A non-empty run of digits is numeric. */
  lemma {:induction false} DigitsAreNumeric(s: string)
    requires |s| > 0 && forall i :: 0 <= i < |s| ==> IsDigit(s[i])
    ensures IsNumeric(s)
  {
    var t := TrimLeftWhile(s, IsAsciiSpace);
    assert !IsAsciiSpace(s[0]);
    assert t == s;
    assert !IsAsciiSpace(s[|s| - 1]);
    assert TrimRightWhile(t, IsAsciiSpace) == s;
    assert s[LeadingRun(s, IsDigit)..] == [];
  }

  /** The empty string, or one holding only whitespace, is not numeric. */
  lemma {:induction false} BlankNotNumeric(s: string)
    requires forall i :: 0 <= i < |s| ==> IsAsciiSpace(s[i])
    ensures !IsNumeric(s)
  {
    assert TrimLeftWhile(s, IsAsciiSpace) == [];
  }

  // ----- applyReplacements -----

  /**
   * `preg_match('/^key=(.+)/', rule)`: the capture of a rule that names
   * `key`, which is everything after `key=` up to the first line break,
   * and must not be empty.
   */
  predicate NotNewline(c: char) {
    c != '\n'
  }

  function KeyedFrom(rule: string, key: string): Option<string> {
    var head := key + "=";
    if StartsWith(rule, head) then
      var rest := rule[|head|..];
      var n := LeadingRun(rest, NotNewline);
      if n > 0 then Some(rest[..n]) else None
    else None
  }

  /**
   * The inner loop for one field: a rule naming the field sets it when the
   * named value equals the value the field had before any rule ran
   * (`$val`); any other rule is a regular expression applied to the
   * current value.
   */
  function ReplaceValue(ext: Externals, key: string, orig: string, cur: string, rules: seq<(string, string)>): string
    decreases |rules|
  {
    if |rules| == 0 then cur
    else
      var cur' :=
        match KeyedFrom(rules[0].0, key)
        case Some(from) => if from == orig then rules[0].1 else cur
        case None => ext.pregReplace(rules[0].0, rules[0].1, cur, false);
      ReplaceValue(ext, key, orig, cur', rules[1..])
  }

  /** Every field, in order, through all the rules. */
  function ApplyReplacements(ext: Externals, m: Fields, rules: seq<(string, string)>): (r: Fields)
    ensures |r| == |m|
  {
    seq(|m|, i requires 0 <= i < |m| => (m[i].0, ReplaceValue(ext, m[i].0, m[i].1, m[i].1, rules)))
  }

  /** The loop as written: walk the entries of the original array, updating the working array in place. */
  function ReplaceLoop(ext: Externals, entries: Fields, acc: Fields, rules: seq<(string, string)>): Fields
    decreases |entries|
  {
    if |entries| == 0 then acc
    else
      var key := entries[0].0;
      var acc' := Set(acc, key, ReplaceValue(ext, key, entries[0].1, Lookup(acc, key).GetOr(""), rules));
      ReplaceLoop(ext, entries[1..], acc', rules)
  }

  /** On a PHP array the in-place loop and the entry-wise rewrite agree: each field is rewritten on its own. */
  lemma {:induction false} ReplaceLoopIsEntrywise(ext: Externals, m: Fields, rules: seq<(string, string)>)
    requires UniqueKeys(m)
    ensures ReplaceLoop(ext, m, m, rules) == ApplyReplacements(ext, m, rules)
  {
    var r := ApplyReplacements(ext, m, rules);
    assert r[..0] + m[0..] == m;
    ReplaceLoopFrom(ext, m, rules, 0);
  }

  lemma {:induction false} ReplaceLoopFrom(ext: Externals, m: Fields, rules: seq<(string, string)>, i: nat)
    requires UniqueKeys(m) && i <= |m|
    ensures var r := ApplyReplacements(ext, m, rules);
      ReplaceLoop(ext, m[i..], r[..i] + m[i..], rules) == r
    decreases |m| - i
  {
    var r := ApplyReplacements(ext, m, rules);
    if i == |m| {
      assert r[..i] + m[i..] == r;
    } else {
      var acc := r[..i] + m[i..];
      var key := m[i].0;
      var acc' := Set(acc, key, ReplaceValue(ext, key, m[i].1, Lookup(acc, key).GetOr(""), rules));
      ReplaceLoopStep(ext, m, rules, i);
      assert m[i..][0] == m[i] && m[i..][1..] == m[i + 1..];
      assert ReplaceLoop(ext, m[i..], acc, rules) == ReplaceLoop(ext, m[i + 1..], acc', rules);
      ReplaceLoopFrom(ext, m, rules, i + 1);
    }
  }

  /** One step of the loop rewrites position `i` and nothing else. */
  lemma {:induction false} ReplaceLoopStep(ext: Externals, m: Fields, rules: seq<(string, string)>, i: nat)
    requires UniqueKeys(m) && i < |m|
    ensures var r := ApplyReplacements(ext, m, rules);
      var acc := r[..i] + m[i..];
      Set(acc, m[i].0, ReplaceValue(ext, m[i].0, m[i].1, Lookup(acc, m[i].0).GetOr(""), rules)) == r[..i + 1] + m[i + 1..]
  {
    var r := ApplyReplacements(ext, m, rules);
    assert forall j :: 0 <= j < |m| ==> r[j].0 == m[j].0;
    SetAtPosition(m, r, i, r[i].1);
  }

  /** Writing position `i`'s new value into a half-rewritten array: the lookup still sees the old value, and only position `i` changes. */
  lemma {:induction false} SetAtPosition(m: Fields, r: Fields, i: nat, v: string)
    requires UniqueKeys(m) && i < |m| == |r|
    requires forall j :: 0 <= j < |m| ==> r[j].0 == m[j].0
    requires r[i].1 == v
    ensures var acc := r[..i] + m[i..];
      Lookup(acc, m[i].0) == Some(m[i].1) && Set(acc, m[i].0, v) == r[..i + 1] + m[i + 1..]
  {
    var key := m[i].0;
    var acc := r[..i] + m[i..];
    KeysOfPrefix(m, r, i);
    UniqueSplit(m, i);
    assert acc == r[..i] + ([m[i]] + m[i + 1..]);
    LookupSkip(r[..i], [m[i]] + m[i + 1..], key);
    assert acc == r[..i] + [m[i]] + m[i + 1..];
    SetMiddle(r[..i], key, m[i].1, v, m[i + 1..]);
    assert r[i] == (key, v);
    assert r[..i] + [r[i]] == r[..i + 1];
  }

  /** A lookup passes over a prefix that lacks the key. */
  lemma {:induction false} LookupSkip(a: Fields, b: Fields, k: string)
    requires !HasKey(a, k)
    ensures Lookup(a + b, k) == Lookup(b, k)
  {
    if |a| == 0 {
      assert a + b == b;
    } else {
      assert (a + b)[1..] == a[1..] + b;
      LookupSkip(a[1..], b, k);
    }
  }

  /** The rewritten prefix carries the same keys as the original one. */
  lemma {:induction false} KeysOfPrefix(m: Fields, r: Fields, i: nat)
    requires i <= |m| == |r|
    requires forall j :: 0 <= j < |m| ==> r[j].0 == m[j].0
    ensures forall k :: HasKey(r[..i], k) <==> HasKey(m[..i], k)
  {
    forall k
      ensures HasKey(r[..i], k) <==> HasKey(m[..i], k)
    {
      SameKeysLookup(r[..i], m[..i], k);
    }
  }

  lemma {:induction false} SameKeysLookup(a: Fields, b: Fields, k: string)
    requires |a| == |b| && forall j :: 0 <= j < |a| ==> a[j].0 == b[j].0
    ensures HasKey(a, k) <==> HasKey(b, k)
  {
    if |a| > 0 {
      SameKeysLookup(a[1..], b[1..], k);
    }
  }

  /** In a PHP array the key at position `i` occurs nowhere before it. */
  lemma {:induction false} UniqueSplit(m: Fields, i: nat)
    requires UniqueKeys(m) && i < |m|
    ensures !HasKey(m[..i], m[i].0)
  {
    if i > 0 {
      UniqueSplit(m[1..], i - 1);
      assert m[1..][..i - 1] == m[..i][1..];
      assert m[1..][i - 1] == m[i];
      assert (m[i], m[i].1) == (m[i], m[i].1);
      if m[0].0 == m[i].0 {
        assert m[i] in m[1..];
        LookupIsMember(m[1..], m[i]);
      }
    }
  }

  lemma {:induction false} LookupIsMember(m: Fields, e: Entry)
    requires e in m
    ensures HasKey(m, e.0)
  {
    var j :| 0 <= j < |m| && m[j] == e;
    if !HasKey(m, e.0) {
      NoKeyNoEntry(m, e.0, j);
    }
  }

  lemma {:induction false} NoKeyNoEntry(m: Fields, k: string, j: nat)
    requires j < |m| && !HasKey(m, k)
    ensures m[j].0 != k
  {
    if j > 0 {
      NoKeyNoEntry(m[1..], k, j - 1);
    }
  }

  /** Assigning a key held at a known position, with no earlier copy, updates that position. */
  lemma {:induction false} SetMiddle(a: Fields, k: string, v: string, v': string, b: Fields)
    requires !HasKey(a, k)
    ensures Set(a + [(k, v)] + b, k, v') == a + [(k, v')] + b
  {
    if |a| == 0 {
      assert [(k, v)] + b == a + [(k, v)] + b;
      assert ([(k, v)] + b)[1..] == b;
    } else {
      SetMiddle(a[1..], k, v, v', b);
      assert (a + [(k, v)] + b)[1..] == a[1..] + [(k, v)] + b;
      assert a + [(k, v')] + b == [a[0]] + (a[1..] + [(k, v')] + b);
    }
  }

  /** Rewriting keeps every key at its position. */
  lemma {:induction false} ReplacementsKeepKeys(ext: Externals, m: Fields, rules: seq<(string, string)>)
    requires UniqueKeys(m)
    ensures UniqueKeys(ApplyReplacements(ext, m, rules))
    ensures forall i :: 0 <= i < |m| ==> ApplyReplacements(ext, m, rules)[i].0 == m[i].0
  {
    var r := ApplyReplacements(ext, m, rules);
    forall i, j | 0 <= i < j < |m|
      ensures r[i].0 != r[j].0
    {
      UniqueSplit(m, j);
      if m[i].0 == m[j].0 {
        assert m[..j][i] == m[i];
        LookupIsMember(m[..j], m[i]);
      }
    }
    DistinctKeysUnique(r);
  }

  /** With only rules naming the field, none of which names its value, the field is left alone. */
  lemma {:induction false} KeyedNoHit(ext: Externals, key: string, orig: string, cur: string, rules: seq<(string, string)>)
    requires forall i :: 0 <= i < |rules| ==> KeyedFrom(rules[i].0, key).Some? && KeyedFrom(rules[i].0, key).value != orig
    ensures ReplaceValue(ext, key, orig, cur, rules) == cur
    decreases |rules|
  {
    if |rules| > 0 {
      KeyedNoHit(ext, key, orig, cur, rules[1..]);
    }
  }

  /** The last rule naming the field's original value decides it, when only such rules follow. */
  lemma {:induction false} KeyedLastHit(ext: Externals, key: string, orig: string, cur: string,
                                        pre: seq<(string, string)>, rule: (string, string), post: seq<(string, string)>)
    requires KeyedFrom(rule.0, key) == Some(orig)
    requires forall i :: 0 <= i < |post| ==> KeyedFrom(post[i].0, key).Some? && KeyedFrom(post[i].0, key).value != orig
    ensures ReplaceValue(ext, key, orig, cur, pre + [rule] + post) == rule.1
    decreases |pre|
  {
    if |pre| == 0 {
      assert pre + [rule] + post == [rule] + post;
      assert ([rule] + post)[1..] == post;
      KeyedNoHit(ext, key, orig, rule.1, post);
    } else {
      var rules := pre + [rule] + post;
      assert rules[1..] == pre[1..] + [rule] + post;
      var c' :=
        match KeyedFrom(rules[0].0, key)
        case Some(from) => if from == orig then rules[0].1 else cur
        case None => ext.pregReplace(rules[0].0, rules[0].1, cur, false);
      KeyedLastHit(ext, key, orig, c', pre[1..], rule, post);
    }
  }

  /** A rule `key=from`, with nothing after `from` but a line break, names exactly `from`. */
  lemma {:induction false} KeyedFromSpec(key: string, from: string, tail: string)
    requires |from| > 0 && forall i :: 0 <= i < |from| ==> from[i] != '\n'
    requires |tail| == 0 || tail[0] == '\n'
    ensures KeyedFrom(key + "=" + from + tail, key) == Some(from)
  {
    var rule := key + "=" + from + tail;
    assert rule[..|key| + 1] == key + "=";
    assert rule[|key| + 1..] == from + tail;
    RunOfPrefix(from, tail, NotNewline);
    assert (from + tail)[..|from|] == from;
  }

  /** A rule that does not start with `key=` names some other field, or none. */
  lemma {:induction false} KeyedFromOther(rule: string, key: string)
    requires !StartsWith(rule, key + "=")
    ensures KeyedFrom(rule, key) == None
  {
  }

  // ----- addCode -----

  /** The last entry of `table` whose name equals `s` ignoring case. */
  function LastMatch(table: Fields, s: string): (r: Option<nat>)
    ensures r.Some? ==> r.value < |table|
    decreases |table|
  {
    if |table| == 0 then None
    else if SameUpper(s, table[|table| - 1].1) then Some(|table| - 1)
    else LastMatch(table[..|table| - 1], s)
  }

  /** The first entry of `table` whose name equals `s` ignoring case. */
  function FirstMatch(table: Fields, s: string): (r: Option<nat>)
    ensures r.Some? ==> r.value < |table|
    decreases |table|
  {
    if |table| == 0 then None
    else if SameUpper(s, table[0].1) then Some(0)
    else match FirstMatch(table[1..], s)
      case None => None
      case Some(i) => Some(i + 1)
  }

  /** `LastMatch` finds a matching entry after which none matches, and finds one whenever one exists. */
  lemma {:induction false} LastMatchSpec(table: Fields, s: string)
    ensures match LastMatch(table, s)
      case Some(i) => i < |table| && SameUpper(s, table[i].1) && forall j :: i < j < |table| ==> !SameUpper(s, table[j].1)
      case None => forall j :: 0 <= j < |table| ==> !SameUpper(s, table[j].1)
    decreases |table|
  {
    if |table| > 0 && !SameUpper(s, table[|table| - 1].1) {
      var init := table[..|table| - 1];
      LastMatchSpec(init, s);
      assert forall j :: 0 <= j < |init| ==> init[j] == table[j];
    }
  }

  /** `FirstMatch` finds a matching entry before which none matches, and finds one whenever one exists. */
  lemma {:induction false} FirstMatchSpec(table: Fields, s: string)
    ensures match FirstMatch(table, s)
      case Some(i) => i < |table| && SameUpper(s, table[i].1) && forall j :: 0 <= j < i ==> !SameUpper(s, table[j].1)
      case None => forall j :: 0 <= j < |table| ==> !SameUpper(s, table[j].1)
    decreases |table|
  {
    if |table| > 0 && !SameUpper(s, table[0].1) {
      FirstMatchSpec(table[1..], s);
      assert forall j :: 1 <= j < |table| ==> table[1..][j - 1] == table[j];
    }
  }

  /** `/^washington,? d\.?c\.?/i`. */
  predicate IsWashingtonDC(s: string) {
    StartsWithCI(s, "washington") &&
    var r := s[10..];
    var r1 := if |r| > 0 && r[0] == ',' then r[1..] else r;
    |r1| >= 2 && r1[0] == ' ' && ToUpper(r1[1]) == 'D' &&
    var r2 := r1[2..];
    var r3 := if |r2| > 0 && r2[0] == '.' then r2[1..] else r2;
    |r3| > 0 && ToUpper(r3[0]) == 'C'
  }

  /** Lines 441-461: the retry for US states after the table lookup found nothing. */
  function UsStateRetry(table: Fields, m: Fields, state: string): Fields {
    var m1 :=
      if StartsWithCI(state, "united states") then
        match FirstMatch(table, "US" + state[13..])
        case Some(i) => Set(m, "state_code", table[i].0)
        case None => m
      else m;
    if IsWashingtonDC(state) then
      Set(Set(Set(m1, "state_code", "DC"), "state", "District of Columbia"), "city", "Washington")
    else m1
  }

  /** `addCode('state', ...)`: lines 426-462. */
  function AddStateCode(cfg: Config, m: Fields): Fields {
    if !HasKey(m, "country_code") || !HasKey(m, "state") || HasKey(m, "state_code") then m
    else
      var cc := Upper(Get(m, "country_code"));
      var m1 := Set(m, "country_code", cc);
      if cc !in cfg.stateCodes then m1
      else
        var table := cfg.stateCodes[cc];
        var state := Get(m, "state");
        match LastMatch(table, state)
        case Some(i) => Set(m1, "state_code", table[i].0)
        case None => if cc == "US" then UsStateRetry(table, m1, state) else m1
  }

  /** `addCode('county', ...)`: lines 426-432 and 463-471. */
  function AddCountyCode(cfg: Config, m: Fields): Fields {
    if !HasKey(m, "country_code") || !HasKey(m, "county") || HasKey(m, "county_code") then m
    else
      var cc := Upper(Get(m, "country_code"));
      var m1 := Set(m, "country_code", cc);
      if cc !in cfg.countyCodes then m1
      else
        match LastMatch(cfg.countyCodes[cc], Get(m, "county"))
        case Some(i) => Set(m1, "county_code", cfg.countyCodes[cc][i].0)
        case None => m1
  }

  /** A state code already present, or a missing country code or state, leaves the fields alone. */
  lemma {:induction false} AddStateCodeNeedsGaps(cfg: Config, m: Fields)
    requires !HasKey(m, "country_code") || !HasKey(m, "state") || HasKey(m, "state_code")
    ensures AddStateCode(cfg, m) == m
  {
  }

  /** Adding a state code touches only the country code, the state code, and (for Washington DC) the state and city. */
  lemma {:induction false} AddStateCodeTouches(cfg: Config, m: Fields, k: string)
    requires k != "country_code" && k != "state_code" && k != "state" && k != "city"
    ensures Lookup(AddStateCode(cfg, m), k) == Lookup(m, k)
  {
    if HasKey(m, "country_code") && HasKey(m, "state") && !HasKey(m, "state_code") {
      var cc := Upper(Get(m, "country_code"));
      var m1 := Set(m, "country_code", cc);
      SetLookup(m, "country_code", cc, k);
      if cc in cfg.stateCodes {
        var table := cfg.stateCodes[cc];
        var state := Get(m, "state");
        match LastMatch(table, state) {
          case Some(i) => SetLookup(m1, "state_code", table[i].0, k);
          case None =>
            if cc == "US" {
              UsRetryTouches(table, m1, state, k);
            }
        }
      }
    }
  }

  lemma {:induction false} UsRetryTouches(table: Fields, m: Fields, state: string, k: string)
    requires k != "state_code" && k != "state" && k != "city"
    ensures Lookup(UsStateRetry(table, m, state), k) == Lookup(m, k)
  {
    var m1 :=
      if StartsWithCI(state, "united states") then
        match FirstMatch(table, "US" + state[13..])
        case Some(i) => Set(m, "state_code", table[i].0)
        case None => m
      else m;
    if StartsWithCI(state, "united states") {
      match FirstMatch(table, "US" + state[13..]) {
        case Some(i) => SetLookup(m, "state_code", table[i].0, k);
        case None =>
      }
    }
    SetLookup(m1, "state_code", "DC", k);
    var m2 := Set(m1, "state_code", "DC");
    SetLookup(m2, "state", "District of Columbia", k);
    SetLookup(Set(m2, "state", "District of Columbia"), "city", "Washington", k);
  }

  /** The state code is the code of the last table entry naming the state, and the country code is upper-cased. */
  lemma {:induction false} AddStateCodeFound(cfg: Config, m: Fields)
    requires HasKey(m, "country_code") && HasKey(m, "state") && !HasKey(m, "state_code")
    requires Upper(Get(m, "country_code")) in cfg.stateCodes
    requires LastMatch(cfg.stateCodes[Upper(Get(m, "country_code"))], Get(m, "state")).Some?
    ensures var table := cfg.stateCodes[Upper(Get(m, "country_code"))];
      var i := LastMatch(table, Get(m, "state")).value;
      i < |table| && SameUpper(Get(m, "state"), table[i].1)
      && Lookup(AddStateCode(cfg, m), "state_code") == Some(table[i].0)
      && Lookup(AddStateCode(cfg, m), "country_code") == Some(Upper(Get(m, "country_code")))
      && Lookup(AddStateCode(cfg, m), "state") == Lookup(m, "state")
      && Lookup(AddStateCode(cfg, m), "city") == Lookup(m, "city")
  {
    var cc := Upper(Get(m, "country_code"));
    var m1 := Set(m, "country_code", cc);
    var table := cfg.stateCodes[cc];
    var i := LastMatch(table, Get(m, "state")).value;
    LastMatchSpec(table, Get(m, "state"));
    SetLookup(m, "country_code", cc, "country_code");
    SetLookup(m, "country_code", cc, "state");
    SetLookup(m1, "state_code", table[i].0, "state_code");
    SetLookup(m1, "state_code", table[i].0, "country_code");
    SetLookup(m1, "state_code", table[i].0, "state");
    SetLookup(m, "country_code", cc, "city");
    SetLookup(m1, "state_code", table[i].0, "city");
  }

  /** A US state the table does not know but which reads as Washington DC becomes the District of Columbia. */
  lemma {:induction false} AddStateCodeWashington(cfg: Config, m: Fields)
    requires HasKey(m, "country_code") && HasKey(m, "state") && !HasKey(m, "state_code")
    requires Upper(Get(m, "country_code")) == "US" && "US" in cfg.stateCodes
    requires LastMatch(cfg.stateCodes["US"], Get(m, "state")).None?
    requires IsWashingtonDC(Get(m, "state"))
    ensures Lookup(AddStateCode(cfg, m), "state_code") == Some("DC")
    ensures Lookup(AddStateCode(cfg, m), "state") == Some("District of Columbia")
    ensures Lookup(AddStateCode(cfg, m), "city") == Some("Washington")
  {
    var state := Get(m, "state");
    var m1 := Set(m, "country_code", "US");
    WashingtonNotUnitedStates(state);
    var m2 := m1;
    var m3 := Set(m2, "state_code", "DC");
    var m4 := Set(m3, "state", "District of Columbia");
    SetLookup(m2, "state_code", "DC", "state_code");
    SetLookup(m3, "state", "District of Columbia", "state_code");
    SetLookup(m3, "state", "District of Columbia", "state");
    SetLookup(m4, "city", "Washington", "state_code");
    SetLookup(m4, "city", "Washington", "state");
    SetLookup(m4, "city", "Washington", "city");
  }

  /** A US state written `United States …` is looked up again as `US …`, taking the first entry that matches. */
  lemma {:induction false} AddStateCodeUnitedStates(cfg: Config, m: Fields)
    requires HasKey(m, "country_code") && HasKey(m, "state") && !HasKey(m, "state_code")
    requires Upper(Get(m, "country_code")) == "US" && "US" in cfg.stateCodes
    requires LastMatch(cfg.stateCodes["US"], Get(m, "state")).None?
    requires StartsWithCI(Get(m, "state"), "united states") && !IsWashingtonDC(Get(m, "state"))
    ensures var table := cfg.stateCodes["US"];
      var alt := "US" + Get(m, "state")[13..];
      Lookup(AddStateCode(cfg, m), "state_code") ==
        match FirstMatch(table, alt)
        case Some(i) => Some(table[i].0)
        case None => None
    ensures Lookup(AddStateCode(cfg, m), "state") == Lookup(m, "state")
    ensures Lookup(AddStateCode(cfg, m), "city") == Lookup(m, "city")
  {
    var state := Get(m, "state");
    var m1 := Set(m, "country_code", "US");
    var table := cfg.stateCodes["US"];
    SetLookup(m, "country_code", "US", "state_code");
    SetLookup(m, "country_code", "US", "state");
    SetLookup(m, "country_code", "US", "city");
    match FirstMatch(table, "US" + state[13..]) {
      case Some(i) =>
        SetLookup(m1, "state_code", table[i].0, "state_code");
        SetLookup(m1, "state_code", table[i].0, "state");
        SetLookup(m1, "state_code", table[i].0, "city");
      case None =>
    }
  }

  /**
   * A miss: no table for the country, or no entry naming the state and no
   * United States retry, Washington DC spelling or retry hit to fall back on.
   * The state code stays absent, the state and city keep their values, and
   * the country code is upper-cased.
   */
  lemma {:induction false} AddStateCodeMiss(cfg: Config, m: Fields)
    requires HasKey(m, "country_code") && HasKey(m, "state") && !HasKey(m, "state_code")
    requires var cc := Upper(Get(m, "country_code"));
      var state := Get(m, "state");
      cc !in cfg.stateCodes
      || (LastMatch(cfg.stateCodes[cc], state).None?
          && (cc != "US"
              || (!IsWashingtonDC(state)
                  && (!StartsWithCI(state, "united states") || FirstMatch(cfg.stateCodes[cc], "US" + state[13..]).None?))))
    ensures !HasKey(AddStateCode(cfg, m), "state_code")
    ensures Lookup(AddStateCode(cfg, m), "state") == Lookup(m, "state")
    ensures Lookup(AddStateCode(cfg, m), "city") == Lookup(m, "city")
    ensures Lookup(AddStateCode(cfg, m), "country_code") == Some(Upper(Get(m, "country_code")))
  {
    var cc := Upper(Get(m, "country_code"));
    var m1 := Set(m, "country_code", cc);
    SetLookup(m, "country_code", cc, "state_code");
    SetLookup(m, "country_code", cc, "state");
    SetLookup(m, "country_code", cc, "city");
    SetLookup(m, "country_code", cc, "country_code");
    if cc in cfg.stateCodes && cc == "US" {
      assert AddStateCode(cfg, m) == UsStateRetry(cfg.stateCodes[cc], m1, Get(m, "state"));
    } else {
      assert AddStateCode(cfg, m) == m1;
    }
  }

  /** A state cannot start with both `washington` and `united states`. */
  lemma {:induction false} WashingtonNotUnitedStates(s: string)
    requires IsWashingtonDC(s)
    ensures !StartsWithCI(s, "united states")
  {
    assert Upper(s[..10])[0] == ToUpper(s[0]);
    if |s| >= 13 {
      assert Upper(s[..13])[0] == ToUpper(s[0]);
    }
  }

  /** Adding codes keeps the keys of a PHP array unique. */
  lemma {:induction false} AddCodesUnique(cfg: Config, m: Fields)
    requires UniqueKeys(m)
    ensures UniqueKeys(AddStateCode(cfg, m))
    ensures UniqueKeys(AddCountyCode(cfg, m))
  {
    if HasKey(m, "country_code") {
      var cc := Upper(Get(m, "country_code"));
      var m1 := Set(m, "country_code", cc);
      SetUnique(m, "country_code", cc);
      if cc in cfg.stateCodes && HasKey(m, "state") {
        var table := cfg.stateCodes[cc];
        var state := Get(m, "state");
        match LastMatch(table, state) {
          case Some(i) => SetUnique(m1, "state_code", table[i].0);
          case None => UsRetryUnique(table, m1, state);
        }
      }
      if cc in cfg.countyCodes && HasKey(m, "county") {
        match LastMatch(cfg.countyCodes[cc], Get(m, "county")) {
          case Some(i) => SetUnique(m1, "county_code", cfg.countyCodes[cc][i].0);
          case None =>
        }
      }
    }
  }

  lemma {:induction false} UsRetryUnique(table: Fields, m: Fields, state: string)
    requires UniqueKeys(m)
    ensures UniqueKeys(UsStateRetry(table, m, state))
  {
    var m1 :=
      if StartsWithCI(state, "united states") then
        match FirstMatch(table, "US" + state[13..])
        case Some(i) => Set(m, "state_code", table[i].0)
        case None => m
      else m;
    if StartsWithCI(state, "united states") {
      match FirstMatch(table, "US" + state[13..]) {
        case Some(i) => SetUnique(m, "state_code", table[i].0);
        case None =>
      }
    }
    SetUnique(m1, "state_code", "DC");
    var m2 := Set(m1, "state_code", "DC");
    SetUnique(m2, "state", "District of Columbia");
    SetUnique(Set(m2, "state", "District of Columbia"), "city", "Washington");
  }

  lemma {:induction false} WashingtonExamples()
    ensures IsWashingtonDC("Washington, D.C.")
    ensures IsWashingtonDC("washington dc")
    ensures !IsWashingtonDC("Washington")
  {
    assert "Washington, D.C."[..10] == "Washington";
    assert Upper("Washington") == Upper("washington");
    assert "Washington, D.C."[10..] == ", D.C.";
    assert ", D.C."[1..] == " D.C.";
    assert " D.C."[2..] == ".C.";
    assert ".C."[1..] == "C.";
    assert "washington dc"[..10] == "washington";
    assert "washington dc"[10..] == " dc";
    assert " dc"[2..] == "c";
  }

  /** Adding a county code touches only the country code and the county code; a match gives the last matching entry's code. */
  lemma {:induction false} AddCountyCodeSpec(cfg: Config, m: Fields, k: string)
    ensures k != "country_code" && k != "county_code" ==> Lookup(AddCountyCode(cfg, m), k) == Lookup(m, k)
    ensures HasKey(m, "country_code") && HasKey(m, "county") && !HasKey(m, "county_code") ==>
      var cc := Upper(Get(m, "country_code"));
      Lookup(AddCountyCode(cfg, m), "country_code") == Some(cc)
      && (cc in cfg.countyCodes && LastMatch(cfg.countyCodes[cc], Get(m, "county")).Some? ==>
            var i := LastMatch(cfg.countyCodes[cc], Get(m, "county")).value;
            i < |cfg.countyCodes[cc]| && SameUpper(Get(m, "county"), cfg.countyCodes[cc][i].1)
            && Lookup(AddCountyCode(cfg, m), "county_code") == Some(cfg.countyCodes[cc][i].0))
      && (cc !in cfg.countyCodes || LastMatch(cfg.countyCodes[cc], Get(m, "county")).None? ==>
            !HasKey(AddCountyCode(cfg, m), "county_code"))
    ensures HasKey(m, "county_code") ==> AddCountyCode(cfg, m) == m
  {
    if HasKey(m, "country_code") && HasKey(m, "county") && !HasKey(m, "county_code") {
      var cc := Upper(Get(m, "country_code"));
      var m1 := Set(m, "country_code", cc);
      SetLookup(m, "country_code", cc, k);
      SetLookup(m, "country_code", cc, "country_code");
      SetLookup(m, "country_code", cc, "county_code");
      if cc in cfg.countyCodes {
        var table := cfg.countyCodes[cc];
        LastMatchSpec(table, Get(m, "county"));
        match LastMatch(table, Get(m, "county")) {
          case Some(i) =>
            SetLookup(m1, "county_code", table[i].0, k);
            SetLookup(m1, "county_code", table[i].0, "county_code");
            SetLookup(m1, "county_code", table[i].0, "country_code");
          case None =>
        }
      }
    }
  }

  // ----- unknown components -----

  /** A field the tables know: a component name or an alias. */
  predicate IsKnown(cfg: Config, key: string) {
    key in cfg.components || HasKey(cfg.aliases, key)
  }

  /** Lines 174-185: the values of the fields the tables do not know, in order. */
  function UnknownValues(cfg: Config, m: Fields): seq<string> {
    Values(FilterEntries(m, (e: Entry) => !IsKnown(cfg, e.0)))
  }

  /** Lines 150-154: unknown values, joined, become the attention line. */
  function FoldUnknown(cfg: Config, m: Fields): Fields {
    var unknown := UnknownValues(cfg, m);
    if |unknown| > 0 then Set(m, "attention", Join(", ", unknown)) else m
  }

  /** A value is collected exactly when some field the tables do not know holds it. */
  lemma {:induction false} UnknownValuesSpec(cfg: Config, m: Fields)
    ensures forall v :: v in UnknownValues(cfg, m) <==> exists e :: e in m && !IsKnown(cfg, e.0) && e.1 == v
  {
    var keep := (e: Entry) => !IsKnown(cfg, e.0);
    FilterMembers(m, keep);
    ValuesMembers(FilterEntries(m, keep));
  }

  /** With no unknown field nothing changes; otherwise `attention` is overwritten and nothing else. */
  lemma {:induction false} FoldUnknownSpec(cfg: Config, m: Fields, k: string)
    ensures (forall e :: e in m ==> IsKnown(cfg, e.0)) ==> FoldUnknown(cfg, m) == m
    ensures k != "attention" ==> Lookup(FoldUnknown(cfg, m), k) == Lookup(m, k)
    ensures (exists e :: e in m && !IsKnown(cfg, e.0)) ==>
      Lookup(FoldUnknown(cfg, m), "attention") == Some(Join(", ", UnknownValues(cfg, m)))
  {
    UnknownValuesSpec(cfg, m);
    var unknown := UnknownValues(cfg, m);
    if exists e :: e in m && !IsKnown(cfg, e.0) {
      var e :| e in m && !IsKnown(cfg, e.0);
      assert e.1 in unknown;
    }
    if |unknown| > 0 {
      assert unknown[0] in unknown;
      SetLookup(m, "attention", Join(", ", unknown), k);
      SetLookup(m, "attention", Join(", ", unknown), "attention");
    }
  }

  // ----- abbreviate -----

  /** One field through its `(long, short)` pairs, in order. */
  function AbbreviateValue(ext: Externals, pairs: seq<(string, string)>, v: string): string
    decreases |pairs|
  {
    if |pairs| == 0 then v
    else AbbreviateValue(ext, pairs[1..], ext.wordReplace(pairs[0].0, pairs[0].1, v))
  }

  /** One language's table: every field it names that is present is abbreviated in place. */
  function AbbreviateTable(ext: Externals, table: Abbreviations, m: Fields): Fields
    decreases |table|
  {
    if |table| == 0 then m
    else
      var key := table[0].0;
      var m' := if HasKey(m, key) then Set(m, key, AbbreviateValue(ext, table[0].1, Get(m, key))) else m;
      AbbreviateTable(ext, table[1..], m')
  }

  /** Every language of the country, in order. */
  function AbbreviateLangs(cfg: Config, ext: Externals, langs: seq<string>, m: Fields): Fields
    decreases |langs|
  {
    if |langs| == 0 then m
    else
      var lang := Upper(langs[0]);
      var m' := if lang in cfg.abbreviations then AbbreviateTable(ext, cfg.abbreviations[lang], m) else m;
      AbbreviateLangs(cfg, ext, langs[1..], m')
  }

  /** Lines 187-219. */
  function Abbreviate(cfg: Config, ext: Externals, m: Fields): Fields {
    if !HasKey(m, "country_code") then m
    else
      var cc := Upper(Get(m, "country_code"));
      if cc !in cfg.countryToLang then m
      else AbbreviateLangs(cfg, ext, Split(cfg.countryToLang[cc], ","), m)
  }

  lemma {:induction false} AbbreviateTableKeys(ext: Externals, table: Abbreviations, m: Fields)
    ensures Keys(AbbreviateTable(ext, table, m)) == Keys(m)
    ensures UniqueKeys(m) ==> UniqueKeys(AbbreviateTable(ext, table, m))
    decreases |table|
  {
    if |table| > 0 {
      var key := table[0].0;
      if HasKey(m, key) {
        var v := AbbreviateValue(ext, table[0].1, Get(m, key));
        SetKeys(m, key, v);
        if UniqueKeys(m) {
          SetUnique(m, key, v);
        }
        AbbreviateTableKeys(ext, table[1..], Set(m, key, v));
      } else {
        AbbreviateTableKeys(ext, table[1..], m);
      }
    }
  }

  lemma {:induction false} AbbreviateLangsKeys(cfg: Config, ext: Externals, langs: seq<string>, m: Fields)
    ensures Keys(AbbreviateLangs(cfg, ext, langs, m)) == Keys(m)
    ensures UniqueKeys(m) ==> UniqueKeys(AbbreviateLangs(cfg, ext, langs, m))
    decreases |langs|
  {
    if |langs| > 0 {
      var lang := Upper(langs[0]);
      if lang in cfg.abbreviations {
        AbbreviateTableKeys(ext, cfg.abbreviations[lang], m);
        AbbreviateLangsKeys(cfg, ext, langs[1..], AbbreviateTable(ext, cfg.abbreviations[lang], m));
      } else {
        AbbreviateLangsKeys(cfg, ext, langs[1..], m);
      }
    }
  }

  /** Abbreviating rewrites values only: the keys, and their order, stay as they were. */
  lemma {:induction false} AbbreviateKeepsKeys(cfg: Config, ext: Externals, m: Fields)
    ensures Keys(Abbreviate(cfg, ext, m)) == Keys(m)
    ensures UniqueKeys(m) ==> UniqueKeys(Abbreviate(cfg, ext, m))
  {
    if HasKey(m, "country_code") {
      var cc := Upper(Get(m, "country_code"));
      if cc in cfg.countryToLang {
        AbbreviateLangsKeys(cfg, ext, Split(cfg.countryToLang[cc], ","), m);
      }
    }
  }

  lemma {:induction false} AbbreviateTableOthers(ext: Externals, table: Abbreviations, m: Fields, k: string)
    requires forall i :: 0 <= i < |table| ==> table[i].0 != k
    ensures Lookup(AbbreviateTable(ext, table, m), k) == Lookup(m, k)
    decreases |table|
  {
    if |table| > 0 {
      var key := table[0].0;
      if HasKey(m, key) {
        var v := AbbreviateValue(ext, table[0].1, Get(m, key));
        SetLookup(m, key, v, k);
        AbbreviateTableOthers(ext, table[1..], Set(m, key, v), k);
      } else {
        AbbreviateTableOthers(ext, table[1..], m, k);
      }
    }
  }

  /** A field that no abbreviation table names keeps its value. */
  lemma {:induction false} AbbreviateLangsOthers(cfg: Config, ext: Externals, langs: seq<string>, m: Fields, k: string)
    requires forall lang, i :: lang in cfg.abbreviations && 0 <= i < |cfg.abbreviations[lang]| ==> cfg.abbreviations[lang][i].0 != k
    ensures Lookup(AbbreviateLangs(cfg, ext, langs, m), k) == Lookup(m, k)
    decreases |langs|
  {
    if |langs| > 0 {
      var lang := Upper(langs[0]);
      if lang in cfg.abbreviations {
        AbbreviateTableOthers(ext, cfg.abbreviations[lang], m, k);
        AbbreviateLangsOthers(cfg, ext, langs[1..], AbbreviateTable(ext, cfg.abbreviations[lang], m), k);
      } else {
        AbbreviateLangsOthers(cfg, ext, langs[1..], m, k);
      }
    }
  }

  /** Abbreviation changes only fields some table names; without a country code nothing changes. */
  lemma {:induction false} AbbreviateOthers(cfg: Config, ext: Externals, m: Fields, k: string)
    requires forall lang, i :: lang in cfg.abbreviations && 0 <= i < |cfg.abbreviations[lang]| ==> cfg.abbreviations[lang][i].0 != k
    ensures Lookup(Abbreviate(cfg, ext, m), k) == Lookup(m, k)
    ensures !HasKey(m, "country_code") ==> Abbreviate(cfg, ext, m) == m
  {
    if HasKey(m, "country_code") {
      var cc := Upper(Get(m, "country_code"));
      if cc in cfg.countryToLang {
        AbbreviateLangsOthers(cfg, ext, Split(cfg.countryToLang[cc], ","), m, k);
      }
    }
  }
}
