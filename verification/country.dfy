/**
 * Country-code resolution: `determineCountryCode` (Formatter.php lines
 * 479-541) and the write-back of the result in `formatArray` (lines 110-114).
 */
module Country {
  import opened Wrappers
  import opened Chars
  import opened Text
  import opened Fields
  import opened Config

  /** The only component `add_component` may set (line 30-32). */
  const ValidReplacementComponents: seq<string> := ["state"]

  /** A resolved country code and the fields as resolution left them. */
  datatype Resolved = Resolved(code: string, fields: Fields)

  /** Lines 485-489: `UK` becomes `GB`, then the code is upper-cased. */
  function NormalizeCode(code: string): (r: string)
    ensures |r| == |code| || SameUpper(code, "UK")
    ensures IsUpperCase(r)
    ensures r == "GB" <==> SameUpper(code, "UK") || SameUpper(code, "GB")
    ensures !SameUpper(code, "UK") ==> SameUpper(r, code)
  {
    UpperIsUpperCase(code);
    UpperIsUpperCase("GB");
    if SameUpper(code, "UK") then Upper("GB") else Upper(code)
  }

  /**
   * Lines 500-514: `change_country` with its first `$name` placeholder (a
   * `$` and the ASCII word characters after it) replaced everywhere by the
   * value of field `name`, or by nothing when the field is absent.
   */
  function ChangeCountryText(text: string, m: Fields): string {
    match IndexOf(text, "$")
    case None => text
    case Some(i) =>
      IndexOfBound(text, "$");
      var after := text[i + 1..];
      var name := after[..LeadingRun(after, IsAsciiWord)];
      ReplaceAll(text, "$" + name, Lookup(m, name).GetOr(""))
  }

  /** Lines 516-522: `name=value` sets field `name` when it is a valid replacement component. */
  function AddComponent(spec: string, m: Fields): Fields {
    if !Contains(spec, "=") then m
    else
      SplitOnPresent(spec, "=");
      var parts := Split(spec, "=");
      if parts[0] in ValidReplacementComponents then Set(m, parts[0], parts[1]) else m
  }

  /** Lines 495-524: a dependent territory's template names the country to use instead. */
  function Redirect(cfg: Config, code: string, m: Fields): Resolved {
    if code in cfg.templates && cfg.templates[code].useCountry.Some? then
      var tpl := cfg.templates[code];
      var m1 := if tpl.changeCountry.Some? then Set(m, "country", ChangeCountryText(tpl.changeCountry.value, m)) else m;
      var m2 := if tpl.addComponent.Some? then AddComponent(tpl.addComponent.value, m1) else m1;
      Resolved(tpl.useCountry.value, m2)
    else Resolved(code, m)
  }

  /** Lines 526-537: Dutch overseas territories recognised by their state. */
  function NetherlandsOverride(code: string, m: Fields): Resolved {
    if code != "NL" then Resolved(code, m)
    else
      match Lookup(m, "state")
      case None => Resolved(code, m)
      case Some(state) =>
        if state == "Curaçao" then Resolved("CW", Set(m, "country", "Curaçao"))
        else if StartsWithCI(state, "sint maarten") then Resolved("SX", Set(m, "country", "Sint Maarten"))
        else if StartsWithCI(state, "Aruba") then Resolved("AW", Set(m, "country", "Aruba"))
        else Resolved(code, m)
  }

  /** `determineCountryCode`: the fields are passed by reference, so they come back too. */
  function DetermineCountryCode(cfg: Config, m: Fields): Resolved {
    var code := Lookup(m, "country_code").GetOr("");
    if Utf8Len(code) != 2 then Resolved(code, m)
    else
      var r := Redirect(cfg, NormalizeCode(code), m);
      NetherlandsOverride(r.code, r.fields)
  }

  /** Lines 110-114: an explicit `country` option wins; a non-empty code is written back. */
  function ResolveCountry(cfg: Config, opts: Options, m: Fields): Resolved {
    var r := if opts.country.Some? then Resolved(opts.country.value, m) else DetermineCountryCode(cfg, m);
    if |r.code| > 0 then Resolved(r.code, Set(r.fields, "country_code", r.code)) else r
  }

  // ----- properties -----

  /** A code that is not two bytes long, or a missing one, is returned as it is and nothing changes. */
  lemma {:induction false} DetermineOnlyTwoBytes(cfg: Config, m: Fields)
    requires Utf8Len(Lookup(m, "country_code").GetOr("")) != 2
    ensures DetermineCountryCode(cfg, m) == Resolved(Lookup(m, "country_code").GetOr(""), m)
    ensures !HasKey(m, "country_code") ==> DetermineCountryCode(cfg, m).code == ""
  {
  }

  /** Without a redirecting template and outside the Netherlands, the code is only normalised. */
  lemma {:induction false} DeterminePlain(cfg: Config, m: Fields)
    requires HasKey(m, "country_code") && Utf8Len(Get(m, "country_code")) == 2
    requires var c := NormalizeCode(Get(m, "country_code"));
      (c !in cfg.templates || cfg.templates[c].useCountry.None?) && c != "NL"
    ensures DetermineCountryCode(cfg, m) == Resolved(NormalizeCode(Get(m, "country_code")), m)
    ensures IsUpperCase(DetermineCountryCode(cfg, m).code)
  {
  }

  /**
   * A two-byte code whose template names a `use_country`: the code becomes
   * that country (the Dutch territories aside when it is `NL`), `country`
   * becomes the filled-in `change_country` text when the template has one
   * and stays as it was otherwise, and only `add_component` can change
   * `state`.  Every other field is untouched.
   */
  lemma {:induction false} DetermineRedirect(cfg: Config, m: Fields)
    requires HasKey(m, "country_code") && Utf8Len(Get(m, "country_code")) == 2
    requires var c := NormalizeCode(Get(m, "country_code"));
      c in cfg.templates && cfg.templates[c].useCountry.Some?
    ensures var tpl := cfg.templates[NormalizeCode(Get(m, "country_code"))];
      var u := tpl.useCountry.value;
      var r := DetermineCountryCode(cfg, m);
      (u != "NL" ==> r.code == u)
      && (u == "NL" ==> r.code == "NL" || r.code == "CW" || r.code == "SX" || r.code == "AW")
      && (r.code == u ==>
            Lookup(r.fields, "country") ==
            if tpl.changeCountry.Some? then Some(ChangeCountryText(tpl.changeCountry.value, m)) else Lookup(m, "country"))
      && (tpl.addComponent.None? ==> Lookup(r.fields, "state") == Lookup(m, "state"))
      && (forall k :: k != "country" && k != "state" ==> Lookup(r.fields, k) == Lookup(m, k))
  {
    var c := NormalizeCode(Get(m, "country_code"));
    var u := cfg.templates[c].useCountry.value;
    var rd := Redirect(cfg, c, m);
    var r := DetermineCountryCode(cfg, m);
    assert r == NetherlandsOverride(rd.code, rd.fields);
    RedirectLookup(cfg, c, m);
    forall k | k != "country"
      ensures Lookup(r.fields, k) == Lookup(rd.fields, k)
    {
      NetherlandsTouchesOnlyCountry(u, rd.fields, k);
    }
    if r.code == u {
      assert r.fields == rd.fields;
    }
  }

  /** `Redirect` on its own: the `use_country` code, the `change_country` text, and `add_component` only for `state`. */
  lemma {:induction false} RedirectLookup(cfg: Config, c: string, m: Fields)
    requires c in cfg.templates && cfg.templates[c].useCountry.Some?
    ensures var tpl := cfg.templates[c];
      var rd := Redirect(cfg, c, m);
      rd.code == tpl.useCountry.value
      && Lookup(rd.fields, "country") ==
         (if tpl.changeCountry.Some? then Some(ChangeCountryText(tpl.changeCountry.value, m)) else Lookup(m, "country"))
      && (tpl.addComponent.None? ==> Lookup(rd.fields, "state") == Lookup(m, "state"))
      && (forall k :: k != "country" && k != "state" ==> Lookup(rd.fields, k) == Lookup(m, k))
  {
    var tpl := cfg.templates[c];
    var m1 := if tpl.changeCountry.Some? then Set(m, "country", ChangeCountryText(tpl.changeCountry.value, m)) else m;
    var m2 := if tpl.addComponent.Some? then AddComponent(tpl.addComponent.value, m1) else m1;
    assert Redirect(cfg, c, m) == Resolved(tpl.useCountry.value, m2);
    assert forall k :: k != "state" ==> Lookup(m2, k) == Lookup(m1, k) by {
      if tpl.addComponent.Some? {
        AddComponentFrame(tpl.addComponent.value, m1);
      }
    }
    if tpl.changeCountry.Some? {
      SetFrame(m, "country", ChangeCountryText(tpl.changeCountry.value, m));
    }
  }

  /** `add_component` leaves every field but `state` as it was. */
  lemma {:induction false} AddComponentFrame(spec: string, m: Fields)
    ensures forall k :: k != "state" ==> Lookup(AddComponent(spec, m), k) == Lookup(m, k)
  {
    forall k | k != "state"
      ensures Lookup(AddComponent(spec, m), k) == Lookup(m, k)
    {
      AddComponentOnlyState(spec, m, k);
    }
  }

  /** Setting one field: that field holds the value, every other is as it was. */
  lemma {:induction false} SetFrame(m: Fields, key: string, v: string)
    ensures Lookup(Set(m, key, v), key) == Some(v)
    ensures forall k :: k != key ==> Lookup(Set(m, key, v), k) == Lookup(m, k)
  {
    SetLookup(m, key, v, key);
    forall k | k != key
      ensures Lookup(Set(m, key, v), k) == Lookup(m, k)
    {
      SetLookup(m, key, v, k);
    }
  }

  /** A redirecting template with `add_component` `state=v` sets `state` to `v`, whatever `country_code` resolves to. */
  lemma {:induction false} RedirectAddsState(cfg: Config, m: Fields, v: string)
    requires HasKey(m, "country_code") && Utf8Len(Get(m, "country_code")) == 2
    requires var c := NormalizeCode(Get(m, "country_code"));
      c in cfg.templates && cfg.templates[c].useCountry.Some? && cfg.templates[c].addComponent == Some("state=" + v)
    requires !Contains(v, "=")
    ensures Lookup(DetermineCountryCode(cfg, m).fields, "state") == Some(v)
  {
    var c := NormalizeCode(Get(m, "country_code"));
    var tpl := cfg.templates[c];
    var m1 := if tpl.changeCountry.Some? then Set(m, "country", ChangeCountryText(tpl.changeCountry.value, m)) else m;
    var m2 := AddComponent("state=" + v, m1);
    assert Redirect(cfg, c, m) == Resolved(tpl.useCountry.value, m2);
    AddComponentState(v, m1);
    NetherlandsTouchesOnlyCountry(tpl.useCountry.value, m2, "state");
  }

  /** `add_component` can set `state` and nothing else. */
  lemma {:induction false} AddComponentOnlyState(spec: string, m: Fields, k: string)
    requires k != "state"
    ensures Lookup(AddComponent(spec, m), k) == Lookup(m, k)
  {
    if Contains(spec, "=") {
      SplitOnPresent(spec, "=");
      var parts := Split(spec, "=");
      if parts[0] in ValidReplacementComponents {
        SetLookup(m, parts[0], parts[1], k);
      }
    }
  }

  /** `add_component: state=X` sets the state to X. */
  lemma {:induction false} AddComponentState(v: string, m: Fields)
    requires !Contains(v, "=")
    ensures Lookup(AddComponent("state=" + v, m), "state") == Some(v)
  {
    var spec := "state=" + v;
    assert spec == "state" + "=" + v;
    AbsentChar("state", '=');
    assert BorderFree("=");
    ReplaceParts("state", "=", v);
    assert OccursAt(spec, "=", 5);
    IndexOfIsFirst(spec, "=");
    SplitOnPresent(spec, "=");
    SetLookup(m, "state", v, "state");
  }

  lemma {:induction false} ReplaceParts(a: string, sep: string, b: string)
    requires |sep| > 0 && BorderFree(sep) && !Contains(a, sep) && !Contains(b, sep)
    ensures Split(a + sep + b, sep) == [a, b]
  {
    var ts := [a, b];
    assert ts[1..] == [b];
    assert Join(sep, ts) == a + sep + b;
    SplitJoin(sep, ts);
  }

  /**
   * A `change_country` text with one placeholder `$name` gets the field's
   * value (or nothing) in its place, the text around it unchanged.
   */
  lemma {:induction false} ChangeCountryFills(prefix: string, name: string, suffix: string, m: Fields)
    requires !Contains(prefix, "$")
    requires forall i :: 0 <= i < |name| ==> IsAsciiWord(name[i])
    requires |suffix| == 0 || !IsAsciiWord(suffix[0])
    requires !Contains(suffix, "$" + name)
    ensures ChangeCountryText(prefix + "$" + name + suffix, m) == prefix + Lookup(m, name).GetOr("") + suffix
  {
    var pat := "$" + name;
    var v := Lookup(m, name).GetOr("");
    assert prefix + "$" + name + suffix == prefix + pat + suffix;
    assert ChangeCountryText(prefix + pat + suffix, m) == ReplaceAll(prefix + pat + suffix, pat, v) by {
      PlaceholderAt(prefix, name, suffix);
    }
    PlaceholderOnce(prefix, name, suffix, v);
  }

  /** Replacing the one placeholder of the text. */
  lemma {:induction false} PlaceholderOnce(prefix: string, name: string, suffix: string, v: string)
    requires !Contains(prefix, "$")
    requires forall i :: 0 <= i < |name| ==> IsAsciiWord(name[i])
    requires !Contains(suffix, "$" + name)
    ensures ReplaceAll(prefix + ("$" + name) + suffix, "$" + name, v) == prefix + v + suffix
  {
    var pat := "$" + name;
    assert pat[..1] == "$";
    if Contains(prefix, pat) {
      ContainsFirstChar(prefix, pat);
    }
    PlaceholderBorderFree(name);
    ReplaceOnce(prefix, pat, suffix, v);
  }

  /** The first `$` of the text is the one after `prefix`, and the word after it is `name`. */
  lemma {:induction false} PlaceholderAt(prefix: string, name: string, suffix: string)
    requires !Contains(prefix, "$")
    requires forall i :: 0 <= i < |name| ==> IsAsciiWord(name[i])
    requires |suffix| == 0 || !IsAsciiWord(suffix[0])
    ensures var text := prefix + "$" + name + suffix;
      IndexOf(text, "$") == Some(|prefix|)
      && text[|prefix| + 1..][..LeadingRun(text[|prefix| + 1..], IsAsciiWord)] == name
  {
    var text := prefix + "$" + name + suffix;
    forall j | 0 <= j < |prefix|
      ensures !OccursAt(text, "$", j)
    {
      IndexOfIsFirst(prefix, "$");
      assert !OccursAt(prefix, "$", j);
      assert text[j..j + 1] == prefix[j..j + 1];
    }
    assert OccursAt(text, "$", |prefix|);
    FirstOccurrence(text, "$", |prefix|);
    var after := text[|prefix| + 1..];
    assert after == name + suffix;
    RunOfPrefix(name, suffix, IsAsciiWord);
  }

  /** `$name` cannot overlap itself: `$` occurs only at its start. */
  lemma {:induction false} PlaceholderBorderFree(name: string)
    requires forall i :: 0 <= i < |name| ==> IsAsciiWord(name[i])
    ensures BorderFree("$" + name)
  {
    var sep := "$" + name;
    forall k | 0 < k < |sep|
      ensures sep[k..] != sep[..|sep| - k]
    {
      assert sep[k..][0] == name[k - 1];
      assert sep[..|sep| - k][0] == '$';
    }
  }

  /** Resolution changes no field but `country`, `state` and, on write-back, `country_code`. */
  lemma {:induction false} ResolveTouchesOnly(cfg: Config, opts: Options, m: Fields, k: string)
    requires k != "country" && k != "state" && k != "country_code"
    ensures Lookup(ResolveCountry(cfg, opts, m).fields, k) == Lookup(m, k)
  {
    if opts.country.None? {
      var code := Lookup(m, "country_code").GetOr("");
      if Utf8Len(code) == 2 {
        var c := NormalizeCode(code);
        if c in cfg.templates && cfg.templates[c].useCountry.Some? {
          var tpl := cfg.templates[c];
          var m1 := if tpl.changeCountry.Some? then Set(m, "country", ChangeCountryText(tpl.changeCountry.value, m)) else m;
          if tpl.changeCountry.Some? {
            SetLookup(m, "country", ChangeCountryText(tpl.changeCountry.value, m), k);
          }
          if tpl.addComponent.Some? {
            AddComponentOnlyState(tpl.addComponent.value, m1, k);
          }
        }
        var r := Redirect(cfg, c, m);
        NetherlandsTouchesOnlyCountry(r.code, r.fields, k);
      }
    }
    var r := if opts.country.Some? then Resolved(opts.country.value, m) else DetermineCountryCode(cfg, m);
    SetLookup(r.fields, "country_code", r.code, k);
  }

  lemma {:induction false} NetherlandsTouchesOnlyCountry(code: string, m: Fields, k: string)
    requires k != "country"
    ensures Lookup(NetherlandsOverride(code, m).fields, k) == Lookup(m, k)
  {
    SetLookup(m, "country", "Curaçao", k);
    SetLookup(m, "country", "Sint Maarten", k);
    SetLookup(m, "country", "Aruba", k);
  }

  /** An explicit `country` option is used verbatim: no rewriting, and it is written back when non-empty. */
  lemma {:induction false} ResolveWithOption(cfg: Config, opts: Options, m: Fields, k: string)
    requires opts.country.Some?
    ensures ResolveCountry(cfg, opts, m).code == opts.country.value
    ensures Lookup(ResolveCountry(cfg, opts, m).fields, k) ==
      if k == "country_code" && |opts.country.value| > 0 then opts.country else Lookup(m, k)
  {
    SetLookup(m, "country_code", opts.country.value, k);
  }

  /** Whatever the source of the code, a non-empty code ends up as the `country_code` field. */
  lemma {:induction false} ResolveWritesBack(cfg: Config, opts: Options, m: Fields)
    ensures var r := ResolveCountry(cfg, opts, m);
      |r.code| > 0 ==> Lookup(r.fields, "country_code") == Some(r.code)
  {
    var r := if opts.country.Some? then Resolved(opts.country.value, m) else DetermineCountryCode(cfg, m);
    SetLookup(r.fields, "country_code", r.code, "country_code");
  }

  /**
   * The Netherlands cases: which state gives which territory code and country
   * name; without a state, or with any other state, nothing changes.
   */
  lemma {:induction false} NetherlandsCases(m: Fields)
    ensures !HasKey(m, "state") ==> NetherlandsOverride("NL", m) == Resolved("NL", m)
    ensures HasKey(m, "state") ==>
      var r := NetherlandsOverride("NL", m);
      var state := Get(m, "state");
      (state == "Curaçao" ==> r.code == "CW" && Lookup(r.fields, "country") == Some("Curaçao"))
      && (state != "Curaçao" && StartsWithCI(state, "sint maarten") ==>
            r.code == "SX" && Lookup(r.fields, "country") == Some("Sint Maarten"))
      && (state != "Curaçao" && !StartsWithCI(state, "sint maarten") && StartsWithCI(state, "aruba") ==>
            r.code == "AW" && Lookup(r.fields, "country") == Some("Aruba"))
      && (state != "Curaçao" && !StartsWithCI(state, "sint maarten") && !StartsWithCI(state, "aruba") ==>
            r == Resolved("NL", m))
  {
    SetLookup(m, "country", "Curaçao", "country");
    SetLookup(m, "country", "Sint Maarten", "country");
    SetLookup(m, "country", "Aruba", "country");
    assert Upper("Aruba") == Upper("aruba");
  }

  lemma {:induction false} AddComponentUnique(spec: string, m: Fields)
    requires UniqueKeys(m)
    ensures UniqueKeys(AddComponent(spec, m))
  {
    if Contains(spec, "=") {
      SplitOnPresent(spec, "=");
      var parts := Split(spec, "=");
      SetUnique(m, parts[0], parts[1]);
    }
  }

  lemma {:induction false} RedirectUnique(cfg: Config, code: string, m: Fields)
    requires UniqueKeys(m)
    ensures UniqueKeys(Redirect(cfg, code, m).fields)
  {
    if code in cfg.templates && cfg.templates[code].useCountry.Some? {
      var tpl := cfg.templates[code];
      var m1 := if tpl.changeCountry.Some? then Set(m, "country", ChangeCountryText(tpl.changeCountry.value, m)) else m;
      if tpl.changeCountry.Some? {
        SetUnique(m, "country", ChangeCountryText(tpl.changeCountry.value, m));
      }
      if tpl.addComponent.Some? {
        AddComponentUnique(tpl.addComponent.value, m1);
      }
    }
  }

  lemma {:induction false} NetherlandsUnique(code: string, m: Fields)
    requires UniqueKeys(m)
    ensures UniqueKeys(NetherlandsOverride(code, m).fields)
  {
    SetUnique(m, "country", "Curaçao");
    SetUnique(m, "country", "Sint Maarten");
    SetUnique(m, "country", "Aruba");
  }

  /** Resolution keeps the keys of a PHP array unique. */
  lemma {:induction false} ResolveUnique(cfg: Config, opts: Options, m: Fields)
    requires UniqueKeys(m)
    ensures UniqueKeys(ResolveCountry(cfg, opts, m).fields)
  {
    var r := if opts.country.Some? then Resolved(opts.country.value, m) else DetermineCountryCode(cfg, m);
    if opts.country.None? {
      var code := Lookup(m, "country_code").GetOr("");
      if Utf8Len(code) == 2 {
        var rd := Redirect(cfg, NormalizeCode(code), m);
        RedirectUnique(cfg, NormalizeCode(code), m);
        NetherlandsUnique(rd.code, rd.fields);
      }
    }
    SetUnique(r.fields, "country_code", r.code);
  }
}
