/**
 * Which template text `formatArray` renders (Formatter.php lines 127-137),
 * including the test for a minimal address, `hasMinimumAddressComponents`
 * (lines 567-584).
 */
module Templates {
  import opened Wrappers
  import opened Chars
  import opened Fields
  import opened Config

  const RequiredComponents: seq<string> := ["road", "postcode"]
  const MinThreshold: nat := 2

  /** The counting loop of lines 573-581: count missing components, stopping once the threshold is reached. */
  function CountMissing(m: Fields, required: seq<string>, missing: nat): (r: nat)
    decreases |required|
  {
    if |required| == 0 then missing
    else
      var missing' := if !HasKey(m, required[0]) then missing + 1 else missing;
      if missing' >= MinThreshold then missing' else CountMissing(m, required[1..], missing')
  }

  predicate HasMinimumAddressComponents(m: Fields) {
    CountMissing(m, RequiredComponents, 0) < MinThreshold
  }

  /** The minimum is met unless both `road` and `postcode` are missing. */
  lemma {:induction false} MinimumIffRoadOrPostcode(m: Fields)
    ensures HasMinimumAddressComponents(m) <==> HasKey(m, "road") || HasKey(m, "postcode")
  {
    var r1 := RequiredComponents[1..];
    assert r1 == ["postcode"] && r1[1..] == [];
  }

  /** Line 128: the template of the upper-cased code, else the default one, else an empty template. */
  function TemplateFor(cfg: Config, code: string): Template {
    var key := Upper(code);
    if key in cfg.templates then cfg.templates[key]
    else if "default" in cfg.templates then cfg.templates["default"]
    else EmptyTemplate
  }

  /** Lines 129-137: the address template, or a fallback when the address is too thin. */
  function TemplateText(cfg: Config, tpl: Template, m: Fields): string {
    var primary := tpl.addressTemplate.GetOr("");
    if HasMinimumAddressComponents(m) then primary
    else if tpl.fallbackTemplate.Some? then tpl.fallbackTemplate.value
    else if "default" in cfg.templates && cfg.templates["default"].fallbackTemplate.Some? then
      cfg.templates["default"].fallbackTemplate.value
    else primary
  }

  /** The country's own template wins over the default, case-insensitively in the code. */
  lemma {:induction false} TemplateForCases(cfg: Config, code: string)
    ensures forall c :: SameUpper(c, code) ==> TemplateFor(cfg, c) == TemplateFor(cfg, code)
    ensures Upper(code) in cfg.templates ==> TemplateFor(cfg, code) == cfg.templates[Upper(code)]
    ensures Upper(code) !in cfg.templates && "default" in cfg.templates ==> TemplateFor(cfg, code) == cfg.templates["default"]
    ensures Upper(code) !in cfg.templates && "default" !in cfg.templates ==> TemplateFor(cfg, code).addressTemplate.None?
  {
  }

  /**
   * With a road or a postcode the address template is used; with neither,
   * the template's fallback, else the default's fallback, else the address
   * template after all.
   */
  lemma {:induction false} TemplateTextChoice(cfg: Config, tpl: Template, m: Fields)
    ensures HasKey(m, "road") || HasKey(m, "postcode") ==> TemplateText(cfg, tpl, m) == tpl.addressTemplate.GetOr("")
    ensures !HasKey(m, "road") && !HasKey(m, "postcode") ==>
      TemplateText(cfg, tpl, m) ==
        if tpl.fallbackTemplate.Some? then tpl.fallbackTemplate.value
        else if "default" in cfg.templates && cfg.templates["default"].fallbackTemplate.Some? then cfg.templates["default"].fallbackTemplate.value
        else tpl.addressTemplate.GetOr("")
  {
    MinimumIffRoadOrPostcode(m);
  }
}
