/**
 * `Formatter::format` and `Formatter::formatArray` (Formatter.php lines
 * 42-172): the field array goes through country resolution, aliases, the
 * sanity check, the template choice, the component clean-ups, the attention
 * line and the abbreviations, and is then rendered and cleaned.
 */
module Formatter {
  import opened Wrappers
  import opened Chars
  import opened Text
  import opened Fields
  import opened Config
  import opened Cleanup
  import opened Country
  import opened Normalize
  import opened Templates
  import opened Enrich
  import opened Render

  /** What `formatArray` has in hand just before it renders: the country code, the template, its text and the fields. */
  datatype Prepared = Prepared(code: string, template: Template, templateText: string, fields: Fields)

  /** Lines 110-158, in the order they run. */
  function Prepare(cfg: Config, ext: Externals, opts: Options, m: Fields): Prepared {
    var res := ResolveCountry(cfg, opts, m);
    var m1 := SanityClean(ApplyAliases(cfg.aliases, res.fields));
    var tpl := TemplateFor(cfg, res.code);
    var text := TemplateText(cfg, tpl, m1);
    var m2 := FixCountry(m1);
    var m3 := if tpl.replace.Some? then ApplyReplacements(ext, m2, tpl.replace.value) else m2;
    var m4 := FoldUnknown(cfg, AddCountyCode(cfg, AddStateCode(cfg, m3)));
    var m5 := if opts.abbreviate then Abbreviate(cfg, ext, m4) else m4;
    Prepared(res.code, tpl, text, m5)
  }

  /** `formatArray`: render the prepared fields, then apply the template's post-format rules and clean once more. */
  function FormatArray(cfg: Config, ext: Externals, opts: Options, m: Fields): string {
    var p := Prepare(cfg, ext, opts, m);
    var text := RenderText(ext, p.templateText, p.fields, opts.allowNull);
    if p.template.postformatReplace.Some? then
      CleanupRendered(PostFormatReplace(ext, text, p.template.postformatReplace.value))
    else text
  }

  /** `format`: the non-empty properties of the address, formatted as an array. */
  function Format(cfg: Config, ext: Externals, opts: Options, a: Address): string {
    FormatArray(cfg, ext, opts, FromAddress(a))
  }

  // ----- properties -----

  /** Whatever the tables, the renderer and the fields, the output is trimmed and ends in exactly one newline. */
  lemma {:induction false} FormatWellFormed(cfg: Config, ext: Externals, opts: Options, m: Fields)
    ensures WellFormed(FormatArray(cfg, ext, opts, m))
  {
    var p := Prepare(cfg, ext, opts, m);
    var text := RenderText(ext, p.templateText, p.fields, opts.allowNull);
    if p.template.postformatReplace.Some? {
      CleanupWellFormed(PostFormatReplace(ext, text, p.template.postformatReplace.value));
    } else {
      RenderWellFormed(ext, p.templateText, p.fields, opts.allowNull);
    }
  }

  /** The same holds for every address object. */
  lemma {:induction false} FormatAddressWellFormed(cfg: Config, ext: Externals, opts: Options, a: Address)
    ensures WellFormed(Format(cfg, ext, opts, a))
  {
    FormatWellFormed(cfg, ext, opts, FromAddress(a));
  }

  /** Every step of the preparation keeps each key at most once, as a PHP array does. */
  lemma {:induction false} PrepareUnique(cfg: Config, ext: Externals, opts: Options, m: Fields)
    requires UniqueKeys(m)
    ensures UniqueKeys(Prepare(cfg, ext, opts, m).fields)
  {
    var res := ResolveCountry(cfg, opts, m);
    ResolveUnique(cfg, opts, m);
    var m0 := ApplyAliases(cfg.aliases, res.fields);
    AliasesUnique(cfg.aliases, res.fields);
    var m1 := SanityClean(m0);
    SanityCleanLookup(m0, "postcode");
    var tpl := TemplateFor(cfg, res.code);
    var m2 := FixCountry(m1);
    FixCountryLookup(m1, "country");
    var m3 := if tpl.replace.Some? then ApplyReplacements(ext, m2, tpl.replace.value) else m2;
    if tpl.replace.Some? {
      ReplacementsKeepKeys(ext, m2, tpl.replace.value);
    }
    AddCodesUnique(cfg, m3);
    var m4 := AddStateCode(cfg, m3);
    AddCodesUnique(cfg, m4);
    var m5 := AddCountyCode(cfg, m4);
    var unknown := UnknownValues(cfg, m5);
    if |unknown| > 0 {
      SetUnique(m5, "attention", Join(", ", unknown));
    }
    AbbreviateKeepsKeys(cfg, ext, FoldUnknown(cfg, m5));
  }

  /** The fields of an address object satisfy that from the start. */
  lemma {:induction false} PrepareAddressUnique(cfg: Config, ext: Externals, opts: Options, a: Address)
    ensures UniqueKeys(Prepare(cfg, ext, opts, FromAddress(a)).fields)
  {
    FromAddressFields(a);
    PrepareUnique(cfg, ext, opts, FromAddress(a));
  }

  /**
   * Without post-format rules, the output has a word character exactly when
   * the template rendered one, or, without `allownull`, when some prepared
   * field value has one; with them, exactly when the rewritten text has one.
   */
  lemma {:induction false} FormatHasWord(cfg: Config, ext: Externals, opts: Options, m: Fields)
    ensures var p := Prepare(cfg, ext, opts, m);
      var text := RenderText(ext, p.templateText, p.fields, opts.allowNull);
      HasWord(FormatArray(cfg, ext, opts, m)) <==>
        if p.template.postformatReplace.Some? then HasWord(PostFormatReplace(ext, text, p.template.postformatReplace.value))
        else HasWord(Rendered(ext, p.templateText, p.fields)) || (!opts.allowNull && AnyValueHasWord(p.fields))
  {
    var p := Prepare(cfg, ext, opts, m);
    var text := RenderText(ext, p.templateText, p.fields, opts.allowNull);
    if p.template.postformatReplace.Some? {
      CleanupKeepsWords(PostFormatReplace(ext, text, p.template.postformatReplace.value));
    } else {
      RenderHasWord(ext, p.templateText, p.fields, opts.allowNull);
    }
  }

  /** An explicit `country` option picks the template, whatever the fields say. */
  lemma {:induction false} CountryOptionPicksTemplate(cfg: Config, ext: Externals, opts: Options, m: Fields)
    requires opts.country.Some?
    ensures Prepare(cfg, ext, opts, m).code == opts.country.value
    ensures Upper(opts.country.value) in cfg.templates ==>
      Prepare(cfg, ext, opts, m).template == cfg.templates[Upper(opts.country.value)]
  {
    TemplateForCases(cfg, opts.country.value);
  }
}
