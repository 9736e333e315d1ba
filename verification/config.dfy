/**
 * The tables the formatter loads from the address-formatting templates
 * (`loadTemplates`, Formatter.php lines 586-659), given here as immutable
 * values, and the pieces of behaviour that live outside the formatter:
 * Mustache rendering and regular expressions whose patterns come from
 * those tables.
 */
module Config {
  import opened Wrappers
  import opened Fields

  /** One entry of `worldwide.yaml`; an absent key is `None`. */
  datatype Template = Template(
    addressTemplate: Option<string>,
    fallbackTemplate: Option<string>,
    replace: Option<seq<(string, string)>>,
    postformatReplace: Option<seq<(string, string)>>,
    useCountry: Option<string>,
    changeCountry: Option<string>,
    addComponent: Option<string>)

  /** What `$this->templates['default']` yields when there is no default entry: every key unset. */
  const EmptyTemplate := Template(None, None, None, None, None, None, None)

  /** An abbreviation table: field name to `(long form, short form)` pairs, in file order. */
  type Abbreviations = seq<(string, seq<(string, string)>)>

  datatype Config = Config(
    /** The names of `$this->components`. */
    components: set<string>,
    /** `$this->componentAliases`: alias to canonical name, in file order. */
    aliases: Fields,
    templates: map<string, Template>,
    /** Country code to `(state code, state name)` entries, in file order. */
    stateCodes: map<string, Fields>,
    /** Country code to `(county code, county name)` entries, in file order. */
    countyCodes: map<string, Fields>,
    /** Country code to a comma-separated list of language codes. */
    countryToLang: map<string, string>,
    /** Upper-case language code to its abbreviation table. */
    abbreviations: map<string, Abbreviations>)

  datatype Externals = Externals(
    /**
     * `Mustache_Engine::render(template, context)`: the context is the fields,
     * plus, when given, the `first` section helper, which maps the raw text of
     * a section to the text to render in its place.
     */
    mustache: (string, Fields, Option<string -> string>) -> string,
    /** `preg_replace('/' . pattern . '/' . (utf8 ? 'u' : ''), replacement, subject)` with a pattern from the tables. */
    pregReplace: (string, string, string, bool) -> string,
    /** `preg_replace("/\b$long\b/u", short, subject)`. */
    wordReplace: (string, string, string) -> string)

  /** The `$options` array: `country`, `abbreviate` and `allownull`, the last two already read as booleans. */
  datatype Options = Options(country: Option<string>, abbreviate: bool, allowNull: bool)
}
