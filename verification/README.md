# Address formatter, verified model

A Dafny model of the formatting engine of the PHP address formatter,
`src/Formatter.php`. The engine turns an ordered array of address
components (`road`, `city`, `postcode`, `country_code`, ...) into the
multi-line postal address of the country it belongs to. `formatArray` runs
these steps in order:

1. resolve the country code, with the redirects for dependent territories and
   the Dutch overseas territories;
2. copy aliased components to their canonical names;
3. apply the sanity check of the postcode and of URL values;
4. choose the template, or its fallback when the address is too thin;
5. repair a numeric country and apply the template's component replacements;
6. add state and county codes;
7. fold unknown components into `attention`, and optionally abbreviate;
8. render through Mustache, with a `first` helper and a fallback to the plain
   list of values;
9. clean up the rendered text, and optionally apply the template's
   post-format rules and clean up again.

`format` builds that array from an `Address` object first.

Modules, in pipeline order:

- `Wrappers`, `Chars`, `Text`, `Fields` and `Dedupe` hold the vocabulary:
  - `Option`;
  - character classes: PCRE `\h`, `\s`, `\w`, ASCII `strtoupper`, UTF-8 byte length;
  - `explode`/`implode` as `Split`/`Join`, with their round trip;
  - the ordered PHP array as a sequence of `(key, value)` entries;
  - "keep the first occurrence" deduplication.
- `Config` holds the configuration tables and the external services:
  - the tables are `Config`;
  - Mustache, and `preg_replace` with a pattern that comes from the tables, are function-valued parameters in `Externals`.
- `Country` covers `determineCountryCode` and the write-back of the code.
- `Normalize` covers:
  - the `Address` field copy of `format`;
  - alias copying;
  - `sanityCleanAddress`.
- `Templates` covers the template choice and `hasMinimumAddressComponents`.
- `Enrich` covers:
  - `fixCountry` and `applyReplacements`;
  - `addCode` for states and counties;
  - `findUnknownComponents` and the `attention` line;
  - `abbreviate`.
- `Cleanup` covers `cleanupRendered`. Its 12 rewrites are written out as character-level functions.
- `Render` covers the `first` helper, `render` with its fallback, and `postFormatReplace`.
- `Formatter` covers `formatArray` and `format`, and the end-to-end properties.

## Model

| member | source | states |
|---|---|---|
| Formatter.FormatWellFormed | src/Formatter.php:108-172 | for every configuration, renderer, option set and field array, the output is non-empty, ends in a newline, and has no white space at its start or just before that final newline |
| Formatter.FormatAddressWellFormed | src/Formatter.php:42-96 | the same holds for `format` on every `Address` object |
| Formatter.PrepareUnique | src/Formatter.php:108-158 | the steps before rendering never create a second entry for a key: a field array with unique keys stays one |
| Formatter.PrepareAddressUnique | src/Formatter.php:42-96 | the fields prepared from an `Address` object have unique keys |
| Formatter.FormatHasWord | src/Formatter.php:161-171 | without post-format rules, the output has a word character exactly when the template rendered one, or, without `allownull`, when some prepared value has one; with post-format rules, exactly when the rewritten text has one |
| Formatter.CountryOptionPicksTemplate | src/Formatter.php:110-128 | an explicit `country` option becomes the code, and the template of its upper-cased form is used when it exists, whatever the fields say |
| Country.NormalizeCode | src/Formatter.php:485-489 | the code comes out upper case; it is `GB` exactly for `uk` or `gb` in any case; otherwise it is the input up to case, of the same length |
| Country.DetermineOnlyTwoBytes | src/Formatter.php:481-484 | a missing code gives `''`; a code that is not two bytes long is returned as it is and the fields are untouched |
| Country.DeterminePlain | src/Formatter.php:484-495 | a two-byte code without a redirect, outside `NL`, comes back normalised and upper case, with the fields untouched |
| Country.AddComponentOnlyState | src/Formatter.php:516-522 | `add_component` can change no field other than `state` |
| Country.AddComponentState | src/Formatter.php:516-522 | `add_component` `state=v` sets `state` to `v` |
| Country.ChangeCountryFills | src/Formatter.php:500-513 | the first `$name` placeholder of `change_country` is replaced by the value of field `name`, or by nothing when that field is absent |
| Country.DetermineRedirect | src/Formatter.php:495-524 | a two-byte code whose template has `use_country` resolves to that country (for `NL`, possibly a Dutch territory instead); while it stays that country, `country` is the filled-in `change_country` text when the template has one and is unchanged otherwise; without `add_component`, `state` is unchanged; no other field changes |
| Country.RedirectLookup | src/Formatter.php:495-524 | the redirect itself: the code becomes `use_country`, `country` becomes the filled-in `change_country` text or stays, only `add_component` can touch `state`, and nothing else changes |
| Country.RedirectAddsState | src/Formatter.php:516-522 | a redirecting template with `add_component` `state=v` leaves `state` set to `v` in the result, whatever the final code |
| Country.NetherlandsCases | src/Formatter.php:526-537 | for `NL`, a state that is exactly `Curaçao`, or starts with `sint maarten` or `aruba` in any case, gives `CW`, `SX` or `AW` and the matching `country`, tried in that order; any other state, or no state at all, changes nothing |
| Country.NetherlandsTouchesOnlyCountry | src/Formatter.php:526-537 | the Dutch special cases change no field other than `country` |
| Country.ResolveTouchesOnly | src/Formatter.php:110-114 | country resolution changes no field other than `country`, `state` and `country_code` |
| Country.ResolveWithOption | src/Formatter.php:110-114 | an explicit `country` option is used verbatim, and only `country_code` is written, and only when the option is non-empty |
| Country.ResolveWritesBack | src/Formatter.php:112-114 | a non-empty resolved code is what `country_code` holds afterwards |
| Country.ResolveUnique | src/Formatter.php:479-541 | resolution keeps keys unique |
| Normalize.FromAddressFields | src/Formatter.php:42-96 | each of the 16 properties is a field exactly when it is non-empty, then with its value; every key is a property's field name, the keys follow the order of the properties, each once, and no value is empty |
| Normalize.AliasesOnlyAppend | src/Formatter.php:117-121 | alias copying only appends entries: existing entries keep their values and positions |
| Normalize.AliasesKeepExisting | src/Formatter.php:117-121 | a key present before alias copying keeps its value, so a canonical value is never overwritten |
| Normalize.AliasesFillCanonical | src/Formatter.php:117-121 | when an alias is present, its canonical name is present afterwards |
| Normalize.AliasesAddCanonical | src/Formatter.php:117-121 | every appended entry is a canonical name holding the value of one of its aliases |
| Normalize.AliasesUnique | src/Formatter.php:117-121 | alias copying keeps keys unique |
| Normalize.CleanPostcode | src/Formatter.php:545-555 | a kept postcode is a prefix of the original that is at most 20 bytes long and holds no range; it is shortened exactly when it starts `ddddd,ddddd`, and then to those first five digits |
| Normalize.CleanPostcodeStable | src/Formatter.php:545-555 | a postcode is dropped exactly when it is longer than 20 bytes or holds digits, `;` and digits; what is kept passes the check again unchanged |
| Normalize.SanityCleanLookup | src/Formatter.php:543-565 | after the sanity check, each field holds its cleaned postcode or its old value, unless that value holds `http://` or `https://`, in which case it is gone |
| Normalize.SanityCleanOrder | src/Formatter.php:557-562 | the surviving keys keep their relative order |
| Templates.MinimumIffRoadOrPostcode | src/Formatter.php:567-584 | the minimum is met exactly when `road` or `postcode` is present |
| Templates.TemplateForCases | src/Formatter.php:128 | the template of the upper-cased code wins, then `default`; codes equal up to case pick the same template |
| Templates.TemplateTextChoice | src/Formatter.php:129-137 | with a road or a postcode the address template is used; with neither, the country's fallback, else the default's fallback, else the address template |
| Enrich.FixCountryLookup | src/Formatter.php:374-392 | with a numeric `country` and a `state`, the state moves into `country` and `state` is removed; nothing else changes |
| Enrich.DigitsAreNumeric | src/Formatter.php:384 | a non-empty run of digits is numeric |
| Enrich.BlankNotNumeric | src/Formatter.php:384 | a blank string is not numeric |
| Enrich.ReplaceLoopIsEntrywise | src/Formatter.php:394-412 | the in-place loop over the array equals the entry-by-entry transformation, and every entry is processed with the value it had when the loop reached it |
| Enrich.ReplacementsKeepKeys | src/Formatter.php:394-412 | replacements keep every key in place and keys unique |
| Enrich.KeyedNoHit | src/Formatter.php:397-404 | `key=from` rules whose `from` differs from the original value change nothing |
| Enrich.KeyedLastHit | src/Formatter.php:397-404 | a `key=from` rule matching the original value sets the field, and later rules whose `from` does not match leave it set |
| Enrich.KeyedFromSpec | src/Formatter.php:398-400 | `key=from` followed by a newline or the end names the value `from` |
| Enrich.KeyedFromOther | src/Formatter.php:398 | a rule that does not start with `key=` is a pattern rule |
| Enrich.LastMatchSpec | src/Formatter.php:435-439 | the state lookup finds the last entry equal up to case, or reports that none is |
| Enrich.FirstMatchSpec | src/Formatter.php:448-453 | the United States retry finds the first entry equal up to case, or reports that none is |
| Enrich.AddStateCodeNeedsGaps | src/Formatter.php:426-429 | without a country code or a state, or with a state code already, nothing changes |
| Enrich.AddStateCodeTouches | src/Formatter.php:424-477 | adding a state code changes no field other than `country_code`, `state_code`, `state` and `city` |
| Enrich.AddStateCodeFound | src/Formatter.php:430-439 | when the state is in the table, `state_code` is the code of the last matching entry, `country_code` is upper-cased, and `state` and `city` keep their values |
| Enrich.AddStateCodeUnitedStates | src/Formatter.php:441-454 | a US state starting `united states` is retried as `US...`, taking the first match or leaving `state_code` absent; `state` and `city` keep their values |
| Enrich.AddStateCodeMiss | src/Formatter.php:430-461 | with no table for the country, or no matching entry and no US retry hit or Washington DC spelling to fall back on, `state_code` stays absent, `state` and `city` keep their values, and `country_code` is upper-cased |
| Enrich.AddStateCodeWashington | src/Formatter.php:456-460 | a US state spelt like Washington DC, with no table match, gives `DC`, `District of Columbia` and `Washington` |
| Enrich.AddCountyCodeSpec | src/Formatter.php:464-471 | the county code is the code of the last matching entry; with no table for the country or no matching entry it stays absent; `country_code` is upper-cased, nothing else changes, and an existing county code is kept |
| Enrich.AddCodesUnique | src/Formatter.php:424-477 | adding codes keeps keys unique |
| Enrich.UnknownValuesSpec | src/Formatter.php:174-185 | a value is collected exactly when a field the tables do not know holds it |
| Enrich.FoldUnknownSpec | src/Formatter.php:150-154 | with no unknown field nothing changes; otherwise `attention` becomes the joined unknown values and no other field changes |
| Enrich.AbbreviateKeepsKeys | src/Formatter.php:187-219 | abbreviating keeps the keys, in order |
| Enrich.AbbreviateOthers | src/Formatter.php:187-219 | without a country code nothing changes; fields that no abbreviation table names keep their values |
| Render.FirstTruthySpec | src/Formatter.php:259-265 | the `first` helper returns the first piece that is neither empty nor `0`, or the empty string when there is none |
| Render.FirstOfSingle | src/Formatter.php:259-265 | text without a separator comes back whole, unless PHP treats it as false |
| Render.FirstOfPair | src/Formatter.php:259-265 | two pieces joined by the double-bar separator give the first if it is truthy, else the second if it is truthy, else the empty string |
| Render.RenderWellFormed | src/Formatter.php:254-294 | the rendered text is newline-terminated and trimmed |
| Render.RenderHasWord | src/Formatter.php:269-291 | the rendered text has a word character exactly when Mustache produced one, or, without `allownull`, when some field value has one |
| Render.RenderAllowNull | src/Formatter.php:285-291 | with `allownull`, a template that renders no word character gives exactly a newline |
| Render.RenderBackup | src/Formatter.php:273-284 | without `allownull`, such a template gives the cleaned `, `-join of the non-empty values in field order |
| Render.RenderKeeps | src/Formatter.php:267-291 | a template that renders a word character is kept, cleaned twice |
| Render.DedupedPieces | src/Formatter.php:224-244 | the `, `-pieces of the result are the left-trimmed pieces of the input, each kept at its first occurrence, and they are pairwise distinct |
| Render.DedupedPiecesKept | src/Formatter.php:224-244 | no piece is lost: the result has exactly the left-trimmed pieces of the input |
| Cleanup.CleanupWellFormed | src/Formatter.php:364-371 | the cleaned text ends in one newline with no white space at its start or just before it |
| Cleanup.CleanupOfJunk | src/Formatter.php:298-371 | a text of only white space, commas and `}` cleans to exactly a newline |
| Cleanup.CleanupKeepsWords | src/Formatter.php:296-372 | cleaning neither adds nor removes the presence of a word character |
| Cleanup.RewritesKeepWords | src/Formatter.php:298-315 | the 12 rewrites keep the sequence of word characters and where words break |
| Cleanup.CollapseRunsNoPair | src/Formatter.php:304-310 | after collapsing a class of characters, no two of them are adjacent |
| Cleanup.DropIndentNoIndent | src/Formatter.php:309 | after the rewrite, no newline is followed by horizontal white space |
| Cleanup.DedupedLines | src/Formatter.php:318-362 | the trimmed lines kept are pairwise distinct, one output line is produced for each, and no output line holds a newline: splitting the joined text on newlines gives back exactly the output lines |
| Cleanup.DedupedTokens | src/Formatter.php:338-360 | the `, `-tokens of a line are its trimmed tokens, each kept at its first occurrence, and they are pairwise distinct |
| Dedupe.DedupIsFirstOccurrences | src/Formatter.php:326-335 | a line is kept exactly when no earlier line was identical, in input order |
| Dedupe.DedupSpec | src/Formatter.php:326-335 | deduplication keeps every distinct element and no duplicates |

## Left out

- `loadTemplates` (YAML files and the missing-templates exception): the tables are the parameter `Config`.
- `getCountries`, the empty `AddressFormatter` class and the getters and setters of `Address`: the address is the datatype `Normalize.Address`, whose 16 fields take the place of the getters.
- The Mustache engine: `Externals.mustache` is an uninterpreted function of the template text, the fields and the `first` helper. So is `preg_replace` with a pattern from the tables, which covers the pattern rules of `replace` and the `postformat_replace` rules. So is `preg_replace` with `\b`-bounded abbreviations.
- Externals.pregReplace, Externals.wordReplace: PHP regular expressions are not modelled; a key used unescaped as a pattern in `applyReplacements` is matched as literal text.
- Enrich.ReplaceValue, Enrich.LastMatch, Enrich.FirstMatch: PHP's loose `==` is modelled as string equality. Two numeric strings such as `01` and `1` compare equal in PHP but not here.
- Chars.Upper, Chars.StartsWithCI: `strtoupper` and the `i` modifier are ASCII-only here, which is what `strtoupper` does since PHP 8.2. Case folding outside ASCII by `/i` with `/u` is not modelled.
- Chars.IsWordChar: `\w` with the `u` modifier is approximated. It is exact below U+00C0: ASCII letters, digits and `_`, plus the nine letters and numbers of U+0080-U+00BF (`ª ² ³ µ ¹ º ¼ ½ ¾`). At or above U+00C0, every character outside white space, the multiplication and division signs, and the general and CJK punctuation blocks is counted as a word character.
- Enrich.IsNumeric: `is_numeric` is modelled on the numeric strings of PHP 8, which allow white space around a decimal with an optional sign, fraction and exponent. Hexadecimal and other forms are not numeric there either.
- Normalize.FromAddress: values are strings. The integers and `null` PHP allows in an array are not modelled, and `strlen` is the UTF-8 length of well-formed text.
- Country.ChangeCountryText: a backreference such as `$1` in a field value is replaced literally here, while `preg_replace` would expand it.
- Concurrency, I/O and floating point do not occur in the engine.

## Behaviour worth knowing

`Formatter.php` behaves as follows in cases a reader might expect otherwise:

- The primary template is kept when either `road` or `postcode` is present. The fallback is used only when both are missing (`Templates.MinimumIffRoadOrPostcode`).
- With `allownull`, an empty render gives a single newline, not an empty string: the blank put in its place is cleaned away (`Render.RenderAllowNull`).
- Cleanup is not idempotent, and the output lines are not globally unique. The lines `a, a` and `a` both survive as `a`. So neither is claimed.
- A non-empty field array can format to a lone newline even without `allownull`: its values may hold no word character, or the post-format rules may remove them (`Formatter.FormatHasWord`).
