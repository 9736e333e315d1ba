/**
 * The first stages of the pipeline, which only add, remove or adjust
 * fields: copying an `Address` object into a field array (`format`,
 * Formatter.php lines 42-96), alias copying (lines 117-121) and
 * `sanityCleanAddress` (lines 543-565).
 */
module Normalize {
  import opened Wrappers
  import opened Chars
  import opened Text
  import opened Fields

  /** The sixteen properties of `Address`; an unset one is the empty string. */
  datatype Address = Address(
    attention: string, houseNumber: string, house: string, road: string,
    village: string, suburb: string, city: string, county: string,
    postcode: string, stateDistrict: string, state: string, region: string,
    island: string, country: string, countryCode: string, continent: string)

  /** The field names `format` copies the properties to, in order. */
  const FieldNames: seq<string> := [
    "attention", "house_number", "house", "road", "village", "suburb", "city", "county",
    "postcode", "state_district", "state", "region", "island", "country", "country_code", "continent"]

  /** The properties, in the order of `FieldNames`. */
  function PropertyValues(a: Address): (r: seq<string>)
    ensures |r| == |FieldNames|
  {
    [a.attention, a.houseNumber, a.house, a.road, a.village, a.suburb, a.city, a.county,
     a.postcode, a.stateDistrict, a.state, a.region, a.island, a.country, a.countryCode, a.continent]
  }

  /** Every property under its field name. */
  function AddressEntries(a: Address): (r: Fields)
    ensures |r| == |FieldNames|
  {
    seq(|FieldNames|, i requires 0 <= i < |FieldNames| => (FieldNames[i], PropertyValues(a)[i]))
  }

  /** `format`: a property becomes a field when its byte length is positive. */
  function FromAddress(a: Address): Fields {
    FilterEntries(AddressEntries(a), (e: Entry) => Utf8Len(e.1) > 0)
  }

  /** A property is present in the field array exactly when it is non-empty, and then with its value. */
  predicate CopiedIfSet(m: Fields, k: string, v: string) {
    Lookup(m, k) == if v == "" then None else Some(v)
  }

  lemma {:induction false} AddressKeysUnique(a: Address)
    ensures UniqueKeys(AddressEntries(a))
  {
    var e := AddressEntries(a);
    assert forall i, j :: 0 <= i < j < |FieldNames| ==> FieldNames[i] != FieldNames[j];
    DistinctKeysUnique(e);
  }

  /**
   * `format` copies every non-empty property under its name, and nothing
   * else: the keys are field names, in the order of `FieldNames`, each once.
   */
  lemma {:induction false} FromAddressFields(a: Address)
    ensures UniqueKeys(FromAddress(a))
    ensures IsSubseq(Keys(FromAddress(a)), FieldNames)
    ensures forall i :: 0 <= i < |FromAddress(a)| ==> FromAddress(a)[i].0 in FieldNames && FromAddress(a)[i].1 != ""
    ensures forall i :: 0 <= i < |FieldNames| ==> CopiedIfSet(FromAddress(a), FieldNames[i], PropertyValues(a)[i])
  {
    var e := AddressEntries(a);
    var keep := (x: Entry) => Utf8Len(x.1) > 0;
    AddressKeysUnique(a);
    FilterUnique(e, keep);
    FromAddressKeys(a);
    FilterMembers(e, keep);
    var r := FromAddress(a);
    forall i | 0 <= i < |FieldNames|
      ensures CopiedIfSet(r, FieldNames[i], PropertyValues(a)[i])
    {
      var k, v := FieldNames[i], PropertyValues(a)[i];
      assert e[i] == (k, v);
      LookupUnique(e, k, v);
      FilterLookup(e, keep, k);
      Utf8LenPositive(v);
    }
  }

  lemma {:induction false} FromAddressKeys(a: Address)
    ensures IsSubseq(Keys(FromAddress(a)), FieldNames)
    ensures forall i :: 0 <= i < |FromAddress(a)| ==> FromAddress(a)[i].0 in FieldNames && FromAddress(a)[i].1 != ""
  {
    var e := AddressEntries(a);
    var keep := (x: Entry) => Utf8Len(x.1) > 0;
    var r := FromAddress(a);
    assert Keys(e) == FieldNames by {
      KeysIndex(e);
    }
    FilterKeys(e, keep);
    FilterMembers(e, keep);
    forall i | 0 <= i < |r|
      ensures r[i].0 in FieldNames && r[i].1 != ""
    {
      assert r[i] in r;
      var j :| 0 <= j < |e| && e[j] == r[i];
      assert r[i].0 == FieldNames[j];
    }
  }

  lemma {:induction false} Utf8LenPositive(s: string)
    ensures Utf8Len(s) > 0 <==> s != ""
  {
  }

  // ----- alias copying -----

  /**
   * Lines 117-121: for every `(alias, canonical)` pair in order, the
   * canonical field is set from the alias when the alias is present and the
   * canonical field is not.
   */
  function ApplyAliases(aliases: Fields, m: Fields): Fields
    decreases |aliases|
  {
    if |aliases| == 0 then m
    else
      var alias := aliases[0].0;
      var canonical := aliases[0].1;
      var m' := if HasKey(m, alias) && !HasKey(m, canonical) then Set(m, canonical, Get(m, alias)) else m;
      ApplyAliases(aliases[1..], m')
  }

  lemma {:induction false} SetAbsentAppends(m: Fields, k: string, v: string)
    requires !HasKey(m, k)
    ensures Set(m, k, v) == m + [(k, v)]
  {
    if |m| > 0 {
      SetAbsentAppends(m[1..], k, v);
      assert m == [m[0]] + m[1..];
    }
  }

  lemma {:induction false} PrefixLookup(m: Fields, extra: Fields, k: string)
    requires HasKey(m, k)
    ensures Lookup(m + extra, k) == Lookup(m, k)
  {
    if m[0].0 != k {
      assert (m + extra)[1..] == m[1..] + extra;
      PrefixLookup(m[1..], extra, k);
    }
  }

  /** Alias copying only appends: every field already present keeps its value and its position. */
  lemma {:induction false} AliasesOnlyAppend(aliases: Fields, m: Fields)
    ensures m <= ApplyAliases(aliases, m)
    decreases |aliases|
  {
    if |aliases| > 0 {
      var alias, canonical := aliases[0].0, aliases[0].1;
      if HasKey(m, alias) && !HasKey(m, canonical) {
        SetAbsentAppends(m, canonical, Get(m, alias));
        AliasesOnlyAppend(aliases[1..], Set(m, canonical, Get(m, alias)));
      } else {
        AliasesOnlyAppend(aliases[1..], m);
      }
    }
  }

  /** An existing field is never overwritten by an alias. */
  lemma {:induction false} AliasesKeepExisting(aliases: Fields, m: Fields, k: string)
    requires HasKey(m, k)
    ensures Lookup(ApplyAliases(aliases, m), k) == Lookup(m, k)
  {
    var r := ApplyAliases(aliases, m);
    AliasesOnlyAppend(aliases, m);
    assert r == m + r[|m|..];
    PrefixLookup(m, r[|m|..], k);
  }

  /** A present alias always leaves its canonical field set afterwards. */
  lemma {:induction false} AliasesFillCanonical(aliases: Fields, m: Fields)
    ensures forall i :: 0 <= i < |aliases| && HasKey(m, aliases[i].0) ==> HasKey(ApplyAliases(aliases, m), aliases[i].1)
    decreases |aliases|
  {
    if |aliases| > 0 {
      var alias, canonical := aliases[0].0, aliases[0].1;
      var m' := if HasKey(m, alias) && !HasKey(m, canonical) then Set(m, canonical, Get(m, alias)) else m;
      AliasesFillCanonical(aliases[1..], m');
      var r := ApplyAliases(aliases, m);
      if HasKey(m, alias) && !HasKey(m, canonical) {
        SetLookup(m, canonical, Get(m, alias), canonical);
      }
      forall i | 0 <= i < |aliases| && HasKey(m, aliases[i].0)
        ensures HasKey(r, aliases[i].1)
      {
        if i == 0 {
          if HasKey(m', canonical) {
            AliasesKeepExisting(aliases[1..], m', canonical);
          }
        } else {
          assert aliases[i] == aliases[1..][i - 1];
          if m' != m {
            SetLookup(m, canonical, Get(m, alias), aliases[i].0);
          }
        }
      }
    }
  }

  /** Every field alias copying adds is a canonical name, holding the value of one of its aliases. */
  lemma {:induction false} AliasesAddCanonical(aliases: Fields, m: Fields)
    ensures var r := ApplyAliases(aliases, m);
      forall j :: |m| <= j < |r| ==>
        exists i :: 0 <= i < |aliases| && aliases[i].1 == r[j].0 && Lookup(r, aliases[i].0) == Some(r[j].1)
    decreases |aliases|
  {
    var r := ApplyAliases(aliases, m);
    AliasesOnlyAppend(aliases, m);
    if |aliases| > 0 {
      var alias, canonical := aliases[0].0, aliases[0].1;
      var m' := if HasKey(m, alias) && !HasKey(m, canonical) then Set(m, canonical, Get(m, alias)) else m;
      AliasesAddCanonical(aliases[1..], m');
      AliasesOnlyAppend(aliases[1..], m');
      forall j | |m| <= j < |r|
        ensures exists i :: 0 <= i < |aliases| && aliases[i].1 == r[j].0 && Lookup(r, aliases[i].0) == Some(r[j].1)
      {
        if j < |m'| {
          SetAbsentAppends(m, canonical, Get(m, alias));
          assert r[j] == (canonical, Get(m, alias));
          SetLookup(m, canonical, Get(m, alias), alias);
          AliasesKeepExisting(aliases[1..], m', alias);
          assert aliases[0].1 == r[j].0 && Lookup(r, aliases[0].0) == Some(r[j].1);
        } else {
          var i :| 0 <= i < |aliases[1..]| && aliases[1..][i].1 == r[j].0 && Lookup(r, aliases[1..][i].0) == Some(r[j].1);
          assert aliases[i + 1] == aliases[1..][i];
        }
      }
    }
  }

  /** Alias copying keeps keys unique. */
  lemma {:induction false} AliasesUnique(aliases: Fields, m: Fields)
    requires UniqueKeys(m)
    ensures UniqueKeys(ApplyAliases(aliases, m))
    decreases |aliases|
  {
    if |aliases| > 0 {
      var alias, canonical := aliases[0].0, aliases[0].1;
      if HasKey(m, alias) && !HasKey(m, canonical) {
        SetUnique(m, canonical, Get(m, alias));
        AliasesUnique(aliases[1..], Set(m, canonical, Get(m, alias)));
      } else {
        AliasesUnique(aliases[1..], m);
      }
    }
  }

  // ----- sanityCleanAddress -----

  /** `\d+;\d+` (ASCII digits) occurs: a range of postcodes. */
  predicate HasDigitRange(p: string) {
    exists i :: 1 <= i < |p| - 1 && p[i] == ';' && IsDigit(p[i - 1]) && IsDigit(p[i + 1])
  }

  /** `^(\d{5}),\d{5}`: a postcode range starting with two five-digit codes. */
  predicate FiveDigitPair(p: string) {
    |p| >= 11 && p[5] == ','
    && (forall i :: 0 <= i < 5 ==> IsDigit(p[i]))
    && (forall i :: 6 <= i < 11 ==> IsDigit(p[i]))
  }

  /**
   * Lines 545-555: the cleaned postcode, or None when it is dropped.  What is
   * kept is a prefix of the postcode that would pass the check itself: the
   * whole postcode, or the five digits a range starts with.
   */
  function CleanPostcode(p: string): (r: Option<string>)
    ensures r.Some? ==> r.value <= p
    ensures r.Some? ==> Utf8Len(r.value) <= 20 && !HasDigitRange(r.value)
    ensures r.Some? && r.value != p ==> |r.value| == 5 && forall i :: 0 <= i < 5 ==> IsDigit(r.value[i])
    ensures r.Some? ==> (r.value != p <==> FiveDigitPair(p))
    ensures r.Some? && FiveDigitPair(p) ==> r.value == p[..5]
  {
    if Utf8Len(p) > 20 then None
    else if HasDigitRange(p) then None
    else if FiveDigitPair(p) then Some(p[..5])
    else Some(p)
  }

  /** `|https?://|`: the value holds a URL. */
  predicate HasUrl(v: string) {
    Contains(v, "http://") || Contains(v, "https://")
  }

  function SanityClean(m: Fields): Fields {
    var m' :=
      match Lookup(m, "postcode")
      case None => m
      case Some(p) =>
        match CleanPostcode(p)
        case None => Remove(m, "postcode")
        case Some(q) => Set(m, "postcode", q);
    FilterEntries(m', (e: Entry) => !HasUrl(e.1))
  }

  /** What a field holds after the sanity check: the cleaned postcode, any other value as it was, and nothing holding a URL. */
  lemma {:induction false} SanityCleanLookup(m: Fields, k: string)
    requires UniqueKeys(m)
    ensures var v := if k == "postcode" then (match Lookup(m, k) case None => None case Some(p) => CleanPostcode(p)) else Lookup(m, k);
      Lookup(SanityClean(m), k) == if v.Some? && !HasUrl(v.value) then v else None
    ensures UniqueKeys(SanityClean(m))
  {
    var keep := (e: Entry) => !HasUrl(e.1);
    var m' :=
      match Lookup(m, "postcode")
      case None => m
      case Some(p) =>
        match CleanPostcode(p)
        case None => Remove(m, "postcode")
        case Some(q) => Set(m, "postcode", q);
    match Lookup(m, "postcode") {
      case None =>
      case Some(p) =>
        match CleanPostcode(p) {
          case None => RemoveLookup(m, "postcode", k);
          case Some(q) => SetLookup(m, "postcode", q, k); SetUnique(m, "postcode", q);
        }
    }
    FilterLookup(m', keep, k);
    FilterUnique(m', keep);
  }

  /** The keys that survive keep their relative order. */
  lemma {:induction false} SanityCleanOrder(m: Fields)
    ensures IsSubseq(Keys(SanityClean(m)), Keys(m))
  {
    var keep := (e: Entry) => !HasUrl(e.1);
    FilterKeys(m, (e: Entry) => e.0 != "postcode");
    match Lookup(m, "postcode")
    case None =>
      FilterKeys(m, keep);
    case Some(p) =>
      match CleanPostcode(p)
      case None =>
        var m' := Remove(m, "postcode");
        FilterKeys(m', keep);
        SubseqTrans(Keys(FilterEntries(m', keep)), Keys(m'), Keys(m));
      case Some(q) =>
        SetKeys(m, "postcode", q);
        FilterKeys(Set(m, "postcode", q), keep);
  }

  lemma {:induction false} FilterKeys(m: Fields, keep: Entry -> bool)
    ensures IsSubseq(Keys(FilterEntries(m, keep)), Keys(m))
  {
    if |m| > 0 {
      FilterKeys(m[1..], keep);
      var rest := FilterEntries(m[1..], keep);
      if keep(m[0]) {
        assert ([m[0]] + rest)[1..] == rest;
      }
    }
  }

  lemma {:induction false} SubseqTrans<T>(a: seq<T>, b: seq<T>, c: seq<T>)
    requires IsSubseq(a, b) && IsSubseq(b, c)
    ensures IsSubseq(a, c)
    decreases |c|
  {
    if |a| > 0 {
      if b[0] == c[0] && IsSubseq(b[1..], c[1..]) {
        if a[0] == b[0] && IsSubseq(a[1..], b[1..]) {
          SubseqTrans(a[1..], b[1..], c[1..]);
        } else {
          SubseqTrans(a, b[1..], c[1..]);
        }
      } else {
        SubseqTrans(a, b, c[1..]);
      }
    }
  }

  /**
   * The check is stable: a kept postcode passes it again unchanged.  A
   * postcode is dropped exactly when it is too long or holds a range, and a
   * short one without a range is shortened only to its first five digits.
   */
  lemma {:induction false} CleanPostcodeStable(p: string)
    ensures CleanPostcode(p).None? <==> Utf8Len(p) > 20 || HasDigitRange(p)
    ensures CleanPostcode(p).Some? ==> CleanPostcode(CleanPostcode(p).value) == CleanPostcode(p)
  {
    var r := CleanPostcode(p);
    if r.Some? && r.value != p {
      assert !FiveDigitPair(r.value);
    }
  }

  /** A range with a semicolon is dropped. */
  lemma {:induction false} PostcodeRangeExample()
    ensures CleanPostcode("1;2") == None
  {
    assert "1;2"[1] == ';';
  }
}
