/**
 * The formatter's working state: a PHP array from field name to value.
 * PHP arrays are ordered, and the order shows in the output (the attention
 * line, the backup join, the order aliases and replacements are applied in),
 * so the model keeps a sequence of entries.  Assigning to a present key
 * keeps its position; assigning to an absent key appends; `unset` removes.
 */
module Fields {
  import opened Wrappers

  type Entry = (string, string)
  type Fields = seq<Entry>

  /** `s` can be obtained from `t` by deleting elements: order and contents of what is kept are unchanged. */
  ghost predicate IsSubseq<T>(s: seq<T>, t: seq<T>)
    decreases |t|
  {
    |s| == 0 || (|t| > 0 && ((s[0] == t[0] && IsSubseq(s[1..], t[1..])) || IsSubseq(s, t[1..])))
  }

  /** `array_keys`. */
  function Keys(m: Fields): seq<string> {
    if |m| == 0 then [] else [m[0].0] + Keys(m[1..])
  }

  /** `array_values`. */
  function Values(m: Fields): seq<string> {
    if |m| == 0 then [] else [m[0].1] + Values(m[1..])
  }

  /** A value is listed exactly when some entry holds it. */
  lemma {:induction false} ValuesMembers(m: Fields)
    ensures forall v :: v in Values(m) <==> exists e :: e in m && e.1 == v
  {
    if |m| > 0 {
      ValuesMembers(m[1..]);
      assert m == [m[0]] + m[1..];
    }
  }

  /** `$m[k]`, or None when the key is absent: the first entry with that key. */
  function Lookup(m: Fields, k: string): Option<string> {
    if |m| == 0 then None
    else if m[0].0 == k then Some(m[0].1)
    else Lookup(m[1..], k)
  }

  /** `isset($m[k])`: values are strings here, never null. */
  predicate HasKey(m: Fields, k: string) {
    Lookup(m, k).Some?
  }

  function Get(m: Fields, k: string): string
    requires HasKey(m, k)
  {
    Lookup(m, k).value
  }

  /** What every PHP array satisfies: no key occurs twice. */
  predicate UniqueKeys(m: Fields) {
    |m| == 0 || (!HasKey(m[1..], m[0].0) && UniqueKeys(m[1..]))
  }

  /** A key is present exactly when it is one of the keys. */
  lemma {:induction false} HasKeyIffInKeys(m: Fields, k: string)
    ensures HasKey(m, k) <==> k in Keys(m)
  {
    if |m| > 0 {
      HasKeyIffInKeys(m[1..], k);
    }
  }

  /** The keys are the first components of the entries, position by position. */
  lemma {:induction false} KeysIndex(m: Fields)
    ensures |Keys(m)| == |m|
    ensures forall i :: 0 <= i < |m| ==> Keys(m)[i] == m[i].0
  {
    if |m| > 0 {
      KeysIndex(m[1..]);
      forall i | 0 < i < |m|
        ensures Keys(m)[i] == m[i].0
      {
        assert Keys(m)[i] == Keys(m[1..])[i - 1];
      }
    }
  }

  /** What a lookup finds is an entry of the array. */
  lemma {:induction false} LookupIsEntry(m: Fields, k: string)
    ensures HasKey(m, k) ==> (k, Get(m, k)) in m
  {
    if |m| > 0 && m[0].0 != k {
      LookupIsEntry(m[1..], k);
    }
  }

  /** With unique keys an entry is what a lookup of its key finds. */
  lemma {:induction false} LookupUnique(m: Fields, k: string, v: string)
    requires UniqueKeys(m) && (k, v) in m
    ensures Lookup(m, k) == Some(v)
  {
    if m[0] != (k, v) {
      assert (k, v) in m[1..];
      LookupUnique(m[1..], k, v);
    }
  }

  /** A key no entry carries is absent. */
  lemma {:induction false} LookupAbsent(m: Fields, k: string)
    requires forall i :: 0 <= i < |m| ==> m[i].0 != k
    ensures Lookup(m, k) == None
  {
    if |m| > 0 {
      LookupAbsent(m[1..], k);
    }
  }

  /** Pairwise different keys are unique keys. */
  lemma {:induction false} DistinctKeysUnique(m: Fields)
    requires forall i, j :: 0 <= i < j < |m| ==> m[i].0 != m[j].0
    ensures UniqueKeys(m)
  {
    if |m| > 0 {
      LookupAbsent(m[1..], m[0].0);
      DistinctKeysUnique(m[1..]);
    }
  }

  /** `$m[k] = v`. */
  function Set(m: Fields, k: string, v: string): (r: Fields)
    ensures |r| == |m| || |r| == |m| + 1
  {
    if |m| == 0 then [(k, v)]
    else if m[0].0 == k then [(k, v)] + m[1..]
    else [m[0]] + Set(m[1..], k, v)
  }

  /** After `$m[k] = v`, `k` maps to `v` and every other key is unchanged. */
  lemma {:induction false} SetLookup(m: Fields, k: string, v: string, k': string)
    ensures Lookup(Set(m, k, v), k') == if k' == k then Some(v) else Lookup(m, k')
  {
    if |m| > 0 && m[0].0 != k {
      SetLookup(m[1..], k, v, k');
      assert ([m[0]] + Set(m[1..], k, v))[1..] == Set(m[1..], k, v);
    } else if |m| > 0 {
      assert ([(k, v)] + m[1..])[1..] == m[1..];
    }
  }

  /** Assigning a present key keeps the key order; assigning an absent one appends it. */
  lemma {:induction false} SetKeys(m: Fields, k: string, v: string)
    ensures HasKey(m, k) ==> Keys(Set(m, k, v)) == Keys(m)
    ensures !HasKey(m, k) ==> Keys(Set(m, k, v)) == Keys(m) + [k]
  {
    if |m| > 0 {
      var r := Set(m, k, v);
      if m[0].0 == k {
        assert r[1..] == m[1..];
      } else {
        SetKeys(m[1..], k, v);
        assert r[1..] == Set(m[1..], k, v);
        assert Keys(m) == [m[0].0] + Keys(m[1..]);
      }
    }
  }

  /** Assignment keeps keys unique. */
  lemma {:induction false} SetUnique(m: Fields, k: string, v: string)
    requires UniqueKeys(m)
    ensures UniqueKeys(Set(m, k, v))
  {
    if |m| > 0 {
      var r := Set(m, k, v);
      if m[0].0 == k {
        assert r[1..] == m[1..];
      } else {
        SetUnique(m[1..], k, v);
        SetLookup(m[1..], k, v, m[0].0);
        assert r[1..] == Set(m[1..], k, v);
      }
    }
  }

  /** The entries satisfying `keep`, in their original order (`array_filter`, or a loop of `unset`s). */
  function FilterEntries(m: Fields, keep: Entry -> bool): (r: Fields)
    ensures |r| <= |m|
  {
    if |m| == 0 then []
    else if keep(m[0]) then [m[0]] + FilterEntries(m[1..], keep)
    else FilterEntries(m[1..], keep)
  }

  /** Filtering keeps exactly the entries satisfying the predicate, in their original order. */
  lemma {:induction false} FilterMembers(m: Fields, keep: Entry -> bool)
    ensures forall e :: e in FilterEntries(m, keep) <==> e in m && keep(e)
    ensures IsSubseq(FilterEntries(m, keep), m)
  {
    if |m| > 0 {
      FilterMembers(m[1..], keep);
      var rest := FilterEntries(m[1..], keep);
      if keep(m[0]) {
        assert ([m[0]] + rest)[1..] == rest;
      } else {
        SubseqOfTail(rest, m);
      }
      assert m == [m[0]] + m[1..];
    }
  }

  lemma {:induction false} SubseqOfTail<T>(s: seq<T>, t: seq<T>)
    requires |t| > 0 && IsSubseq(s, t[1..])
    ensures IsSubseq(s, t)
  {
  }

  /** Filtering on unique keys: a key maps to its old value if that entry was kept, and is absent otherwise. */
  lemma {:induction false} FilterLookup(m: Fields, keep: Entry -> bool, k: string)
    requires UniqueKeys(m)
    ensures Lookup(FilterEntries(m, keep), k) ==
      if HasKey(m, k) && keep((k, Get(m, k))) then Lookup(m, k) else None
  {
    if |m| > 0 {
      FilterLookup(m[1..], keep, k);
      var rest := FilterEntries(m[1..], keep);
      if keep(m[0]) {
        assert ([m[0]] + rest)[1..] == rest;
      }
    }
  }

  /** Filtering keeps keys unique. */
  lemma {:induction false} FilterUnique(m: Fields, keep: Entry -> bool)
    requires UniqueKeys(m)
    ensures UniqueKeys(FilterEntries(m, keep))
  {
    if |m| > 0 {
      FilterUnique(m[1..], keep);
      var rest := FilterEntries(m[1..], keep);
      if keep(m[0]) {
        FilterLookup(m[1..], keep, m[0].0);
        assert ([m[0]] + rest)[1..] == rest;
      }
    }
  }

  /** `unset($m[k])`. */
  function Remove(m: Fields, k: string): Fields {
    FilterEntries(m, (e: Entry) => e.0 != k)
  }

  /** After `unset($m[k])` the key is gone and every other key is unchanged. */
  lemma {:induction false} RemoveLookup(m: Fields, k: string, k': string)
    requires UniqueKeys(m)
    ensures Lookup(Remove(m, k), k') == if k' == k then None else Lookup(m, k')
    ensures UniqueKeys(Remove(m, k))
  {
    FilterLookup(m, (e: Entry) => e.0 != k, k');
    FilterUnique(m, (e: Entry) => e.0 != k);
  }
}
