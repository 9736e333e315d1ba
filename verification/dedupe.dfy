/**
 * The `$seen[$x]++ ... continue` idiom the formatter uses three times
 * (lines of the rendered text, comma-separated pieces of a line, pieces
 * of the post-format text): keep the first occurrence of every element,
 * drop the later ones, keep the order.
 */
module Dedupe {
  /** The elements not in `seen`, each at its first occurrence, in order; `seen` grows as elements are kept. */
  function DedupFrom<T(==)>(xs: seq<T>, seen: set<T>): seq<T>
    decreases |xs|
  {
    if |xs| == 0 then []
    else if xs[0] in seen then DedupFrom(xs[1..], seen)
    else [xs[0]] + DedupFrom(xs[1..], seen + {xs[0]})
  }

  function Dedup<T(==)>(xs: seq<T>): seq<T> {
    DedupFrom(xs, {})
  }

  /** No element occurs twice. */
  predicate Distinct<T(==)>(xs: seq<T>) {
    forall i, j :: 0 <= i < j < |xs| ==> xs[i] != xs[j]
  }

  /** Reference definition: walking from the back, an element is kept when it does not occur earlier. */
  function FirstOccurrences<T(==)>(xs: seq<T>): seq<T> {
    if |xs| == 0 then []
    else
      var init := xs[..|xs| - 1];
      FirstOccurrences(init) + (if xs[|xs| - 1] in init then [] else [xs[|xs| - 1]])
  }

  /** An element survives exactly when it is in the input and was not already seen. */
  lemma {:induction false} DedupFromMembers<T>(xs: seq<T>, seen: set<T>)
    ensures forall x :: x in DedupFrom(xs, seen) <==> x in xs && x !in seen
    decreases |xs|
  {
    if |xs| > 0 {
      var s' := if xs[0] in seen then seen else seen + {xs[0]};
      DedupFromMembers(xs[1..], s');
      assert xs == [xs[0]] + xs[1..];
    }
  }

  /** The result repeats nothing, and nothing from `seen`. */
  lemma {:induction false} DedupFromDistinct<T>(xs: seq<T>, seen: set<T>)
    ensures Distinct(DedupFrom(xs, seen))
    ensures forall x :: x in DedupFrom(xs, seen) ==> x !in seen
    decreases |xs|
  {
    if |xs| > 0 {
      var s' := if xs[0] in seen then seen else seen + {xs[0]};
      DedupFromDistinct(xs[1..], s');
      DedupFromMembers(xs[1..], s');
      if xs[0] !in seen {
        var r := DedupFrom(xs, seen);
        assert r[1..] == DedupFrom(xs[1..], s');
        forall i, j | 0 <= i < j < |r|
          ensures r[i] != r[j]
        {
          if i == 0 {
            assert r[j] in r[1..];
          } else {
            assert r[i] == r[1..][i - 1] && r[j] == r[1..][j - 1];
          }
        }
      }
    }
  }

  /** The elements of a sequence, as a set. */
  function Elems<T>(xs: seq<T>): set<T> {
    if |xs| == 0 then {} else {xs[0]} + Elems(xs[1..])
  }

  lemma {:induction false} ElemsMembers<T>(xs: seq<T>, x: T)
    ensures x in Elems(xs) <==> x in xs
    decreases |xs|
  {
    if |xs| > 0 {
      ElemsMembers(xs[1..], x);
      assert xs == [xs[0]] + xs[1..];
    }
  }

  /** Deduplicating a concatenation: the second part is deduplicated against everything the first part held. */
  lemma {:induction false} DedupFromAppend<T>(a: seq<T>, b: seq<T>, seen: set<T>)
    ensures DedupFrom(a + b, seen) == DedupFrom(a, seen) + DedupFrom(b, seen + Elems(a))
    decreases |a|
  {
    if |a| == 0 {
      assert a + b == b;
      assert seen + Elems(a) == seen;
    } else {
      var s' := if a[0] in seen then seen else seen + {a[0]};
      DedupFromAppend(a[1..], b, s');
      assert (a + b)[1..] == a[1..] + b;
      assert s' + Elems(a[1..]) == seen + Elems(a);
    }
  }

  /** Deduplication keeps exactly the first occurrences, as the reference definition says. */
  lemma {:induction false} DedupIsFirstOccurrences<T>(xs: seq<T>)
    ensures Dedup(xs) == FirstOccurrences(xs)
    decreases |xs|
  {
    if |xs| > 0 {
      var init, last := xs[..|xs| - 1], xs[|xs| - 1];
      DedupIsFirstOccurrences(init);
      assert xs == init + [last];
      DedupFromAppend(init, [last], {});
      ElemsMembers(init, last);
      assert {} + Elems(init) == Elems(init);
      assert [last][1..] == [];
    }
  }

  /** Deduplication keeps every value, loses none, and repeats none. */
  lemma {:induction false} DedupSpec<T>(xs: seq<T>)
    ensures forall x :: x in Dedup(xs) <==> x in xs
    ensures Distinct(Dedup(xs))
  {
    DedupFromMembers(xs, {});
    DedupFromDistinct(xs, {});
  }

  /** A non-empty input keeps at least its first element. */
  lemma {:induction false} DedupNonEmpty<T>(xs: seq<T>)
    requires |xs| > 0
    ensures |Dedup(xs)| > 0 && Dedup(xs)[0] == xs[0]
  {
  }
}
