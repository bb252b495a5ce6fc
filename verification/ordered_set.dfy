/** `LinkedHashSet`: a set that remembers the order in which its elements
    were first added, held as a sequence without repeats.  The result sets
    of the retrievers are of this kind. */
module OrderedSets {

  /** No element occurs twice. */
  predicate Distinct<T(==)>(s: seq<T>)
  {
    forall i, j :: 0 <= i < j < |s| ==> s[i] != s[j]
  }

  /** `add(x)`: appended at the end when new; otherwise nothing changes. */
  function Add<T(==)>(s: seq<T>, x: T): (r: seq<T>)
    ensures x in r
    ensures forall i :: |s| <= i < |r| ==> r[i] == x
    ensures x in s <==> r == s
    ensures x !in s <==> |r| == |s| + 1
    ensures |s| <= |r| && r[..|s|] == s
  {
    if x in s then s else s + [x]
  }

  /** Adding keeps the sequence free of repeats. */
  lemma AddKeepsDistinct<T>(s: seq<T>, x: T)
    requires Distinct(s)
    ensures Distinct(Add(s, x))
  {
    if x !in s {
      var r := s + [x];
      forall i, j | 0 <= i < j < |r|
        ensures r[i] != r[j]
      {
        if j == |s| {
          assert r[i] == s[i];
        }
      }
    }
  }

  /** The elements, as a plain set. */
  function Elements<T>(s: seq<T>): set<T>
  {
    set x | x in s
  }

  /** Without repeats, the length is the number of distinct elements: the
      `size()` of the set. */
  lemma {:induction false} SizeIsCardinality<T>(s: seq<T>)
    requires Distinct(s)
    ensures |Elements(s)| == |s|
  {
    if |s| > 0 {
      var last := s[|s| - 1];
      var init := s[..|s| - 1];
      assert Distinct(init) by {
        forall i, j | 0 <= i < j < |init|
          ensures init[i] != init[j]
        {
          assert init[i] == s[i] && init[j] == s[j];
        }
      }
      SizeIsCardinality(init);
      assert s == init + [last];
      assert last !in init by {
        forall i | 0 <= i < |init|
          ensures init[i] != last
        {
          assert init[i] == s[i];
        }
      }
      assert Elements(s) == Elements(init) + {last};
    }
  }

  lemma ElementsConcat<T>(a: seq<T>, b: seq<T>)
    ensures Elements(a + b) == Elements(a) + Elements(b)
  {
  }

  /** `add` of each of `xs` in turn. */
  function AddAll<T(==)>(s: seq<T>, xs: seq<T>): (r: seq<T>)
    ensures |s| <= |r| && r[..|s|] == s
    decreases |xs|
  {
    if |xs| == 0 then s else AddAll(Add(s, xs[0]), xs[1..])
  }

  /** Adding all of `xs` gives exactly the elements of both, still without
      repeats. */
  lemma {:induction false} AddAllElements<T>(s: seq<T>, xs: seq<T>)
    requires Distinct(s)
    ensures Distinct(AddAll(s, xs))
    ensures Elements(AddAll(s, xs)) == Elements(s) + Elements(xs)
    decreases |xs|
  {
    if |xs| > 0 {
      AddKeepsDistinct(s, xs[0]);
      AddAllElements(Add(s, xs[0]), xs[1..]);
      ElementsConcat(s, [xs[0]]);
      assert xs == [xs[0]] + xs[1..];
      ElementsConcat([xs[0]], xs[1..]);
    } else {
      assert Elements(xs) == {};
    }
  }
}
