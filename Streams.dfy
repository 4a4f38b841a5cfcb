/** The java.util.stream steps the validation helpers use:
    `filter(not(set::contains))` and `distinct()`, both order-preserving. */
module Streams {

  /** The elements of `s` that are not in `excluded`, in their original order. */
  function FilterOut<T(==, !new)>(s: seq<T>, excluded: set<T>): (r: seq<T>)
    ensures |r| <= |s|
    ensures forall x :: x in r <==> x in s && x !in excluded
  {
    if s == [] then []
    else (if s[0] in excluded then [] else [s[0]]) + FilterOut(s[1..], excluded)
  }

  /** `Stream.distinct()`: keeps the first occurrence of every element. */
  function Distinct<T(==, !new)>(s: seq<T>): (r: seq<T>)
    ensures forall x :: x in r <==> x in s
    ensures NoDuplicates(r)
  {
    DistinctAfter(s, {})
  }

  /** The first occurrences in `s` of the elements not already in `seen`. */
  function DistinctAfter<T(==, !new)>(s: seq<T>, seen: set<T>): (r: seq<T>)
    ensures forall x :: x in r <==> x in s && x !in seen
    ensures NoDuplicates(r)
  {
    if s == [] then []
    else if s[0] in seen then DistinctAfter(s[1..], seen)
    else [s[0]] + DistinctAfter(s[1..], seen + {s[0]})
  }

  predicate NoDuplicates<T(==, !new)>(s: seq<T>) {
    forall i, j :: 0 <= i < j < |s| ==> s[i] != s[j]
  }

  /** Both steps keep order: a filtered concatenation is the concatenation of the
      filtered parts. */
  lemma {:induction false} FilterOutAppend<T(!new)>(s: seq<T>, t: seq<T>, excluded: set<T>)
    ensures FilterOut(s + t, excluded) == FilterOut(s, excluded) + FilterOut(t, excluded)
  {
    if s == [] {
      assert s + t == t;
    } else {
      assert (s + t)[0] == s[0];
      assert (s + t)[1..] == s[1..] + t;
      FilterOutAppend(s[1..], t, excluded);
    }
  }

  /** The first occurrences in `s + t` are those of `s`, then those of `t` that neither
      `seen` nor `s` already holds. */
  lemma {:induction false} DistinctAfterAppend<T(!new)>(s: seq<T>, t: seq<T>, seen: set<T>)
    ensures DistinctAfter(s + t, seen)
         == DistinctAfter(s, seen) + DistinctAfter(t, seen + (set x | x in s))
  {
    if s == [] {
      assert s + t == t;
      assert seen + (set x | x in s) == seen;
    } else {
      var rest := s[1..];
      assert (s + t)[0] == s[0];
      assert (s + t)[1..] == rest + t;
      ElementsOfCons(s);
      if s[0] in seen {
        DistinctAfterAppend(rest, t, seen);
        assert seen + (set x | x in rest) == seen + (set x | x in s);
      } else {
        var seen' := seen + {s[0]};
        DistinctAfterAppend(rest, t, seen');
        assert seen' + (set x | x in rest) == seen + (set x | x in s);
        assert DistinctAfter(s + t, seen) == [s[0]] + DistinctAfter(rest + t, seen');
      }
    }
  }

  lemma ElementsOfCons<T(!new)>(s: seq<T>)
    requires s != []
    ensures (set x | x in s) == {s[0]} + (set x | x in s[1..])
  {
    assert s == [s[0]] + s[1..];
  }

  /** On two elements the two steps reduce to the case split the services' messages show. */
  lemma FilterOutPair<T(!new)>(a: T, b: T, excluded: set<T>)
    ensures FilterOut([a, b], excluded)
         == (if a in excluded then [] else [a]) + (if b in excluded then [] else [b])
  {
    assert [a, b][1..] == [b];
  }

  lemma DistinctSingle<T(!new)>(a: T)
    ensures Distinct([a]) == [a]
  {
    assert [a][1..] == [];
    assert Distinct([a]) == [a] + DistinctAfter([], {} + {a});
  }

  lemma DistinctPair<T(!new)>(a: T, b: T)
    ensures Distinct([a, b]) == if a == b then [a] else [a, b]
  {
    assert [a, b][1..] == [b];
    assert [b][1..] == [];
    assert DistinctAfter([b], {a}) == if a == b then [] else [b];
    assert Distinct([a, b]) == [a] + DistinctAfter([b], {} + {a});
  }
}
