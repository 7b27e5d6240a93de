/** `ListExtension.Filter`: an order-preserving filter of a list by a predicate. */
module ListExtension {

  /**
   * `list.Where(v => condition(v)).ToList()`: the elements satisfying
   * `condition`, in their original order. The result is a new value; the
   * input is never changed.
   */
  function Filter<V>(list: seq<V>, condition: V -> bool): (r: seq<V>)
    ensures |r| <= |list|
    ensures forall i | 0 <= i < |r| :: condition(r[i])
  {
    if list == [] then []
    else if condition(list[0]) then [list[0]] + Filter(list[1..], condition)
    else Filter(list[1..], condition)
  }

  /** `sub` can be obtained from `s` by deleting elements (greedy matching from the front). */
  ghost predicate IsSubsequence<V>(sub: seq<V>, s: seq<V>)
  {
    if sub == [] then true
    else if s == [] then false
    else if sub[0] == s[0] then IsSubsequence(sub[1..], s[1..])
    else IsSubsequence(sub, s[1..])
  }

  /** The kept elements keep their relative order: the result is a subsequence of the input. */
  lemma {:induction false} FilterIsSubsequence<V>(list: seq<V>, condition: V -> bool)
    ensures IsSubsequence(Filter(list, condition), list)
  {
    if list != [] {
      FilterIsSubsequence(list[1..], condition);
      var rest := Filter(list[1..], condition);
      if condition(list[0]) {
        assert Filter(list, condition) == [list[0]] + rest;
        assert ([list[0]] + rest)[1..] == rest;
      } else {
        SubsequenceOfTail(rest, list);
      }
    }
  }

  /** A subsequence of the tail is a subsequence of the whole. */
  lemma {:induction false} SubsequenceOfTail<V>(sub: seq<V>, s: seq<V>)
    requires s != []
    requires IsSubsequence(sub, s[1..])
    ensures IsSubsequence(sub, s)
  {
    if sub != [] && sub[0] == s[0] {
      // Matching s[0] greedily leaves sub[1..] to be found in s[1..], which
      // holds because sub itself is found there.
      SubsequenceDropHead(sub, s[1..]);
    }
  }

  /** Dropping the first element of a subsequence keeps it a subsequence. */
  lemma {:induction false} SubsequenceDropHead<V>(sub: seq<V>, s: seq<V>)
    requires sub != []
    requires IsSubsequence(sub, s)
    ensures IsSubsequence(sub[1..], s)
  {
    if sub[0] == s[0] {
      if s[1..] != [] {
        SubsequenceOfTail(sub[1..], s);
      } else {
        assert sub[1..] == [];
      }
    } else {
      SubsequenceDropHead(sub, s[1..]);
      SubsequenceOfTail(sub[1..], s);
    }
  }

  /**
   * Every element satisfying `condition` appears in the result as often as
   * in the input; every other element does not appear at all.
   */
  lemma {:induction false} FilterMultiplicity<V>(list: seq<V>, condition: V -> bool, x: V)
    ensures multiset(Filter(list, condition))[x] == if condition(x) then multiset(list)[x] else 0
  {
    if list != [] {
      FilterMultiplicity(list[1..], condition, x);
      assert list == [list[0]] + list[1..];
      assert multiset(list) == multiset([list[0]]) + multiset(list[1..]);
    }
  }

  /** An element is in the result iff it is in the input and satisfies `condition`. */
  lemma FilterMembership<V>(list: seq<V>, condition: V -> bool, x: V)
    ensures x in Filter(list, condition) <==> x in list && condition(x)
  {
    FilterMultiplicity(list, condition, x);
  }

  /** A list all of whose elements satisfy `condition` is left as it is. */
  lemma {:induction false} FilterKeepsAll<V>(list: seq<V>, condition: V -> bool)
    requires forall i | 0 <= i < |list| :: condition(list[i])
    ensures Filter(list, condition) == list
  {
    if list != [] {
      FilterKeepsAll(list[1..], condition);
      assert [list[0]] + list[1..] == list;
    }
  }

  /** Filtering twice with the same predicate is filtering once. */
  lemma FilterIdempotent<V>(list: seq<V>, condition: V -> bool)
    ensures Filter(Filter(list, condition), condition) == Filter(list, condition)
  {
    FilterKeepsAll(Filter(list, condition), condition);
  }
}
