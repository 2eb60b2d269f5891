/** Array operations the components perform on their list state. */
module Lists {

  /** No value occurs twice in `xs`. */
  predicate NoDuplicates<T(==)>(xs: seq<T>) {
    forall a, b :: 0 <= a < b < |xs| ==> xs[a] != xs[b]
  }

  /**
   * `xs.filter((_, index) => index !== i)`: walks the array once and keeps
   * every element whose position differs from `i`. `i` is any number, so an
   * index outside the array keeps everything.
   */
  function RemoveIndex<T>(xs: seq<T>, i: int): (r: seq<T>)
    ensures 0 <= i < |xs| ==> r == xs[..i] + xs[i + 1..]
    ensures !(0 <= i < |xs|) ==> r == xs
    decreases |xs|
  {
    if xs == [] then []
    else (if i == 0 then [] else [xs[0]]) + RemoveIndex(xs[1..], i - 1)
  }

  /** Removal by index keeps exactly the other elements: only `xs[i]` is missing. */
  lemma {:induction false} RemoveIndexMultiset<T>(xs: seq<T>, i: int)
    requires 0 <= i < |xs|
    ensures |RemoveIndex(xs, i)| == |xs| - 1
    ensures multiset(RemoveIndex(xs, i)) + multiset{xs[i]} == multiset(xs)
    decreases |xs|
  {
    assert xs == [xs[0]] + xs[1..];
    if i > 0 {
      RemoveIndexMultiset(xs[1..], i - 1);
      assert RemoveIndex(xs, i) == [xs[0]] + RemoveIndex(xs[1..], i - 1);
      assert xs[1..][i - 1] == xs[i];
    }
  }

  /** Removing an element can never create a duplicate. */
  lemma RemoveIndexKeepsNoDuplicates<T>(xs: seq<T>, i: int)
    requires NoDuplicates(xs)
    ensures NoDuplicates(RemoveIndex(xs, i))
  {
    if 0 <= i < |xs| {
      var r := RemoveIndex(xs, i);
      forall a, b | 0 <= a < b < |r|
        ensures r[a] != r[b]
      {
        var a' := if a < i then a else a + 1;
        var b' := if b < i then b else b + 1;
        assert r[a] == xs[a'] && r[b] == xs[b'];
      }
    }
  }
}
