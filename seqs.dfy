/** Facts about sequences used as lists: their element sets, duplicates and subsequences. */
module Seqs {

  /** The set of elements of a list (Python's `set(xs)`). */
  function Elems<T>(xs: seq<T>): set<T> {
    set x | x in xs
  }

  /** No element occurs twice. */
  predicate NoDups<T(==)>(xs: seq<T>) {
    forall i, j :: 0 <= i < j < |xs| ==> xs[i] != xs[j]
  }

  /** A list has at least as many positions as distinct elements, and exactly as many when it has no duplicates. */
  lemma {:induction false} ElemsCard<T>(xs: seq<T>)
    ensures |Elems(xs)| <= |xs|
    ensures |Elems(xs)| == |xs| <==> NoDups(xs)
  {
    if xs != [] {
      var init, last := xs[..|xs| - 1], xs[|xs| - 1];
      ElemsCard(init);
      assert xs == init + [last];
      assert Elems(xs) == Elems(init) + {last};
      if last in init {
        assert Elems(xs) == Elems(init);
        var k :| 0 <= k < |init| && init[k] == last;
        assert xs[k] == xs[|xs| - 1];
      } else {
        assert |Elems(xs)| == |Elems(init)| + 1;
        if NoDups(init) {
          forall i, j | 0 <= i < j < |xs| ensures xs[i] != xs[j] {
            if j == |xs| - 1 {
              assert xs[i] == init[i];
            } else {
              assert xs[i] == init[i] && xs[j] == init[j];
            }
          }
        } else {
          var i, j :| 0 <= i < j < |init| && init[i] == init[j];
          assert xs[i] == xs[j];
        }
      }
    }
  }

  /** Without duplicates, dropping the head removes exactly that element. */
  lemma TailElems<T>(xs: seq<T>)
    requires xs != [] && NoDups(xs)
    ensures Elems(xs[1..]) == Elems(xs) - {xs[0]}
  {
    assert xs == [xs[0]] + xs[1..];
  }

  /** `xs` can be obtained from `ys` by deleting elements, keeping the order of the rest. */
  predicate Subsequence<T(==)>(xs: seq<T>, ys: seq<T>)
    decreases |ys|
  {
    if xs == [] then true
    else if ys == [] then false
    else
      || (xs[|xs| - 1] == ys[|ys| - 1] && Subsequence(xs[..|xs| - 1], ys[..|ys| - 1]))
      || Subsequence(xs, ys[..|ys| - 1])
  }

  /** Every element of a subsequence is an element of the sequence. */
  lemma {:induction false} SubsequenceElems<T>(xs: seq<T>, ys: seq<T>)
    requires Subsequence(xs, ys)
    ensures Elems(xs) <= Elems(ys)
    ensures |xs| <= |ys|
    decreases |ys|
  {
    if xs != [] {
      var yi := ys[..|ys| - 1];
      assert ys == yi + [ys[|ys| - 1]];
      if xs[|xs| - 1] == ys[|ys| - 1] && Subsequence(xs[..|xs| - 1], yi) {
        SubsequenceElems(xs[..|xs| - 1], yi);
        assert xs == xs[..|xs| - 1] + [xs[|xs| - 1]];
        assert Elems(xs) == Elems(xs[..|xs| - 1]) + {xs[|xs| - 1]};
        assert Elems(ys) == Elems(yi) + {ys[|ys| - 1]};
      } else {
        SubsequenceElems(xs, yi);
        assert Elems(yi) <= Elems(ys);
      }
    }
  }
}
