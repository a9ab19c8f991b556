/**
 * Python's ordering of `str` values and `sorted(set(xs))` on lists of
 * strings, as used by the build scripts to deduplicate and sort entries.
 */
module StrOrder {
  import opened Seqs

  /** Python's `a < b` on strings: code-point lexicographic, a proper prefix first. */
  predicate Less(a: string, b: string) {
    if a == "" then b != ""
    else if b == "" then false
    else if a[0] != b[0] then a[0] < b[0]
    else Less(a[1..], b[1..])
  }

  lemma {:induction false} LessIrreflexive(a: string)
    ensures !Less(a, a)
  {
    if a != "" {
      LessIrreflexive(a[1..]);
    }
  }

  lemma {:induction false} LessTransitive(a: string, b: string, c: string)
    requires Less(a, b) && Less(b, c)
    ensures Less(a, c)
  {
    if a != "" && b != "" && c != "" && a[0] == b[0] && b[0] == c[0] {
      LessTransitive(a[1..], b[1..], c[1..]);
    }
  }

  /** Any two different strings are ordered one way or the other. */
  lemma {:induction false} LessTotal(a: string, b: string)
    ensures a == b || Less(a, b) || Less(b, a)
  {
    if a != "" && b != "" && a[0] == b[0] {
      LessTotal(a[1..], b[1..]);
      if a[1..] == b[1..] {
        assert a == [a[0]] + a[1..] && b == [b[0]] + b[1..];
      }
    }
  }

  lemma LessAsymmetric(a: string, b: string)
    requires Less(a, b)
    ensures !Less(b, a)
  {
    if Less(b, a) {
      LessTransitive(a, b, a);
      LessIrreflexive(a);
    }
  }

  /** Strictly increasing, hence free of duplicates. */
  predicate StrictlyAscending(xs: seq<string>) {
    forall i, j :: 0 <= i < j < |xs| ==> Less(xs[i], xs[j])
  }

  lemma AscendingNoDups(xs: seq<string>)
    requires StrictlyAscending(xs)
    ensures NoDups(xs)
  {
    forall i, j | 0 <= i < j < |xs| ensures xs[i] != xs[j] {
      if xs[i] == xs[j] {
        LessIrreflexive(xs[i]);
      }
    }
  }

  /** Adds `x` to an ascending list, in its place, unless it is already there. */
  function Insert(x: string, xs: seq<string>): seq<string> {
    if xs == [] then [x]
    else if x == xs[0] then xs
    else if Less(x, xs[0]) then [x] + xs
    else [xs[0]] + Insert(x, xs[1..])
  }

  /** A string below every element of an ascending list can head it. */
  lemma ConsAscending(h: string, xs: seq<string>)
    requires StrictlyAscending(xs)
    requires forall y :: y in xs ==> Less(h, y)
    ensures StrictlyAscending([h] + xs)
  {
    var r := [h] + xs;
    forall i, j | 0 <= i < j < |r| ensures Less(r[i], r[j]) {
      assert r[j] == xs[j - 1];
      if i > 0 {
        assert r[i] == xs[i - 1];
      }
    }
  }

  lemma ConsElems(h: string, xs: seq<string>)
    ensures Elems([h] + xs) == {h} + Elems(xs)
  {
    assert forall y :: y in [h] + xs <==> y == h || y in xs;
  }

  /** Insertion keeps the list strictly ascending and adds exactly `x` to its elements. */
  lemma {:induction false} InsertAscending(x: string, xs: seq<string>)
    requires StrictlyAscending(xs)
    ensures StrictlyAscending(Insert(x, xs))
    ensures Elems(Insert(x, xs)) == Elems(xs) + {x}
  {
    if xs == [] {
    } else if x == xs[0] {
    } else if Less(x, xs[0]) {
      forall y | y in xs ensures Less(x, y) {
        var j :| 0 <= j < |xs| && xs[j] == y;
        if j > 0 {
          LessTransitive(x, xs[0], xs[j]);
        }
      }
      ConsAscending(x, xs);
      ConsElems(x, xs);
    } else {
      LessTotal(x, xs[0]);
      var tail := Insert(x, xs[1..]);
      InsertAscending(x, xs[1..]);
      assert xs == [xs[0]] + xs[1..];
      ConsElems(xs[0], xs[1..]);
      forall y | y in tail ensures Less(xs[0], y) {
        assert y in Elems(tail);
        if y != x {
          assert y in Elems(xs[1..]);
          var k :| 0 <= k < |xs[1..]| && xs[1..][k] == y;
          assert xs[k + 1] == y;
        }
      }
      ConsAscending(xs[0], tail);
      ConsElems(xs[0], tail);
    }
  }

  /**
   * `sorted(set(xs))`: the elements of `xs`, each once, in ascending order.
   * Built by insertion, which yields the same list as any other way of
   * sorting the set (see `AscendingUnique`).
   */
  function SortedUnique(xs: seq<string>): (r: seq<string>)
    ensures StrictlyAscending(r)
    ensures Elems(r) == Elems(xs)
  {
    if xs == [] then []
    else
      var init := xs[..|xs| - 1];
      assert xs == init + [xs[|xs| - 1]];
      assert Elems(xs) == Elems(init) + {xs[|xs| - 1]};
      InsertAscending(xs[|xs| - 1], SortedUnique(init));
      Insert(xs[|xs| - 1], SortedUnique(init))
  }

  /** Two strictly ascending lists with the same elements are the same list. */
  lemma {:induction false} AscendingUnique(xs: seq<string>, ys: seq<string>)
    requires StrictlyAscending(xs) && StrictlyAscending(ys)
    requires Elems(xs) == Elems(ys)
    ensures xs == ys
  {
    AscendingNoDups(xs);
    AscendingNoDups(ys);
    ElemsCard(xs);
    ElemsCard(ys);
    if xs != [] {
      assert xs[0] in Elems(ys) && ys[0] in Elems(xs);
      if xs[0] != ys[0] {
        var i :| 0 <= i < |ys| && ys[i] == xs[0];
        var j :| 0 <= j < |xs| && xs[j] == ys[0];
        assert Less(ys[0], xs[0]);
        assert Less(xs[0], ys[0]);
        LessAsymmetric(ys[0], xs[0]);
      }
      TailElems(xs);
      TailElems(ys);
      assert Elems(xs[1..]) == Elems(ys[1..]);
      assert StrictlyAscending(xs[1..]);
      assert StrictlyAscending(ys[1..]);
      AscendingUnique(xs[1..], ys[1..]);
      assert xs == [xs[0]] + xs[1..] && ys == [ys[0]] + ys[1..];
    }
  }

  /**
   * The deduplicated list holds each distinct input once, so it is never
   * longer than the input, and exactly as long when the input has no
   * repeated string.
   */
  lemma SortedUniqueLength(xs: seq<string>)
    ensures |SortedUnique(xs)| == |Elems(xs)| <= |xs|
    ensures |SortedUnique(xs)| == |xs| <==> NoDups(xs)
  {
    var r := SortedUnique(xs);
    AscendingNoDups(r);
    ElemsCard(r);
    ElemsCard(xs);
  }
}
