/**
 * The order `sorted()` gives networks of one family, and the list that
 * `BlocklistManager._sort_networks` makes of the stored set: the IPv4
 * networks ascending, then the IPv6 networks ascending.
 */
module NetSort {
  import opened IpBase
  import opened Seqs

  /**
   * `_BaseNetwork.__lt__` for two networks of one family: by network
   * address, then by netmask, and a longer prefix has the larger netmask.
   */
  predicate NetLess(a: Net, b: Net) {
    a.addr < b.addr || (a.addr == b.addr && a.prefix < b.prefix)
  }

  /** Every network of `s` is of family `v`. */
  predicate OfFamily(s: set<Net>, v: Version) {
    forall n :: n in s ==> n.version == v
  }

  /** Strictly ascending in `NetLess`. */
  predicate Ascending(ns: seq<Net>) {
    forall i, j :: 0 <= i < j < |ns| ==> NetLess(ns[i], ns[j])
  }

  /** `m` is the smallest network of `s`. */
  predicate IsLeast(m: Net, s: set<Net>) {
    m in s && forall n :: n in s ==> n == m || NetLess(m, n)
  }

  /** A non-empty set of networks of one family has a smallest element. */
  lemma {:induction false} LeastExists(s: set<Net>, v: Version)
    requires s != {} && OfFamily(s, v)
    ensures exists m :: IsLeast(m, s)
    decreases s
  {
    var x :| x in s;
    if s == {x} {
      assert IsLeast(x, s);
    } else {
      LeastExists(s - {x}, v);
      var m :| IsLeast(m, s - {x});
      if NetLess(x, m) {
        forall n | n in s ensures n == x || NetLess(x, n) {
          if n != x {
            assert n in s - {x};
          }
        }
        assert IsLeast(x, s);
      } else {
        assert x != m && x.version == m.version;
        assert IsLeast(m, s);
      }
    }
  }

  /** `sorted()` of the networks of one family: each of them once, ascending. */
  function SortFamily(s: set<Net>, v: Version): (r: seq<Net>)
    requires OfFamily(s, v)
    ensures Elems(r) == s && Ascending(r)
    decreases s
  {
    if s == {} then []
    else
      LeastExists(s, v);
      var m :| IsLeast(m, s);
      var rest := SortFamily(s - {m}, v);
      var r := [m] + rest;
      assert forall k :: 0 <= k < |rest| ==> rest[k] in Elems(rest);
      assert forall i, j :: 0 <= i < j < |r| ==> NetLess(r[i], r[j]) by {
        forall i, j | 0 <= i < j < |r| ensures NetLess(r[i], r[j]) {
          assert r[j] == rest[j - 1];
          if i > 0 {
            assert r[i] == rest[i - 1];
          }
        }
      }
      assert Elems(r) == {m} + Elems(rest) by {
        assert forall y :: y in r <==> y == m || y in rest;
      }
      r
  }

  /** The networks of `s` of family `v`. */
  function Family(s: set<Net>, v: Version): (r: set<Net>)
    ensures OfFamily(r, v) && r <= s
    ensures forall n :: n in s && n.version == v ==> n in r
  {
    set n | n in s && n.version == v
  }

  /** IPv4 before IPv6, and ascending within each family. */
  predicate FamilyOrdered(ns: seq<Net>) {
    forall i, j :: 0 <= i < j < |ns| ==>
      (ns[i].version == V4 && ns[j].version == V6) || (ns[i].version == ns[j].version && NetLess(ns[i], ns[j]))
  }

  /**
   * `_sort_networks`: the sorted IPv4 networks followed by the sorted IPv6
   * networks; a permutation of the set, so exactly as long.
   */
  function SortNetworks(s: set<Net>): (r: seq<Net>)
    ensures Elems(r) == s && NoDups(r) && |r| == |s|
    ensures FamilyOrdered(r)
  {
    var v4 := SortFamily(Family(s, V4), V4);
    var v6 := SortFamily(Family(s, V6), V6);
    var r := v4 + v6;
    assert forall k :: 0 <= k < |v4| ==> v4[k] in Elems(v4);
    assert forall k :: 0 <= k < |v6| ==> v6[k] in Elems(v6);
    assert FamilyOrdered(r) by {
      forall i, j | 0 <= i < j < |r|
        ensures (r[i].version == V4 && r[j].version == V6) || (r[i].version == r[j].version && NetLess(r[i], r[j]))
      {
        if j < |v4| {
          assert r[i] == v4[i] && r[j] == v4[j];
        } else if i >= |v4| {
          assert r[i] == v6[i - |v4|] && r[j] == v6[j - |v4|];
        } else {
          assert r[i] == v4[i] && r[j] == v6[j - |v4|];
        }
      }
    }
    assert Elems(r) == s by {
      assert forall y :: y in r <==> y in v4 || y in v6;
    }
    OrderedNoDups(r);
    ElemsCard(r);
    r
  }

  /** An ordered list repeats no network. */
  lemma OrderedNoDups(ns: seq<Net>)
    requires FamilyOrdered(ns)
    ensures NoDups(ns)
  {
  }

  /**
   * Two lists that are ordered this way and hold the same networks are the
   * same list: `SortNetworks` gives the only such ordering of a set.
   */
  lemma {:induction false} OrderedUnique(xs: seq<Net>, ys: seq<Net>)
    requires FamilyOrdered(xs) && FamilyOrdered(ys)
    requires Elems(xs) == Elems(ys)
    ensures xs == ys
  {
    OrderedNoDups(xs);
    OrderedNoDups(ys);
    ElemsCard(xs);
    ElemsCard(ys);
    if xs != [] {
      assert xs[0] in Elems(ys) && ys[0] in Elems(xs);
      if xs[0] != ys[0] {
        assert false;
      }
      TailElems(xs);
      TailElems(ys);
      OrderedUnique(xs[1..], ys[1..]);
      assert xs == [xs[0]] + xs[1..] && ys == [ys[0]] + ys[1..];
    }
  }

  /** The stored order of any set of networks is the one `SortNetworks` gives. */
  lemma SortNetworksUnique(s: set<Net>, ns: seq<Net>)
    requires FamilyOrdered(ns) && Elems(ns) == s
    ensures ns == SortNetworks(s)
  {
    OrderedUnique(ns, SortNetworks(s));
  }
}
