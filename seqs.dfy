/**
 * Facts about the `Vec<u32>` of an Array container, seen as a sequence:
 * its element set, duplicates and order, and the two library operations the
 * source applies to it (`Vec::retain`, and collecting through a `HashSet`).
 */
module Seqs {
  import opened Bits

  function Elems(s: seq<u32>): set<u32> {
    set x | x in s
  }

  predicate NoDuplicates(s: seq<u32>) {
    forall i, j :: 0 <= i < j < |s| ==> s[i] != s[j]
  }

  predicate Ascending(s: seq<u32>) {
    forall i, j :: 0 <= i < j < |s| ==> s[i] < s[j]
  }

  /** A duplicate-free sequence has as many elements as its element set. */
  lemma {:induction false} DistinctCardinality(s: seq<u32>)
    requires NoDuplicates(s)
    ensures |Elems(s)| == |s|
  {
    if s != [] {
      var t := s[..|s| - 1];
      assert NoDuplicates(t);
      DistinctCardinality(t);
      assert Elems(s) == Elems(t) + {s[|s| - 1]};
      assert s[|s| - 1] !in Elems(t);
    }
  }

  /**
   * `Vec::retain` with the predicate "x is in s" when `inside` holds and
   * "x is not in s" otherwise: the elements kept are those for which the
   * predicate holds.
   */
  function Retain(a: seq<u32>, s: set<u32>, inside: bool): (r: seq<u32>)
    ensures |r| <= |a|
    ensures forall x :: x in r <==> x in a && (x in s) == inside
  {
    if a == [] then []
    else
      assert a == [a[0]] + a[1..];
      var rest := Retain(a[1..], s, inside);
      if (a[0] in s) == inside then [a[0]] + rest
      else rest
  }

  /** `Vec::retain` keeps every survivor as often as it occurred. */
  lemma {:induction false} RetainKeepsCount(a: seq<u32>, s: set<u32>, inside: bool, x: u32)
    requires (x in s) == inside
    ensures multiset(Retain(a, s, inside))[x] == multiset(a)[x]
  {
    if a != [] {
      assert a == [a[0]] + a[1..];
      RetainKeepsCount(a[1..], s, inside, x);
    }
  }

  /** `Vec::retain` keeps the survivors in their original order. */
  lemma {:induction false} RetainKeepsOrder(a: seq<u32>, b: seq<u32>, s: set<u32>, inside: bool)
    ensures Retain(a + b, s, inside) == Retain(a, s, inside) + Retain(b, s, inside)
    decreases |a|
  {
    if a == [] {
      assert a + b == b;
    } else {
      var ab := a + b;
      assert ab[0] == a[0] && ab[1..] == a[1..] + b;
      RetainKeepsOrder(a[1..], b, s, inside);
      var head := if (a[0] in s) == inside then [a[0]] else [];
      var ra, rb := Retain(a[1..], s, inside), Retain(b, s, inside);
      assert Retain(ab, s, inside) == head + (ra + rb);
      assert head + (ra + rb) == (head + ra) + rb;
    }
  }

  /**
   * The elements of `s` with duplicates removed, as collecting through a
   * `HashSet` does; the order is that of first occurrence.
   */
  function Dedup(s: seq<u32>): (r: seq<u32>)
    ensures Elems(r) == Elems(s)
    ensures NoDuplicates(r)
    ensures |r| <= |s|
  {
    if s == [] then []
    else
      var init := s[..|s| - 1];
      var last := s[|s| - 1];
      assert s == init + [last];
      assert Elems(s) == Elems(init) + {last};
      var r := Dedup(init);
      if last in r then r else r + [last]
  }
}
