/**
 * The source's `u32` values and the dense bit set that a Bitmap container wraps.
 *
 * The repository borrows the bitmap type of the hwloc library for its dense
 * containers. It is modelled here as a finite set of `u32`: `set` and `unset`
 * add and remove an element, `is_set` is membership, `weight` is the
 * cardinality, and `first`/`last` are the least and the greatest element,
 * or -1 when the bitmap is empty.
 */
module Bits {

  type u32 = x: int | 0 <= x < 0x1_0000_0000

  lemma {:induction false} LeastExists(b: set<u32>)
    requires b != {}
    ensures exists m: u32 :: m in b && forall x :: x in b ==> m <= x
  {
    var y :| y in b;
    if b != {y} {
      var rest := b - {y};
      LeastExists(rest);
      var m: u32 :| m in rest && forall x :: x in rest ==> m <= x;
      var least := if y < m then y else m;
      forall x | x in b
        ensures least <= x
      {
        if x != y {
          assert x in rest;
        }
      }
      assert least in b;
    }
  }

  lemma {:induction false} GreatestExists(b: set<u32>)
    requires b != {}
    ensures exists m: u32 :: m in b && forall x :: x in b ==> x <= m
  {
    var y :| y in b;
    if b != {y} {
      var rest := b - {y};
      GreatestExists(rest);
      var m: u32 :| m in rest && forall x :: x in rest ==> x <= m;
      var greatest := if m < y then y else m;
      forall x | x in b
        ensures x <= greatest
      {
        if x != y {
          assert x in rest;
        }
      }
      assert greatest in b;
    }
  }

  /** The least element of a non-empty bit set. */
  function Min(b: set<u32>): (m: u32)
    requires b != {}
    ensures m in b && forall x :: x in b ==> m <= x
  {
    LeastExists(b);
    var m: u32 :| m in b && forall x :: x in b ==> m <= x;
    m
  }

  /** The greatest element of a non-empty bit set. */
  function Max(b: set<u32>): (m: u32)
    requires b != {}
    ensures m in b && forall x :: x in b ==> x <= m
  {
    GreatestExists(b);
    var m: u32 :| m in b && forall x :: x in b ==> x <= m;
    m
  }

  /** hwloc's `first`: the lowest set bit, or -1 for an empty bitmap. */
  function First(b: set<u32>): (f: int)
    ensures f == -1 <==> b == {}
    ensures b != {} ==> f in b && forall x :: x in b ==> f <= x
  {
    if b == {} then -1 else Min(b)
  }

  /** hwloc's `last`: the highest set bit, or -1 for an empty bitmap. */
  function Last(b: set<u32>): (l: int)
    ensures l == -1 <==> b == {}
    ensures b != {} ==> l in b && forall x :: x in b ==> x <= l
  {
    if b == {} then -1 else Max(b)
  }
}
