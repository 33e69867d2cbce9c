/**
 * The per-chunk container of src/container.rs.
 *
 * A container holds the members of one chunk either as an Array (a `Vec<u32>`,
 * kept in insertion order, duplicates included) or as a Bitmap (a bit set).
 * The representation switches on a population threshold of 4096. Containers
 * are values: the source's `insert` and `remove` replace the container they
 * are called on, and `union` and `intersection` build a fresh one.
 */
module Containers {
  import opened Bits
  import opened Seqs

  /** The population at which the representation switches. */
  const Threshold := 4096

  datatype Option<T> = None | Some(value: T)

  datatype Container = Array(values: seq<u32>) | Bitmap(bits: set<u32>)

  /** The values a container holds, whatever its representation. */
  function Members(c: Container): set<u32> {
    match c
    case Array(a) => Elems(a)
    case Bitmap(b) => b
  }

  /** The values of an operand that may be absent; an absent one holds none. */
  function MembersOf(o: Option<Container>): set<u32> {
    if o.Some? then Members(o.value) else {}
  }

  /** An Array never holds more than Threshold elements. */
  predicate Bounded(c: Container) {
    c.Array? ==> |c.values| <= Threshold
  }

  predicate BoundedOf(o: Option<Container>) {
    o.Some? ==> Bounded(o.value)
  }

  // ---------------------------------------------------------------------------
  // Conversions (the two `From` impls)
  // ---------------------------------------------------------------------------

  /**
   * The ascending sequence of the set bits `x` of `b` with `lo <= x < hi`:
   * what a loop `for x in lo..hi { if b.is_set(x) { push(x) } }` collects.
   */
  function Scan(b: set<u32>, lo: int, hi: int): (s: seq<u32>)
    requires 0 <= lo || hi <= lo
    requires hi <= 0x1_0000_0000
    ensures forall j :: 0 <= j < |s| ==> s[j] in b && lo <= s[j] < hi
    ensures forall x :: x in b && lo <= x < hi ==> x in s
    ensures Ascending(s)
    decreases hi - lo
  {
    if hi <= lo then []
    else Scan(b, lo, hi - 1) + (if hi - 1 in b then [hi - 1] else [])
  }

  /**
   * `From<&BitmapContainer> for ArrayContainer`: the loop runs over
   * `first()..last()`, a range that excludes `last()`, so the highest set bit
   * never reaches the Array.
   */
  function BitmapToArray(b: set<u32>): (a: seq<u32>)
    ensures Ascending(a)
    ensures forall j :: 0 <= j < |a| ==> a[j] in b && First(b) <= a[j] < Last(b)
    ensures b == {} ==> a == []
    ensures b != {} ==> Elems(a) == b - {Max(b)} && |a| == |b| - 1
  {
    var a := Scan(b, First(b), Last(b));
    if b == {} then a
    else
      assert Elems(a) == b - {Max(b)};
      DistinctCardinality(a);
      a
  }

  /** `From<&ArrayContainer> for BitmapContainer`: a bit is set for every array value. */
  method ConvertArray(a: seq<u32>) returns (b: set<u32>)
    ensures Members(Bitmap(b)) == Members(Array(a))
  {
    b := {};
    for i := 0 to |a|
      invariant b == Elems(a[..i])
    {
      assert a[..i + 1] == a[..i] + [a[i]];
      b := b + {a[i]};
    }
    assert a[..|a|] == a;
  }

  /** `From<&BitmapContainer> for ArrayContainer`, the loop over `first()..last()`. */
  method ConvertBitmap(b: set<u32>) returns (a: seq<u32>)
    ensures a == BitmapToArray(b)
  {
    var first, last := First(b), Last(b);
    assert first == last || 0 <= first < last < 0x1_0000_0000;
    a := [];
    var i := first;
    while i < last
      invariant first <= i <= last
      invariant a == Scan(b, first, i)
      decreases last - i
    {
      if i in b {
        a := a + [i];
      }
      i := i + 1;
    }
    assert a == Scan(b, first, last);
  }

  // ---------------------------------------------------------------------------
  // The bitwise operations of BitmapContainer
  // ---------------------------------------------------------------------------

  /** `BitmapContainer::or`, taken to be bitwise OR (its body is `todo!()`). */
  function Or(lhs: set<u32>, rhs: set<u32>): (r: set<u32>)
    ensures lhs <= r && rhs <= r
    ensures forall x :: x in r ==> x in lhs || x in rhs
  {
    lhs + rhs
  }

  /** `BitmapContainer::and`, taken to be bitwise AND (its body is `todo!()`). */
  function And(lhs: set<u32>, rhs: set<u32>): (r: set<u32>)
    ensures r <= lhs && r <= rhs
    ensures forall x :: x in lhs && x in rhs ==> x in r
  {
    lhs * rhs
  }

  // ---------------------------------------------------------------------------
  // Construction and mutation
  // ---------------------------------------------------------------------------

  /** `Container::new`: an empty Array. */
  function New(): (c: Container)
    ensures c.Array? && |c.values| == 0
    ensures Members(c) == {} && Bounded(c)
  {
    Array([])
  }

  /**
   * The container `insert` leaves behind. An Array gets the value appended,
   * present or not, and becomes a Bitmap once its length exceeds Threshold.
   */
  function Inserted(c: Container, v: u32): (r: Container)
    ensures Members(r) == Members(c) + {v}
    ensures Bounded(c) ==> Bounded(r)
    ensures r.Array? <==> c.Array? && |c.values| < Threshold
    ensures r.Array? ==> r.values == c.values + [v]
  {
    match c
    case Array(a) =>
      var vec := a + [v];
      assert Elems(vec) == Elems(a) + {v};
      if |vec| > Threshold then Bitmap(Elems(vec)) else Array(vec)
    case Bitmap(b) => Bitmap(b + {v})
  }

  /** `Container::insert`. */
  method Insert(c: Container, v: u32) returns (r: Container)
    ensures r == Inserted(c, v)
  {
    match c
    case Array(a) =>
      var vec := a + [v];
      if |vec| > Threshold {
        var bitmap := ConvertArray(vec);
        r := Bitmap(bitmap);
      } else {
        r := Array(vec);
      }
    case Bitmap(b) =>
      r := Bitmap(b + {v});
  }

  /** The one case of `remove` that goes through the lossy Bitmap-to-Array conversion. */
  predicate RemoveDropsHighest(c: Container, v: u32) {
    c.Bitmap? && 0 < |c.bits - {v}| <= Threshold
  }

  /**
   * The container `remove` leaves behind. An Array loses every occurrence of
   * the value and keeps the rest in order; a Bitmap loses the bit and becomes
   * an Array once its weight is at most Threshold.
   */
  function Removed(c: Container, v: u32): (r: Container)
    ensures Members(r) <= Members(c) - {v}
    ensures c.Array? ==> r.Array? && Members(r) == Members(c) - {v}
    ensures c.Array? ==> v !in r.values
    ensures c.Array? ==> r.values == Retain(c.values, {v}, false)
    ensures c.Bitmap? ==> (r.Array? <==> |c.bits - {v}| <= Threshold)
    ensures c.Bitmap? && r.Array? ==> r.values == BitmapToArray(c.bits - {v})
    ensures c.Bitmap? && !RemoveDropsHighest(c, v) ==> Members(r) == Members(c) - {v}
    ensures RemoveDropsHighest(c, v) ==>
              Members(r) == (Members(c) - {v}) - {Max(Members(c) - {v})}
    ensures Bounded(c) ==> Bounded(r)
  {
    match c
    case Array(a) => Array(Retain(a, {v}, false))
    case Bitmap(b) =>
      var bitmap := b - {v};
      if |bitmap| <= Threshold then Array(BitmapToArray(bitmap)) else Bitmap(bitmap)
  }

  /** `Container::remove`. */
  method Remove(c: Container, v: u32) returns (r: Container)
    ensures r == Removed(c, v)
  {
    match c
    case Array(a) =>
      r := Array(Retain(a, {v}, false));
    case Bitmap(b) =>
      var bitmap := b - {v};
      if |bitmap| <= Threshold {
        var vec := ConvertBitmap(bitmap);
        r := Array(vec);
      } else {
        r := Bitmap(bitmap);
      }
  }

  // ---------------------------------------------------------------------------
  // Set algebra
  // ---------------------------------------------------------------------------

  /** Both operands are present and are Arrays. */
  predicate BothArrays(lhs: Option<Container>, rhs: Option<Container>) {
    lhs.Some? && rhs.Some? && lhs.value.Array? && rhs.value.Array?
  }

  /** Both operands are present and are Bitmaps. */
  predicate BothBitmaps(lhs: Option<Container>, rhs: Option<Container>) {
    lhs.Some? && rhs.Some? && lhs.value.Bitmap? && rhs.value.Bitmap?
  }

  /** Both operands are present, one an Array and the other a Bitmap. */
  predicate Mixed(lhs: Option<Container>, rhs: Option<Container>) {
    lhs.Some? && rhs.Some? && lhs.value.Array? != rhs.value.Array?
  }

  /** The one case of `union` that goes through the lossy Bitmap-to-Array conversion. */
  predicate UnionDropsHighest(lhs: Option<Container>, rhs: Option<Container>) {
    BothArrays(lhs, rhs)
    && |lhs.value.values| + |rhs.value.values| > Threshold
    && |MembersOf(lhs) + MembersOf(rhs)| <= Threshold
  }

  /**
   * `Container::union` of two Arrays: a deduplicated concatenation when the
   * lengths add up to at most 4096, otherwise the OR of their bitmaps, turned
   * back into an Array when its weight is at most 4096.
   */
  function UnionArrays(a1: seq<u32>, a2: seq<u32>): (r: Container)
    ensures var all := Elems(a1) + Elems(a2);
            && (|a1| + |a2| <= Threshold ==> r.Array? && NoDuplicates(r.values) && Members(r) == all)
            && (|a1| + |a2| > Threshold ==>
                  all != {}
                  && (r.Array? <==> |all| <= Threshold)
                  && (r.Array? ==> r.values == BitmapToArray(all))
                  && (r.Bitmap? ==> r.bits == all))
  {
    if |a1| + |a2| <= Threshold then
      assert Elems(a1 + a2) == Elems(a1) + Elems(a2);
      Array(Dedup(a1 + a2))
    else
      var bitmap := Or(Elems(a1), Elems(a2));
      assert |a1| > 0 ==> a1[0] in bitmap;
      assert |a2| > 0 ==> a2[0] in bitmap;
      if |bitmap| <= Threshold then Array(BitmapToArray(bitmap)) else Bitmap(bitmap)
  }

  /**
   * `Container::union`. With one operand absent it is a copy of the other.
   * Otherwise it holds the values of both, except that the highest one is
   * lost when two long Arrays meet with a small joint population.
   */
  function Union(lhs: Option<Container>, rhs: Option<Container>): (r: Container)
    requires lhs.Some? || rhs.Some?
    ensures !UnionDropsHighest(lhs, rhs) ==> Members(r) == MembersOf(lhs) + MembersOf(rhs)
    ensures UnionDropsHighest(lhs, rhs) ==>
              var all := MembersOf(lhs) + MembersOf(rhs);
              all != {} && Members(r) == all - {Max(all)}
    ensures lhs.None? ==> r == rhs.value
    ensures rhs.None? ==> r == lhs.value
    ensures BothArrays(lhs, rhs) && |lhs.value.values| + |rhs.value.values| <= Threshold ==>
              r.Array? && NoDuplicates(r.values)
    ensures BothArrays(lhs, rhs) && |lhs.value.values| + |rhs.value.values| > Threshold ==>
              var all := MembersOf(lhs) + MembersOf(rhs);
              (r.Array? <==> |all| <= Threshold) && (r.Array? ==> r.values == BitmapToArray(all))
    ensures Mixed(lhs, rhs) || BothBitmaps(lhs, rhs) ==> r.Bitmap?
    ensures BoundedOf(lhs) && BoundedOf(rhs) ==> Bounded(r)
  {
    match (lhs, rhs)
    case (Some(c1), Some(c2)) =>
      (match (c1, c2)
       case (Array(a1), Array(a2)) => UnionArrays(a1, a2)
       case (Array(a), Bitmap(b)) => Bitmap(b + Elems(a))
       case (Bitmap(b), Array(a)) => Bitmap(b + Elems(a))
       case (Bitmap(b1), Bitmap(b2)) => Bitmap(Or(b1, b2)))
    case (Some(c), None) => c
    case (None, Some(c)) => c
  }

  /** The one case of `intersection` that goes through the lossy Bitmap-to-Array conversion. */
  predicate IntersectionDropsHighest(lhs: Option<Container>, rhs: Option<Container>) {
    BothBitmaps(lhs, rhs) && 0 < |MembersOf(lhs) * MembersOf(rhs)| <= Threshold
  }

  /**
   * `Container::intersection`. With one operand absent it is a copy of the
   * other. Otherwise it holds the values common to both, except that the
   * highest one is lost when two Bitmaps share a small population.
   */
  function Intersection(lhs: Option<Container>, rhs: Option<Container>): (r: Container)
    requires lhs.Some? || rhs.Some?
    ensures lhs.Some? && rhs.Some? && !IntersectionDropsHighest(lhs, rhs) ==>
              Members(r) == MembersOf(lhs) * MembersOf(rhs)
    ensures IntersectionDropsHighest(lhs, rhs) ==>
              var common := MembersOf(lhs) * MembersOf(rhs);
              Members(r) == common - {Max(common)}
    ensures lhs.None? ==> r == rhs.value
    ensures rhs.None? ==> r == lhs.value
    ensures BothArrays(lhs, rhs) ==>
              r.Array? && r.values == Retain(lhs.value.values, MembersOf(rhs), true)
    ensures Mixed(lhs, rhs) ==> r.Array?
    ensures Mixed(lhs, rhs) && lhs.value.Array? ==>
              r.values == Retain(lhs.value.values, MembersOf(rhs), true)
    ensures Mixed(lhs, rhs) && rhs.value.Array? ==>
              r.values == Retain(rhs.value.values, MembersOf(lhs), true)
    ensures BothBitmaps(lhs, rhs) ==>
              (r.Array? <==> |MembersOf(lhs) * MembersOf(rhs)| <= Threshold)
    ensures BothBitmaps(lhs, rhs) && r.Array? ==>
              r.values == BitmapToArray(MembersOf(lhs) * MembersOf(rhs))
    ensures BoundedOf(lhs) && BoundedOf(rhs) ==> Bounded(r)
  {
    match (lhs, rhs)
    case (Some(c1), Some(c2)) =>
      (match (c1, c2)
       case (Array(a1), Array(a2)) => Array(Retain(a1, Elems(a2), true))
       case (Array(a), Bitmap(b)) => Array(Retain(a, b, true))
       case (Bitmap(b), Array(a)) => Array(Retain(a, b, true))
       case (Bitmap(b1), Bitmap(b2)) =>
         var bitmap := And(b1, b2);
         if |bitmap| <= Threshold then Array(BitmapToArray(bitmap)) else Bitmap(bitmap))
    case (Some(c), None) => c
    case (None, Some(c)) => c
  }

  // ---------------------------------------------------------------------------
  // Where the code departs from what it evidently intends, and the repairs
  // ---------------------------------------------------------------------------

  /** The Bitmap-to-Array conversion loses the highest set bit: {3, 7} becomes [3]. */
  lemma BitmapToArrayDropsHighest()
    ensures BitmapToArray({3, 7}) == [3]
  {
    var b: set<u32> := {3, 7};
    var a := BitmapToArray(b);
    assert Max(b) == 7;
    assert Elems(a) == {3};
    assert a[0] in Elems(a);
  }

  /** The conversion over `first()..=last()`: every set bit, in ascending order. */
  function BitmapToArrayInclusive(b: set<u32>): (a: seq<u32>)
    ensures Ascending(a)
    ensures Elems(a) == b
    ensures |a| == |b|
  {
    if b == {} then []
    else
      var a := Scan(b, Min(b), Max(b) + 1);
      assert Elems(a) == b;
      DistinctCardinality(a);
      a
  }

  /** `n` copies of `v`. */
  function Repeat(v: u32, n: nat): (s: seq<u32>)
    ensures |s| == n
    ensures forall j :: 0 <= j < n ==> s[j] == v
  {
    if n == 0 then [] else Repeat(v, n - 1) + [v]
  }

  /** The container after `n` successive `insert(v)` calls. */
  function InsertedTimes(c: Container, v: u32, n: nat): Container {
    if n == 0 then c else Inserted(InsertedTimes(c, v, n - 1), v)
  }

  /** Inserting the same value again stores it again: an Array keeps every copy. */
  lemma {:induction false} RepeatedInsertKeepsCopies(v: u32, n: nat)
    requires n <= Threshold
    ensures InsertedTimes(New(), v, n) == Array(Repeat(v, n))
  {
    if n > 0 {
      RepeatedInsertKeepsCopies(v, n - 1);
    }
  }

  /**
   * Because copies count toward the length, 4097 insertions of one value
   * turn the container into a Bitmap that holds a single value.
   */
  lemma RepeatedInsertSwitchesAtWeightOne(v: u32)
    ensures InsertedTimes(New(), v, Threshold + 1) == Bitmap({v})
  {
    RepeatedInsertKeepsCopies(v, Threshold);
    var a := Repeat(v, Threshold) + [v];
    assert a[0] == v;
    assert Elems(a) == {v};
  }

  /** Insertion that leaves a value already present alone, as a set insert does. */
  function InsertedUnique(c: Container, v: u32): (r: Container)
    ensures Members(r) == Members(c) + {v}
    ensures Bounded(c) ==> Bounded(r)
    ensures c.Array? && NoDuplicates(c.values) && r.Array? ==> NoDuplicates(r.values)
  {
    match c
    case Array(a) => if v in a then c else Inserted(c, v)
    case Bitmap(_) => Inserted(c, v)
  }

  /** Inserting the same value twice is the same as inserting it once. */
  lemma InsertedUniqueIdempotent(c: Container, v: u32)
    ensures InsertedUnique(InsertedUnique(c, v), v) == InsertedUnique(c, v)
  {
    var r := InsertedUnique(c, v);
    if r.Array? {
      assert v in r.values;
    } else {
      assert r.bits + {v} == r.bits;
    }
  }

  /** With one operand absent the intersection is a copy of the other, not empty. */
  lemma IntersectionWithAbsentIsCopy(c: Container)
    ensures Members(Intersection(Some(c), None)) == Members(c)
    ensures Members(Intersection(None, Some(c))) == Members(c)
  {
  }

  /** Intersection in which an absent operand counts as empty. */
  function IntersectionOrEmpty(lhs: Option<Container>, rhs: Option<Container>): (r: Container)
    requires lhs.Some? || rhs.Some?
    ensures Members(r) <= MembersOf(lhs) * MembersOf(rhs)
    ensures lhs.None? || rhs.None? ==> Members(r) == {}
    ensures BoundedOf(lhs) && BoundedOf(rhs) ==> Bounded(r)
  {
    if lhs.Some? && rhs.Some? then Intersection(lhs, rhs) else New()
  }
}
