/**
 * The chunked set of src/lib.rs: a `RoaringBitmap` maps a chunk key
 * (`i >> 16`) to the Container holding that chunk's values. The value stored
 * in the container is computed as `i - (i >> 16)`, not as the low 16 bits.
 */
module Roaring {
  import opened Bits
  import opened Seqs
  import opened Containers

  /** `i >> 16`: the chunk key, the high 16 bits of the value. */
  function Key(i: u32): (k: u32)
    ensures k <= 0xFFFF
    ensures k * 0x1_0000 <= i < (k + 1) * 0x1_0000
  {
    i / 0x1_0000
  }

  /**
   * `i - index`: the value stored in the chunk's container. The key never
   * exceeds the value, so the subtraction never underflows, and key and stored
   * value together determine the value. The stored value equals the low 16
   * bits (`i & 0xFFFF`) only in chunk 0.
   */
  function Low(i: u32): (l: u32)
    ensures Key(i) + l == i
    ensures l == i % 0x1_0000 <==> Key(i) == 0
  {
    i - Key(i)
  }

  /** The split the layout calls for: the low 16 bits, `i & 0xFFFF`. */
  function LowBits(i: u32): (l: u32)
    ensures l < 0x1_0000
    ensures Key(i) * 0x1_0000 + l == i
  {
    i % 0x1_0000
  }

  /** The first value where the two splits differ: 65536 is stored as 65535, not 0. */
  lemma LowIsNotLowBits()
    ensures Low(0x1_0000) == 0xFFFF
    ensures LowBits(0x1_0000) == 0
  {
  }

  function Get(m: map<u32, Container>, k: u32): Option<Container> {
    if k in m then Some(m[k]) else None
  }

  /** The values a chunk map represents: `i` is a member when its chunk holds `Low(i)`. */
  ghost function ContentsOf(m: map<u32, Container>): set<u32> {
    set i: u32 | Key(i) in m && Low(i) in Members(m[Key(i)])
  }

  ghost predicate AllBounded(m: map<u32, Container>) {
    forall k :: k in m ==> Bounded(m[k])
  }

  /** The entries `union` has built once it has handled the keys in `done`. */
  function UnionOver(a: map<u32, Container>, b: map<u32, Container>, done: set<u32>): map<u32, Container>
    requires done <= a.Keys + b.Keys
  {
    map k | k in done :: Containers.Union(Get(a, k), Get(b, k))
  }

  /** A map that agrees with `m` off `k` and has the keys of `m` plus `k` is `m` updated at `k`. */
  lemma ExtendedAt(m: map<u32, Container>, m': map<u32, Container>, k: u32)
    requires k in m' && m'.Keys == m.Keys + {k}
    requires forall j :: j in m && j != k ==> m'[j] == m[j]
    ensures m' == m[k := m'[k]]
  {
  }

  /** Handling one more key adds exactly its entry. */
  lemma UnionOverStep(a: map<u32, Container>, b: map<u32, Container>, done: set<u32>, k: u32)
    requires done + {k} <= a.Keys + b.Keys
    ensures UnionOver(a, b, done + {k}) == UnionOver(a, b, done)[k := Containers.Union(Get(a, k), Get(b, k))]
  {
    ExtendedAt(UnionOver(a, b, done), UnionOver(a, b, done + {k}), k);
  }

  /** The map `union` builds: every key of either side, each with the union of its two containers. */
  function UnionMap(a: map<u32, Container>, b: map<u32, Container>): (r: map<u32, Container>)
    ensures r.Keys == a.Keys + b.Keys
    ensures AllBounded(a) && AllBounded(b) ==> AllBounded(r)
  {
    UnionOver(a, b, a.Keys + b.Keys)
  }

  /** The entries `intersection` has built once it has handled the keys in `done`. */
  function IntersectionOver(a: map<u32, Container>, b: map<u32, Container>, done: set<u32>): map<u32, Container>
    requires done <= a.Keys * b.Keys
  {
    map k | k in done :: Containers.Intersection(Get(a, k), Get(b, k))
  }

  /** Handling one more key adds exactly its entry. */
  lemma IntersectionOverStep(a: map<u32, Container>, b: map<u32, Container>, done: set<u32>, k: u32)
    requires done + {k} <= a.Keys * b.Keys
    ensures IntersectionOver(a, b, done + {k}) ==
            IntersectionOver(a, b, done)[k := Containers.Intersection(Get(a, k), Get(b, k))]
  {
    ExtendedAt(IntersectionOver(a, b, done), IntersectionOver(a, b, done + {k}), k);
  }

  /** The map `intersection` builds: the keys of both sides, each with the intersection of its two containers. */
  function IntersectionMap(a: map<u32, Container>, b: map<u32, Container>): (r: map<u32, Container>)
    ensures r.Keys == a.Keys * b.Keys
    ensures AllBounded(a) && AllBounded(b) ==> AllBounded(r)
  {
    IntersectionOver(a, b, a.Keys * b.Keys)
  }

  /**
   * Inserting `Low(i)` into the container of chunk `Key(i)` (the existing one,
   * or an empty one when the chunk is absent) adds exactly `i` to the set.
   */
  lemma InsertedContents(m: map<u32, Container>, i: u32, c: Container)
    requires Key(i) in m ==> c == m[Key(i)]
    requires Key(i) !in m ==> Members(c) == {}
    ensures ContentsOf(m[Key(i) := Inserted(c, Low(i))]) == ContentsOf(m) + {i}
  {
  }

  /**
   * Removing `Low(i)` from the container of chunk `Key(i)` takes `i` out of
   * the set and may lose more: exactly `i` when the container did not go
   * through the lossy Bitmap-to-Array conversion.
   */
  lemma RemovedContents(m: map<u32, Container>, i: u32)
    requires Key(i) in m
    ensures ContentsOf(m[Key(i) := Removed(m[Key(i)], Low(i))]) <= ContentsOf(m) - {i}
    ensures !RemoveDropsHighest(m[Key(i)], Low(i)) ==>
              ContentsOf(m[Key(i) := Removed(m[Key(i)], Low(i))]) == ContentsOf(m) - {i}
  {
  }

  /** No key present on both sides has its union go through the lossy conversion. */
  ghost predicate UnionLossless(a: map<u32, Container>, b: map<u32, Container>) {
    forall k :: k in a && k in b ==> !UnionDropsHighest(Some(a[k]), Some(b[k]))
  }

  /** The union holds only values of either side, and all of them when no chunk is lossy. */
  lemma UnionContents(a: map<u32, Container>, b: map<u32, Container>)
    ensures ContentsOf(UnionMap(a, b)) <= ContentsOf(a) + ContentsOf(b)
    ensures UnionLossless(a, b) ==> ContentsOf(UnionMap(a, b)) == ContentsOf(a) + ContentsOf(b)
  {
  }

  /** No key has its intersection go through the lossy conversion. */
  ghost predicate IntersectionLossless(a: map<u32, Container>, b: map<u32, Container>) {
    forall k :: k in a && k in b ==> !IntersectionDropsHighest(Some(a[k]), Some(b[k]))
  }

  /** The intersection holds only values of both sides, and all of them when no chunk is lossy. */
  lemma IntersectionContents(a: map<u32, Container>, b: map<u32, Container>)
    ensures ContentsOf(IntersectionMap(a, b)) <= ContentsOf(a) * ContentsOf(b)
    ensures IntersectionLossless(a, b) ==>
              ContentsOf(IntersectionMap(a, b)) == ContentsOf(a) * ContentsOf(b)
  {
  }

  class RoaringBitmap {
    var containers: map<u32, Container>

    /** Every Array in the map holds at most Threshold values. */
    ghost predicate Valid()
      reads this
    {
      AllBounded(containers)
    }

    /** The set of u32 values this bitmap represents. */
    ghost function Contents(): set<u32>
      reads this
    {
      ContentsOf(containers)
    }

    /** `RoaringBitmap::new`. */
    constructor ()
      ensures Valid() && containers == map[] && Contents() == {}
    {
      containers := map[];
    }

    /**
     * `RoaringBitmap::insert`. A present chunk gets the value; for an absent
     * chunk the new container is built in a temporary and then dropped, so the
     * map does not change and the value is not added.
     */
    method Insert(i: u32)
      requires Valid()
      modifies this
      ensures Valid()
      ensures Key(i) in old(containers) ==>
                containers == old(containers)[Key(i) := Inserted(old(containers)[Key(i)], Low(i))]
      ensures Key(i) in old(containers) ==> Contents() == old(Contents()) + {i}
      ensures Key(i) !in old(containers) ==> containers == old(containers)
    {
      var index := Key(i);
      var value := Low(i);
      if index in containers {
        InsertedContents(containers, i, containers[index]);
        var c := Containers.Insert(containers[index], value);
        containers := containers[index := c];
      } else {
        var temporary := Containers.Insert(New(), value);
      }
    }

    /** Insertion that creates the chunk's container when it is absent. */
    method InsertCreating(i: u32)
      requires Valid()
      modifies this
      ensures Valid()
      ensures containers.Keys == old(containers).Keys + {Key(i)}
      ensures Contents() == old(Contents()) + {i}
    {
      var index := Key(i);
      var value := Low(i);
      var current := if index in containers then containers[index] else New();
      InsertedContents(containers, i, current);
      var c := Containers.Insert(current, value);
      containers := containers[index := c];
    }

    /**
     * `RoaringBitmap::remove`. A no-op for an absent chunk; otherwise the
     * chunk's container removes the value. The key set never changes, so an
     * emptied container stays in the map.
     */
    method Remove(i: u32)
      requires Valid()
      modifies this
      ensures Valid()
      ensures containers.Keys == old(containers).Keys
      ensures Key(i) in old(containers) ==>
                containers == old(containers)[Key(i) := Removed(old(containers)[Key(i)], Low(i))]
      ensures Key(i) !in old(containers) ==> containers == old(containers)
      ensures Contents() <= old(Contents()) - {i}
      ensures Key(i) !in old(containers) || !RemoveDropsHighest(old(containers)[Key(i)], Low(i)) ==>
                Contents() == old(Contents()) - {i}
    {
      var index := Key(i);
      var value := Low(i);
      if index in containers {
        RemovedContents(containers, i);
        var c := Containers.Remove(containers[index], value);
        containers := containers[index := c];
      } else {
        assert i !in Contents();
      }
    }

    /**
     * `RoaringBitmap::union`: a fresh bitmap with one entry per key of either
     * side, each built once from the two sides' containers; neither input changes.
     */
    method Union(other: RoaringBitmap) returns (result: RoaringBitmap)
      requires Valid() && other.Valid()
      ensures fresh(result) && result.Valid()
      ensures result.containers == UnionMap(containers, other.containers)
      ensures result.containers.Keys == containers.Keys + other.containers.Keys
      ensures result.Contents() <= Contents() + other.Contents()
      ensures UnionLossless(containers, other.containers) ==>
                result.Contents() == Contents() + other.Contents()
    {
      ghost var a, b := containers, other.containers;
      var keys := containers.Keys + other.containers.Keys;
      result := new RoaringBitmap();
      ghost var done: set<u32> := {};
      while keys != {}
        invariant fresh(result)
        invariant keys !! done && keys + done == a.Keys + b.Keys
        invariant result.containers == UnionOver(a, b, done)
        decreases keys
      {
        var key :| key in keys;
        var lhs := Get(containers, key);
        var rhs := Get(other.containers, key);
        UnionOverStep(a, b, done, key);
        result.containers := result.containers[key := Containers.Union(lhs, rhs)];
        keys := keys - {key};
        done := done + {key};
      }
      UnionContents(a, b);
    }

    /**
     * `RoaringBitmap::intersection`: a fresh bitmap with one entry per key
     * present on both sides, each built once from the two containers; neither
     * input changes.
     */
    method Intersection(other: RoaringBitmap) returns (result: RoaringBitmap)
      requires Valid() && other.Valid()
      ensures fresh(result) && result.Valid()
      ensures result.containers == IntersectionMap(containers, other.containers)
      ensures result.containers.Keys == containers.Keys * other.containers.Keys
      ensures result.Contents() <= Contents() * other.Contents()
      ensures IntersectionLossless(containers, other.containers) ==>
                result.Contents() == Contents() * other.Contents()
    {
      ghost var a, b := containers, other.containers;
      var keys := set k | k in containers.Keys && k in other.containers;
      result := new RoaringBitmap();
      ghost var done: set<u32> := {};
      while keys != {}
        invariant fresh(result)
        invariant keys !! done && keys + done == a.Keys * b.Keys
        invariant result.containers == IntersectionOver(a, b, done)
        decreases keys
      {
        var key :| key in keys;
        var lhs := Get(containers, key);
        var rhs := Get(other.containers, key);
        IntersectionOverStep(a, b, done, key);
        result.containers := result.containers[key := Containers.Intersection(lhs, rhs)];
        keys := keys - {key};
        done := done + {key};
      }
      IntersectionContents(a, b);
    }
  }

  /** Inserting 1, 70000 and 4294967295 into a new bitmap leaves it without any chunk. */
  method InsertIntoNewBitmap() returns (keys: set<u32>)
    ensures keys == {}
  {
    var r := new RoaringBitmap();
    r.Insert(1);
    r.Insert(70000);
    r.Insert(4294967295);
    keys := r.containers.Keys;
  }

  /** The same insertions with the chunk created on demand give chunks 0, 1 and 65535. */
  method InsertCreatingIntoNewBitmap() returns (keys: set<u32>)
    ensures keys == {0, 1, 0xFFFF}
  {
    var r := new RoaringBitmap();
    assert Key(1) == 0;
    r.InsertCreating(1);
    assert r.containers.Keys == {0};
    assert Key(70000) == 1;
    r.InsertCreating(70000);
    assert r.containers.Keys == {0, 1};
    assert Key(4294967295) == 0xFFFF;
    r.InsertCreating(4294967295);
    keys := r.containers.Keys;
  }
}
