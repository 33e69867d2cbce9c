# RoaringBitmap in Dafny

A model of a small Roaring-style compressed set of 32-bit unsigned integers, with proofs of
what its operations do.

It has two layers:

- **Container** (`container.dfy`, module `Containers`). A container holds the values of one chunk.
  - It is either an `Array` (a `Vec<u32>` in insertion order, duplicates included) or a `Bitmap` (a bit set).
  - `insert` appends to an Array. The Array becomes a Bitmap once its length exceeds 4096.
  - `remove` filters an Array. On a Bitmap it clears the bit, and the Bitmap becomes an Array once its weight is at most 4096.
  - `union` and `intersection` dispatch over the four representation pairs and over the cases where one operand is absent.
  - The two `From` conversions are methods with loops. Each is proved equal to a specification function.
- **RoaringBitmap** (`roaring.dfy`, module `Roaring`). A class whose field `containers: map<u32, Container>` maps the chunk key `i >> 16` to a container.
  - `insert` and `remove` route the value `i - (i >> 16)` to that key's container.
  - `union` and `intersection` loop over a key set and fill a fresh result map.
  - Their contracts state the exact result map, and from it the set of values represented (`Contents`).

Supporting modules:

- `Bits` (`bits.dfy`): the `u32` type, and the dense bitmap of the hwloc library as a finite set of `u32`.
  - `set`/`unset`/`is_set` are insert, delete and membership.
  - `weight` is cardinality.
  - `first`/`last` are the least and greatest element, or -1 when the bitmap is empty.
- `Seqs` (`seqs.dfy`): element sets, duplicates and order of sequences.
  - `Vec::retain` is modelled as `Retain`.
  - Collecting through a `HashSet` is modelled as `Dedup`.

The model follows the code, including where the code departs from what a Roaring bitmap is meant to do.
The standard Roaring layout has:

- a split of each value into its high 16 bits (the key) and its low 16 bits (the stored value);
- sorted, duplicate-free Arrays;
- a chunk created on demand when a value with a new key is inserted;
- an empty result for intersection with an absent side;
- no empty containers left in the map.

The code does none of these. Each departure is either a stated contract or a lemma; see "## Findings".
Two consequences stand out:

- A `RoaringBitmap` built with `new` and `insert` never gains a chunk.
- Every conversion from Bitmap to Array loses the highest value.

Containers are values. The source's `&mut self` methods replace the container they are called on. `Containers.Insert` and `Containers.Remove` return the replacement, and the caller stores it back into the map.

## Model

| member | source | states |
|---|---|---|
| `Bits.First` | src/container.rs:32 | `first()` is -1 exactly for an empty bitmap, otherwise the lowest set bit |
| `Bits.Last` | src/container.rs:32 | `last()` is -1 exactly for an empty bitmap, otherwise the highest set bit |
| `Seqs.Retain` | src/container.rs:106 | `retain` keeps exactly the elements satisfying the predicate and never lengthens the vector |
| `Seqs.RetainKeepsCount` | src/container.rs:106 | every element that survives `retain` keeps all of its occurrences |
| `Seqs.RetainKeepsOrder` | src/container.rs:106 | `retain` distributes over concatenation, so survivors stay in their original order |
| `Seqs.Dedup` | src/container.rs:122-125 | collecting through a `HashSet` gives a duplicate-free vector with the same element set, no longer than the input |
| `Containers.Scan` | src/container.rs:32-36 | the loop over `lo..hi` collects, in strictly ascending order, exactly the set bits in `[lo, hi)` |
| `Containers.BitmapToArray` | src/container.rs:29-38 | Bitmap-to-Array conversion is strictly ascending, its values are set bits in `[first, last)`, and for a non-empty bitmap it holds every set bit except the highest (length weight − 1) |
| `Containers.ConvertArray` | src/container.rs:60-67 | the loop sets a bit for every array value and no other, so the Bitmap has the Array's members |
| `Containers.ConvertBitmap` | src/container.rs:29-38 | the `first()..last()` loop returns exactly `BitmapToArray(b)` |
| `Containers.Or` | src/container.rs:71-73 | assumed set union: the result contains both operands and nothing else; the source body is `todo!()` and panics |
| `Containers.And` | src/container.rs:75-77 | assumed set intersection: the result lies within both operands and contains every common value; the source body is `todo!()` and panics |
| `Containers.New` | src/container.rs:87-89 | `Container::new()` is an Array with no elements and no members |
| `Containers.Inserted` | src/container.rs:91-101 | after `insert(v)`, `v` is a member and all previous members remain, in either representation and across the switch; the result is an Array exactly when the input was an Array shorter than 4096, and then it is the input with `v` appended; an Array never exceeds 4096 elements |
| `Containers.Insert` | src/container.rs:91-101 | `Container::insert` (push, then conversion through the `From` loop) yields `Inserted(c, v)` |
| `Containers.Removed` | src/container.rs:103-115 | On an Array, `remove(v)` deletes every occurrence of `v` and keeps the rest (`Retain`), and the members lose exactly `v`. On a Bitmap, it clears `v` and becomes an Array exactly when the weight is at most 4096. That Array is `BitmapToArray` of the remaining bits, so it is ascending and the highest remaining value is lost too. Members never grow, and the Array bound is kept. |
| `Containers.Remove` | src/container.rs:103-115 | `Container::remove` (retain, or unset then conversion through the `From` loop) yields `Removed(c, v)` |
| `Containers.UnionArrays` | src/container.rs:120-136 | `union` of two Arrays: combined length ≤ 4096 gives a duplicate-free Array holding exactly the values of both; otherwise the joint values are non-empty, the result is an Array exactly when their number is ≤ 4096, and that Array is `BitmapToArray` of them, while a Bitmap holds exactly them |
| `Containers.Union` | src/container.rs:117-154 | With one side absent, `union` is a copy of the other side. Two Arrays with combined length ≤ 4096 give a duplicate-free Array. Two Arrays with combined length > 4096 give an Array exactly when their joint weight is ≤ 4096, and that Array is `BitmapToArray` of the joint values. Mixed and Bitmap/Bitmap pairs give a Bitmap. The members are the union of both sides, except that two Arrays with combined length > 4096 and weight ≤ 4096 lose the highest value. The Array bound is kept. Both sides must not be absent. |
| `Containers.Intersection` | src/container.rs:156-182 | With one side absent, `intersection` is a copy of the other side. Array/Array keeps the elements of `a1` that occur in `a2`, in `a1`'s order. Array/Bitmap (either order) keeps the Array's elements whose bit is set, and the result is an Array. Bitmap/Bitmap gives an Array exactly when the weight is ≤ 4096. That Array is `BitmapToArray` of the common bits, so it is ascending and loses the highest common value. Otherwise the members are exactly the common ones. The Array bound is kept. |
| `Containers.BitmapToArrayDropsHighest` | src/container.rs:32 | the bitmap {3, 7} converts to the Array [3] |
| `Containers.BitmapToArrayInclusive` | src/container.rs:32 | the conversion over `first()..=last()` is ascending and holds exactly the set bits |
| `Containers.RepeatedInsertKeepsCopies` | src/container.rs:93-97 | inserting one value `n ≤ 4096` times into a new container gives an Array of `n` copies |
| `Containers.RepeatedInsertSwitchesAtWeightOne` | src/container.rs:94-96 | the 4097th insertion of the same value turns the container into a Bitmap holding that one value |
| `Containers.InsertedUnique` | src/container.rs:94 | insertion that skips a present value: same members as `insert`, keeps an Array duplicate-free, keeps the Array bound |
| `Containers.InsertedUniqueIdempotent` | src/container.rs:94 | with that insertion, inserting the same value twice equals inserting it once |
| `Containers.IntersectionWithAbsentIsCopy` | src/container.rs:179 | intersection with an absent operand has all the members of the present one |
| `Containers.IntersectionOrEmpty` | src/container.rs:179 | intersection treating an absent operand as empty: members within both sides, none when one side is absent |
| `Roaring.Key` | src/lib.rs:20 | `i >> 16` is at most 65535 and selects the 65536-wide chunk containing `i` |
| `Roaring.Low` | src/lib.rs:21 | `i - (i >> 16)` never underflows, and key plus stored value give back `i`. The stored value equals `i & 0xFFFF` exactly in chunk 0. |
| `Roaring.LowBits` | src/lib.rs:21 | masking gives a value below 65536 from which key and value give back `i` |
| `Roaring.LowIsNotLowBits` | src/lib.rs:21 | 65536 is stored as 65535, where masking gives 0 |
| `Roaring.UnionMap` | src/lib.rs:34-47 | the union map's keys are exactly those of either input; every Array in it keeps the bound |
| `Roaring.IntersectionMap` | src/lib.rs:49-61 | the intersection map's keys are exactly those of both inputs; every Array in it keeps the bound |
| `Roaring.InsertedContents` | src/lib.rs:19-26 | inserting `i`'s stored value into its chunk's container adds exactly `i` to the represented set |
| `Roaring.RemovedContents` | src/lib.rs:28-32 | removing `i`'s stored value from its chunk's container never adds values. It removes exactly `i` unless the container went through the lossy conversion. |
| `Roaring.UnionContents` | src/lib.rs:34-47 | the union's values lie in either input, and are all of them when no shared key's union converts lossily |
| `Roaring.IntersectionContents` | src/lib.rs:49-61 | the intersection's values lie in both inputs, and are all common values when no key's intersection converts lossily |
| `Roaring.RoaringBitmap.constructor` | src/lib.rs:13-17 | `new()` has an empty `containers` map and represents no value |
| `Roaring.RoaringBitmap.Insert` | src/lib.rs:19-26 | On a present key, `insert(i)` replaces that key's container with `Inserted(…, i - (i >> 16))`. All other entries are unchanged, and `i` is added to the set. On an absent key the map is unchanged. |
| `Roaring.RoaringBitmap.InsertCreating` | src/lib.rs:22-25 | insertion that creates the missing container adds the key and adds exactly `i` |
| `Roaring.RoaringBitmap.Remove` | src/lib.rs:28-32 | `remove(i)` is a no-op on an absent key. Otherwise it replaces the key's container with `Removed(…)`. The key set never changes, so emptied containers stay. `i` leaves the set, and nothing else does unless the conversion loses a value. |
| `Roaring.RoaringBitmap.Union` | src/lib.rs:34-47 | `union` returns a fresh bitmap whose map is exactly `UnionMap`: one entry per key of either side, built once, so the result does not depend on iteration order. The inputs are not modified. |
| `Roaring.RoaringBitmap.Intersection` | src/lib.rs:49-61 | `intersection` returns a fresh bitmap whose map is exactly `IntersectionMap`: one entry per key of both sides, both operands present, built once. The inputs are not modified. |
| `Roaring.InsertIntoNewBitmap` | src/lib.rs:19-26 | inserting 1, 70000 and 4294967295 into `new()` leaves no key in the map |
| `Roaring.InsertCreatingIntoNewBitmap` | src/lib.rs:22-25 | the same insertions with the container created on demand give keys 0, 1 and 65535 |

## Left out

- The hwloc bitmap internals. A Bitmap is a finite set of `u32`.
- hwloc's `first`, `last` and `weight` return `i32`. The model uses unbounded integers, so the wrap of a set bit at or above 2^31 is not modelled.
  - With the subtraction split, chunk k stores values from k·65535 to k·65535 + 65535. Only chunk 32768 (stored values 2^31 − 32768 to 2^31 + 32767) straddles 2^31.
  - In that chunk, a Bitmap with set bits on both sides of 2^31 has `first() >= 0 > last()`, so the source's conversion to an Array yields an empty Array. The model keeps every bit below the highest there.
  - In higher chunks both `first()` and `last()` wrap, the range `first()..last()` still runs in the same order, and `i as u32` recovers the same values, so the model agrees with the source (assuming a two's-complement wrap).
- `BitmapContainer::or` and `BitmapContainer::and` (src/container.rs:71-77) have the body `todo!()`, so in the source they panic.
  - The model gives them bitwise OR and AND (`Containers.Or`, `Containers.And`).
  - The only evidence for this is their names and their use at src/container.rs:130, :147 and :171.
- `Container::difference`, `Container::symmetric_difference`, `RoaringBitmap::difference` and `RoaringBitmap::symmetric_difference` are `todo!()`, so there is no behaviour to model.
- The `Deref`/`DerefMut` impls and the derived `Clone`. A clone is the same value.
- `unreachable!()` for two absent operands is not modelled as a panic. It is the precondition of `Containers.Union` and `Containers.Intersection`, which both `RoaringBitmap` loops meet.
- Hashing and iteration order:
  - The loops of `RoaringBitmap::union` and `RoaringBitmap::intersection` pick keys in an unspecified order.
  - Their contracts fix the result map, which is the same for every order.
- Containers.Union: a `HashSet` collect orders the Array/Array result by hash. The model fixes first-occurrence order (`Seqs.Dedup`). The contract states only the element set and the absence of duplicates, which is all the source guarantees.
- Update in place: `Container::insert` and `Container::remove` take `&mut self`. They are modelled as methods that return the replacement container, and the map entry is reassigned. Rust's ownership rules out any aliasing of a container, so nothing observable is lost.

## Findings

The repository's operations are modelled as written. The corrected definitions are proved beside them and are not used by the as-written model.

| source | as written | input that shows it | evidently intended | confidence | as-written member | corrected member |
|---|---|---|---|---|---|---|
| src/lib.rs:21 | the stored value is `i - (i >> 16)` | `i = 65536` is stored as 65535 in chunk 1 | the low 16 bits, `i & 0xFFFF` (0 here) | medium, not executed | `Roaring.LowIsNotLowBits` | `Roaring.LowBits` |
| src/container.rs:94 | Array insert pushes without checking for the value | inserting 5 into `new()` 4097 times gives a Bitmap holding only {5} | set insertion, a no-op for a present value | high, not executed | `Containers.RepeatedInsertSwitchesAtWeightOne` | `Containers.InsertedUnique` |
| src/container.rs:32 | the conversion loop runs over `first()..last()` | the bitmap {3, 7} becomes the Array [3] | `first()..=last()`, keeping the highest bit | high, not executed | `Containers.BitmapToArrayDropsHighest` | `Containers.BitmapToArrayInclusive` |
| src/container.rs:179 | intersection with an absent operand clones the present one | intersection of `Some({1})` with `None` holds 1 | an empty result | medium, not executed (the `RoaringBitmap` layer never passes an absent operand) | `Containers.IntersectionWithAbsentIsCopy` | `Containers.IntersectionOrEmpty` |
| src/lib.rs:22-25 | `get_or_insert` attaches the new container to a temporary `Option` | inserting 1, 70000, 4294967295 into `new()` leaves the map empty | creating the entry in the map | high, not executed | `Roaring.InsertIntoNewBitmap` | `Roaring.RoaringBitmap.InsertCreating` |
