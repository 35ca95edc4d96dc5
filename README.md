# Roaring bitmap containers, modelled and verified in Dafny

Equativ.RoaringBitmaps stores a set of 32-bit integers as a Roaring bitmap.
Each value is split into a high 16-bit key and a low 16-bit half. Each key
owns one container holding the low halves of its values. A container takes
one of two forms:

- an **ArrayContainer**: a sorted, duplicate-free `ushort[]` plus a
  cardinality, used for at most MaxSize = 4096 values;
- a **BitmapContainer**: 1024 `ulong` words (65536 bits) plus a cached
  cardinality.

This project models both container kinds and their pairwise set algebra
(`&`, `|`, `^`, `~`, AndNot). It also models the in-place "merge an array
into a dense buffer" primitives `OrArray`, `XorArray` and `AndNotArray`
with their vectorized twins, the word loops, lowest-set-bit enumeration,
equality, hashing and the payload codecs. On top of that sits the
construction path of `RoaringBitmap`: sort, two-pointer deduplication,
grouping by high bits, and the choice of container per group, plus
`ToArray` and `Equals`.

Modules:

- `Words`: a 64-bit word and a 1024-word buffer as a set of 16-bit values.
  Covers membership (`Has`), popcount (`Popcnt`), the ascending list of
  set bits (`Elements`) and the lowest-set-bit facts.
- `Buffers`: what the member loops do to a buffer. `OrInto`, `XorInto` and
  `AndNotInto` set, toggle or clear one member bit at a time; the word-wise
  operations are `AndWords` and its siblings. Every operation is tied to
  membership and to popcount.
- `SortedArrays`: the sorted merges of two arrays (intersection, union,
  symmetric difference, difference), with their membership, order and
  length properties.
- `Containers`: `ArrayContainer` (a datatype with the methods that write
  into a caller's `array<bv64>`), `BitmapContainer`, the tagged `Container`,
  construction, equality, hashing and the codecs.
- `Operators`: every operator for every pairing of container kinds.
- `Roaring`: `RoaringBitmap` and `Create`.

Representation choices:

- C# `ushort` is `bv16`, `ulong` is `bv64`, and a C# `int` value is its
  `bv32` bit pattern.
- `Int32Of` reads a `bv32` as a signed integer. The signed order of
  `Array.Sort` is the order of `Int32Of`.
- `1UL << v` with a `ushort` `v` shifts by `v & 63` (`Offset`). Word `v >> 6`
  is `WordIndex`.
- `List<int>` outputs are `seq<int>`. A `BinaryWriter` payload is the
  `seq<bv16>` or `seq<bv64>` it writes. A `BinaryReader` is the sequence it
  reads from.

## Model

| member | source | states |
|---|---|---|
| Containers.ArrayContainer.OrArray | Equativ.RoaringBitmaps/ArrayContainer.cs:186-200 | the buffer becomes the old buffer with exactly the member bits set; the returned delta equals new popcount minus old popcount and the number of members whose bit was clear |
| Containers.ArrayContainer.XorArray | Equativ.RoaringBitmaps/ArrayContainer.cs:237-251 | the buffer becomes the old buffer with exactly the member bits toggled; the delta equals #previously-clear minus #previously-set and the popcount difference |
| Containers.ArrayContainer.AndNotArray | Equativ.RoaringBitmaps/ArrayContainer.cs:289-303 | the buffer becomes the old buffer with exactly the member bits cleared; the delta is minus the number of members previously set, the popcount difference, and lies in [-cardinality, 0] |
| Containers.ArrayContainer.OrArrayVectorized | Equativ.RoaringBitmaps/ArrayContainer.cs:202-235 | with or without AVX2, the same final buffer and the same delta as OrArray (a member scratch buffer ORed in word by word) |
| Containers.ArrayContainer.XorArrayVectorized | Equativ.RoaringBitmaps/ArrayContainer.cs:253-286 | with or without AVX2, the same final buffer and delta as XorArray |
| Containers.ArrayContainer.AndNotArrayVectorized | Equativ.RoaringBitmaps/ArrayContainer.cs:305-338 | with or without AVX2, the same final buffer and delta as AndNotArray |
| Containers.ArrayContainer.Equals | Equativ.RoaringBitmaps/ArrayContainer.cs:36-58 | true exactly when the cardinalities match and the first cardinality elements match |
| Containers.ArrayEqualsIsSameSet | Equativ.RoaringBitmaps/ArrayContainer.cs:36-58 | for well-formed containers, Equals holds exactly when both hold the same set of values |
| Containers.ArrayContainer.EnumerateFill | Equativ.RoaringBitmaps/ArrayContainer.cs:79-85 | the list is extended by `key \| value` for every member, in order |
| Containers.ArrayContainer.GetHashCode | Equativ.RoaringBitmaps/ArrayContainer.cs:346-358 | the hash is the int32-wrapped fold `h * 23 + x` seeded with `17 * 23 + cardinality`, so it depends only on what Equals compares |
| Containers.HashFoldIsPolynomial | Equativ.RoaringBitmaps/ArrayContainer.cs:346-358 | the wrapped fold equals the wrapped polynomial `seed * 23^n + sum x_i * 23^(n-1-i)` |
| Containers.Wrap32 | Equativ.RoaringBitmaps/ArrayContainer.cs:348-357 | unchecked int32 arithmetic: the result is in int32 range and congruent to its argument modulo 2^32 |
| Containers.ArrayContainer.Serialize | Equativ.RoaringBitmaps/ArrayContainer.cs:360-366 | writes exactly the cardinality members, in order |
| Containers.DeserializeArray | Equativ.RoaringBitmaps/ArrayContainer.cs:368-376 | reads cardinality values into a new container, and fails on a stream too short |
| Containers.ArrayRoundTrip | Equativ.RoaringBitmaps/ArrayContainer.cs:360-376 | deserializing what Serialize wrote, with the same cardinality and any trailing data, gives back the same members and cardinality |
| Containers.CreateArray | Equativ.RoaringBitmaps/ArrayContainer.cs:60-63 | the container holds exactly the given values and their count |
| Containers.CreateArrayFromBitmap | Equativ.RoaringBitmaps/ArrayContainer.cs:65-71 | the array has the bitmap's cached cardinality and starts with its set bits in ascending order; when the cached cardinality is the popcount the members are exactly the set bits |
| Containers.ElementsAsArray | Equativ.RoaringBitmaps/ArrayContainer.cs:65-71 | the set bits listed by FillArray are strictly ascending and are exactly the bitmap's members, so the converted container has the bitmap's membership |
| Containers.BitmapContainer.Contains | Equativ.RoaringBitmaps/BitmapContainer.cs:246-255 | true exactly when bit `x & 63` of word `x >> 6` is set |
| Containers.BitmapContainer.Clone | Equativ.RoaringBitmaps/BitmapContainer.cs:132-137 | a fresh array with the same 1024 words, so the operand is never changed |
| Containers.BitmapContainer.Equals | Equativ.RoaringBitmaps/BitmapContainer.cs:66-88 | true exactly when the cardinalities and all 1024 words match |
| Containers.BitmapEqualsIsSameSet | Equativ.RoaringBitmaps/BitmapContainer.cs:66-88 | for well-formed containers, Equals holds exactly when both hold the same set of values |
| Containers.BitmapContainer.FillArray | Equativ.RoaringBitmaps/BitmapContainer.cs:279-294 | writes every set bit exactly once in ascending order into the first popcount cells and leaves the rest untouched; returns the cached cardinality, which exceeds the number of writes when the cached cardinality is larger than the popcount |
| Containers.FillWords | Equativ.RoaringBitmaps/BitmapContainer.cs:281-292 | the word-by-word loop writes exactly the ascending list of set bits of the buffer at the start of data, in an array at least that long, and changes no later cell |
| Containers.FillWord | Equativ.RoaringBitmaps/BitmapContainer.cs:286-291 | the inner loop appends exactly the set bits of one word, lowest first, at the cursor |
| Containers.LowestMember | Equativ.RoaringBitmaps/BitmapContainer.cs:288-290 | `t = w & (~w + 1)` and `shiftedK + PopCount(t - 1)` give the lowest member of the word; `w ^ t` holds the remaining ones and is smaller |
| Words.LowestStep | Equativ.RoaringBitmaps/BitmapContainer.cs:271-274 | the set bits of a non-zero word are the value of its isolated lowest bit followed by the set bits of the word with that bit cleared |
| Containers.BitmapContainer.EnumerateFill | Equativ.RoaringBitmaps/BitmapContainer.cs:263-277 | the list is extended by `key \| value` for every set bit, in ascending order |
| Containers.EnumerateWord | Equativ.RoaringBitmaps/BitmapContainer.cs:269-275 | the inner loop adds exactly the keyed set bits of one word, lowest first |
| Words.ElementsSpec | Equativ.RoaringBitmaps/BitmapContainer.cs:263-294 | the enumerated set bits are strictly increasing, contain exactly the members, and number the popcount |
| Containers.BitmapContainer.GetHashCode | Equativ.RoaringBitmaps/BitmapContainer.cs:302-314 | the int32-wrapped fold over the cardinality and every word's hash, a function of what Equals compares |
| Containers.BitmapContainer.Serialize | Equativ.RoaringBitmaps/BitmapContainer.cs:316-322 | writes the 1024 words in order |
| Containers.DeserializeBitmap | Equativ.RoaringBitmaps/BitmapContainer.cs:324-332 | reads 1024 words and takes the given cardinality, and fails on a stream too short |
| Containers.BitmapRoundTrip | Equativ.RoaringBitmaps/BitmapContainer.cs:316-332 | deserializing what Serialize wrote, with the same cardinality, gives back the same container |
| Containers.CreateBitmap | Equativ.RoaringBitmaps/BitmapContainer.cs:38-60 | the buffer is the first cardinality values set into zeros, or cleared from all ones when negated; the cached cardinality is cardinality or 65536 - cardinality |
| Containers.FillOnes | Equativ.RoaringBitmaps/BitmapContainer.cs:42-45 | the negated constructor first makes every word all ones |
| Containers.FilledHas | Equativ.RoaringBitmaps/BitmapContainer.cs:38-60 | a value is a member exactly when it is among the values, or exactly when it is not when negated |
| Containers.FilledCount | Equativ.RoaringBitmaps/BitmapContainer.cs:38-60 | for duplicate-free values the popcount equals the cached cardinality the constructor stores |
| Containers.CreateXor | Equativ.RoaringBitmaps/BitmapContainer.cs:104-120 | the buffer is the first array's values toggled into zeros and then the second's; the cardinality equals its popcount |
| Containers.CreateXorHas | Equativ.RoaringBitmaps/BitmapContainer.cs:104-120 | for duplicate-free arrays, a value is in the result exactly when it is in one array but not both |
| Containers.AndInternal | Equativ.RoaringBitmaps/BitmapContainer.cs:235-243 | the first buffer becomes the word-wise AND of both; the result is its popcount |
| Containers.OrInternal | Equativ.RoaringBitmaps/BitmapContainer.cs:225-233 | the first buffer becomes the word-wise OR; the result is its popcount |
| Containers.XorInternal | Equativ.RoaringBitmaps/BitmapContainer.cs:195-203 | the first buffer becomes the word-wise XOR; the result is its popcount |
| Containers.AndNotInternal | Equativ.RoaringBitmaps/BitmapContainer.cs:205-213 | the first buffer becomes the word-wise AND NOT; the result is its popcount |
| Containers.NotInternal | Equativ.RoaringBitmaps/BitmapContainer.cs:215-223 | the buffer becomes its word-wise complement; the result is its popcount |
| Containers.SetAll | Equativ.RoaringBitmaps/BitmapContainer.cs:54-58 | the value loop of the constructor sets the member bits of the first n values |
| Containers.FlipAll | Equativ.RoaringBitmaps/BitmapContainer.cs:107-117 | the value loops of CreateXor toggle the member bits of the first n values |
| Containers.ClearAll | Equativ.RoaringBitmaps/BitmapContainer.cs:46-50 | the negated constructor's value loop clears the member bits of the first n values |
| Containers.XorGain | Equativ.RoaringBitmaps/ArrayContainer.cs:248 | `(int)(1 - 2 * ((previous & mask) >> yValue))` is -1 when the bit was set and +1 otherwise |
| Containers.Container.EnumerateFill | Equativ.RoaringBitmaps/BitmapContainer.cs:263-277 | the dispatch adds the keyed listing of whichever container it holds |
| Containers.Container.EqualsInternal | Equativ.RoaringBitmaps/BitmapContainer.cs:257-261 | true exactly when both are of the same kind and equal by that kind's Equals, so a BitmapContainer never equals an ArrayContainer |
| Containers.SameAsIsSameSet | Equativ.RoaringBitmaps/ArrayContainer.cs:73-77 | containers equal by EqualsInternal are of one kind, hold the same values and list them alike |
| Operators.Demote | Equativ.RoaringBitmaps/BitmapContainer.cs:129 | a bitmap result becomes an ArrayContainer exactly when its cardinality is at most MaxSize, with the same values and cardinality |
| Operators.AndArrays | Equativ.RoaringBitmaps/ArrayContainer.cs:87-93 | an ArrayContainer holding exactly the common values, with cardinality at most each operand's |
| Operators.OrArrays | Equativ.RoaringBitmaps/ArrayContainer.cs:111-128 | holds exactly the values of either operand; is a BitmapContainer exactly when the union has more than MaxSize values; the cardinality is the union's size |
| Operators.XorArrays | Equativ.RoaringBitmaps/ArrayContainer.cs:140-155 | always an ArrayContainer, holding exactly the values in one operand but not both |
| Operators.AndNotArrays | Equativ.RoaringBitmaps/ArrayContainer.cs:162-168 | an ArrayContainer holding exactly the values of x not in y, with cardinality at most x's |
| Operators.NotArray | Equativ.RoaringBitmaps/ArrayContainer.cs:135-138 | a BitmapContainer holding exactly the non-members, with cardinality 65536 - cardinality |
| Operators.Sift | Equativ.RoaringBitmaps/ArrayContainer.cs:97-108 | the cursor loop keeps, in order, the members whose bitmap presence is the one asked for, in an array as long as x's |
| Operators.KeptHas | Equativ.RoaringBitmaps/ArrayContainer.cs:97-108 | a value is kept exactly when it is a member of x with the asked-for presence in y |
| Operators.KeptAscending | Equativ.RoaringBitmaps/ArrayContainer.cs:97-108 | the kept subsequence of a sorted array is sorted |
| Operators.AndArrayBitmap | Equativ.RoaringBitmaps/ArrayContainer.cs:95-109 | an ArrayContainer holding exactly the members of x set in y, no more of them than x has |
| Operators.AndNotArrayBitmap | Equativ.RoaringBitmaps/ArrayContainer.cs:170-184 | an ArrayContainer holding exactly the members of x not set in y, no more of them than x has |
| Operators.OrArrayBitmap | Equativ.RoaringBitmaps/ArrayContainer.cs:130-133 | a BitmapContainer holding exactly the values of either operand |
| Operators.XorArrayBitmap | Equativ.RoaringBitmaps/ArrayContainer.cs:157-160 | holds exactly the values in one operand but not both; it is an ArrayContainer exactly when that cardinality is at most MaxSize |
| Operators.AndBitmapArray | Equativ.RoaringBitmaps/BitmapContainer.cs:139-142 | an ArrayContainer holding exactly the members of y set in x, in an array as long as y's content, no more of them than y has |
| Operators.OrBitmapArray | Equativ.RoaringBitmaps/BitmapContainer.cs:150-154 | a BitmapContainer whose cached cardinality `x._cardinality + delta` is the popcount of its buffer, holding exactly the values of either operand |
| Operators.XorBitmapArray | Equativ.RoaringBitmaps/BitmapContainer.cs:174-179 | holds exactly the values in one operand but not both, with a correct cached cardinality; an ArrayContainer exactly when that is at most MaxSize |
| Operators.AndNotBitmapArray | Equativ.RoaringBitmaps/BitmapContainer.cs:188-193 | holds exactly the values of x not in y, with a correct cached cardinality; an ArrayContainer exactly when that is at most MaxSize |
| Operators.AndBitmaps | Equativ.RoaringBitmaps/BitmapContainer.cs:125-130 | holds exactly the common values; an ArrayContainer exactly when the cardinality is at most MaxSize |
| Operators.OrBitmaps | Equativ.RoaringBitmaps/BitmapContainer.cs:144-148 | always a BitmapContainer, holding exactly the values of either operand |
| Operators.XorBitmaps | Equativ.RoaringBitmaps/BitmapContainer.cs:167-172 | holds exactly the values in one operand but not both; an ArrayContainer exactly when the cardinality is at most MaxSize |
| Operators.AndNotBitmaps | Equativ.RoaringBitmaps/BitmapContainer.cs:181-186 | holds exactly the values of x not in y; an ArrayContainer exactly when the cardinality is at most MaxSize |
| Operators.NotBitmap | Equativ.RoaringBitmaps/BitmapContainer.cs:156-161 | holds exactly the non-members; an ArrayContainer exactly when the cardinality is at most MaxSize |
| SortedArrays.IntersectSpec | Equativ.RoaringBitmaps/ArrayContainer.cs:89-92 | the merge of two sorted arrays is sorted, holds exactly the common values and is no longer than either |
| SortedArrays.UnionSpec | Equativ.RoaringBitmaps/ArrayContainer.cs:113-127 | the union merge is sorted, holds exactly the values of either, and is no longer than both together |
| SortedArrays.SymmetricDifferenceSpec | Equativ.RoaringBitmaps/ArrayContainer.cs:151-154 | the XOR merge is sorted and holds exactly the values in one array but not both |
| SortedArrays.DifferenceSpec | Equativ.RoaringBitmaps/ArrayContainer.cs:164-167 | the difference merge is sorted, holds exactly the values of the first not in the second, and is no longer than the first |
| Buffers.OrIntoHas | Equativ.RoaringBitmaps/ArrayContainer.cs:190-197 | setting the member bits makes a value present exactly when it was present or is a member; nothing else changes |
| Buffers.XorIntoHas | Equativ.RoaringBitmaps/ArrayContainer.cs:241-248 | toggling distinct member bits flips the presence of exactly the members |
| Buffers.AndNotIntoHas | Equativ.RoaringBitmaps/ArrayContainer.cs:293-300 | clearing the member bits makes a value present exactly when it was present and is not a member |
| Buffers.OrIntoCount | Equativ.RoaringBitmaps/ArrayContainer.cs:186-200 | for distinct members, the popcount grows by the number of members that were clear |
| Buffers.XorIntoCount | Equativ.RoaringBitmaps/ArrayContainer.cs:237-251 | for distinct members, the popcount changes by #previously-clear minus #previously-set |
| Buffers.AndNotIntoCount | Equativ.RoaringBitmaps/ArrayContainer.cs:289-303 | for distinct members, the popcount drops by the number of members that were set |
| Buffers.FromValuesCount | Equativ.RoaringBitmaps/BitmapContainer.cs:38-60 | distinct values set into zeros give a popcount equal to their count; cleared from all ones, 65536 minus it |
| Buffers.OrRoutesAgree | Equativ.RoaringBitmaps/ArrayContainer.cs:209-231 | ORing the members' scratch bitmap in word by word gives the buffer OrArray makes |
| Buffers.XorRoutesAgree | Equativ.RoaringBitmaps/ArrayContainer.cs:260-282 | XORing the scratch bitmap in word by word gives the buffer XorArray makes, for distinct members |
| Buffers.AndNotRoutesAgree | Equativ.RoaringBitmaps/ArrayContainer.cs:312-334 | AND-NOTing the scratch bitmap word by word gives the buffer AndNotArray makes |
| Buffers.AndWordsHas | Equativ.RoaringBitmaps/BitmapContainer.cs:235-243 | a value is in the word-wise AND exactly when it is in both buffers |
| Buffers.OrWordsHas | Equativ.RoaringBitmaps/BitmapContainer.cs:225-233 | a value is in the word-wise OR exactly when it is in either buffer |
| Buffers.XorWordsHas | Equativ.RoaringBitmaps/BitmapContainer.cs:195-203 | a value is in the word-wise XOR exactly when it is in one buffer but not both |
| Buffers.AndNotWordsHas | Equativ.RoaringBitmaps/BitmapContainer.cs:205-213 | a value is in the word-wise AND NOT exactly when it is in the first buffer and not the second |
| Buffers.NotWordsHas | Equativ.RoaringBitmaps/BitmapContainer.cs:215-223 | a value is in the complement exactly when it is not in the buffer |
| Buffers.SameMembersSameBuffer | Equativ.RoaringBitmaps/BitmapContainer.cs:66-88 | two buffers with the same members are equal word for word |
| Roaring.SortArray | Equativ.RoaringBitmaps/RoaringBitmap.cs:97 | the array is sorted in place into the signed-order sort of its old contents |
| Roaring.SortSpec | Equativ.RoaringBitmaps/RoaringBitmap.cs:97 | the sort is non-decreasing in signed order and a permutation of its input |
| Roaring.Deduplicate | Equativ.RoaringBitmaps/RoaringBitmap.cs:99-107 | on a sorted non-empty array, the first uniqueCount cells become strictly increasing and hold exactly the distinct values |
| Roaring.Int32Injective | Equativ.RoaringBitmaps/RoaringBitmap.cs:102 | two ints with the same signed value have the same bit pattern, so the `!=` test compares values |
| Roaring.RunEnd | Equativ.RoaringBitmaps/RoaringBitmap.cs:113-121 | the inner loop stops at the end of the maximal run sharing the first value's high bits |
| Roaring.RunLows | Equativ.RoaringBitmaps/RoaringBitmap.cs:123-128 | the low halves of a run are strictly increasing, and keyed by the run's high bits they give back the run's values |
| Roaring.JoinHalves | Equativ.RoaringBitmaps/RoaringBitmap.cs:123-128 | a value's high bits shifted up and ORed with its low bits give back the value |
| Roaring.GroupContainer | Equativ.RoaringBitmaps/RoaringBitmap.cs:123-133 | a BitmapContainer exactly when the run has more than MaxSize values, else an ArrayContainer; it holds the run's count and its keyed listing is the run |
| Roaring.Group | Equativ.RoaringBitmaps/RoaringBitmap.cs:109-136 | neighbouring keys differ, containers are non-empty and of the right kind, and the listing is exactly the unique values in order (so group counts sum to uniqueCount); keys ascend when the values are non-negative |
| Roaring.CreateFromArray | Equativ.RoaringBitmaps/RoaringBitmap.cs:89-137 | a canonical bitmap listing each distinct input once, in increasing order; no keys for an empty input; ascending keys for non-negative input; the caller's array now starts with the listed values |
| Roaring.Create | Equativ.RoaringBitmaps/RoaringBitmap.cs:89-137 | for any sequence, a canonical bitmap listing each distinct value once in increasing order; no keys for an empty input; ascending keys for non-negative input |
| Roaring.CreateParams | Equativ.RoaringBitmaps/RoaringBitmap.cs:70-73 | the same promises as Create, for the params array; that array is sorted and deduplicated in place and afterwards starts with the listed values |
| Roaring.RoaringBitmap.ToArray | Equativ.RoaringBitmaps/RoaringBitmap.cs:34-39 | lists every container's values under its key, container by container |
| Roaring.RoaringBitmap.Equals | Equativ.RoaringBitmaps/RoaringBitmap.cs:41-52 | true exactly when the keys match and the containers are pairwise equal |
| Roaring.EqualsSameValues | Equativ.RoaringBitmaps/RoaringBitmap.cs:41-52 | equal bitmaps list the same values |

## Left out

- `Avx2.IsSupported` is the `avx2` parameter of the vectorized methods. The
  256-bit loads and stores become a plain loop over the 1024 words, one
  word per step.
- OrArrayVectorized, XorArrayVectorized, AndNotArrayVectorized: the scratch
  buffer comes from `GC.AllocateUninitializedArray` and may hold garbage.
  The model allocates it zeroed, and the equivalence with the scalar
  methods holds only under that assumption.
- RoaringArray, `Utils` and the `Container` base class are not part of this
  model. Their methods are assumed to behave as their uses here require:
  - `Utils.Popcnt` is the popcount over the buffer;
  - `Utils.HighBits` and `Utils.LowBits` return the upper and lower 16 bits;
  - `Utils.IntersectArrays`, `UnionArrays`, `XorArrays` and
    `DifferenceArrays` are the sorted merges over the first cardinality
    values.
- The arrays returned by those merges may be longer than their cardinality.
  The model keeps exactly the cardinality values, which are all that any
  operation reads.
- `BinaryReader`/`BinaryWriter` I/O: payloads are sequences of words. An
  exception for a stream that is too short is a `Failure` result. The byte
  order is not modelled.
- Containers.BitmapContainer.FillArray, Containers.CreateArrayFromBitmap:
  a cached cardinality below the popcount makes the source write past the
  end of the array and throw. The model requires the cached cardinality to
  be at least the popcount and does not model that exception.
- DeserializeArray, DeserializeBitmap: trust the given cardinality as the
  source does. A bitmap read with a wrong cardinality is not checked
  against its popcount.
- `Array.Sort` is a functional insertion sort (`Sort`) written into the
  array. Only its result is modelled, not introsort's steps.
- The `One` singletons and static constructors are left out. So are
  `ArraySizeInBytes`, `IEnumerable`/`GetEnumerator` and the
  `Equals(object)` overloads.
- `ReferenceEquals` shortcuts and `null` checks are left out. The model has
  no null references, and a same-reference call answers the same as the
  structural comparison.
- RoaringBitmap `GetHashCode`, `Optimize`, its whole-bitmap operators,
  `Serialize` and `Deserialize` are outside this model. They delegate to
  RoaringArray.
- GetHashCode: the exact hash values are modelled, including the unchecked
  int32 wrap-around (`Wrap32`). The model does not claim that unequal
  containers hash differently.
- Operators.XorArrays: as in the source, the ArrayContainer ^
  ArrayContainer operator builds `CreateXor` above MaxSize and converts it,
  then discards both. The result is always an ArrayContainer, even above
  MaxSize.
- Roaring.RoaringBitmap.ToArray, Roaring.RoaringBitmap.Equals: both
  delegate to RoaringArray, which is not part of this model. ToArray is
  modelled as each container's EnumerateFill under its key, in key order.
  Equals is modelled as equal key lists plus pairwise container equality.
- Roaring.RoaringBitmap.Equals: proved sound (equal bitmaps list the same
  values), not complete. Two bitmaps with the same values but
  non-canonical shapes may compare unequal, as in the source.
- Roaring.Create: sorting is signed. Keys come out ascending only for
  non-negative inputs, which is what the KeysAscending promise requires.
- Roaring.Create: the `values as int[]` test turns into two entry points.
  CreateFromArray works on the caller's array, and Create copies a
  sequence first, as `ToArray()` does.
