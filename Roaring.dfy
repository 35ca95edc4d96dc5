/** RoaringBitmap.Create and the members of RoaringBitmap that delegate
    to its containers.  C# ints are modelled as their 32-bit patterns
    (bv32) and compared in the signed order of C# (Int32Of). */
module Roaring {
  import opened Words
  import opened SortedArrays
  import opened Containers

  // ---------------------------------------------------------------------
  // The halves of a 32-bit value

  /** Utils.HighBits: the upper 16 bits, the container key. */
  function HighBits(x: bv32): bv16
  {
    (x >> 16) as bv16
  }

  /** Utils.LowBits: the lower 16 bits, the value inside the container. */
  function LowBits(x: bv32): bv16
  {
    (x & 0xFFFF) as bv16
  }

  /** The `key << 16` that EnumerateFill ORs into each low value. */
  function KeyBase(hb: bv16): bv32
  {
    (hb as bv32) << 16
  }

  lemma JoinHalvesRaw(x: bv32)
    ensures ((((x >> 16) as bv16) as bv32) << 16) | (((x & 0xFFFF) as bv16) as bv32) == x
  {
  }

  /** A key and a low value put back together give the value split. */
  lemma JoinHalves(x: bv32)
    ensures KeyedValue(KeyBase(HighBits(x)), LowBits(x)) == Int32Of(x)
  {
    JoinHalvesRaw(x);
  }

  /** Within one key, the signed order is the order of the low halves. */
  lemma LowOrder(x: bv32, y: bv32)
    requires HighBits(x) == HighBits(y) && Int32Of(x) < Int32Of(y)
    ensures LowBits(x) as int < LowBits(y) as int
  {
  }

  /** For non-negative values the signed order orders the keys too. */
  lemma HighOrder(x: bv32, y: bv32)
    requires 0 <= Int32Of(x) < Int32Of(y)
    ensures HighBits(x) as int <= HighBits(y) as int
  {
  }

  // ---------------------------------------------------------------------
  // Sorting (Array.Sort on int[], in the signed order)

  /** Each value at most the next one. */
  ghost predicate NonDecreasing(s: seq<bv32>)
  {
    forall i :: 0 < i < |s| ==> Int32Of(s[i - 1]) <= Int32Of(s[i])
  }

  /** Each value below the next one. */
  ghost predicate Increasing(s: seq<bv32>)
  {
    forall i :: 0 < i < |s| ==> Int32Of(s[i - 1]) < Int32Of(s[i])
  }

  /** Insert x before the first value not below it. */
  function Insert(x: bv32, s: seq<bv32>): (r: seq<bv32>)
    ensures |r| == |s| + 1
    decreases |s|
  {
    if s == [] then [x]
    else if Int32Of(x) <= Int32Of(s[0]) then [x] + s
    else [s[0]] + Insert(x, s[1..])
  }

  /** Array.Sort, as an insertion sort. */
  function Sort(s: seq<bv32>): (r: seq<bv32>)
    ensures |r| == |s|
    decreases |s|
  {
    if s == [] then [] else Insert(s[0], Sort(s[1..]))
  }

  lemma {:induction false} InsertHead(x: bv32, s: seq<bv32>)
    ensures Insert(x, s)[0] == x || (s != [] && Insert(x, s)[0] == s[0])
  {
  }

  lemma TailNonDecreasing(s: seq<bv32>)
    requires s != [] && NonDecreasing(s)
    ensures NonDecreasing(s[1..])
  {
    var t := s[1..];
    forall i | 0 < i < |t|
      ensures Int32Of(t[i - 1]) <= Int32Of(t[i])
    {
      assert t[i - 1] == s[i] && t[i] == s[i + 1];
    }
  }

  lemma ConsNonDecreasing(h: bv32, t: seq<bv32>)
    requires NonDecreasing(t) && (t != [] ==> Int32Of(h) <= Int32Of(t[0]))
    ensures NonDecreasing([h] + t)
  {
    var r := [h] + t;
    forall i | 1 < i < |r|
      ensures Int32Of(r[i - 1]) <= Int32Of(r[i])
    {
      assert r[i - 1] == t[i - 2] && r[i] == t[i - 1];
    }
  }

  lemma {:induction false} InsertSorted(x: bv32, s: seq<bv32>)
    requires NonDecreasing(s)
    ensures NonDecreasing(Insert(x, s))
    decreases |s|
  {
    if s == [] {
    } else if Int32Of(x) <= Int32Of(s[0]) {
      ConsNonDecreasing(x, s);
    } else {
      var t := s[1..];
      TailNonDecreasing(s);
      InsertSorted(x, t);
      InsertHead(x, t);
      if t != [] {
        assert Int32Of(s[0]) <= Int32Of(t[0]);
      }
      ConsNonDecreasing(s[0], Insert(x, t));
    }
  }

  lemma {:induction false} InsertCount(x: bv32, s: seq<bv32>)
    ensures multiset(Insert(x, s)) == multiset{x} + multiset(s)
    decreases |s|
  {
    if s != [] && Int32Of(x) > Int32Of(s[0]) {
      InsertCount(x, s[1..]);
      assert s == [s[0]] + s[1..];
    }
  }

  /** The sort orders its input and only permutes it. */
  lemma {:induction false} SortSpec(s: seq<bv32>)
    ensures NonDecreasing(Sort(s))
    ensures multiset(Sort(s)) == multiset(s)
    decreases |s|
  {
    if s != [] {
      SortSpec(s[1..]);
      InsertSorted(s[0], Sort(s[1..]));
      InsertCount(s[0], Sort(s[1..]));
      assert s == [s[0]] + s[1..];
    }
  }

  /** Array.Sort(data): the array now holds its sorted permutation. */
  method SortArray(data: array<bv32>)
    modifies data
    ensures data[..] == Sort(old(data[..]))
  {
    var sorted := Sort(data[..]);
    forall i | 0 <= i < data.Length {
      data[i] := sorted[i];
    }
  }

  // ---------------------------------------------------------------------
  // The two-pointer deduplication

  lemma SignedHalvesEqual(hx: int, lx: int, hy: int, ly: int)
    requires 0 <= hx < 0x1_0000 && 0 <= lx < 0x1_0000 && 0 <= hy < 0x1_0000 && 0 <= ly < 0x1_0000
    requires SignedValue(hx, lx) == SignedValue(hy, ly)
    ensures hx == hy && lx == ly
  {
  }

  lemma SameHalvesRaw(x: bv32, y: bv32)
    requires (x >> 16) as bv16 == (y >> 16) as bv16 && (x & 0xFFFF) as bv16 == (y & 0xFFFF) as bv16
    ensures x == y
  {
  }

  /** Two patterns with the same value are the same pattern. */
  lemma Int32Injective(x: bv32, y: bv32)
    requires Int32Of(x) == Int32Of(y)
    ensures x == y
  {
    SignedHalvesEqual(HighBits(x) as int, LowBits(x) as int, HighBits(y) as int, LowBits(y) as int);
    EqualAsInt(HighBits(x), HighBits(y));
    EqualAsInt(LowBits(x), LowBits(y));
    SameHalvesRaw(x, y);
  }

  /** A sorted value different from the last one kept extends the kept
      prefix. */
  lemma KeepStep(kept: seq<bv32>, s: seq<bv32>, i: int)
    requires 0 < i < |s| && NonDecreasing(s) && s[i] != s[i - 1]
    requires kept != [] && kept[|kept| - 1] == s[i - 1] && Increasing(kept)
    requires forall x :: x in kept <==> x in s[..i]
    ensures Increasing(kept + [s[i]])
    ensures forall x :: x in kept + [s[i]] <==> x in s[..i + 1]
  {
    if Int32Of(s[i - 1]) == Int32Of(s[i]) {
      Int32Injective(s[i - 1], s[i]);
    }
    var r := kept + [s[i]];
    forall j | 0 < j < |r|
      ensures Int32Of(r[j - 1]) < Int32Of(r[j])
    {
      if j < |kept| {
        assert r[j - 1] == kept[j - 1] && r[j] == kept[j];
      }
    }
    assert s[..i + 1] == s[..i] + [s[i]];
  }

  /** A sorted value equal to the last one kept adds nothing. */
  lemma SkipStep(kept: seq<bv32>, s: seq<bv32>, i: int)
    requires 0 < i < |s| && s[i] == s[i - 1]
    requires kept != [] && kept[|kept| - 1] == s[i - 1]
    requires forall x :: x in kept <==> x in s[..i]
    ensures forall x :: x in kept <==> x in s[..i + 1]
  {
    assert s[..i + 1] == s[..i] + [s[i]];
  }

  /** The in-place pass `if (data[i] != data[uniqueCount - 1])
      data[uniqueCount++] = data[i]` over a sorted array: the first
      uniqueCount cells end up increasing and holding each value once. */
  method Deduplicate(data: array<bv32>) returns (uniqueCount: int)
    requires data.Length > 0 && NonDecreasing(data[..])
    modifies data
    ensures 1 <= uniqueCount <= data.Length
    ensures Increasing(data[..uniqueCount])
    ensures forall x :: x in data[..uniqueCount] <==> x in old(data[..])
  {
    ghost var s := data[..];
    uniqueCount := 1;
    var i := 1;
    assert s[..1] == data[..1];
    while i < data.Length
      invariant 1 <= uniqueCount <= i <= data.Length
      invariant forall j :: i <= j < data.Length ==> data[j] == s[j]
      invariant data[uniqueCount - 1] == s[i - 1]
      invariant Increasing(data[..uniqueCount])
      invariant forall x :: x in data[..uniqueCount] <==> x in s[..i]
    {
      ghost var kept := data[..uniqueCount];
      assert data[i] == s[i];
      if data[i] != data[uniqueCount - 1] {
        KeepStep(kept, s, i);
        data[uniqueCount] := data[i];
        assert data[..uniqueCount + 1] == kept + [s[i]];
        uniqueCount := uniqueCount + 1;
      } else {
        SkipStep(kept, s, i);
      }
      i := i + 1;
    }
    assert s[..i] == s;
  }

  // ---------------------------------------------------------------------
  // The bitmap: keys and containers side by side

  /** The values listed as C# ints. */
  function Ints(s: seq<bv32>): (r: seq<int>)
    ensures |r| == |s|
  {
    seq(|s|, i requires 0 <= i < |s| => Int32Of(s[i]))
  }

  /** The low halves of values. */
  function Lows(s: seq<bv32>): (r: seq<bv16>)
    ensures |r| == |s|
  {
    seq(|s|, i requires 0 <= i < |s| => LowBits(s[i]))
  }

  ghost predicate AllValid(cs: seq<Container>)
  {
    forall g :: 0 <= g < |cs| ==> cs[g].Valid()
  }

  /** The values of the groups in order: `key << 16 | low` for every low
      value of every container. */
  ghost function Flatten(keys: seq<bv16>, cs: seq<Container>): seq<int>
    requires |keys| == |cs| && AllValid(cs)
    decreases |keys|
  {
    if keys == [] then []
    else Flatten(keys[..|keys| - 1], cs[..|cs| - 1]) + Keyed(KeyBase(keys[|keys| - 1]), cs[|cs| - 1].Listing())
  }

  lemma FlattenSnoc(keys: seq<bv16>, cs: seq<Container>, k: bv16, c: Container)
    requires |keys| == |cs| && AllValid(cs) && c.Valid()
    ensures AllValid(cs + [c])
    ensures Flatten(keys + [k], cs + [c]) == Flatten(keys, cs) + Keyed(KeyBase(k), c.Listing())
  {
    assert (keys + [k])[..|keys|] == keys;
    assert (cs + [c])[..|cs|] == cs;
  }

  /** The values of the first n groups. */
  ghost function FlattenUpTo(keys: seq<bv16>, cs: seq<Container>, n: int): seq<int>
    requires |keys| == |cs| && AllValid(cs) && 0 <= n <= |keys|
  {
    assert AllValid(cs[..n]);
    Flatten(keys[..n], cs[..n])
  }

  lemma FlattenUpToStep(keys: seq<bv16>, cs: seq<Container>, n: int)
    requires |keys| == |cs| && AllValid(cs) && 0 <= n < |keys|
    ensures FlattenUpTo(keys, cs, n + 1) == FlattenUpTo(keys, cs, n) + Keyed(KeyBase(keys[n]), cs[n].Listing())
  {
    assert keys[..n + 1][..n] == keys[..n];
    assert cs[..n + 1][..n] == cs[..n];
  }

  lemma FlattenUpToAll(keys: seq<bv16>, cs: seq<Container>)
    requires |keys| == |cs| && AllValid(cs)
    ensures FlattenUpTo(keys, cs, |keys|) == Flatten(keys, cs)
  {
    assert keys[..|keys|] == keys && cs[..|cs|] == cs;
  }

  /** The RoaringArray behind a RoaringBitmap: the keys (high halves) in
      order of creation and one container per key. */
  datatype RoaringBitmap = RoaringBitmap(keys: seq<bv16>, containers: seq<Container>)
  {
    ghost predicate Valid()
    {
      |keys| == |containers| && AllValid(containers)
    }

    /** The values the bitmap enumerates, as ToArray lists them. */
    ghost function Listing(): seq<int>
      requires Valid()
    {
      Flatten(keys, containers)
    }

    /** The shape Create gives a bitmap: neighbouring keys differ, every
        container is non-empty and is a BitmapContainer exactly when it
        holds more than MaxSize values. */
    ghost predicate Canonical()
    {
      Valid()
      && (forall g :: 0 < g < |keys| ==> keys[g - 1] != keys[g])
      && (forall g :: 0 <= g < |containers| ==>
            containers[g].Cardinality() > 0
            && (containers[g].Bitmap? <==> containers[g].Cardinality() > MaxSize))
    }

    /** The keys increase. */
    ghost predicate KeysAscending()
    {
      forall g :: 0 < g < |keys| ==> keys[g - 1] as int < keys[g] as int
    }

    /** ToArray: every container's EnumerateFill with its key shifted into
        the high half, in key order. */
    method ToArray() returns (list: seq<int>)
      requires Valid()
      ensures list == Listing()
    {
      list := [];
      var g := 0;
      while g < |keys|
        invariant 0 <= g <= |keys|
        invariant list == FlattenUpTo(keys, containers, g)
      {
        FlattenUpToStep(keys, containers, g);
        list := containers[g].EnumerateFill(list, KeyBase(keys[g]));
        g := g + 1;
      }
      FlattenUpToAll(keys, containers);
    }

    /** Equals: the same keys and pairwise equal containers. */
    method Equals(other: RoaringBitmap) returns (r: bool)
      requires Valid() && other.Valid()
      ensures r <==> keys == other.keys && |containers| == |other.containers|
                     && forall g :: 0 <= g < |containers| ==> containers[g].SameAs(other.containers[g])
    {
      if |keys| != |other.keys| {
        return false;
      }
      var g := 0;
      while g < |keys|
        invariant 0 <= g <= |keys|
        invariant keys[..g] == other.keys[..g]
        invariant forall h :: 0 <= h < g ==> containers[h].SameAs(other.containers[h])
      {
        if keys[g] != other.keys[g] {
          return false;
        }
        var same := containers[g].EqualsInternal(other.containers[g]);
        if !same {
          return false;
        }
        assert keys[..g + 1] == keys[..g] + [keys[g]];
        assert other.keys[..g + 1] == other.keys[..g] + [other.keys[g]];
        g := g + 1;
      }
      assert keys[..g] == keys && other.keys[..g] == other.keys;
      return true;
    }
  }

  /** Pairwise equal containers under the same keys list the same values. */
  lemma {:induction false} SameFlatten(keys: seq<bv16>, xs: seq<Container>, ys: seq<Container>)
    requires |keys| == |xs| == |ys| && AllValid(xs) && AllValid(ys)
    requires forall g :: 0 <= g < |xs| ==> xs[g].SameAs(ys[g])
    ensures Flatten(keys, xs) == Flatten(keys, ys)
    decreases |keys|
  {
    if keys != [] {
      var n := |keys| - 1;
      SameFlatten(keys[..n], xs[..n], ys[..n]);
      SameAsIsSameSet(xs[n], ys[n]);
    }
  }

  /** Equal bitmaps enumerate the same values. */
  lemma EqualsSameValues(a: RoaringBitmap, b: RoaringBitmap)
    requires a.Valid() && b.Valid()
    requires a.keys == b.keys && |a.containers| == |b.containers|
    requires forall g :: 0 <= g < |a.containers| ==> a.containers[g].SameAs(b.containers[g])
    ensures a.Listing() == b.Listing()
  {
    SameFlatten(a.keys, a.containers, b.containers);
  }

  // ---------------------------------------------------------------------
  // Grouping by high half

  /** The inner `while` of the grouping loop: move past every value that
      shares the key of unique[start]. */
  method RunEnd(unique: seq<bv32>, start: int) returns (index: int)
    requires 0 <= start < |unique|
    ensures start < index <= |unique|
    ensures forall j :: start <= j < index ==> HighBits(unique[j]) == HighBits(unique[start])
    ensures index < |unique| ==> HighBits(unique[index]) != HighBits(unique[start])
  {
    var hb := HighBits(unique[start]);
    index := start + 1;
    while index < |unique| && HighBits(unique[index]) == hb
      invariant start < index <= |unique|
      invariant forall j :: start <= j < index ==> HighBits(unique[j]) == hb
    {
      index := index + 1;
    }
  }

  /** The low halves of an increasing run under one key increase. */
  lemma RunLowsAscending(run: seq<bv32>)
    requires Increasing(run)
    requires forall j :: 0 <= j < |run| ==> HighBits(run[j]) == HighBits(run[0])
    ensures Ascending(Lows(run))
  {
    var ls := Lows(run);
    forall i | 0 < i < |ls|
      ensures ls[i - 1] as int < ls[i] as int
    {
      LowOrder(run[i - 1], run[i]);
    }
    AscendingOfNeighbours(ls);
  }

  /** Putting the key back on the low halves of a run gives its values. */
  lemma RunKeyed(run: seq<bv32>, hb: bv16)
    requires forall j :: 0 <= j < |run| ==> HighBits(run[j]) == hb
    ensures Keyed(KeyBase(hb), Lows(run)) == Ints(run)
  {
    forall j | 0 <= j < |run|
      ensures Keyed(KeyBase(hb), Lows(run))[j] == Ints(run)[j]
    {
      JoinHalves(run[j]);
    }
  }

  /** A BitmapContainer built from ascending values enumerates exactly
      those values. */
  lemma FilledElements(ls: seq<bv16>)
    requires Ascending(ls)
    ensures Elements(Filled(ls, false)) == ls
  {
    var bm := Filled(ls, false);
    ElementsAsArray(bm);
    forall u
      ensures u in Elements(bm) <==> u in ls
    {
      FilledHas(ls, false, u);
    }
    SameMembersEqual(Elements(bm), ls);
  }

  /** The low halves of a run of unique, under the run's key: ascending,
      and the run's values once the key is put back. */
  lemma RunLows(unique: seq<bv32>, start: int, index: int)
    requires 0 <= start < index <= |unique| && Increasing(unique)
    requires forall j :: start <= j < index ==> HighBits(unique[j]) == HighBits(unique[start])
    ensures Ascending(Lows(unique[start..index]))
    ensures Keyed(KeyBase(HighBits(unique[start])), Lows(unique[start..index])) == Ints(unique[start..index])
  {
    var run := unique[start..index];
    assert Increasing(run) by {
      forall i | 0 < i < |run|
        ensures Int32Of(run[i - 1]) < Int32Of(run[i])
      {
        assert run[i - 1] == unique[start + i - 1] && run[i] == unique[start + i];
      }
    }
    RunLowsAscending(run);
    RunKeyed(run, HighBits(unique[start]));
  }

  /** The body of the grouping loop after the run is found: copy the low
      halves into `lows` and pick the container by the run's length. */
  method GroupContainer(unique: seq<bv32>, start: int, index: int) returns (c: Container)
    requires 0 <= start < index <= |unique| && Increasing(unique)
    requires forall j :: start <= j < index ==> HighBits(unique[j]) == HighBits(unique[start])
    ensures c.Valid() && c.Cardinality() == index - start
    ensures c.Bitmap? <==> index - start > MaxSize
    ensures Keyed(KeyBase(HighBits(unique[start])), c.Listing()) == Ints(unique[start..index])
  {
    var count := index - start;
    var lows := new bv16[count];
    for j := 0 to count
      invariant forall k :: 0 <= k < j ==> lows[k] == LowBits(unique[start + k])
    {
      lows[j] := LowBits(unique[start + j]);
    }
    assert lows[..] == Lows(unique[start..index]);
    RunLows(unique, start, index);
    if count > MaxSize {
      var bc := CreateBitmap(count, lows[..], false);
      assert lows[..][..count] == lows[..];
      AscendingDistinct(lows[..]);
      FilledCount(lows[..], false);
      FilledElements(lows[..]);
      c := Bitmap(bc);
    } else {
      c := Array(CreateArray(lows[..]));
    }
  }

  /** Splitting the values splits their integers. */
  lemma IntsSplit(s: seq<bv32>, start: int, index: int)
    requires 0 <= start <= index <= |s|
    ensures Ints(s[..index]) == Ints(s[..start]) + Ints(s[start..index])
  {
  }

  /** No value of s is negative. */
  ghost predicate NonNegative(s: seq<bv32>)
  {
    forall i :: 0 <= i < |s| ==> 0 <= Int32Of(s[i])
  }

  /** The invariant of the grouping loop after the values before index:
      their groups are built, the last key is the high half of the last
      value grouped, and the next value starts a new group. */
  ghost predicate GroupedUpTo(unique: seq<bv32>, rb: RoaringBitmap, index: int)
  {
    && 0 <= index <= |unique|
    && rb.Canonical()
    && rb.Listing() == Ints(unique[..index])
    && (index == 0 <==> rb.keys == [])
    && (index > 0 ==> rb.keys[|rb.keys| - 1] == HighBits(unique[index - 1]))
    && (0 < index < |unique| ==> HighBits(unique[index]) != HighBits(unique[index - 1]))
    && (NonNegative(unique) ==> rb.KeysAscending())
  }

  /** The grouping loop over the deduplicated values: one key and one
      container per maximal run of values sharing their high half. */
  method Group(unique: seq<bv32>) returns (rb: RoaringBitmap)
    requires Increasing(unique)
    ensures rb.Canonical() && rb.Listing() == Ints(unique)
    ensures NonNegative(unique) ==> rb.KeysAscending()
  {
    rb := RoaringBitmap([], []);
    var index := 0;
    while index < |unique|
      invariant GroupedUpTo(unique, rb, index)
    {
      var hb := HighBits(unique[index]);
      var start := index;
      index := RunEnd(unique, start);
      var c := GroupContainer(unique, start, index);
      GroupStep(unique, rb, start, index, c);
      rb := RoaringBitmap(rb.keys + [hb], rb.containers + [c]);
    }
    assert unique[..index] == unique;
  }

  /** A new group after the last keeps the shape Create promises. */
  lemma CanonicalSnoc(keys: seq<bv16>, cs: seq<Container>, k: bv16, c: Container)
    requires RoaringBitmap(keys, cs).Canonical()
    requires c.Valid() && c.Cardinality() > 0 && (c.Bitmap? <==> c.Cardinality() > MaxSize)
    requires keys != [] ==> keys[|keys| - 1] != k
    ensures RoaringBitmap(keys + [k], cs + [c]).Canonical()
  {
    var ks, ds := keys + [k], cs + [c];
    assert forall g :: 0 <= g < |cs| ==> ds[g] == cs[g];
    assert forall g :: 0 <= g < |keys| ==> ks[g] == keys[g];
  }

  /** A new key above the last keeps the keys ascending. */
  lemma AscendingSnoc(keys: seq<bv16>, cs: seq<Container>, k: bv16, c: Container)
    requires RoaringBitmap(keys, cs).KeysAscending()
    requires keys != [] ==> keys[|keys| - 1] as int < k as int
    ensures RoaringBitmap(keys + [k], cs + [c]).KeysAscending()
  {
    var ks := keys + [k];
    assert forall g :: 0 <= g < |keys| ==> ks[g] == keys[g];
  }

  /** One turn of the grouping loop keeps its invariant. */
  lemma GroupStep(unique: seq<bv32>, rb: RoaringBitmap, start: int, index: int, c: Container)
    requires Increasing(unique) && GroupedUpTo(unique, rb, start) && start < index <= |unique|
    requires forall j :: start <= j < index ==> HighBits(unique[j]) == HighBits(unique[start])
    requires index < |unique| ==> HighBits(unique[index]) != HighBits(unique[start])
    requires c.Valid() && c.Cardinality() == index - start
    requires c.Bitmap? <==> index - start > MaxSize
    requires Keyed(KeyBase(HighBits(unique[start])), c.Listing()) == Ints(unique[start..index])
    ensures GroupedUpTo(unique, RoaringBitmap(rb.keys + [HighBits(unique[start])], rb.containers + [c]), index)
  {
    var hb := HighBits(unique[start]);
    var next := RoaringBitmap(rb.keys + [hb], rb.containers + [c]);
    GroupShapeStep(unique, rb, start, index, c);
    GroupOrderStep(unique, rb.keys, rb.containers, start, c);
    assert next.keys[|next.keys| - 1] == HighBits(unique[index - 1]);
  }

  /** The new group keeps the bitmap canonical and lists the values grouped
      so far. */
  lemma GroupShapeStep(unique: seq<bv32>, rb: RoaringBitmap, start: int, index: int, c: Container)
    requires GroupedUpTo(unique, rb, start) && start < index <= |unique|
    requires c.Valid() && c.Cardinality() == index - start
    requires c.Bitmap? <==> index - start > MaxSize
    requires Keyed(KeyBase(HighBits(unique[start])), c.Listing()) == Ints(unique[start..index])
    ensures RoaringBitmap(rb.keys + [HighBits(unique[start])], rb.containers + [c]).Canonical()
    ensures RoaringBitmap(rb.keys + [HighBits(unique[start])], rb.containers + [c]).Listing() == Ints(unique[..index])
  {
    var keys, cs, hb := rb.keys, rb.containers, HighBits(unique[start]);
    CanonicalSnoc(keys, cs, hb, c);
    FlattenSnoc(keys, cs, hb, c);
    IntsSplit(unique, start, index);
  }

  /** On non-negative values the new key is above the last one. */
  lemma GroupOrderStep(unique: seq<bv32>, keys: seq<bv16>, cs: seq<Container>, start: int, c: Container)
    requires Increasing(unique) && 0 <= start < |unique|
    requires start == 0 ==> keys == []
    requires start > 0 ==> keys != [] && keys[|keys| - 1] == HighBits(unique[start - 1])
    requires start > 0 ==> HighBits(unique[start]) != HighBits(unique[start - 1])
    requires NonNegative(unique) ==> RoaringBitmap(keys, cs).KeysAscending()
    ensures NonNegative(unique) ==> RoaringBitmap(keys + [HighBits(unique[start])], cs + [c]).KeysAscending()
  {
    if NonNegative(unique) {
      if start > 0 {
        var x, y := unique[start - 1], unique[start];
        assert Int32Of(x) < Int32Of(y);
        assert 0 <= Int32Of(x);
        KeyBelow(x, y);
      }
      AscendingSnoc(keys, cs, HighBits(unique[start]), c);
    }
  }

  /** Of two non-negative values with different keys, the smaller has the
      smaller key. */
  lemma KeyBelow(x: bv32, y: bv32)
    requires 0 <= Int32Of(x) < Int32Of(y) && HighBits(x) != HighBits(y)
    ensures HighBits(x) as int < HighBits(y) as int
  {
    HighOrder(x, y);
    EqualAsInt(HighBits(x), HighBits(y));
  }

  // ---------------------------------------------------------------------
  // Create

  /** What Create promises about a bitmap built from values: it lists
      each distinct value once, in increasing order. */
  ghost predicate Represents(rb: RoaringBitmap, values: seq<bv32>)
    requires rb.Valid()
  {
    (forall i :: 0 < i < |rb.Listing()| ==> rb.Listing()[i - 1] < rb.Listing()[i])
    && (forall v :: v in rb.Listing() <==> v in Ints(values))
  }

  lemma IntsSameMembers(a: seq<bv32>, b: seq<bv32>)
    requires forall x :: x in a <==> x in b
    ensures forall v :: v in Ints(a) <==> v in Ints(b)
  {
    forall v | v in Ints(a)
      ensures v in Ints(b)
    {
      var i :| 0 <= i < |a| && Ints(a)[i] == v;
      var x := a[i];
      assert x in a;
      var j :| 0 <= j < |b| && b[j] == x;
      assert Ints(b)[j] == v;
    }
    forall v | v in Ints(b)
      ensures v in Ints(a)
    {
      var j :| 0 <= j < |b| && Ints(b)[j] == v;
      var x := b[j];
      assert x in b;
      var i :| 0 <= i < |a| && a[i] == x;
      assert Ints(a)[i] == v;
    }
  }

  /** Create(IEnumerable<int>) handed an int[]: the caller's array is
      sorted and deduplicated in place, so afterwards it starts with the
      bitmap's values in increasing order. */
  method CreateFromArray(data: array<bv32>) returns (rb: RoaringBitmap)
    modifies data
    ensures rb.Canonical() && Represents(rb, old(data[..]))
    ensures data.Length == 0 ==> rb.keys == []
    ensures NonNegative(old(data[..])) ==> rb.KeysAscending()
    ensures |rb.Listing()| <= data.Length && Ints(data[..|rb.Listing()|]) == rb.Listing()
  {
    if data.Length == 0 {
      return RoaringBitmap([], []);
    }
    ghost var values := data[..];
    SortArray(data);
    SortSpec(values);
    assert forall x :: x in data[..] <==> x in values by {
      assert multiset(data[..]) == multiset(values);
      forall x ensures x in data[..] <==> x in values {
        assert x in data[..] <==> x in multiset(data[..]);
        assert x in values <==> x in multiset(values);
      }
    }
    var uniqueCount := Deduplicate(data);
    var unique := data[..uniqueCount];
    IntsSameMembers(unique, values);
    assert NonNegative(values) ==> NonNegative(unique) by {
      if NonNegative(values) {
        forall i | 0 <= i < |unique|
          ensures 0 <= Int32Of(unique[i])
        {
          var x := unique[i];
          assert x in unique;
          var k :| 0 <= k < |values| && values[k] == x;
        }
      }
    }
    rb := Group(unique);
  }

  /** Create(IEnumerable<int>) on any other sequence: `ToArray()` makes a
      fresh array, which the same steps sort, deduplicate and group. */
  method Create(values: seq<bv32>) returns (rb: RoaringBitmap)
    ensures rb.Canonical() && Represents(rb, values)
    ensures values == [] ==> rb.keys == []
    ensures NonNegative(values) ==> rb.KeysAscending()
  {
    var data := new bv32[|values|](i requires 0 <= i < |values| => values[i]);
    assert data[..] == values;
    rb := CreateFromArray(data);
  }

  /** Create(params int[]): passes the array itself on, so it behaves as
      Create given that array. */
  method CreateParams(values: array<bv32>) returns (rb: RoaringBitmap)
    modifies values
    ensures rb.Canonical() && Represents(rb, old(values[..]))
    ensures values.Length == 0 ==> rb.keys == []
    ensures NonNegative(old(values[..])) ==> rb.KeysAscending()
    ensures |rb.Listing()| <= values.Length && Ints(values[..|rb.Listing()|]) == rb.Listing()
  {
    rb := CreateFromArray(values);
  }
}
