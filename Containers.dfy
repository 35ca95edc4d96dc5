/** The two kinds of container that hold the low 16 bits of the values
    sharing one high 16-bit key: ArrayContainer (ArrayContainer.cs), a
    sorted array of at most a few thousand members, and BitmapContainer
    (BitmapContainer.cs), a 1024-word dense buffer. This module holds both
    kinds and everything that involves only one of them; the set algebra
    between them is in module Operators. */
module Containers {
  import opened Words
  import opened Buffers
  import opened SortedArrays

  /** What a read from a stream gives: the value, or the failure of a
      stream that ends early or of a negative length. */
  datatype Result<T> = Success(value: T) | Failure

  /** C#'s unchecked int arithmetic: the value modulo 2^32, read back in
      two's complement. */
  function Wrap32(x: int): (r: int)
    ensures -0x8000_0000 <= r < 0x8000_0000
    ensures (r - x) % 0x1_0000_0000 == 0
  {
    var m := x % 0x1_0000_0000;
    if m < 0x8000_0000 then m else m - 0x1_0000_0000
  }

  // ---------------------------------------------------------------------
  // C#'s unchecked hash-code arithmetic

  /** One step `code = code * 23 + x` of the hash loops, in unchecked
      32-bit arithmetic. */
  function HashStep(code: int, x: int): int
  {
    Wrap32(code * 23 + x)
  }

  /** The hash loops over xs, from the running code `code`. */
  function HashFold(code: int, xs: seq<int>): int
  {
    if xs == [] then code else HashStep(HashFold(code, xs[..|xs| - 1]), xs[|xs| - 1])
  }

  function Pow23(n: nat): int
  {
    if n == 0 then 1 else 23 * Pow23(n - 1)
  }

  /** The hash polynomial `x0 * 23^(n-1) + ... + x(n-1)` in unbounded
      integers. */
  function Polynomial(xs: seq<int>): int
  {
    if xs == [] then 0 else Polynomial(xs[..|xs| - 1]) * 23 + xs[|xs| - 1]
  }

  /** Wrap32 only sees its argument modulo 2^32. */
  lemma Wrap32Congruent(x: int, y: int, m: int)
    requires x == y + m * 0x1_0000_0000
    ensures Wrap32(x) == Wrap32(y)
  {
    assert x % 0x1_0000_0000 == y % 0x1_0000_0000;
  }

  /** Wrapping after every step is the same as wrapping once at the end. */
  lemma HashStepWrap(c: int, y: int, x: int)
    requires (c - y) % 0x1_0000_0000 == 0
    ensures HashStep(c, x) == Wrap32(y * 23 + x)
  {
    var m := (c - y) / 0x1_0000_0000;
    assert c == y + m * 0x1_0000_0000;
    assert c * 23 + x == y * 23 + x + (m * 23) * 0x1_0000_0000;
    Wrap32Congruent(c * 23 + x, y * 23 + x, m * 23);
  }

  /** One more turn of a hash loop. */
  lemma HashFoldStep(code: int, xs: seq<int>, i: int)
    requires 0 <= i < |xs|
    ensures HashFold(code, xs[..i + 1]) == HashStep(HashFold(code, xs[..i]), xs[i])
  {
    assert xs[..i + 1][..i] == xs[..i];
  }

  /** The hash loops compute the hash polynomial, seeded with code, modulo
      2^32: the unchecked arithmetic loses nothing but the high bits. */
  lemma {:induction false} HashFoldIsPolynomial(code: int, xs: seq<int>)
    requires -0x8000_0000 <= code < 0x8000_0000
    ensures HashFold(code, xs) == Wrap32(code * Pow23(|xs|) + Polynomial(xs))
    decreases |xs|
  {
    if xs == [] {
      assert Wrap32(code) == code;
    } else {
      var p := xs[..|xs| - 1];
      HashFoldIsPolynomial(code, p);
      var y := code * Pow23(|p|) + Polynomial(p);
      assert (HashFold(code, p) - y) % 0x1_0000_0000 == 0;
      HashStepWrap(HashFold(code, p), y, xs[|xs| - 1]);
      assert y * 23 + xs[|xs| - 1] == code * Pow23(|xs|) + Polynomial(xs);
    }
  }

  // ---------------------------------------------------------------------
  // The values handed to EnumerateFill's list

  /** The two's-complement value of a 32-bit pattern from the unsigned
      values of its halves: the high half carries the sign (it counts
      0x1_0000 less when its top bit is set), the low half is added. */
  function SignedValue(high: int, low: int): int
  {
    (if high < 0x8000 then high else high - 0x1_0000) * 0x1_0000 + low
  }

  /** C#'s reading of a 32-bit pattern as an int. */
  function Int32Of(x: bv32): int
  {
    SignedValue(((x >> 16) as bv16) as int, ((x & 0xFFFF) as bv16) as int)
  }

  /** EnumerateFill's `key | low`, read as an int. */
  function KeyedValue(key: bv32, low: bv16): int
  {
    Int32Of(key | low as bv32)
  }

  /** `key | low` for each low value in order. */
  function Keyed(key: bv32, lows: seq<bv16>): (r: seq<int>)
    ensures |r| == |lows|
  {
    seq(|lows|, i requires 0 <= i < |lows| => KeyedValue(key, lows[i]))
  }

  // ---------------------------------------------------------------------
  // Filling a dense buffer from a list of values

  /** `bitmap[v >> 6] |= 1UL << v` for the first n values. */
  method SetAll(bitmap: array<bv64>, values: seq<bv16>, n: int)
    requires bitmap.Length == BitmapLength && 0 <= n <= |values|
    modifies bitmap
    ensures bitmap[..] == OrInto(old(bitmap[..]), values[..n])
  {
    ghost var b0 := bitmap[..];
    var i := 0;
    while i < n
      invariant 0 <= i <= n
      invariant bitmap[..] == OrInto(b0, values[..i])
    {
      var v := values[i];
      OrIntoStep(b0, values, i);
      bitmap[WordIndex(v)] := bitmap[WordIndex(v)] | (1 << Offset(v));
      i := i + 1;
    }
  }

  /** `bitmap[v >> 6] ^= 1UL << v` for the first n values. */
  method FlipAll(bitmap: array<bv64>, values: seq<bv16>, n: int)
    requires bitmap.Length == BitmapLength && 0 <= n <= |values|
    modifies bitmap
    ensures bitmap[..] == XorInto(old(bitmap[..]), values[..n])
  {
    ghost var b0 := bitmap[..];
    var i := 0;
    while i < n
      invariant 0 <= i <= n
      invariant bitmap[..] == XorInto(b0, values[..i])
    {
      var v := values[i];
      XorIntoStep(b0, values, i);
      bitmap[WordIndex(v)] := bitmap[WordIndex(v)] ^ (1 << Offset(v));
      i := i + 1;
    }
  }

  /** `bitmap[v >> 6] &= ~(1UL << v)` for the first n values. */
  method ClearAll(bitmap: array<bv64>, values: seq<bv16>, n: int)
    requires bitmap.Length == BitmapLength && 0 <= n <= |values|
    modifies bitmap
    ensures bitmap[..] == AndNotInto(old(bitmap[..]), values[..n])
  {
    ghost var b0 := bitmap[..];
    var i := 0;
    while i < n
      invariant 0 <= i <= n
      invariant bitmap[..] == AndNotInto(b0, values[..i])
    {
      var v := values[i];
      AndNotIntoStep(b0, values, i);
      bitmap[WordIndex(v)] := bitmap[WordIndex(v)] & !(1 << Offset(v));
      i := i + 1;
    }
  }

  /** XorArray's branch-free count step `(int) (1 - 2 * ((previous & mask)
      >> v))`, where mask is `1UL << v` and b the bit of v: -1 when the
      toggled bit was set, 1 when it was clear. */
  method XorGain(previous: bv64, b: bv64) returns (gain: int)
    requires b < 64
    ensures gain == if Bit(previous, b) then -1 else 1
  {
    gain := ToInt32(1 - 2 * ((previous & (1 << b)) >> b));
    XorDelta(previous, b);
  }

  // ---------------------------------------------------------------------
  // The BitmapContainer `*Internal` helpers: the word loop
  // `first[k] op= second[k]` over a whole buffer, then its population
  // count.  The vectorized ArrayContainer primitives run the same loop
  // (their AVX2 loop combines four words per step) and count afterwards.

  /** `first[k] &= second[k]` for every word. */
  method AndInternal(first: array<bv64>, second: seq<bv64>) returns (c: int)
    requires first.Length == BitmapLength && |second| == BitmapLength
    modifies first
    ensures first[..] == AndWords(old(first[..]), second)
    ensures c == Popcnt(first[..])
  {
    ghost var a := first[..];
    var k := 0;
    while k < BitmapLength
      invariant 0 <= k <= BitmapLength
      invariant forall j :: 0 <= j < k ==> first[j] == a[j] & second[j]
      invariant forall j :: k <= j < BitmapLength ==> first[j] == a[j]
    {
      first[k] := first[k] & second[k];
      k := k + 1;
    }
    AndWordsFrom(a, second, first[..]);
    c := Popcnt(first[..]);
  }

  /** `first[k] |= second[k]` for every word. */
  method OrInternal(first: array<bv64>, second: seq<bv64>) returns (c: int)
    requires first.Length == BitmapLength && |second| == BitmapLength
    modifies first
    ensures first[..] == OrWords(old(first[..]), second)
    ensures c == Popcnt(first[..])
  {
    ghost var a := first[..];
    var k := 0;
    while k < BitmapLength
      invariant 0 <= k <= BitmapLength
      invariant forall j :: 0 <= j < k ==> first[j] == a[j] | second[j]
      invariant forall j :: k <= j < BitmapLength ==> first[j] == a[j]
    {
      first[k] := first[k] | second[k];
      k := k + 1;
    }
    OrWordsFrom(a, second, first[..]);
    c := Popcnt(first[..]);
  }

  /** `first[k] ^= second[k]` for every word. */
  method XorInternal(first: array<bv64>, second: seq<bv64>) returns (c: int)
    requires first.Length == BitmapLength && |second| == BitmapLength
    modifies first
    ensures first[..] == XorWords(old(first[..]), second)
    ensures c == Popcnt(first[..])
  {
    ghost var a := first[..];
    var k := 0;
    while k < BitmapLength
      invariant 0 <= k <= BitmapLength
      invariant forall j :: 0 <= j < k ==> first[j] == a[j] ^ second[j]
      invariant forall j :: k <= j < BitmapLength ==> first[j] == a[j]
    {
      first[k] := first[k] ^ second[k];
      k := k + 1;
    }
    XorWordsFrom(a, second, first[..]);
    c := Popcnt(first[..]);
  }

  /** `first[k] &= ~second[k]` for every word. */
  method AndNotInternal(first: array<bv64>, second: seq<bv64>) returns (c: int)
    requires first.Length == BitmapLength && |second| == BitmapLength
    modifies first
    ensures first[..] == AndNotWords(old(first[..]), second)
    ensures c == Popcnt(first[..])
  {
    ghost var a := first[..];
    var k := 0;
    while k < BitmapLength
      invariant 0 <= k <= BitmapLength
      invariant forall j :: 0 <= j < k ==> first[j] == a[j] & !second[j]
      invariant forall j :: k <= j < BitmapLength ==> first[j] == a[j]
    {
      first[k] := first[k] & !second[k];
      k := k + 1;
    }
    AndNotWordsFrom(a, second, first[..]);
    c := Popcnt(first[..]);
  }

  /** `data[k] = ~data[k]` for every word. */
  method NotInternal(data: array<bv64>) returns (c: int)
    requires data.Length == BitmapLength
    modifies data
    ensures data[..] == NotWords(old(data[..]))
    ensures c == Popcnt(data[..])
  {
    ghost var a := data[..];
    var k := 0;
    while k < BitmapLength
      invariant 0 <= k <= BitmapLength
      invariant forall j :: 0 <= j < k ==> data[j] == !a[j]
      invariant forall j :: k <= j < BitmapLength ==> data[j] == a[j]
    {
      data[k] := !data[k];
      k := k + 1;
    }
    NotWordsFrom(a, data[..]);
    c := Popcnt(data[..]);
  }

  // ---------------------------------------------------------------------
  // ArrayContainer

  /** `_content` holds the members, ascending, in its first `_cardinality`
      cells; the cells after them are unused capacity. */
  datatype ArrayContainer = ArrayContainer(content: seq<bv16>, cardinality: int)
  {
    /** The cardinality fits the array, as every constructor ensures. */
    predicate Shaped()
    {
      0 <= cardinality <= |content|
    }

    /** The members, in the order they are stored. */
    function Members(): (m: seq<bv16>)
      requires Shaped()
      ensures |m| == cardinality
    {
      content[..cardinality]
    }

    ghost predicate Valid()
    {
      Shaped() && Ascending(Members())
    }

    /** OrArray: set the member bits of bitmap in place and return how
        many of them were clear before. */
    method OrArray(bitmap: array<bv64>) returns (extra: int)
      requires Valid() && bitmap.Length == BitmapLength
      modifies bitmap
      ensures bitmap[..] == OrInto(old(bitmap[..]), Members())
      ensures extra == Popcnt(bitmap[..]) - Popcnt(old(bitmap[..]))
      ensures extra == CountClear(old(bitmap[..]), Members())
    {
      ghost var b0 := bitmap[..];
      extra := 0;
      var yC := cardinality;
      var i := 0;
      while i < yC
        invariant 0 <= i <= yC
        invariant bitmap[..] == OrInto(b0, content[..i])
        invariant extra == Popcnt(bitmap[..]) - Popcnt(b0)
      {
        var yValue := content[i];
        var index := WordIndex(yValue);
        var b := Offset(yValue);
        var previous := bitmap[index];
        var after := previous | (1 << b);
        var gain := ToInt32((previous - after) >> 63);
        ghost var bm := bitmap[..];
        OrIntoStep(b0, content, i);
        SetMemberIs(bm, yValue, b, previous, after);
        OrGainStep(bm, yValue, b, previous, after, gain);
        bitmap[index] := after;
        assert bitmap[..] == bm[index := after];
        extra := extra + gain;
        i := i + 1;
      }
      AscendingDistinct(Members());
      OrIntoCount(b0, Members());
    }

    /** XorArray: toggle the member bits of bitmap in place; the result is
        the number of member bits that were clear minus the number that
        were set. */
    method XorArray(bitmap: array<bv64>) returns (extra: int)
      requires Valid() && bitmap.Length == BitmapLength
      modifies bitmap
      ensures bitmap[..] == XorInto(old(bitmap[..]), Members())
      ensures extra == Popcnt(bitmap[..]) - Popcnt(old(bitmap[..]))
      ensures extra == CountClear(old(bitmap[..]), Members()) - CountSet(old(bitmap[..]), Members())
    {
      ghost var b0 := bitmap[..];
      extra := 0;
      var yC := cardinality;
      var i := 0;
      while i < yC
        invariant 0 <= i <= yC
        invariant bitmap[..] == XorInto(b0, content[..i])
        invariant extra == Popcnt(bitmap[..]) - Popcnt(b0)
      {
        var yValue := content[i];
        var index := WordIndex(yValue);
        var b := Offset(yValue);
        var previous := bitmap[index];
        var mask := 1 << b;
        var after := previous ^ mask;
        var gain := XorGain(previous, b);
        ghost var bm := bitmap[..];
        XorIntoStep(b0, content, i);
        FlipMemberIs(bm, yValue, b, previous, mask, after);
        XorGainStep(bm, yValue, b, previous, mask, gain);
        bitmap[index] := after;
        assert bitmap[..] == bm[index := after];
        extra := extra + gain;
        i := i + 1;
      }
      AscendingDistinct(Members());
      XorIntoCount(b0, Members());
    }

    /** AndNotArray: clear the member bits of bitmap in place and return
        minus the number of them that were set. */
    method AndNotArray(bitmap: array<bv64>) returns (extra: int)
      requires Valid() && bitmap.Length == BitmapLength
      modifies bitmap
      ensures bitmap[..] == AndNotInto(old(bitmap[..]), Members())
      ensures extra == Popcnt(bitmap[..]) - Popcnt(old(bitmap[..]))
      ensures extra == 0 - CountSet(old(bitmap[..]), Members())
      ensures -cardinality <= extra <= 0
    {
      ghost var b0 := bitmap[..];
      extra := 0;
      var yC := cardinality;
      var i := 0;
      while i < yC
        invariant 0 <= i <= yC
        invariant bitmap[..] == AndNotInto(b0, content[..i])
        invariant extra == Popcnt(bitmap[..]) - Popcnt(b0)
      {
        var yValue := content[i];
        var index := WordIndex(yValue);
        var b := Offset(yValue);
        var previous := bitmap[index];
        var after := previous & !(1 << b);
        var loss := ToInt32((previous ^ after) >> b);
        ghost var bm := bitmap[..];
        AndNotIntoStep(b0, content, i);
        ClearedWith(previous, yValue, b);
        ClearMemberIs(bm, yValue, after);
        AndNotLossStep(bm, yValue, b, previous, after, loss);
        bitmap[index] := after;
        assert bitmap[..] == bm[index := after];
        extra := extra - loss;
        i := i + 1;
      }
      AscendingDistinct(Members());
      AndNotIntoCount(b0, Members());
      CountsSum(b0, Members());
    }

    /** The scratch buffer of the vectorized paths: the members' own bits,
        set into a zeroed buffer. */
    method MembersBuffer() returns (scratch: array<bv64>)
      requires Shaped()
      ensures fresh(scratch) && scratch[..] == OrInto(Zeros(), Members())
    {
      scratch := new bv64[BitmapLength](_ => 0);
      assert scratch[..] == Zeros();
      SetAll(scratch, content, cardinality);
    }

    /** OrArrayVectorized: OR the members' buffer into bitmap word by word
        and return the change of the population count; without AVX2 it is
        OrArray. */
    method OrArrayVectorized(bitmap: array<bv64>, avx2: bool) returns (extra: int)
      requires Valid() && bitmap.Length == BitmapLength
      modifies bitmap
      ensures bitmap[..] == OrInto(old(bitmap[..]), Members())
      ensures extra == Popcnt(bitmap[..]) - Popcnt(old(bitmap[..]))
    {
      if !avx2 {
        extra := OrArray(bitmap);
        return;
      }
      ghost var b0 := bitmap[..];
      var scratch := MembersBuffer();
      var before: int := Popcnt(bitmap[..]);
      var after := OrInternal(bitmap, scratch[..]);
      OrRoutesAgree(b0, Members());
      extra := after - before;
    }

    /** XorArrayVectorized: XOR the members' buffer into bitmap word by
        word; without AVX2 it is XorArray. */
    method XorArrayVectorized(bitmap: array<bv64>, avx2: bool) returns (extra: int)
      requires Valid() && bitmap.Length == BitmapLength
      modifies bitmap
      ensures bitmap[..] == XorInto(old(bitmap[..]), Members())
      ensures extra == Popcnt(bitmap[..]) - Popcnt(old(bitmap[..]))
    {
      if !avx2 {
        extra := XorArray(bitmap);
        return;
      }
      ghost var b0 := bitmap[..];
      var scratch := MembersBuffer();
      var before: int := Popcnt(bitmap[..]);
      var after := XorInternal(bitmap, scratch[..]);
      AscendingDistinct(Members());
      XorRoutesAgree(b0, Members());
      extra := after - before;
    }

    /** AndNotArrayVectorized: clear the members' buffer from bitmap word
        by word (`AndNot(right, left)` is `left & ~right`); without AVX2
        it is AndNotArray. */
    method AndNotArrayVectorized(bitmap: array<bv64>, avx2: bool) returns (extra: int)
      requires Valid() && bitmap.Length == BitmapLength
      modifies bitmap
      ensures bitmap[..] == AndNotInto(old(bitmap[..]), Members())
      ensures extra == Popcnt(bitmap[..]) - Popcnt(old(bitmap[..]))
    {
      if !avx2 {
        extra := AndNotArray(bitmap);
        return;
      }
      ghost var b0 := bitmap[..];
      var scratch := MembersBuffer();
      var before: int := Popcnt(bitmap[..]);
      var after := AndNotInternal(bitmap, scratch[..]);
      AndNotRoutesAgree(b0, Members());
      extra := after - before;
    }

    /** Equals(ArrayContainer): the same cardinality and the same members,
        compared cell by cell. */
    method Equals(other: ArrayContainer) returns (r: bool)
      requires Shaped() && other.Shaped()
      ensures r <==> cardinality == other.cardinality && Members() == other.Members()
    {
      if cardinality != other.cardinality {
        return false;
      }
      var i := 0;
      while i < cardinality
        invariant 0 <= i <= cardinality
        invariant content[..i] == other.content[..i]
      {
        if content[i] != other.content[i] {
          assert Members()[i] != other.Members()[i];
          return false;
        }
        assert content[..i + 1] == content[..i] + [content[i]];
        assert other.content[..i + 1] == other.content[..i] + [other.content[i]];
        i := i + 1;
      }
      return true;
    }

    /** EnumerateFill: append `key | v` for every member v, in order. */
    method EnumerateFill(list: seq<int>, key: bv32) returns (r: seq<int>)
      requires Shaped()
      ensures r == list + Keyed(key, Members())
    {
      r := list;
      var i := 0;
      while i < cardinality
        invariant 0 <= i <= cardinality
        invariant r == list + Keyed(key, content[..i])
      {
        assert Keyed(key, content[..i + 1]) == Keyed(key, content[..i]) + [KeyedValue(key, content[i])];
        r := r + [KeyedValue(key, content[i])];
        i := i + 1;
      }
    }

    /** GetHashCode: 17, then the cardinality, then every member, folded
        with `code * 23 + x` in unchecked 32-bit arithmetic. */
    method GetHashCode() returns (code: int)
      requires Shaped()
      ensures code == HashFold(HashStep(17, cardinality), Widen(Members()))
      ensures -0x8000_0000 <= code < 0x8000_0000
    {
      code := 17;
      code := Wrap32(code * 23 + cardinality);
      ghost var seed := code;
      ghost var values := Widen(Members());
      var i := 0;
      while i < cardinality
        invariant 0 <= i <= cardinality
        invariant code == HashFold(seed, values[..i])
      {
        HashFoldStep(seed, values, i);
        code := Wrap32(code * 23 + content[i] as int);
        i := i + 1;
      }
      assert values[..i] == values;
    }

    /** Serialize: the members, in order, as the stream of ushorts written. */
    method Serialize() returns (written: seq<bv16>)
      requires Shaped()
      ensures written == Members()
    {
      written := [];
      var i := 0;
      while i < cardinality
        invariant 0 <= i <= cardinality
        invariant written == content[..i]
      {
        assert content[..i + 1] == content[..i] + [content[i]];
        written := written + [content[i]];
        i := i + 1;
      }
    }
  }

  /** The ushorts of an array as ints, as the hash loop adds them. */
  function Widen(s: seq<bv16>): (r: seq<int>)
    ensures |r| == |s|
  {
    seq(|s|, i requires 0 <= i < |s| => s[i] as int)
  }

  /** ArrayContainer.Create(ushort[]): the whole array is the content. */
  function CreateArray(values: seq<bv16>): (ac: ArrayContainer)
    ensures ac.Shaped() && ac.Members() == values
  {
    ArrayContainer(values, |values|)
  }

  /** Two ascending containers are Equals exactly when they hold the same
      set of values: the sorted array is a canonical form. */
  lemma {:induction false} ArrayEqualsIsSameSet(x: ArrayContainer, y: ArrayContainer)
    requires x.Valid() && y.Valid()
    ensures (x.cardinality == y.cardinality && x.Members() == y.Members())
        <==> (forall u :: u in x.Members() <==> u in y.Members())
  {
    if forall u :: u in x.Members() <==> u in y.Members() {
      SameMembersEqual(x.Members(), y.Members());
    }
  }

  /** ArrayContainer.Deserialize's result on a stream of ushorts: the
      first `cardinality` of them; a negative length or a stream that ends
      early fails. */
  function DecodeArray(stream: seq<bv16>, cardinality: int): Result<ArrayContainer>
  {
    if cardinality < 0 || cardinality > |stream| then Failure
    else Success(ArrayContainer(stream[..cardinality], cardinality))
  }

  /** ArrayContainer.Deserialize: read `cardinality` ushorts into a new
      array. */
  method DeserializeArray(stream: seq<bv16>, cardinality: int) returns (r: Result<ArrayContainer>)
    ensures r == DecodeArray(stream, cardinality)
  {
    if cardinality < 0 {
      return Failure;
    }
    var data := new bv16[cardinality];
    var i := 0;
    while i < cardinality
      invariant 0 <= i <= cardinality
      invariant i <= |stream|
      invariant data[..i] == stream[..i]
    {
      if i >= |stream| {
        return Failure;
      }
      data[i] := stream[i];
      assert data[..i + 1] == data[..i] + [data[i]];
      assert stream[..i + 1] == stream[..i] + [stream[i]];
      i := i + 1;
    }
    assert data[..] == data[..i];
    return Success(ArrayContainer(data[..], cardinality));
  }

  /** Deserialize reads back what Serialize wrote, whatever follows it in
      the stream, as a container Equals to the original. */
  lemma ArrayRoundTrip(ac: ArrayContainer, rest: seq<bv16>)
    requires ac.Shaped()
    ensures var r := DecodeArray(ac.Members() + rest, ac.cardinality);
      r.Success? && r.value.Shaped() && r.value.cardinality == ac.cardinality
      && r.value.Members() == ac.Members()
  {
    var s := ac.Members() + rest;
    assert s[..ac.cardinality] == ac.Members();
  }

  // ---------------------------------------------------------------------
  // BitmapContainer

  /** 1024 words whose set bits are the members, and the cardinality the
      source caches beside them. */
  datatype BitmapContainer = BitmapContainer(bitmap: seq<bv64>, cardinality: int)
  {
    predicate Sized()
    {
      |bitmap| == BitmapLength
    }

    /** The cached cardinality is the population count of the words. */
    ghost predicate Valid()
    {
      Sized() && cardinality == Popcnt(bitmap)
    }

    /** Contains: the mask test on word `x >> 6`. */
    function Contains(x: bv16): (r: bool)
      requires Sized()
      ensures r == Has(bitmap, x)
    {
      var w := bitmap[WordIndex(x)];
      var b := Offset(x);
      BitByMask(w, b);
      w & (1 << b) != 0
    }

    /** Clone: a fresh copy of the words, for the operators to update. */
    method Clone() returns (data: array<bv64>)
      requires Sized()
      ensures fresh(data) && data[..] == bitmap
    {
      data := new bv64[BitmapLength](k requires 0 <= k < BitmapLength => bitmap[k]);
    }

    /** Equals(BitmapContainer): the same cardinality and all 1024 words. */
    method Equals(other: BitmapContainer) returns (r: bool)
      requires Sized() && other.Sized()
      ensures r <==> cardinality == other.cardinality && bitmap == other.bitmap
    {
      if cardinality != other.cardinality {
        return false;
      }
      var i := 0;
      while i < BitmapLength
        invariant 0 <= i <= BitmapLength
        invariant bitmap[..i] == other.bitmap[..i]
      {
        if bitmap[i] != other.bitmap[i] {
          return false;
        }
        assert bitmap[..i + 1] == bitmap[..i] + [bitmap[i]];
        assert other.bitmap[..i + 1] == other.bitmap[..i] + [other.bitmap[i]];
        i := i + 1;
      }
      assert bitmap[..i] == bitmap && other.bitmap[..i] == other.bitmap;
      return true;
    }

    /** FillArray: write the members into data in ascending order, by
        lowest-set-bit extraction, and return the cached cardinality
        rather than the number of values written.  The two differ when the
        cached cardinality exceeds the popcount (a deserialized container
        is not checked); the cells past the members are then left as they
        were. */
    method FillArray(data: array<bv16>) returns (r: int)
      requires Sized() && data.Length == cardinality && Popcnt(bitmap) <= cardinality
      modifies data
      ensures data[..Popcnt(bitmap)] == Elements(bitmap)
      ensures forall j :: Popcnt(bitmap) <= j < data.Length ==> data[j] == old(data[j])
      ensures r == cardinality
    {
      ElementsCount(bitmap);
      FillWords(data, bitmap);
      r := cardinality;
    }

    /** EnumerateFill: append `key | v` for every member v, ascending. */
    method EnumerateFill(list: seq<int>, key: bv32) returns (r: seq<int>)
      requires Sized()
      ensures r == list + Keyed(key, Elements(bitmap))
    {
      ghost var total := list + Keyed(key, Elements(bitmap));
      ghost var todo := Elements(bitmap);
      r := list;
      var kb: bv16 := 0;
      while kb < 1024
        invariant kb <= 1024 && todo == BufferBits(bitmap, kb)
        invariant r + Keyed(key, todo) == total
        decreases 1024 - kb as int
      {
        WordIndexNext(kb);
        BufferBitsStep(bitmap, kb);
        var w := bitmap[kb as int];
        ghost var word := WordBits(w, 0, kb);
        ghost var rest := BufferBits(bitmap, kb + 1);
        KeyedConcat(key, word, rest);
        EmitAll(r, Keyed(key, word), Keyed(key, rest), total);
        r := EnumerateWord(r, key, w, kb);
        kb := kb + 1;
        todo := rest;
      }
    }

    /** GetHashCode: 17, then the cardinality, then the hash of every word,
        folded with `code * 23 + x` in unchecked 32-bit arithmetic. */
    method GetHashCode() returns (code: int)
      requires Sized()
      ensures code == HashFold(HashStep(17, cardinality), WordHashes(bitmap))
      ensures -0x8000_0000 <= code < 0x8000_0000
    {
      code := 17;
      code := Wrap32(code * 23 + cardinality);
      ghost var seed := code;
      ghost var hashes := WordHashes(bitmap);
      var i := 0;
      while i < BitmapLength
        invariant 0 <= i <= BitmapLength
        invariant code == HashFold(seed, hashes[..i])
      {
        HashFoldStep(seed, hashes, i);
        code := Wrap32(code * 23 + WordHash(bitmap[i]));
        i := i + 1;
      }
      assert hashes[..i] == hashes;
    }

    /** Serialize: the 1024 words as the stream of ulongs written. */
    method Serialize() returns (written: seq<bv64>)
      requires Sized()
      ensures written == bitmap
    {
      written := [];
      var i := 0;
      while i < BitmapLength
        invariant 0 <= i <= BitmapLength
        invariant written == bitmap[..i]
      {
        assert bitmap[..i + 1] == bitmap[..i] + [bitmap[i]];
        written := written + [bitmap[i]];
        i := i + 1;
      }
      assert bitmap[..i] == bitmap;
    }
  }

  /** The outer loop of FillArray: word after word, with a cursor pos
      into data. */
  method FillWords(data: array<bv16>, bitmap: seq<bv64>)
    requires |bitmap| == BitmapLength && |Elements(bitmap)| <= data.Length
    modifies data
    ensures data[..|Elements(bitmap)|] == Elements(bitmap)
    ensures forall j :: |Elements(bitmap)| <= j < data.Length ==> data[j] == old(data[j])
  {
    ghost var total := Elements(bitmap);
    ghost var todo := total;
    var pos := 0;
    var kb: bv16 := 0;
    while kb < 1024
      invariant kb <= 1024 && todo == BufferBits(bitmap, kb)
      invariant 0 <= pos <= data.Length
      invariant data[..pos] + todo == total
      invariant forall j :: pos <= j < data.Length ==> data[j] == old(data[j])
      decreases 1024 - kb as int
    {
      WordIndexNext(kb);
      BufferBitsStep(bitmap, kb);
      var w := bitmap[kb as int];
      ghost var rest := BufferBits(bitmap, kb + 1);
      ghost var written := data[..pos];
      EmitAll(written, WordBits(w, 0, kb), rest, total);
      pos := FillWord(data, pos, w, kb);
      kb := kb + 1;
      todo := rest;
    }
    assert data[..|total|] == data[..pos];
  }

  /** One turn of the `while (bitset != 0)` loops: isolate the lowest set
      bit `t = bitset & (~bitset + 1)`, compute the member
      `(ushort)(shiftedK + PopCount(t - 1))` and clear t.  The member is the
      first of the word, the rest follow. */
  method LowestMember(bitset: bv64, kb: bv16, shiftedK: int) returns (result: bv16, rest: bv64)
    requires bitset != 0 && kb < 1024 && shiftedK == kb as int * 64
    ensures WordBits(bitset, 0, kb) == [result] + WordBits(rest, 0, kb)
    ensures rest < bitset
  {
    result := ((shiftedK + PopCount((bitset & (!bitset + 1)) - 1)) % 65536) as bv16;
    rest := bitset ^ (bitset & (!bitset + 1));
    LowestStep(bitset, kb, shiftedK);
    ClearLowestDecreases(bitset);
  }

  /** The inner `while (bitset != 0)` loop of FillArray on one word: each
      turn isolates the lowest set bit t, writes
      `(ushort)(shiftedK + PopCount(t - 1))` and clears t. */
  method FillWord(data: array<bv16>, pos: int, w: bv64, kb: bv16) returns (next: int)
    requires kb < 1024 && 0 <= pos && pos + |WordBits(w, 0, kb)| <= data.Length
    modifies data
    ensures next == pos + |WordBits(w, 0, kb)|
    ensures data[..next] == old(data[..pos]) + WordBits(w, 0, kb)
    ensures forall j :: next <= j < data.Length ==> data[j] == old(data[j])
  {
    ghost var total := data[..pos] + WordBits(w, 0, kb);
    ghost var todo := WordBits(w, 0, kb);
    var bitset := w;
    var shiftedK := kb as int * 64;
    next := pos;
    while bitset != 0
      invariant todo == WordBits(bitset, 0, kb)
      invariant pos <= next <= data.Length && |total| <= data.Length
      invariant data[..next] + todo == total
      invariant forall j :: next <= j < data.Length ==> data[j] == old(data[j])
      decreases bitset
    {
      var result, rest := LowestMember(bitset, kb, shiftedK);
      ghost var written := data[..next];
      ghost var after := WordBits(rest, 0, kb);
      Emit(written, result, after, total);
      data[next] := result;
      assert data[..next + 1] == written + [result];
      next := next + 1;
      bitset := rest;
      todo := after;
    }
    WordBitsOfZero(0, kb);
  }

  /** Moving a run of members from what is left to what is written. */
  lemma EmitAll<T>(written: seq<T>, run: seq<T>, after: seq<T>, total: seq<T>)
    requires written + (run + after) == total
    ensures (written + run) + after == total && |written| + |run| <= |total|
  {
    assert written + (run + after) == (written + run) + after;
  }

  /** Moving the next member from what is left to what is written. */
  lemma Emit<T>(written: seq<T>, x: T, after: seq<T>, total: seq<T>)
    requires written + ([x] + after) == total
    ensures (written + [x]) + after == total && |written| < |total|
  {
    assert written + ([x] + after) == (written + [x]) + after;
  }

  /** The inner loop of BitmapContainer.EnumerateFill on one word. */
  method EnumerateWord(list: seq<int>, key: bv32, w: bv64, kb: bv16) returns (r: seq<int>)
    requires kb < 1024
    ensures r == list + Keyed(key, WordBits(w, 0, kb))
  {
    var bitset := w;
    var shiftedK := kb as int * 64;
    r := list;
    while bitset != 0
      invariant r + Keyed(key, WordBits(bitset, 0, kb)) == list + Keyed(key, WordBits(w, 0, kb))
      decreases bitset
    {
      var result, rest := LowestMember(bitset, kb, shiftedK);
      KeyedConcat(key, [result], WordBits(rest, 0, kb));
      r := r + [KeyedValue(key, result)];
      bitset := rest;
    }
    WordBitsOfZero(0, kb);
  }

  lemma {:induction false} WordBitsOfZero(n: bv64, kb: bv16)
    requires n <= 64 && kb < 1024
    ensures WordBits(0, n, kb) == []
    decreases 64 - n
  {
    if n < 64 {
      BitOfZero(n);
      WordBitsOfZero(n + 1, kb);
    }
  }

  lemma KeyedConcat(key: bv32, a: seq<bv16>, b: seq<bv16>)
    ensures Keyed(key, a + b) == Keyed(key, a) + Keyed(key, b)
  {
  }

  /** `ulong.GetHashCode()`: the low half XOR the high half, as an int. */
  function WordHash(x: bv64): int
  {
    ToInt32(x ^ (x >> 32))
  }

  function WordHashes(s: seq<bv64>): (r: seq<int>)
    ensures |r| == |s|
  {
    seq(|s|, i requires 0 <= i < |s| => WordHash(s[i]))
  }

  // ---------------------------------------------------------------------
  // Building BitmapContainers

  /** The buffer the BitmapContainer constructor builds from the values
      vs: their bits set in an empty buffer or, negated, cleared from a
      full one. */
  ghost function Filled(vs: seq<bv16>, negated: bool): (bm: seq<bv64>)
    ensures |bm| == BitmapLength
  {
    if negated then AndNotInto(Ones(), vs) else OrInto(Zeros(), vs)
  }

  /** BitmapContainer.Create(cardinality, values, negated) and the
      constructor it calls: the first `cardinality` values go into the
      buffer; the cached cardinality is `cardinality`, or
      `MaxCapacity - cardinality` when negated. */
  method CreateBitmap(cardinality: int, values: seq<bv16>, negated: bool) returns (bc: BitmapContainer)
    requires 0 <= cardinality <= |values|
    ensures bc.Sized() && bc.bitmap == Filled(values[..cardinality], negated)
    ensures bc.cardinality == if negated then MaxCapacity - cardinality else cardinality
  {
    var data := new bv64[BitmapLength](_ => 0);
    if negated {
      FillOnes(data);
      ClearAll(data, values, cardinality);
    } else {
      assert data[..] == Zeros();
      SetAll(data, values, cardinality);
    }
    bc := BitmapContainer(data[..], if negated then MaxCapacity - cardinality else cardinality);
  }

  /** The negated constructor's first loop: every word `ulong.MaxValue`. */
  method FillOnes(data: array<bv64>)
    requires data.Length == BitmapLength
    modifies data
    ensures data[..] == Ones()
  {
    var i := 0;
    while i < BitmapLength
      invariant 0 <= i <= BitmapLength
      invariant forall j :: 0 <= j < i ==> data[j] == 0xFFFF_FFFF_FFFF_FFFF
    {
      data[i] := 0xFFFF_FFFF_FFFF_FFFF;
      i := i + 1;
    }
  }

  /** The constructor's buffer holds the values, or with negated every
      other 16-bit value. */
  lemma FilledHas(vs: seq<bv16>, negated: bool, u: bv16)
    ensures Has(Filled(vs, negated), u) <==> (u in vs) != negated
  {
    if negated {
      AndNotIntoHas(Ones(), vs, u);
      OnesHasAll(u);
    } else {
      OrIntoHas(Zeros(), vs, u);
      ZerosHasNothing(u);
    }
  }

  /** For distinct values the cached cardinality is the population count,
      so every BitmapContainer the constructor builds is Valid. */
  lemma FilledCount(vs: seq<bv16>, negated: bool)
    requires Distinct(vs)
    ensures Popcnt(Filled(vs, negated)) == if negated then MaxCapacity - |vs| else |vs|
  {
    FromValuesCount(vs);
  }

  /** BitmapContainer.CreateXor: toggle the first `firstCardinality`
      values of first, then the first `secondCardinality` of second, in an
      empty buffer, and count the result. */
  method CreateXor(first: seq<bv16>, firstCardinality: int, second: seq<bv16>, secondCardinality: int)
    returns (bc: BitmapContainer)
    requires 0 <= firstCardinality <= |first| && 0 <= secondCardinality <= |second|
    ensures bc.Valid()
    ensures bc.bitmap == XorInto(XorInto(Zeros(), first[..firstCardinality]), second[..secondCardinality])
  {
    var data := new bv64[BitmapLength](_ => 0);
    assert data[..] == Zeros();
    FlipAll(data, first, firstCardinality);
    FlipAll(data, second, secondCardinality);
    var cardinality := Popcnt(data[..]);
    bc := BitmapContainer(data[..], cardinality);
  }

  /** For two duplicate-free lists CreateXor holds exactly the values in
      one list and not the other. */
  lemma CreateXorHas(a: seq<bv16>, b: seq<bv16>, u: bv16)
    requires Distinct(a) && Distinct(b)
    ensures Has(XorInto(XorInto(Zeros(), a), b), u) <==> (u in a) != (u in b)
  {
    XorIntoHas(Zeros(), a, u);
    XorIntoHas(XorInto(Zeros(), a), b, u);
    ZerosHasNothing(u);
  }

  /** ArrayContainer.Create(BitmapContainer): an uninitialized array of
      the cached cardinality, filled by FillArray.  With a correct cached
      cardinality the members are exactly the set bits; with a larger one
      the unwritten cells count as members too. */
  method CreateArrayFromBitmap(bc: BitmapContainer) returns (ac: ArrayContainer)
    requires bc.Sized() && Popcnt(bc.bitmap) <= bc.cardinality
    ensures ac.Shaped() && ac.cardinality == bc.cardinality
    ensures ac.Members()[..Popcnt(bc.bitmap)] == Elements(bc.bitmap)
    ensures bc.Valid() ==> ac.Members() == Elements(bc.bitmap)
  {
    var data := new bv16[bc.cardinality];
    var c := bc.FillArray(data);
    ac := ArrayContainer(data[..], c);
  }

  /** The array form of a BitmapContainer is ascending and has the same
      members. */
  lemma ElementsAsArray(bm: seq<bv64>)
    requires |bm| == BitmapLength
    ensures Ascending(Elements(bm))
    ensures forall u :: u in Elements(bm) <==> Has(bm, u)
  {
    ElementsSpec(bm);
    AscendingOfStrict(Elements(bm));
  }

  /** Two Valid BitmapContainers are Equals exactly when they hold the
      same values. */
  lemma BitmapEqualsIsSameSet(x: BitmapContainer, y: BitmapContainer)
    requires x.Valid() && y.Valid()
    ensures (x.cardinality == y.cardinality && x.bitmap == y.bitmap)
        <==> (forall u :: Has(x.bitmap, u) <==> Has(y.bitmap, u))
  {
    if forall u :: Has(x.bitmap, u) <==> Has(y.bitmap, u) {
      SameMembersSameBuffer(x.bitmap, y.bitmap);
    }
  }

  /** BitmapContainer.Deserialize's result on a stream of ulongs: the
      first 1024 of them, with the cardinality read beforehand; a stream
      that ends early fails. */
  function DecodeBitmap(stream: seq<bv64>, cardinality: int): Result<BitmapContainer>
  {
    if |stream| < BitmapLength then Failure
    else Success(BitmapContainer(stream[..BitmapLength], cardinality))
  }

  /** BitmapContainer.Deserialize: read 1024 ulongs into a new buffer. */
  method DeserializeBitmap(stream: seq<bv64>, cardinality: int) returns (r: Result<BitmapContainer>)
    ensures r == DecodeBitmap(stream, cardinality)
  {
    var data := new bv64[BitmapLength];
    var i := 0;
    while i < BitmapLength
      invariant 0 <= i <= BitmapLength
      invariant i <= |stream|
      invariant data[..i] == stream[..i]
    {
      if i >= |stream| {
        return Failure;
      }
      data[i] := stream[i];
      assert data[..i + 1] == data[..i] + [data[i]];
      assert stream[..i + 1] == stream[..i] + [stream[i]];
      i := i + 1;
    }
    assert data[..] == data[..i];
    return Success(BitmapContainer(data[..], cardinality));
  }

  /** Deserialize reads back what Serialize wrote, given the cardinality
      stored beside it, whatever follows in the stream. */
  lemma BitmapRoundTrip(bc: BitmapContainer, rest: seq<bv64>)
    requires bc.Sized()
    ensures DecodeBitmap(bc.bitmap + rest, bc.cardinality) == Success(bc)
  {
    assert (bc.bitmap + rest)[..BitmapLength] == bc.bitmap;
  }

  // ---------------------------------------------------------------------
  // Either kind

  /** Container: an ArrayContainer or a BitmapContainer. */
  datatype Container = Array(ac: ArrayContainer) | Bitmap(bc: BitmapContainer)
  {
    ghost predicate Valid()
    {
      match this
      case Array(ac) => ac.Valid()
      case Bitmap(bc) => bc.Valid()
    }

    /** u is a member of the container. */
    ghost predicate Has(u: bv16)
      requires Valid()
    {
      match this
      case Array(ac) => u in ac.Members()
      case Bitmap(bc) => Words.Has(bc.bitmap, u)
    }

    function Cardinality(): int
    {
      match this
      case Array(ac) => ac.cardinality
      case Bitmap(bc) => bc.cardinality
    }

    /** The members in the order EnumerateFill emits them. */
    ghost function Listing(): seq<bv16>
      requires Valid()
    {
      match this
      case Array(ac) => ac.Members()
      case Bitmap(bc) => Elements(bc.bitmap)
    }

    /** EnumerateFill, dispatched on the kind. */
    method EnumerateFill(list: seq<int>, key: bv32) returns (r: seq<int>)
      requires Valid()
      ensures r == list + Keyed(key, Listing())
    {
      match this
      case Array(ac) => r := ac.EnumerateFill(list, key);
      case Bitmap(bc) => r := bc.EnumerateFill(list, key);
    }

    /** Both containers of one kind, with equal cardinalities and equal
        contents (members or words). */
    ghost predicate SameAs(other: Container)
      requires Valid() && other.Valid()
    {
      match (this, other)
      case (Array(x), Array(y)) => x.cardinality == y.cardinality && x.Members() == y.Members()
      case (Bitmap(x), Bitmap(y)) => x.cardinality == y.cardinality && x.bitmap == y.bitmap
      case _ => false
    }

    /** EqualsInternal / Equals(object): a container of the other kind is
        never equal; one of the same kind is compared with that kind's
        Equals. */
    method EqualsInternal(other: Container) returns (r: bool)
      requires Valid() && other.Valid()
      ensures r <==> SameAs(other)
    {
      match (this, other)
      case (Array(x), Array(y)) => r := x.Equals(y);
      case (Bitmap(x), Bitmap(y)) => r := x.Equals(y);
      case _ => r := false;
    }
  }

  /** Containers are equal exactly when they are of the same kind and hold
      the same values; equal containers list the same values. */
  lemma SameAsIsSameSet(x: Container, y: Container)
    requires x.Valid() && y.Valid()
    ensures x.SameAs(y) <==> x.Array? == y.Array? && forall u :: x.Has(u) <==> y.Has(u)
    ensures x.SameAs(y) ==> x.Listing() == y.Listing()
  {
    match (x, y)
    case (Array(a), Array(b)) =>
      ArrayEqualsIsSameSet(a, b);
      assert forall u :: x.Has(u) == (u in a.Members()) && y.Has(u) == (u in b.Members());
    case (Bitmap(a), Bitmap(b)) =>
      BitmapEqualsIsSameSet(a, b);
      assert forall u :: x.Has(u) == Has(a.bitmap, u) && y.Has(u) == Has(b.bitmap, u);
    case _ =>
  }
}
