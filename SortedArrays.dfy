/** The two-pointer merges of strictly ascending 16-bit arrays that the
    ArrayContainer operators delegate to (Utils.IntersectArrays,
    UnionArrays, XorArrays and DifferenceArrays), as functions on
    sequences, with their set meaning, their order and their length
    bounds. */
module SortedArrays {
  import opened Words

  /** Utils.IntersectArrays: the values in both a and b. */
  function Intersect(a: seq<bv16>, b: seq<bv16>): seq<bv16>
    decreases |a| + |b|
  {
    if a == [] || b == [] then []
    else if a[0] as int < b[0] as int then Intersect(a[1..], b)
    else if b[0] as int < a[0] as int then Intersect(a, b[1..])
    else [a[0]] + Intersect(a[1..], b[1..])
  }

  /** Utils.UnionArrays: the values in a or b, each once. */
  function Union(a: seq<bv16>, b: seq<bv16>): seq<bv16>
    decreases |a| + |b|
  {
    if a == [] then b
    else if b == [] then a
    else if a[0] as int < b[0] as int then [a[0]] + Union(a[1..], b)
    else if b[0] as int < a[0] as int then [b[0]] + Union(a, b[1..])
    else [a[0]] + Union(a[1..], b[1..])
  }

  /** Utils.XorArrays: the values in exactly one of a and b. */
  function SymmetricDifference(a: seq<bv16>, b: seq<bv16>): seq<bv16>
    decreases |a| + |b|
  {
    if a == [] then b
    else if b == [] then a
    else if a[0] as int < b[0] as int then [a[0]] + SymmetricDifference(a[1..], b)
    else if b[0] as int < a[0] as int then [b[0]] + SymmetricDifference(a, b[1..])
    else SymmetricDifference(a[1..], b[1..])
  }

  /** Utils.DifferenceArrays: the values of a that are not in b. */
  function Difference(a: seq<bv16>, b: seq<bv16>): seq<bv16>
    decreases |a| + |b|
  {
    if a == [] then []
    else if b == [] then a
    else if a[0] as int < b[0] as int then [a[0]] + Difference(a[1..], b)
    else if b[0] as int < a[0] as int then Difference(a, b[1..])
    else Difference(a[1..], b[1..])
  }

  // ---------------------------------------------------------------------
  // The source compares ushort values after promotion to int; the order
  // of bv16 values is the same (LessAsInt)

  function High(x: bv16): int
  {
    ((x >> 8) as bv8) as int
  }

  function Low(x: bv16): int
  {
    ((x & 0xFF) as bv8) as int
  }

  lemma Halves(x: bv16)
    ensures x as int == 256 * High(x) + Low(x) && 0 <= Low(x) < 256
  {
  }

  lemma LessByHalvesRaw(x: bv16, y: bv16)
    ensures (x < y) == ((x >> 8) as bv8 < (y >> 8) as bv8
      || ((x >> 8) as bv8 == (y >> 8) as bv8 && (x & 0xFF) as bv8 < (y & 0xFF) as bv8))
  {
  }

  lemma ByteOrder(x: bv8, y: bv8)
    ensures (x < y) == (x as int < y as int) && (x == y) == (x as int == y as int)
  {
  }

  lemma Lexicographic(hx: int, lx: int, hy: int, ly: int)
    requires 0 <= lx < 256 && 0 <= ly < 256
    ensures (256 * hx + lx < 256 * hy + ly) == (hx < hy || (hx == hy && lx < ly))
  {
  }

  lemma IntByHalves(x: bv16, y: bv16)
    ensures (x as int < y as int) == (High(x) < High(y) || (High(x) == High(y) && Low(x) < Low(y)))
  {
    Halves(x);
    Halves(y);
    Lexicographic(High(x), Low(x), High(y), Low(y));
  }

  lemma LessByHalves(x: bv16, y: bv16)
    ensures (x < y) == (High(x) < High(y) || (High(x) == High(y) && Low(x) < Low(y)))
  {
    LessByHalvesRaw(x, y);
    ByteOrder((x >> 8) as bv8, (y >> 8) as bv8);
    ByteOrder((x & 0xFF) as bv8, (y & 0xFF) as bv8);
  }

  /** Comparing two ushort values as bit-vectors or as integers agrees. */
  lemma LessAsInt(x: bv16, y: bv16)
    ensures (x < y) == (x as int < y as int)
  {
    IntByHalves(x, y);
    LessByHalves(x, y);
  }

  lemma EqualByHalvesRaw(x: bv16, y: bv16)
    ensures (x == y) == ((x >> 8) as bv8 == (y >> 8) as bv8 && (x & 0xFF) as bv8 == (y & 0xFF) as bv8)
  {
  }

  lemma LexicographicEqual(hx: int, lx: int, hy: int, ly: int)
    requires 0 <= lx < 256 && 0 <= ly < 256
    ensures (256 * hx + lx == 256 * hy + ly) == (hx == hy && lx == ly)
  {
  }

  lemma IntEqualByHalves(x: bv16, y: bv16)
    ensures (x as int == y as int) == (High(x) == High(y) && Low(x) == Low(y))
  {
    Halves(x);
    Halves(y);
    LexicographicEqual(High(x), Low(x), High(y), Low(y));
  }

  lemma EqualByHalves(x: bv16, y: bv16)
    ensures (x == y) == (High(x) == High(y) && Low(x) == Low(y))
  {
    EqualByHalvesRaw(x, y);
    ByteOrder((x >> 8) as bv8, (y >> 8) as bv8);
    ByteOrder((x & 0xFF) as bv8, (y & 0xFF) as bv8);
  }

  /** Two ushort values are equal exactly when their integer values are. */
  lemma EqualAsInt(x: bv16, y: bv16)
    ensures (x == y) == (x as int == y as int)
  {
    IntEqualByHalves(x, y);
    EqualByHalves(x, y);
  }

  // ---------------------------------------------------------------------
  // Ascending sequences, one neighbour at a time

  /** Each value below the next one, compared as integers: the form the
      merges are proved against (AscendingOfStrict derives it from
      StrictlyIncreasing). */
  ghost predicate Ascending(s: seq<bv16>)
    decreases |s|
  {
    |s| < 2 || (s[0] as int < s[1] as int && Ascending(s[1..]))
  }

  lemma TailAscending(s: seq<bv16>)
    requires s != [] && Ascending(s)
    ensures Ascending(s[1..])
  {
  }

  /** The head of an ascending sequence is below everything after it. */
  lemma {:induction false} AscendingHead(s: seq<bv16>, u: bv16)
    requires s != [] && Ascending(s)
    ensures u in s <==> u == s[0] || u in s[1..]
    ensures u in s[1..] ==> s[0] as int < u as int
    decreases |s|
  {
    assert s == [s[0]] + s[1..];
    if |s| >= 2 {
      var t := s[1..];
      AscendingHead(t, u);
    }
  }

  /** A value below the first of an ascending sequence, put in front. */
  lemma ConsAscending(h: bv16, t: seq<bv16>)
    requires Ascending(t) && (t != [] ==> h as int < t[0] as int)
    ensures Ascending([h] + t)
  {
    var s := [h] + t;
    assert s[1..] == t;
  }

  /** In an ascending sequence every value is below every later one. */
  lemma {:induction false} AscendingPair(s: seq<bv16>, i: int, j: int)
    requires Ascending(s) && 0 <= i < j < |s|
    ensures s[i] as int < s[j] as int
    decreases |s|
  {
    var t := s[1..];
    if i == 0 {
      assert s[j] == t[j - 1];
      AscendingHead(s, s[j]);
    } else {
      assert s[i] == t[i - 1] && s[j] == t[j - 1];
      TailAscending(s);
      AscendingPair(t, i - 1, j - 1);
    }
  }

  /** An ascending sequence has no repeated value. */
  lemma AscendingDistinct(s: seq<bv16>)
    requires Ascending(s)
    ensures Distinct(s)
  {
    forall i, j | 0 <= i < j < |s|
      ensures s[i] != s[j]
    {
      AscendingPair(s, i, j);
    }
  }

  lemma AscendingOfStrict(s: seq<bv16>)
    requires StrictlyIncreasing(s)
    ensures Ascending(s)
  {
    forall i, j | 0 <= i < j < |s|
      ensures s[i] as int < s[j] as int
    {
      LessAsInt(s[i], s[j]);
    }
    AscendingOfPairs(s);
  }

  lemma {:induction false} AscendingOfPairs(s: seq<bv16>)
    requires forall i, j :: 0 <= i < j < |s| ==> s[i] as int < s[j] as int
    ensures Ascending(s)
    decreases |s|
  {
    if |s| >= 2 {
      var t := s[1..];
      forall i, j | 0 <= i < j < |t|
        ensures t[i] as int < t[j] as int
      {
        assert t[i] == s[i + 1] && t[j] == s[j + 1];
      }
      AscendingOfPairs(t);
    }
  }

  /** Each value below its successor is enough for Ascending. */
  lemma {:induction false} AscendingOfNeighbours(s: seq<bv16>)
    requires forall i :: 0 < i < |s| ==> s[i - 1] as int < s[i] as int
    ensures Ascending(s)
    decreases |s|
  {
    if |s| >= 2 {
      var t := s[1..];
      forall i | 0 < i < |t|
        ensures t[i - 1] as int < t[i] as int
      {
        assert t[i - 1] == s[i] && t[i] == s[i + 1];
      }
      AscendingOfNeighbours(t);
      assert s[0] as int < s[1] as int;
    }
  }

  lemma SameMembersEmpty(a: seq<bv16>, b: seq<bv16>)
    requires forall u :: u in a <==> u in b
    ensures a == [] <==> b == []
  {
    if |a| > 0 {
      var x := a[0];
      assert x in a;
      assert x in b;
    }
    if |b| > 0 {
      var x := b[0];
      assert x in b;
      assert x in a;
    }
  }

  /** Two ascending sequences with the same members are equal. */
  lemma {:induction false} SameMembersEqual(a: seq<bv16>, b: seq<bv16>)
    requires Ascending(a) && Ascending(b)
    requires forall u :: u in a <==> u in b
    ensures a == b
    decreases |a|
  {
    SameMembersEmpty(a, b);
    if a != [] {
      AscendingHead(a, b[0]);
      AscendingHead(b, a[0]);
      assert a[0] in a && b[0] in b;
      assert a[0] == b[0];
      forall u
        ensures u in a[1..] <==> u in b[1..]
      {
        AscendingHead(a, u);
        AscendingHead(b, u);
      }
      TailAscending(a);
      TailAscending(b);
      SameMembersEqual(a[1..], b[1..]);
      assert a == [a[0]] + a[1..] && b == [b[0]] + b[1..];
    }
  }

  // ---------------------------------------------------------------------
  // Membership

  lemma {:induction false} IntersectHas(a: seq<bv16>, b: seq<bv16>, u: bv16)
    requires Ascending(a) && Ascending(b)
    ensures u in Intersect(a, b) <==> u in a && u in b
    decreases |a| + |b|
  {
    if a != [] && b != [] {
      TailAscending(a);
      TailAscending(b);
      if a[0] as int < b[0] as int {
        IntersectHas(a[1..], b, u);
        IntersectHasLeft(a, b, u);
      } else if b[0] as int < a[0] as int {
        IntersectHas(a, b[1..], u);
        IntersectHasRight(a, b, u);
      } else {
        IntersectHas(a[1..], b[1..], u);
        IntersectHasBoth(a, b, u);
      }
    }
  }

  lemma IntersectHasLeft(a: seq<bv16>, b: seq<bv16>, u: bv16)
    requires Ascending(a) && Ascending(b) && a != [] && b != [] && a[0] as int < b[0] as int
    requires u in Intersect(a[1..], b) <==> u in a[1..] && u in b
    ensures u in Intersect(a, b) <==> u in a && u in b
  {
    AscendingHead(a, u);
    AscendingHead(b, u);
  }

  lemma IntersectHasRight(a: seq<bv16>, b: seq<bv16>, u: bv16)
    requires Ascending(a) && Ascending(b) && a != [] && b != [] && b[0] as int < a[0] as int
    requires u in Intersect(a, b[1..]) <==> u in a && u in b[1..]
    ensures u in Intersect(a, b) <==> u in a && u in b
  {
    AscendingHead(a, u);
    AscendingHead(b, u);
  }

  lemma IntersectHasBoth(a: seq<bv16>, b: seq<bv16>, u: bv16)
    requires Ascending(a) && Ascending(b) && a != [] && b != [] && a[0] as int == b[0] as int
    requires u in Intersect(a[1..], b[1..]) <==> u in a[1..] && u in b[1..]
    ensures u in Intersect(a, b) <==> u in a && u in b
  {
    AscendingHead(a, u);
    AscendingHead(b, u);
    EqualAsInt(a[0], b[0]);
  }

  lemma {:induction false} UnionHas(a: seq<bv16>, b: seq<bv16>, u: bv16)
    requires Ascending(a) && Ascending(b)
    ensures u in Union(a, b) <==> u in a || u in b
    decreases |a| + |b|
  {
    if a != [] && b != [] {
      TailAscending(a);
      TailAscending(b);
      if a[0] as int < b[0] as int {
        UnionHas(a[1..], b, u);
        UnionHasLeft(a, b, u);
      } else if b[0] as int < a[0] as int {
        UnionHas(a, b[1..], u);
        UnionHasRight(a, b, u);
      } else {
        UnionHas(a[1..], b[1..], u);
        UnionHasBoth(a, b, u);
      }
    }
  }

  lemma UnionHasLeft(a: seq<bv16>, b: seq<bv16>, u: bv16)
    requires Ascending(a) && Ascending(b) && a != [] && b != [] && a[0] as int < b[0] as int
    requires u in Union(a[1..], b) <==> u in a[1..] || u in b
    ensures u in Union(a, b) <==> u in a || u in b
  {
    AscendingHead(a, u);
    AscendingHead(b, u);
  }

  lemma UnionHasRight(a: seq<bv16>, b: seq<bv16>, u: bv16)
    requires Ascending(a) && Ascending(b) && a != [] && b != [] && b[0] as int < a[0] as int
    requires u in Union(a, b[1..]) <==> u in a || u in b[1..]
    ensures u in Union(a, b) <==> u in a || u in b
  {
    AscendingHead(a, u);
    AscendingHead(b, u);
  }

  lemma UnionHasBoth(a: seq<bv16>, b: seq<bv16>, u: bv16)
    requires Ascending(a) && Ascending(b) && a != [] && b != [] && a[0] as int == b[0] as int
    requires u in Union(a[1..], b[1..]) <==> u in a[1..] || u in b[1..]
    ensures u in Union(a, b) <==> u in a || u in b
  {
    AscendingHead(a, u);
    AscendingHead(b, u);
    EqualAsInt(a[0], b[0]);
  }

  lemma {:induction false} SymmetricDifferenceHas(a: seq<bv16>, b: seq<bv16>, u: bv16)
    requires Ascending(a) && Ascending(b)
    ensures u in SymmetricDifference(a, b) <==> (u in a) != (u in b)
    decreases |a| + |b|
  {
    if a != [] && b != [] {
      TailAscending(a);
      TailAscending(b);
      if a[0] as int < b[0] as int {
        SymmetricDifferenceHas(a[1..], b, u);
        SymmetricDifferenceHasLeft(a, b, u);
      } else if b[0] as int < a[0] as int {
        SymmetricDifferenceHas(a, b[1..], u);
        SymmetricDifferenceHasRight(a, b, u);
      } else {
        SymmetricDifferenceHas(a[1..], b[1..], u);
        SymmetricDifferenceHasBoth(a, b, u);
      }
    }
  }

  lemma SymmetricDifferenceHasLeft(a: seq<bv16>, b: seq<bv16>, u: bv16)
    requires Ascending(a) && Ascending(b) && a != [] && b != [] && a[0] as int < b[0] as int
    requires u in SymmetricDifference(a[1..], b) <==> (u in a[1..]) != (u in b)
    ensures u in SymmetricDifference(a, b) <==> (u in a) != (u in b)
  {
    AscendingHead(a, u);
    AscendingHead(b, u);
  }

  lemma SymmetricDifferenceHasRight(a: seq<bv16>, b: seq<bv16>, u: bv16)
    requires Ascending(a) && Ascending(b) && a != [] && b != [] && b[0] as int < a[0] as int
    requires u in SymmetricDifference(a, b[1..]) <==> (u in a) != (u in b[1..])
    ensures u in SymmetricDifference(a, b) <==> (u in a) != (u in b)
  {
    AscendingHead(a, u);
    AscendingHead(b, u);
  }

  lemma SymmetricDifferenceHasBoth(a: seq<bv16>, b: seq<bv16>, u: bv16)
    requires Ascending(a) && Ascending(b) && a != [] && b != [] && a[0] as int == b[0] as int
    requires u in SymmetricDifference(a[1..], b[1..]) <==> (u in a[1..]) != (u in b[1..])
    ensures u in SymmetricDifference(a, b) <==> (u in a) != (u in b)
  {
    AscendingHead(a, u);
    AscendingHead(b, u);
    EqualAsInt(a[0], b[0]);
  }

  lemma {:induction false} DifferenceHas(a: seq<bv16>, b: seq<bv16>, u: bv16)
    requires Ascending(a) && Ascending(b)
    ensures u in Difference(a, b) <==> u in a && u !in b
    decreases |a| + |b|
  {
    if a != [] && b != [] {
      TailAscending(a);
      TailAscending(b);
      if a[0] as int < b[0] as int {
        DifferenceHas(a[1..], b, u);
        DifferenceHasLeft(a, b, u);
      } else if b[0] as int < a[0] as int {
        DifferenceHas(a, b[1..], u);
        DifferenceHasRight(a, b, u);
      } else {
        DifferenceHas(a[1..], b[1..], u);
        DifferenceHasBoth(a, b, u);
      }
    }
  }

  lemma DifferenceHasLeft(a: seq<bv16>, b: seq<bv16>, u: bv16)
    requires Ascending(a) && Ascending(b) && a != [] && b != [] && a[0] as int < b[0] as int
    requires u in Difference(a[1..], b) <==> u in a[1..] && u !in b
    ensures u in Difference(a, b) <==> u in a && u !in b
  {
    AscendingHead(a, u);
    AscendingHead(b, u);
  }

  lemma DifferenceHasRight(a: seq<bv16>, b: seq<bv16>, u: bv16)
    requires Ascending(a) && Ascending(b) && a != [] && b != [] && b[0] as int < a[0] as int
    requires u in Difference(a, b[1..]) <==> u in a && u !in b[1..]
    ensures u in Difference(a, b) <==> u in a && u !in b
  {
    AscendingHead(a, u);
    AscendingHead(b, u);
  }

  lemma DifferenceHasBoth(a: seq<bv16>, b: seq<bv16>, u: bv16)
    requires Ascending(a) && Ascending(b) && a != [] && b != [] && a[0] as int == b[0] as int
    requires u in Difference(a[1..], b[1..]) <==> u in a[1..] && u !in b[1..]
    ensures u in Difference(a, b) <==> u in a && u !in b
  {
    AscendingHead(a, u);
    AscendingHead(b, u);
    EqualAsInt(a[0], b[0]);
  }

  // ---------------------------------------------------------------------
  // Order

  lemma {:induction false} IntersectAscending(a: seq<bv16>, b: seq<bv16>)
    requires Ascending(a) && Ascending(b)
    ensures Ascending(Intersect(a, b))
    decreases |a| + |b|
  {
    if a != [] && b != [] {
      TailAscending(a);
      TailAscending(b);
      if a[0] as int < b[0] as int {
        IntersectAscending(a[1..], b);
      } else if b[0] as int < a[0] as int {
        IntersectAscending(a, b[1..]);
      } else {
        var t := Intersect(a[1..], b[1..]);
        IntersectAscending(a[1..], b[1..]);
        if t != [] {
          assert t[0] in t;
          IntersectHas(a[1..], b[1..], t[0]);
          AscendingHead(a, t[0]);
        }
        ConsAscending(a[0], t);
      }
    }
  }

  lemma {:induction false} UnionAscending(a: seq<bv16>, b: seq<bv16>)
    requires Ascending(a) && Ascending(b)
    ensures Ascending(Union(a, b))
    decreases |a| + |b|
  {
    if a != [] && b != [] {
      TailAscending(a);
      TailAscending(b);
      if a[0] as int < b[0] as int {
        UnionAscending(a[1..], b);
        UnionAscendingLeft(a, b);
      } else if b[0] as int < a[0] as int {
        UnionAscending(a, b[1..]);
        UnionAscendingRight(a, b);
      } else {
        UnionAscending(a[1..], b[1..]);
        UnionAscendingBoth(a, b);
      }
    }
  }

  lemma UnionAscendingLeft(a: seq<bv16>, b: seq<bv16>)
    requires Ascending(a) && Ascending(b) && a != [] && b != [] && a[0] as int < b[0] as int
    requires Ascending(Union(a[1..], b))
    ensures Ascending(Union(a, b))
  {
    var t := Union(a[1..], b);
    if t != [] {
      assert t[0] in t;
      TailAscending(a);
      TailAscending(b);
      UnionHas(a[1..], b, t[0]);
      AscendingHead(a, t[0]);
      AscendingHead(b, t[0]);
    }
    ConsAscending(a[0], t);
  }

  lemma UnionAscendingRight(a: seq<bv16>, b: seq<bv16>)
    requires Ascending(a) && Ascending(b) && a != [] && b != [] && b[0] as int < a[0] as int
    requires Ascending(Union(a, b[1..]))
    ensures Ascending(Union(a, b))
  {
    var t := Union(a, b[1..]);
    if t != [] {
      assert t[0] in t;
      TailAscending(a);
      TailAscending(b);
      UnionHas(a, b[1..], t[0]);
      AscendingHead(a, t[0]);
      AscendingHead(b, t[0]);
    }
    ConsAscending(b[0], t);
  }

  lemma UnionAscendingBoth(a: seq<bv16>, b: seq<bv16>)
    requires Ascending(a) && Ascending(b) && a != [] && b != [] && a[0] as int == b[0] as int
    requires Ascending(Union(a[1..], b[1..]))
    ensures Ascending(Union(a, b))
  {
    var t := Union(a[1..], b[1..]);
    if t != [] {
      assert t[0] in t;
      TailAscending(a);
      TailAscending(b);
      UnionHas(a[1..], b[1..], t[0]);
      AscendingHead(a, t[0]);
      AscendingHead(b, t[0]);
    }
    ConsAscending(a[0], t);
  }

  lemma {:induction false} SymmetricDifferenceAscending(a: seq<bv16>, b: seq<bv16>)
    requires Ascending(a) && Ascending(b)
    ensures Ascending(SymmetricDifference(a, b))
    decreases |a| + |b|
  {
    if a != [] && b != [] {
      TailAscending(a);
      TailAscending(b);
      if a[0] as int < b[0] as int {
        SymmetricDifferenceAscending(a[1..], b);
        SymmetricDifferenceAscendingLeft(a, b);
      } else if b[0] as int < a[0] as int {
        SymmetricDifferenceAscending(a, b[1..]);
        SymmetricDifferenceAscendingRight(a, b);
      } else {
        SymmetricDifferenceAscending(a[1..], b[1..]);
      }
    }
  }

  lemma SymmetricDifferenceAscendingLeft(a: seq<bv16>, b: seq<bv16>)
    requires Ascending(a) && Ascending(b) && a != [] && b != [] && a[0] as int < b[0] as int
    requires Ascending(SymmetricDifference(a[1..], b))
    ensures Ascending(SymmetricDifference(a, b))
  {
    var t := SymmetricDifference(a[1..], b);
    if t != [] {
      assert t[0] in t;
      TailAscending(a);
      TailAscending(b);
      SymmetricDifferenceHas(a[1..], b, t[0]);
      AscendingHead(a, t[0]);
      AscendingHead(b, t[0]);
    }
    ConsAscending(a[0], t);
  }

  lemma SymmetricDifferenceAscendingRight(a: seq<bv16>, b: seq<bv16>)
    requires Ascending(a) && Ascending(b) && a != [] && b != [] && b[0] as int < a[0] as int
    requires Ascending(SymmetricDifference(a, b[1..]))
    ensures Ascending(SymmetricDifference(a, b))
  {
    var t := SymmetricDifference(a, b[1..]);
    if t != [] {
      assert t[0] in t;
      TailAscending(a);
      TailAscending(b);
      SymmetricDifferenceHas(a, b[1..], t[0]);
      AscendingHead(a, t[0]);
      AscendingHead(b, t[0]);
    }
    ConsAscending(b[0], t);
  }

  lemma {:induction false} DifferenceAscending(a: seq<bv16>, b: seq<bv16>)
    requires Ascending(a) && Ascending(b)
    ensures Ascending(Difference(a, b))
    decreases |a| + |b|
  {
    if a != [] && b != [] {
      TailAscending(a);
      TailAscending(b);
      if a[0] as int < b[0] as int {
        DifferenceAscending(a[1..], b);
        var t := Difference(a[1..], b);
        if t != [] {
          assert t[0] in t;
          DifferenceHas(a[1..], b, t[0]);
          AscendingHead(a, t[0]);
        }
        ConsAscending(a[0], t);
      } else if b[0] as int < a[0] as int {
        DifferenceAscending(a, b[1..]);
      } else {
        DifferenceAscending(a[1..], b[1..]);
      }
    }
  }

  // ---------------------------------------------------------------------
  // Lengths: the capacities the operators allocate suffice

  lemma {:induction false} IntersectLength(a: seq<bv16>, b: seq<bv16>)
    ensures |Intersect(a, b)| <= |a| && |Intersect(a, b)| <= |b|
    decreases |a| + |b|
  {
    if a != [] && b != [] {
      if a[0] as int < b[0] as int {
        IntersectLength(a[1..], b);
      } else if b[0] as int < a[0] as int {
        IntersectLength(a, b[1..]);
      } else {
        IntersectLength(a[1..], b[1..]);
      }
    }
  }

  lemma {:induction false} UnionLength(a: seq<bv16>, b: seq<bv16>)
    ensures |Union(a, b)| <= |a| + |b|
    decreases |a| + |b|
  {
    if a != [] && b != [] {
      if a[0] as int < b[0] as int {
        UnionLength(a[1..], b);
      } else if b[0] as int < a[0] as int {
        UnionLength(a, b[1..]);
      } else {
        UnionLength(a[1..], b[1..]);
      }
    }
  }

  lemma {:induction false} SymmetricDifferenceLength(a: seq<bv16>, b: seq<bv16>)
    ensures |SymmetricDifference(a, b)| <= |a| + |b|
    decreases |a| + |b|
  {
    if a != [] && b != [] {
      if a[0] as int < b[0] as int {
        SymmetricDifferenceLength(a[1..], b);
      } else if b[0] as int < a[0] as int {
        SymmetricDifferenceLength(a, b[1..]);
      } else {
        SymmetricDifferenceLength(a[1..], b[1..]);
      }
    }
  }

  lemma {:induction false} DifferenceLength(a: seq<bv16>, b: seq<bv16>)
    ensures |Difference(a, b)| <= |a|
    decreases |a| + |b|
  {
    if a != [] && b != [] {
      if a[0] as int < b[0] as int {
        DifferenceLength(a[1..], b);
      } else if b[0] as int < a[0] as int {
        DifferenceLength(a, b[1..]);
      } else {
        DifferenceLength(a[1..], b[1..]);
      }
    }
  }

  /** What the ArrayContainer operators rely on, for two strictly
      ascending operands: the result is strictly ascending, has the
      expected members and fits the capacity the operator allocates. */
  lemma IntersectSpec(a: seq<bv16>, b: seq<bv16>)
    requires Ascending(a) && Ascending(b)
    ensures Ascending(Intersect(a, b))
    ensures forall u :: u in Intersect(a, b) <==> u in a && u in b
    ensures |Intersect(a, b)| <= |a| && |Intersect(a, b)| <= |b|
  {
    IntersectAscending(a, b);
    IntersectLength(a, b);
    forall u
      ensures u in Intersect(a, b) <==> u in a && u in b
    {
      IntersectHas(a, b, u);
    }
  }

  lemma UnionSpec(a: seq<bv16>, b: seq<bv16>)
    requires Ascending(a) && Ascending(b)
    ensures Ascending(Union(a, b))
    ensures forall u :: u in Union(a, b) <==> u in a || u in b
    ensures |Union(a, b)| <= |a| + |b|
  {
    UnionAscending(a, b);
    UnionLength(a, b);
    forall u
      ensures u in Union(a, b) <==> u in a || u in b
    {
      UnionHas(a, b, u);
    }
  }

  lemma SymmetricDifferenceSpec(a: seq<bv16>, b: seq<bv16>)
    requires Ascending(a) && Ascending(b)
    ensures Ascending(SymmetricDifference(a, b))
    ensures forall u :: u in SymmetricDifference(a, b) <==> (u in a) != (u in b)
    ensures |SymmetricDifference(a, b)| <= |a| + |b|
  {
    SymmetricDifferenceAscending(a, b);
    SymmetricDifferenceLength(a, b);
    forall u
      ensures u in SymmetricDifference(a, b) <==> (u in a) != (u in b)
    {
      SymmetricDifferenceHas(a, b, u);
    }
  }

  lemma DifferenceSpec(a: seq<bv16>, b: seq<bv16>)
    requires Ascending(a) && Ascending(b)
    ensures Ascending(Difference(a, b))
    ensures forall u :: u in Difference(a, b) <==> u in a && u !in b
    ensures |Difference(a, b)| <= |a|
  {
    DifferenceAscending(a, b);
    DifferenceLength(a, b);
    forall u
      ensures u in Difference(a, b) <==> u in a && u !in b
    {
      DifferenceHas(a, b, u);
    }
  }
}
