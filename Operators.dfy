/** The set operators of the two container kinds (`&`, `|`, `^`, `~` and
    AndNot, for every pairing of ArrayContainer and BitmapContainer), each
    proved to produce a well-formed container of the expected kind that
    holds exactly the values the set operation promises. */
module Operators {
  import opened Words
  import opened Buffers
  import opened SortedArrays
  import opened Containers

  /** The `bc._cardinality <= MaxSize ? ArrayContainer.Create(bc) : bc`
      step that ends most BitmapContainer operators: a small result goes
      back to the array form. */
  method Demote(bc: BitmapContainer) returns (r: Container)
    requires bc.Valid()
    ensures r.Valid() && r.Cardinality() == bc.cardinality
    ensures r.Array? <==> bc.cardinality <= MaxSize
    ensures forall u :: r.Has(u) <==> Has(bc.bitmap, u)
  {
    if bc.cardinality <= MaxSize {
      var ac := CreateArrayFromBitmap(bc);
      ElementsAsArray(bc.bitmap);
      r := Array(ac);
    } else {
      r := Bitmap(bc);
    }
  }

  // ---------------------------------------------------------------------
  // ArrayContainer with ArrayContainer: the sorted merges

  /** ArrayContainer `&` ArrayContainer: the intersection, as an array. */
  method AndArrays(x: ArrayContainer, y: ArrayContainer) returns (r: Container)
    requires x.Valid() && y.Valid()
    ensures r.Valid() && r.Array?
    ensures r.Cardinality() <= x.cardinality && r.Cardinality() <= y.cardinality
    ensures forall u :: r.Has(u) <==> u in x.Members() && u in y.Members()
  {
    var both := Intersect(x.Members(), y.Members());
    IntersectSpec(x.Members(), y.Members());
    r := Array(CreateArray(both));
  }

  /** ArrayContainer `|` ArrayContainer: the union, as a BitmapContainer
      exactly when it has more than MaxSize values. */
  method OrArrays(x: ArrayContainer, y: ArrayContainer) returns (r: Container)
    requires x.Valid() && y.Valid()
    ensures r.Valid()
    ensures r.Bitmap? <==> |Union(x.Members(), y.Members())| > MaxSize
    ensures r.Cardinality() == |Union(x.Members(), y.Members())|
    ensures forall u :: r.Has(u) <==> u in x.Members() || u in y.Members()
  {
    var totalCardinality := x.cardinality + y.cardinality;
    var output := Union(x.Members(), y.Members());
    UnionSpec(x.Members(), y.Members());
    if totalCardinality > MaxSize {
      var calcCardinality := |output|;
      if calcCardinality > MaxSize {
        var bc := CreateBitmap(calcCardinality, output, false);
        assert output[..calcCardinality] == output;
        AscendingDistinct(output);
        FilledCount(output, false);
        forall u
          ensures Has(bc.bitmap, u) <==> u in output
        {
          FilledHas(output, false, u);
        }
        r := Bitmap(bc);
      } else {
        r := Array(CreateArray(output));
      }
    } else {
      r := Array(CreateArray(output));
    }
  }

  /** ArrayContainer `^` ArrayContainer: the symmetric difference, always
      as an array.  When the operands hold more than MaxSize values
      together the source first builds the result with CreateXor and
      converts it, then discards both; the model does the same. */
  method XorArrays(x: ArrayContainer, y: ArrayContainer) returns (r: Container)
    requires x.Valid() && y.Valid()
    ensures r.Valid() && r.Array?
    ensures forall u :: r.Has(u) <==> (u in x.Members()) != (u in y.Members())
  {
    var totalCardinality := x.cardinality + y.cardinality;
    if totalCardinality > MaxSize {
      var bc := CreateXor(x.content, x.cardinality, y.content, y.cardinality);
      if bc.cardinality <= MaxSize {
        var discarded := CreateArrayFromBitmap(bc);
      }
    }
    var either := SymmetricDifference(x.Members(), y.Members());
    SymmetricDifferenceSpec(x.Members(), y.Members());
    r := Array(CreateArray(either));
  }

  /** AndNot(ArrayContainer, ArrayContainer): the difference, as an array. */
  method AndNotArrays(x: ArrayContainer, y: ArrayContainer) returns (r: Container)
    requires x.Valid() && y.Valid()
    ensures r.Valid() && r.Array? && r.Cardinality() <= x.cardinality
    ensures forall u :: r.Has(u) <==> u in x.Members() && u !in y.Members()
  {
    var rest := Difference(x.Members(), y.Members());
    DifferenceSpec(x.Members(), y.Members());
    r := Array(CreateArray(rest));
  }

  /** ArrayContainer `~`: the complement, built by clearing the members
      from a full bitmap (at most MaxSize members, so the complement is
      large). */
  method NotArray(x: ArrayContainer) returns (r: Container)
    requires x.Valid()
    ensures r.Valid() && r.Bitmap? && r.Cardinality() == MaxCapacity - x.cardinality
    ensures forall u :: r.Has(u) <==> u !in x.Members()
  {
    var bc := CreateBitmap(x.cardinality, x.content, true);
    AscendingDistinct(x.Members());
    FilledCount(x.Members(), true);
    forall u
      ensures Has(bc.bitmap, u) <==> u !in x.Members()
    {
      FilledHas(x.Members(), true, u);
    }
    r := Bitmap(bc);
  }

  // ---------------------------------------------------------------------
  // ArrayContainer with BitmapContainer: filter the members

  /** The values of s kept by the filter loop: those whose presence in bm
      is `present`. */
  ghost function Kept(s: seq<bv16>, bm: seq<bv64>, present: bool): (r: seq<bv16>)
    requires |bm| == BitmapLength
    ensures |r| <= |s|
    decreases |s|
  {
    if s == [] then []
    else (if Has(bm, s[0]) == present then [s[0]] else []) + Kept(s[1..], bm, present)
  }

  /** The filter keeps exactly the values of s with the wanted presence. */
  lemma {:induction false} KeptHas(s: seq<bv16>, bm: seq<bv64>, present: bool, u: bv16)
    requires |bm| == BitmapLength
    ensures u in Kept(s, bm, present) <==> u in s && Has(bm, u) == present
    decreases |s|
  {
    if s != [] {
      KeptHas(s[1..], bm, present, u);
      assert s == [s[0]] + s[1..];
    }
  }

  /** Filtering an ascending sequence leaves it ascending. */
  lemma {:induction false} KeptAscending(s: seq<bv16>, bm: seq<bv64>, present: bool)
    requires |bm| == BitmapLength && Ascending(s)
    ensures Ascending(Kept(s, bm, present))
    decreases |s|
  {
    if s != [] {
      var t := s[1..];
      TailAscending(s);
      KeptAscending(t, bm, present);
      var rest := Kept(t, bm, present);
      if Has(bm, s[0]) == present {
        if rest != [] {
          KeptHas(t, bm, present, rest[0]);
          AscendingHead(s, rest[0]);
        }
        ConsAscending(s[0], rest);
      } else {
        assert Kept(s, bm, present) == rest;
      }
    }
  }

  /** One step of the filter loop over `s[i..c]`. */
  lemma KeptStep(s: seq<bv16>, i: int, c: int, bm: seq<bv64>, present: bool)
    requires 0 <= i < c <= |s| && |bm| == BitmapLength
    ensures Kept(s[i..c], bm, present)
        == (if Has(bm, s[i]) == present then [s[i]] else []) + Kept(s[i + 1..c], bm, present)
  {
    assert s[i..c][1..] == s[i + 1..c];
  }

  /** The loop `if (y.Contains(v) == present) data[pos++] = v` over the
      members of x, into an array as long as x's. */
  method Sift(x: ArrayContainer, y: BitmapContainer, present: bool) returns (r: ArrayContainer)
    requires x.Shaped() && y.Sized()
    ensures r.Shaped() && |r.content| == |x.content|
    ensures r.Members() == Kept(x.Members(), y.bitmap, present)
  {
    var data := new bv16[|x.content|];
    var c := x.cardinality;
    var pos := 0;
    var i := 0;
    ghost var total := Kept(x.Members(), y.bitmap, present);
    ghost var todo := total;
    assert x.content[0..c] == x.Members();
    while i < c
      invariant 0 <= pos <= i <= c
      invariant todo == Kept(x.content[i..c], y.bitmap, present)
      invariant data[..pos] + todo == total
    {
      var v := x.content[i];
      ghost var written := data[..pos];
      ghost var after := Kept(x.content[i + 1..c], y.bitmap, present);
      KeptStep(x.content, i, c, y.bitmap, present);
      if y.Contains(v) == present {
        assert todo == [v] + after;
        Emit(written, v, after, total);
        data[pos] := v;
        assert data[..pos + 1] == written + [v];
        pos := pos + 1;
      } else {
        assert todo == [] + after;
        assert [] + after == after;
      }
      todo := after;
      i := i + 1;
    }
    assert data[..pos] == total;
    r := ArrayContainer(data[..], pos);
  }

  /** ArrayContainer `&` BitmapContainer: the members of x present in y. */
  method AndArrayBitmap(x: ArrayContainer, y: BitmapContainer) returns (r: ArrayContainer)
    requires x.Valid() && y.Sized()
    ensures r.Valid() && |r.content| == |x.content| && r.cardinality <= x.cardinality
    ensures forall u :: u in r.Members() <==> u in x.Members() && Has(y.bitmap, u)
  {
    r := Sift(x, y, true);
    KeptAscending(x.Members(), y.bitmap, true);
    forall u
      ensures u in r.Members() <==> u in x.Members() && Has(y.bitmap, u)
    {
      KeptHas(x.Members(), y.bitmap, true, u);
    }
  }

  /** AndNot(ArrayContainer, BitmapContainer): the members of x absent
      from y, always as an array. */
  method AndNotArrayBitmap(x: ArrayContainer, y: BitmapContainer) returns (r: Container)
    requires x.Valid() && y.Sized()
    ensures r.Valid() && r.Array? && r.Cardinality() <= x.cardinality
    ensures forall u :: r.Has(u) <==> u in x.Members() && !Has(y.bitmap, u)
  {
    var ac := Sift(x, y, false);
    KeptAscending(x.Members(), y.bitmap, false);
    forall u
      ensures u in ac.Members() <==> u in x.Members() && !Has(y.bitmap, u)
    {
      KeptHas(x.Members(), y.bitmap, false, u);
    }
    r := Array(ac);
  }

  /** ArrayContainer `|` BitmapContainer: delegates to BitmapContainer `|`
      ArrayContainer. */
  method OrArrayBitmap(x: ArrayContainer, y: BitmapContainer) returns (r: Container)
    requires x.Valid() && y.Valid()
    ensures r.Valid() && r.Bitmap?
    ensures forall u :: r.Has(u) <==> u in x.Members() || Has(y.bitmap, u)
  {
    var bc := OrBitmapArray(y, x);
    r := Bitmap(bc);
  }

  /** ArrayContainer `^` BitmapContainer: delegates to BitmapContainer `^`
      ArrayContainer. */
  method XorArrayBitmap(x: ArrayContainer, y: BitmapContainer) returns (r: Container)
    requires x.Valid() && y.Valid()
    ensures r.Valid()
    ensures r.Array? <==> r.Cardinality() <= MaxSize
    ensures forall u :: r.Has(u) <==> (u in x.Members()) != Has(y.bitmap, u)
  {
    r := XorBitmapArray(y, x);
  }

  // ---------------------------------------------------------------------
  // BitmapContainer with ArrayContainer: update a copy of the words

  /** BitmapContainer `&` ArrayContainer: delegates to ArrayContainer `&`
      BitmapContainer. */
  method AndBitmapArray(x: BitmapContainer, y: ArrayContainer) returns (r: ArrayContainer)
    requires x.Sized() && y.Valid()
    ensures r.Valid() && |r.content| == |y.content| && r.cardinality <= y.cardinality
    ensures forall u :: u in r.Members() <==> Has(x.bitmap, u) && u in y.Members()
  {
    r := AndArrayBitmap(y, x);
  }

  /** BitmapContainer `|` ArrayContainer: set the members of y in a copy;
      the cardinality is x's plus the count OrArray returns. */
  method OrBitmapArray(x: BitmapContainer, y: ArrayContainer) returns (r: BitmapContainer)
    requires x.Valid() && y.Valid()
    ensures r.Valid()
    ensures forall u :: Has(r.bitmap, u) <==> Has(x.bitmap, u) || u in y.Members()
  {
    var data := x.Clone();
    var extra := y.OrArray(data);
    r := BitmapContainer(data[..], x.cardinality + extra);
    forall u
      ensures Has(r.bitmap, u) <==> Has(x.bitmap, u) || u in y.Members()
    {
      OrIntoHas(x.bitmap, y.Members(), u);
    }
  }

  /** BitmapContainer `^` ArrayContainer: toggle the members of y in a
      copy, then demote a small result. */
  method XorBitmapArray(x: BitmapContainer, y: ArrayContainer) returns (r: Container)
    requires x.Valid() && y.Valid()
    ensures r.Valid()
    ensures r.Array? <==> r.Cardinality() <= MaxSize
    ensures forall u :: r.Has(u) <==> Has(x.bitmap, u) != (u in y.Members())
  {
    var data := x.Clone();
    var extra := y.XorArray(data);
    var bc := BitmapContainer(data[..], x.cardinality + extra);
    AscendingDistinct(y.Members());
    forall u
      ensures Has(bc.bitmap, u) <==> Has(x.bitmap, u) != (u in y.Members())
    {
      XorIntoHas(x.bitmap, y.Members(), u);
    }
    r := Demote(bc);
  }

  /** AndNot(BitmapContainer, ArrayContainer): clear the members of y in
      a copy, then demote a small result. */
  method AndNotBitmapArray(x: BitmapContainer, y: ArrayContainer) returns (r: Container)
    requires x.Valid() && y.Valid()
    ensures r.Valid()
    ensures r.Array? <==> r.Cardinality() <= MaxSize
    ensures forall u :: r.Has(u) <==> Has(x.bitmap, u) && u !in y.Members()
  {
    var data := x.Clone();
    var extra := y.AndNotArray(data);
    var bc := BitmapContainer(data[..], x.cardinality + extra);
    forall u
      ensures Has(bc.bitmap, u) <==> Has(x.bitmap, u) && u !in y.Members()
    {
      AndNotIntoHas(x.bitmap, y.Members(), u);
    }
    r := Demote(bc);
  }

  // ---------------------------------------------------------------------
  // BitmapContainer with BitmapContainer: word by word

  /** BitmapContainer `&` BitmapContainer: AND a copy word by word, then
      demote a small result. */
  method AndBitmaps(x: BitmapContainer, y: BitmapContainer) returns (r: Container)
    requires x.Sized() && y.Sized()
    ensures r.Valid()
    ensures r.Array? <==> r.Cardinality() <= MaxSize
    ensures forall u :: r.Has(u) <==> Has(x.bitmap, u) && Has(y.bitmap, u)
  {
    var data := x.Clone();
    var c := AndInternal(data, y.bitmap);
    var bc := BitmapContainer(data[..], c);
    forall u
      ensures Has(bc.bitmap, u) <==> Has(x.bitmap, u) && Has(y.bitmap, u)
    {
      AndWordsHas(x.bitmap, y.bitmap, u);
    }
    r := Demote(bc);
  }

  /** BitmapContainer `|` BitmapContainer: OR a copy word by word; the
      result stays a BitmapContainer. */
  method OrBitmaps(x: BitmapContainer, y: BitmapContainer) returns (r: BitmapContainer)
    requires x.Sized() && y.Sized()
    ensures r.Valid()
    ensures forall u :: Has(r.bitmap, u) <==> Has(x.bitmap, u) || Has(y.bitmap, u)
  {
    var data := x.Clone();
    var c := OrInternal(data, y.bitmap);
    r := BitmapContainer(data[..], c);
    forall u
      ensures Has(r.bitmap, u) <==> Has(x.bitmap, u) || Has(y.bitmap, u)
    {
      OrWordsHas(x.bitmap, y.bitmap, u);
    }
  }

  /** BitmapContainer `^` BitmapContainer: XOR a copy word by word, then
      demote a small result. */
  method XorBitmaps(x: BitmapContainer, y: BitmapContainer) returns (r: Container)
    requires x.Sized() && y.Sized()
    ensures r.Valid()
    ensures r.Array? <==> r.Cardinality() <= MaxSize
    ensures forall u :: r.Has(u) <==> Has(x.bitmap, u) != Has(y.bitmap, u)
  {
    var data := x.Clone();
    var c := XorInternal(data, y.bitmap);
    var bc := BitmapContainer(data[..], c);
    forall u
      ensures Has(bc.bitmap, u) <==> Has(x.bitmap, u) != Has(y.bitmap, u)
    {
      XorWordsHas(x.bitmap, y.bitmap, u);
    }
    r := Demote(bc);
  }

  /** AndNot(BitmapContainer, BitmapContainer): AND-NOT a copy word by
      word, then demote a small result. */
  method AndNotBitmaps(x: BitmapContainer, y: BitmapContainer) returns (r: Container)
    requires x.Sized() && y.Sized()
    ensures r.Valid()
    ensures r.Array? <==> r.Cardinality() <= MaxSize
    ensures forall u :: r.Has(u) <==> Has(x.bitmap, u) && !Has(y.bitmap, u)
  {
    var data := x.Clone();
    var c := AndNotInternal(data, y.bitmap);
    var bc := BitmapContainer(data[..], c);
    forall u
      ensures Has(bc.bitmap, u) <==> Has(x.bitmap, u) && !Has(y.bitmap, u)
    {
      AndNotWordsHas(x.bitmap, y.bitmap, u);
    }
    r := Demote(bc);
  }

  /** BitmapContainer `~`: complement a copy word by word, then demote a
      small result. */
  method NotBitmap(x: BitmapContainer) returns (r: Container)
    requires x.Sized()
    ensures r.Valid()
    ensures r.Array? <==> r.Cardinality() <= MaxSize
    ensures forall u :: r.Has(u) <==> !Has(x.bitmap, u)
  {
    var data := x.Clone();
    var c := NotInternal(data);
    var bc := BitmapContainer(data[..], c);
    forall u
      ensures Has(bc.bitmap, u) <==> !Has(x.bitmap, u)
    {
      NotWordsHas(x.bitmap, u);
    }
    r := Demote(bc);
  }
}
