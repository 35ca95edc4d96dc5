/** A BitmapContainer's 1024-word buffer as a value: the single-member
    updates that the source's loops perform, their folds over a list of
    members, and how membership and the population count change. */
module Buffers {
  import opened Words

  /** `bitmap[v >> 6] |= 1UL << v` */
  ghost function SetMember(bm: seq<bv64>, v: bv16): (r: seq<bv64>)
    requires |bm| == BitmapLength
    ensures |r| == BitmapLength
  {
    bm[WordIndex(v) := bm[WordIndex(v)] | (1 << Offset(v))]
  }

  /** `bitmap[v >> 6] ^= 1UL << v` */
  ghost function FlipMember(bm: seq<bv64>, v: bv16): (r: seq<bv64>)
    requires |bm| == BitmapLength
    ensures |r| == BitmapLength
  {
    bm[WordIndex(v) := bm[WordIndex(v)] ^ (1 << Offset(v))]
  }

  /** `bitmap[v >> 6] &= ~(1UL << v)` */
  ghost function ClearMember(bm: seq<bv64>, v: bv16): (r: seq<bv64>)
    requires |bm| == BitmapLength
    ensures |r| == BitmapLength
  {
    bm[WordIndex(v) := bm[WordIndex(v)] & !(1 << Offset(v))]
  }

  /** bm after setting the members vs one after the other. */
  ghost function OrInto(bm: seq<bv64>, vs: seq<bv16>): (r: seq<bv64>)
    requires |bm| == BitmapLength
    ensures |r| == BitmapLength
  {
    if vs == [] then bm else SetMember(OrInto(bm, vs[..|vs| - 1]), vs[|vs| - 1])
  }

  /** bm after toggling the members vs one after the other. */
  ghost function XorInto(bm: seq<bv64>, vs: seq<bv16>): (r: seq<bv64>)
    requires |bm| == BitmapLength
    ensures |r| == BitmapLength
  {
    if vs == [] then bm else FlipMember(XorInto(bm, vs[..|vs| - 1]), vs[|vs| - 1])
  }

  /** bm after clearing the members vs one after the other. */
  ghost function AndNotInto(bm: seq<bv64>, vs: seq<bv16>): (r: seq<bv64>)
    requires |bm| == BitmapLength
    ensures |r| == BitmapLength
  {
    if vs == [] then bm else ClearMember(AndNotInto(bm, vs[..|vs| - 1]), vs[|vs| - 1])
  }

  /** How many members of vs are absent from bm. */
  ghost function CountClear(bm: seq<bv64>, vs: seq<bv16>): nat
    requires |bm| == BitmapLength
  {
    if vs == [] then 0
    else CountClear(bm, vs[..|vs| - 1]) + (if Has(bm, vs[|vs| - 1]) then 0 else 1)
  }

  /** How many members of vs are present in bm. */
  ghost function CountSet(bm: seq<bv64>, vs: seq<bv16>): nat
    requires |bm| == BitmapLength
  {
    if vs == [] then 0
    else CountSet(bm, vs[..|vs| - 1]) + (if Has(bm, vs[|vs| - 1]) then 1 else 0)
  }

  /** The empty buffer (`new ulong[1024]`). */
  ghost function Zeros(): (r: seq<bv64>)
    ensures |r| == BitmapLength
  {
    seq(BitmapLength, _ => 0)
  }

  /** The full buffer: every word `ulong.MaxValue`. */
  ghost function Ones(): (r: seq<bv64>)
    ensures |r| == BitmapLength
  {
    seq(BitmapLength, _ => 0xFFFF_FFFF_FFFF_FFFF)
  }

  /** The word-wise combinations of the `*Internal` loops. */
  ghost function AndWords(a: seq<bv64>, b: seq<bv64>): (r: seq<bv64>)
    requires |a| == |b|
    ensures |r| == |a|
  {
    seq(|a|, k requires 0 <= k < |a| => a[k] & b[k])
  }

  ghost function OrWords(a: seq<bv64>, b: seq<bv64>): (r: seq<bv64>)
    requires |a| == |b|
    ensures |r| == |a|
  {
    seq(|a|, k requires 0 <= k < |a| => a[k] | b[k])
  }

  ghost function XorWords(a: seq<bv64>, b: seq<bv64>): (r: seq<bv64>)
    requires |a| == |b|
    ensures |r| == |a|
  {
    seq(|a|, k requires 0 <= k < |a| => a[k] ^ b[k])
  }

  ghost function AndNotWords(a: seq<bv64>, b: seq<bv64>): (r: seq<bv64>)
    requires |a| == |b|
    ensures |r| == |a|
  {
    seq(|a|, k requires 0 <= k < |a| => a[k] & !b[k])
  }

  ghost function NotWords(a: seq<bv64>): (r: seq<bv64>)
    ensures |r| == |a|
  {
    seq(|a|, k requires 0 <= k < |a| => !a[k])
  }

  /** C#'s `(int)` cast of a `ulong`: the low 32 bits in two's complement. */
  function ToInt32(x: bv64): int
  {
    var low := (x & 0xFFFF_FFFF) as int;
    if low < 0x8000_0000 then low else low - 0x1_0000_0000
  }

  // ---------------------------------------------------------------------
  // Single-member updates

  /** Setting, toggling and clearing one bit of a word, bit by bit. */
  lemma FlipWordBit(w: bv64, b: bv64, n: bv64)
    requires b < 64 && n < 64
    ensures Bit(w ^ (1 << b), n) == (Bit(w, n) != (n == b))
  {
    BitOfXor(w, 1 << b, n);
    BitOfSingle(b, n);
  }

  lemma ClearSameBit(w: bv64, b: bv64)
    requires b < 64
    ensures !Bit(w & !(1 << b), b)
  {
  }

  lemma ClearOtherBit(w: bv64, b: bv64, n: bv64)
    requires b < 64 && n < 64 && n != b
    ensures Bit(w & !(1 << b), n) == Bit(w, n)
  {
  }

  lemma ClearWordBit(w: bv64, b: bv64, n: bv64)
    requires b < 64 && n < 64
    ensures Bit(w & !(1 << b), n) == (Bit(w, n) && n != b)
  {
    if n == b {
      ClearSameBit(w, b);
    } else {
      ClearOtherBit(w, b, n);
    }
  }

  /** v and u are the same member exactly when they share word and offset. */
  lemma SlotIff(u: bv16, v: bv16)
    ensures u == v <==> WordIndex(u) == WordIndex(v) && Offset(u) == Offset(v)
  {
    if WordIndex(u) == WordIndex(v) && Offset(u) == Offset(v) {
      SameSlot(u, v);
    }
  }

  lemma SameWordSlot(u: bv16, v: bv16)
    requires WordIndex(u) == WordIndex(v)
    ensures (Offset(u) == Offset(v)) == (u == v)
  {
    SlotIff(u, v);
  }

  lemma HasInSameWord(bm: seq<bv64>, v: bv16, u: bv16)
    requires |bm| == BitmapLength && WordIndex(u) == WordIndex(v)
    ensures Has(bm, u) == Bit(bm[WordIndex(v)], Offset(u))
  {
  }

  lemma SetMemberWord(bm: seq<bv64>, v: bv16, u: bv16)
    requires |bm| == BitmapLength && WordIndex(u) == WordIndex(v)
    ensures Has(SetMember(bm, v), u) == Bit(bm[WordIndex(v)] | (1 << Offset(v)), Offset(u))
  {
  }

  lemma FlipMemberWord(bm: seq<bv64>, v: bv16, u: bv16)
    requires |bm| == BitmapLength && WordIndex(u) == WordIndex(v)
    ensures Has(FlipMember(bm, v), u) == Bit(bm[WordIndex(v)] ^ (1 << Offset(v)), Offset(u))
  {
  }

  lemma ClearMemberWord(bm: seq<bv64>, v: bv16, u: bv16)
    requires |bm| == BitmapLength && WordIndex(u) == WordIndex(v)
    ensures Has(ClearMember(bm, v), u) == Bit(bm[WordIndex(v)] & !(1 << Offset(v)), Offset(u))
  {
  }

  lemma SetMemberSameWord(bm: seq<bv64>, v: bv16, u: bv16)
    requires |bm| == BitmapLength && WordIndex(u) == WordIndex(v)
    ensures Has(SetMember(bm, v), u) == (Has(bm, u) || u == v)
  {
    SetMemberWord(bm, v, u);
    HasInSameWord(bm, v, u);
    BitOfSet(bm[WordIndex(v)], Offset(v), Offset(u));
    SameWordSlot(u, v);
  }

  lemma FlipMemberSameWord(bm: seq<bv64>, v: bv16, u: bv16)
    requires |bm| == BitmapLength && WordIndex(u) == WordIndex(v)
    ensures Has(FlipMember(bm, v), u) == (Has(bm, u) != (u == v))
  {
    FlipMemberWord(bm, v, u);
    HasInSameWord(bm, v, u);
    FlipWordBit(bm[WordIndex(v)], Offset(v), Offset(u));
    SameWordSlot(u, v);
  }

  lemma ClearMemberSameWord(bm: seq<bv64>, v: bv16, u: bv16)
    requires |bm| == BitmapLength && WordIndex(u) == WordIndex(v)
    ensures Has(ClearMember(bm, v), u) == (Has(bm, u) && u != v)
  {
    ClearMemberWord(bm, v, u);
    HasInSameWord(bm, v, u);
    ClearWordBit(bm[WordIndex(v)], Offset(v), Offset(u));
    SameWordSlot(u, v);
  }

  lemma SetMemberOtherWord(bm: seq<bv64>, v: bv16, u: bv16)
    requires |bm| == BitmapLength && WordIndex(u) != WordIndex(v)
    ensures Has(SetMember(bm, v), u) == Has(bm, u) && u != v
  {
  }

  lemma FlipMemberOtherWord(bm: seq<bv64>, v: bv16, u: bv16)
    requires |bm| == BitmapLength && WordIndex(u) != WordIndex(v)
    ensures Has(FlipMember(bm, v), u) == Has(bm, u) && u != v
  {
  }

  lemma ClearMemberOtherWord(bm: seq<bv64>, v: bv16, u: bv16)
    requires |bm| == BitmapLength && WordIndex(u) != WordIndex(v)
    ensures Has(ClearMember(bm, v), u) == Has(bm, u) && u != v
  {
  }

  /** After setting v, the members are the old ones and v. */
  lemma SetMemberHas(bm: seq<bv64>, v: bv16, u: bv16)
    requires |bm| == BitmapLength
    ensures Has(SetMember(bm, v), u) == (Has(bm, u) || u == v)
  {
    if WordIndex(u) == WordIndex(v) {
      SetMemberSameWord(bm, v, u);
    } else {
      SetMemberOtherWord(bm, v, u);
    }
  }

  /** After toggling v, v's membership is inverted and nothing else changes. */
  lemma FlipMemberHas(bm: seq<bv64>, v: bv16, u: bv16)
    requires |bm| == BitmapLength
    ensures Has(FlipMember(bm, v), u) == (Has(bm, u) != (u == v))
  {
    if WordIndex(u) == WordIndex(v) {
      FlipMemberSameWord(bm, v, u);
    } else {
      FlipMemberOtherWord(bm, v, u);
    }
  }

  /** After clearing v, the members are the old ones but v. */
  lemma ClearMemberHas(bm: seq<bv64>, v: bv16, u: bv16)
    requires |bm| == BitmapLength
    ensures Has(ClearMember(bm, v), u) == (Has(bm, u) && u != v)
  {
    if WordIndex(u) == WordIndex(v) {
      ClearMemberSameWord(bm, v, u);
    } else {
      ClearMemberOtherWord(bm, v, u);
    }
  }

  lemma {:induction false} PopcntConcat(a: seq<bv64>, b: seq<bv64>)
    ensures Popcnt(a + b) == Popcnt(a) + Popcnt(b)
    decreases |a|
  {
    if a == [] {
      assert a + b == b;
    } else {
      var c := a + b;
      assert c[0] == a[0] && c[1..] == a[1..] + b;
      PopcntConcat(a[1..], b);
    }
  }

  /** Replacing one word changes the buffer's count by the difference of
      the two words' counts. */
  lemma PopcntUpdate(s: seq<bv64>, i: int, x: bv64)
    requires 0 <= i < |s|
    ensures Popcnt(s[i := x]) + PopCount(s[i]) == Popcnt(s) + PopCount(x)
  {
    assert s == s[..i] + [s[i]] + s[i + 1..];
    assert s[i := x] == s[..i] + [x] + s[i + 1..];
    PopcntConcat(s[..i] + [s[i]], s[i + 1..]);
    PopcntConcat(s[..i], [s[i]]);
    PopcntConcat(s[..i] + [x], s[i + 1..]);
    PopcntConcat(s[..i], [x]);
  }

  lemma OrWhenSet(w: bv64, b: bv64)
    requires b < 64 && Bit(w, b)
    ensures w | (1 << b) == w
  {
  }

  lemma AndNotWhenClear(w: bv64, b: bv64)
    requires b < 64 && !Bit(w, b)
    ensures w & !(1 << b) == w
  {
  }

  lemma XorWhenSet(w: bv64, b: bv64)
    requires b < 64 && Bit(w, b)
    ensures w ^ (1 << b) == w & !(1 << b)
  {
  }

  lemma XorWhenClear(w: bv64, b: bv64)
    requires b < 64 && !Bit(w, b)
    ensures w ^ (1 << b) == w | (1 << b)
  {
  }

  lemma SetWordCount(w: bv64, b: bv64)
    requires b < 64
    ensures PopCount(w | (1 << b)) == PopCount(w) + (if Bit(w, b) then 0 else 1)
  {
    if Bit(w, b) {
      OrWhenSet(w, b);
    } else {
      PopCountSet(w, b);
    }
  }

  lemma FlipWordCount(w: bv64, b: bv64)
    requires b < 64
    ensures Bit(w, b) ==> PopCount(w ^ (1 << b)) + 1 == PopCount(w)
    ensures !Bit(w, b) ==> PopCount(w ^ (1 << b)) == PopCount(w) + 1
  {
    if Bit(w, b) {
      XorWhenSet(w, b);
      PopCountClear(w, b);
    } else {
      XorWhenClear(w, b);
      PopCountSet(w, b);
    }
  }

  lemma ClearWordCount(w: bv64, b: bv64)
    requires b < 64
    ensures Bit(w, b) ==> PopCount(w & !(1 << b)) + 1 == PopCount(w)
    ensures !Bit(w, b) ==> PopCount(w & !(1 << b)) == PopCount(w)
  {
    if Bit(w, b) {
      PopCountClear(w, b);
    } else {
      AndNotWhenClear(w, b);
    }
  }

  /** Combines a buffer's count change with its one word's count change. */
  lemma Rebalance(after: int, oldWord: int, before: int, newWord: int, d: int)
    requires after + oldWord == before + newWord && newWord == oldWord + d
    ensures after == before + d
  {
  }

  lemma SetWordAt(bm: seq<bv64>, k: int, b: bv64)
    requires 0 <= k < |bm| && b < 64
    ensures Popcnt(bm[k := bm[k] | (1 << b)]) == Popcnt(bm) + (if Bit(bm[k], b) then 0 else 1)
  {
    PopcntUpdate(bm, k, bm[k] | (1 << b));
    SetWordCount(bm[k], b);
    Rebalance(Popcnt(bm[k := bm[k] | (1 << b)]), PopCount(bm[k]), Popcnt(bm), PopCount(bm[k] | (1 << b)),
      if Bit(bm[k], b) then 0 else 1);
  }

  lemma FlipUpdateAt(bm: seq<bv64>, k: int, b: bv64)
    requires 0 <= k < |bm| && b < 64
    ensures Popcnt(bm[k := bm[k] ^ (1 << b)]) + PopCount(bm[k]) == Popcnt(bm) + PopCount(bm[k] ^ (1 << b))
  {
    PopcntUpdate(bm, k, bm[k] ^ (1 << b));
  }

  lemma FlipCountAt(bm: seq<bv64>, k: int, b: bv64)
    requires 0 <= k < |bm| && b < 64
    ensures Bit(bm[k], b) ==> PopCount(bm[k] ^ (1 << b)) + 1 == PopCount(bm[k])
    ensures !Bit(bm[k], b) ==> PopCount(bm[k] ^ (1 << b)) == PopCount(bm[k]) + 1
  {
    FlipWordCount(bm[k], b);
  }

  lemma FlipWordAt(bm: seq<bv64>, k: int, b: bv64)
    requires 0 <= k < |bm| && b < 64
    ensures Bit(bm[k], b) ==> Popcnt(bm[k := bm[k] ^ (1 << b)]) + 1 == Popcnt(bm)
    ensures !Bit(bm[k], b) ==> Popcnt(bm[k := bm[k] ^ (1 << b)]) == Popcnt(bm) + 1
  {
    FlipUpdateAt(bm, k, b);
    FlipCountAt(bm, k, b);
  }

  lemma ClearUpdateAt(bm: seq<bv64>, k: int, b: bv64)
    requires 0 <= k < |bm| && b < 64
    ensures Popcnt(bm[k := bm[k] & !(1 << b)]) + PopCount(bm[k]) == Popcnt(bm) + PopCount(bm[k] & !(1 << b))
  {
    PopcntUpdate(bm, k, bm[k] & !(1 << b));
  }

  lemma ClearCountAt(bm: seq<bv64>, k: int, b: bv64)
    requires 0 <= k < |bm| && b < 64
    ensures Bit(bm[k], b) ==> PopCount(bm[k] & !(1 << b)) + 1 == PopCount(bm[k])
    ensures !Bit(bm[k], b) ==> PopCount(bm[k] & !(1 << b)) == PopCount(bm[k])
  {
    ClearWordCount(bm[k], b);
  }

  lemma ClearWordAt(bm: seq<bv64>, k: int, b: bv64)
    requires 0 <= k < |bm| && b < 64
    ensures Bit(bm[k], b) ==> Popcnt(bm[k := bm[k] & !(1 << b)]) + 1 == Popcnt(bm)
    ensures !Bit(bm[k], b) ==> Popcnt(bm[k := bm[k] & !(1 << b)]) == Popcnt(bm)
  {
    ClearUpdateAt(bm, k, b);
    ClearCountAt(bm, k, b);
  }

  /** Setting a member adds one to the count unless it was present. */
  lemma SetMemberCount(bm: seq<bv64>, v: bv16)
    requires |bm| == BitmapLength
    ensures Popcnt(SetMember(bm, v)) == Popcnt(bm) + (if Has(bm, v) then 0 else 1)
  {
    SetWordAt(bm, WordIndex(v), Offset(v));
  }

  /** Toggling a member moves the count by one, down if it was present. */
  lemma FlipMemberCount(bm: seq<bv64>, v: bv16)
    requires |bm| == BitmapLength
    ensures Has(bm, v) ==> Popcnt(FlipMember(bm, v)) + 1 == Popcnt(bm)
    ensures !Has(bm, v) ==> Popcnt(FlipMember(bm, v)) == Popcnt(bm) + 1
  {
    FlipWordAt(bm, WordIndex(v), Offset(v));
  }

  /** Clearing an absent member leaves the buffer as it was. */
  lemma ClearAbsent(bm: seq<bv64>, v: bv16)
    requires |bm| == BitmapLength && !Has(bm, v)
    ensures ClearMember(bm, v) == bm
  {
    AndNotWhenClear(bm[WordIndex(v)], Offset(v));
  }

  /** Clearing a member removes one from the count if it was present. */
  lemma ClearMemberCount(bm: seq<bv64>, v: bv16)
    requires |bm| == BitmapLength
    ensures Has(bm, v) ==> Popcnt(ClearMember(bm, v)) + 1 == Popcnt(bm)
    ensures !Has(bm, v) ==> Popcnt(ClearMember(bm, v)) == Popcnt(bm)
  {
    if Has(bm, v) {
      ClearWordAt(bm, WordIndex(v), Offset(v));
    } else {
      ClearAbsent(bm, v);
    }
  }

  // ---------------------------------------------------------------------
  // Folds over a list of members

  lemma DistinctPrefix(vs: seq<bv16>)
    requires vs != [] && Distinct(vs)
    ensures Distinct(vs[..|vs| - 1]) && vs[|vs| - 1] !in vs[..|vs| - 1]
  {
    var p := vs[..|vs| - 1];
    forall i | 0 <= i < |p|
      ensures p[i] != vs[|vs| - 1]
    {
      assert p[i] == vs[i];
    }
  }

  lemma LastSplit(vs: seq<bv16>, u: bv16)
    requires vs != []
    ensures u in vs <==> u in vs[..|vs| - 1] || u == vs[|vs| - 1]
  {
    assert vs == vs[..|vs| - 1] + [vs[|vs| - 1]];
  }

  /** One more member, taken from a longer list, in each fold. */
  lemma OrIntoStep(bm: seq<bv64>, s: seq<bv16>, i: int)
    requires |bm| == BitmapLength && 0 <= i < |s|
    ensures OrInto(bm, s[..i + 1]) == SetMember(OrInto(bm, s[..i]), s[i])
  {
    assert s[..i + 1][..i] == s[..i];
  }

  lemma XorIntoStep(bm: seq<bv64>, s: seq<bv16>, i: int)
    requires |bm| == BitmapLength && 0 <= i < |s|
    ensures XorInto(bm, s[..i + 1]) == FlipMember(XorInto(bm, s[..i]), s[i])
  {
    assert s[..i + 1][..i] == s[..i];
  }

  lemma AndNotIntoStep(bm: seq<bv64>, s: seq<bv16>, i: int)
    requires |bm| == BitmapLength && 0 <= i < |s|
    ensures AndNotInto(bm, s[..i + 1]) == ClearMember(AndNotInto(bm, s[..i]), s[i])
  {
    assert s[..i + 1][..i] == s[..i];
  }

  /** OrArray's result holds exactly the old members and the members of vs. */
  lemma {:induction false} OrIntoHas(bm: seq<bv64>, vs: seq<bv16>, u: bv16)
    requires |bm| == BitmapLength
    ensures Has(OrInto(bm, vs), u) <==> Has(bm, u) || u in vs
    decreases |vs|
  {
    if vs != [] {
      var p, v := vs[..|vs| - 1], vs[|vs| - 1];
      OrIntoHas(bm, p, u);
      SetMemberHas(OrInto(bm, p), v, u);
      LastSplit(vs, u);
    }
  }

  /** XorArray's result holds the old members not in vs and the members of
      vs that were absent. */
  lemma {:induction false} XorIntoHas(bm: seq<bv64>, vs: seq<bv16>, u: bv16)
    requires |bm| == BitmapLength && Distinct(vs)
    ensures Has(XorInto(bm, vs), u) <==> Has(bm, u) != (u in vs)
    decreases |vs|
  {
    if vs != [] {
      var p, v := vs[..|vs| - 1], vs[|vs| - 1];
      DistinctPrefix(vs);
      XorIntoHas(bm, p, u);
      FlipMemberHas(XorInto(bm, p), v, u);
      LastSplit(vs, u);
    }
  }

  /** AndNotArray's result holds exactly the old members not in vs. */
  lemma {:induction false} AndNotIntoHas(bm: seq<bv64>, vs: seq<bv16>, u: bv16)
    requires |bm| == BitmapLength
    ensures Has(AndNotInto(bm, vs), u) <==> Has(bm, u) && u !in vs
    decreases |vs|
  {
    if vs != [] {
      var p, v := vs[..|vs| - 1], vs[|vs| - 1];
      AndNotIntoHas(bm, p, u);
      ClearMemberHas(AndNotInto(bm, p), v, u);
      LastSplit(vs, u);
    }
  }

  /** Setting distinct members adds one per member that was absent. */
  lemma {:induction false} OrIntoCount(bm: seq<bv64>, vs: seq<bv16>)
    requires |bm| == BitmapLength && Distinct(vs)
    ensures Popcnt(OrInto(bm, vs)) == Popcnt(bm) + CountClear(bm, vs)
    decreases |vs|
  {
    if vs != [] {
      var p, v := vs[..|vs| - 1], vs[|vs| - 1];
      DistinctPrefix(vs);
      OrIntoCount(bm, p);
      SetMemberCount(OrInto(bm, p), v);
      OrIntoHas(bm, p, v);
    }
  }

  /** Toggling distinct members adds one per absent member and removes one
      per present member. */
  lemma {:induction false} XorIntoCount(bm: seq<bv64>, vs: seq<bv16>)
    requires |bm| == BitmapLength && Distinct(vs)
    ensures Popcnt(XorInto(bm, vs)) == Popcnt(bm) + CountClear(bm, vs) - CountSet(bm, vs)
    decreases |vs|
  {
    if vs != [] {
      var p, v := vs[..|vs| - 1], vs[|vs| - 1];
      DistinctPrefix(vs);
      XorIntoCount(bm, p);
      FlipMemberCount(XorInto(bm, p), v);
      XorIntoHas(bm, p, v);
    }
  }

  /** Clearing distinct members removes one per member that was present. */
  lemma {:induction false} AndNotIntoCount(bm: seq<bv64>, vs: seq<bv16>)
    requires |bm| == BitmapLength && Distinct(vs)
    ensures Popcnt(AndNotInto(bm, vs)) == Popcnt(bm) - CountSet(bm, vs)
    decreases |vs|
  {
    if vs != [] {
      var p, v := vs[..|vs| - 1], vs[|vs| - 1];
      DistinctPrefix(vs);
      AndNotIntoCount(bm, p);
      ClearMemberCount(AndNotInto(bm, p), v);
      AndNotIntoHas(bm, p, v);
    }
  }

  /** Every member of vs is either absent or present. */
  lemma {:induction false} CountsSum(bm: seq<bv64>, vs: seq<bv16>)
    requires |bm| == BitmapLength
    ensures CountClear(bm, vs) + CountSet(bm, vs) == |vs|
    decreases |vs|
  {
    if vs != [] {
      CountsSum(bm, vs[..|vs| - 1]);
    }
  }

  // ---------------------------------------------------------------------
  // The empty and the full buffer

  lemma ZerosHasNothing(u: bv16)
    ensures !Has(Zeros(), u)
  {
    BitOfZero(Offset(u));
  }

  lemma OnesHasAll(u: bv16)
    ensures Has(Ones(), u)
  {
    BitOfOnes(Offset(u));
  }

  lemma {:induction false} PopcntAllZero(s: seq<bv64>)
    requires forall i :: 0 <= i < |s| ==> s[i] == 0
    ensures Popcnt(s) == 0
    decreases |s|
  {
    if s != [] {
      PopCountFacts(s[0]);
      PopcntAllZero(s[1..]);
    }
  }

  lemma {:induction false} PopcntAllOnes(s: seq<bv64>)
    requires forall i :: 0 <= i < |s| ==> s[i] == 0xFFFF_FFFF_FFFF_FFFF
    ensures Popcnt(s) == 64 * |s|
    decreases |s|
  {
    if s != [] {
      PopCountFacts(s[0]);
      PopcntAllOnes(s[1..]);
    }
  }

  lemma PopcntZerosOnes()
    ensures Popcnt(Zeros()) == 0 && Popcnt(Ones()) == MaxCapacity
  {
    PopcntAllZero(Zeros());
    PopcntAllOnes(Ones());
  }

  lemma {:induction false} CountClearZeros(vs: seq<bv16>)
    ensures CountClear(Zeros(), vs) == |vs|
    decreases |vs|
  {
    if vs != [] {
      CountClearZeros(vs[..|vs| - 1]);
      ZerosHasNothing(vs[|vs| - 1]);
    }
  }

  lemma {:induction false} CountSetOnes(vs: seq<bv16>)
    ensures CountSet(Ones(), vs) == |vs|
    decreases |vs|
  {
    if vs != [] {
      CountSetOnes(vs[..|vs| - 1]);
      OnesHasAll(vs[|vs| - 1]);
    }
  }

  /** Setting n distinct members into the empty buffer counts n; clearing
      them from the full buffer counts 65536 - n. */
  lemma FromValuesCount(vs: seq<bv16>)
    requires Distinct(vs)
    ensures Popcnt(OrInto(Zeros(), vs)) == |vs|
    ensures Popcnt(AndNotInto(Ones(), vs)) == MaxCapacity - |vs|
  {
    PopcntZerosOnes();
    OrIntoCount(Zeros(), vs);
    CountClearZeros(vs);
    AndNotIntoCount(Ones(), vs);
    CountSetOnes(vs);
  }

  // ---------------------------------------------------------------------
  // Word-wise views of the folds (the vectorized paths)

  lemma OrAssocRaw(a: bv64, b: bv64, c: bv64)
    ensures (a | b) | c == a | (b | c)
  {
  }

  lemma AndNotOrRaw(a: bv64, b: bv64, c: bv64)
    ensures (a & !b) & !c == a & !(b | c)
  {
  }

  lemma OrZeroRaw(a: bv64)
    ensures a | 0 == a && a ^ 0 == a && a & !0 == a
  {
  }

  lemma SetMemberSameWordAt(bm: seq<bv64>, v: bv16, k: int)
    requires |bm| == BitmapLength && k == WordIndex(v)
    ensures SetMember(bm, v)[k] == bm[k] | (1 << Offset(v))
  {
  }

  lemma SetMemberOtherWordAt(bm: seq<bv64>, v: bv16, k: int)
    requires |bm| == BitmapLength && 0 <= k < BitmapLength && k != WordIndex(v)
    ensures SetMember(bm, v)[k] == bm[k]
  {
  }

  lemma FlipMemberSameWordAt(bm: seq<bv64>, v: bv16, k: int)
    requires |bm| == BitmapLength && k == WordIndex(v)
    ensures FlipMember(bm, v)[k] == bm[k] ^ (1 << Offset(v))
  {
  }

  lemma FlipMemberOtherWordAt(bm: seq<bv64>, v: bv16, k: int)
    requires |bm| == BitmapLength && 0 <= k < BitmapLength && k != WordIndex(v)
    ensures FlipMember(bm, v)[k] == bm[k]
  {
  }

  lemma ClearMemberSameWordAt(bm: seq<bv64>, v: bv16, k: int)
    requires |bm| == BitmapLength && k == WordIndex(v)
    ensures ClearMember(bm, v)[k] == bm[k] & ! (1 << Offset(v))
  {
  }

  lemma ClearMemberOtherWordAt(bm: seq<bv64>, v: bv16, k: int)
    requires |bm| == BitmapLength && 0 <= k < BitmapLength && k != WordIndex(v)
    ensures ClearMember(bm, v)[k] == bm[k]
  {
  }

  lemma OrWordwiseSame(bm: seq<bv64>, vs: seq<bv16>, k: int)
    requires |bm| == BitmapLength && vs != [] && k == WordIndex(vs[|vs| - 1])
    requires OrInto(bm, vs[..|vs| - 1])[k] == bm[k] | OrInto(Zeros(), vs[..|vs| - 1])[k]
    ensures OrInto(bm, vs)[k] == bm[k] | OrInto(Zeros(), vs)[k]
  {
    var p, v := vs[..|vs| - 1], vs[|vs| - 1];
    SetMemberSameWordAt(OrInto(bm, p), v, k);
    SetMemberSameWordAt(OrInto(Zeros(), p), v, k);
    OrAssocRaw(bm[k], OrInto(Zeros(), p)[k], 1 << Offset(v));
  }

  lemma OrWordwiseOther(bm: seq<bv64>, vs: seq<bv16>, k: int)
    requires |bm| == BitmapLength && vs != [] && 0 <= k < BitmapLength && k != WordIndex(vs[|vs| - 1])
    requires OrInto(bm, vs[..|vs| - 1])[k] == bm[k] | OrInto(Zeros(), vs[..|vs| - 1])[k]
    ensures OrInto(bm, vs)[k] == bm[k] | OrInto(Zeros(), vs)[k]
  {
    var p, v := vs[..|vs| - 1], vs[|vs| - 1];
    SetMemberOtherWordAt(OrInto(bm, p), v, k);
    SetMemberOtherWordAt(OrInto(Zeros(), p), v, k);
  }

  lemma OrWordwiseStep(bm: seq<bv64>, vs: seq<bv16>, k: int)
    requires |bm| == BitmapLength && 0 <= k < BitmapLength && vs != []
    requires OrInto(bm, vs[..|vs| - 1])[k] == bm[k] | OrInto(Zeros(), vs[..|vs| - 1])[k]
    ensures OrInto(bm, vs)[k] == bm[k] | OrInto(Zeros(), vs)[k]
  {
    if k == WordIndex(vs[|vs| - 1]) {
      OrWordwiseSame(bm, vs, k);
    } else {
      OrWordwiseOther(bm, vs, k);
    }
  }

  lemma AndNotWordwiseSame(bm: seq<bv64>, vs: seq<bv16>, k: int)
    requires |bm| == BitmapLength && vs != [] && k == WordIndex(vs[|vs| - 1])
    requires AndNotInto(bm, vs[..|vs| - 1])[k] == bm[k] & !OrInto(Zeros(), vs[..|vs| - 1])[k]
    ensures AndNotInto(bm, vs)[k] == bm[k] & !OrInto(Zeros(), vs)[k]
  {
    var p, v := vs[..|vs| - 1], vs[|vs| - 1];
    ClearMemberSameWordAt(AndNotInto(bm, p), v, k);
    SetMemberSameWordAt(OrInto(Zeros(), p), v, k);
    AndNotOrRaw(bm[k], OrInto(Zeros(), p)[k], 1 << Offset(v));
  }

  lemma AndNotWordwiseOther(bm: seq<bv64>, vs: seq<bv16>, k: int)
    requires |bm| == BitmapLength && vs != [] && 0 <= k < BitmapLength && k != WordIndex(vs[|vs| - 1])
    requires AndNotInto(bm, vs[..|vs| - 1])[k] == bm[k] & !OrInto(Zeros(), vs[..|vs| - 1])[k]
    ensures AndNotInto(bm, vs)[k] == bm[k] & !OrInto(Zeros(), vs)[k]
  {
    var p, v := vs[..|vs| - 1], vs[|vs| - 1];
    ClearMemberOtherWordAt(AndNotInto(bm, p), v, k);
    SetMemberOtherWordAt(OrInto(Zeros(), p), v, k);
  }

  lemma AndNotWordwiseStep(bm: seq<bv64>, vs: seq<bv16>, k: int)
    requires |bm| == BitmapLength && 0 <= k < BitmapLength && vs != []
    requires AndNotInto(bm, vs[..|vs| - 1])[k] == bm[k] & !OrInto(Zeros(), vs[..|vs| - 1])[k]
    ensures AndNotInto(bm, vs)[k] == bm[k] & !OrInto(Zeros(), vs)[k]
  {
    if k == WordIndex(vs[|vs| - 1]) {
      AndNotWordwiseSame(bm, vs, k);
    } else {
      AndNotWordwiseOther(bm, vs, k);
    }
  }

  /** Setting members word by word is OR-ing in the members' own buffer. */
  lemma {:induction false} OrIntoWordwise(bm: seq<bv64>, vs: seq<bv16>, k: int)
    requires |bm| == BitmapLength && 0 <= k < BitmapLength
    ensures OrInto(bm, vs)[k] == bm[k] | OrInto(Zeros(), vs)[k]
    decreases |vs|
  {
    if vs == [] {
      OrZeroRaw(bm[k]);
    } else {
      OrIntoWordwise(bm, vs[..|vs| - 1], k);
      OrWordwiseStep(bm, vs, k);
    }
  }

  /** Clearing members word by word is AND-NOT-ing their own buffer. */
  lemma {:induction false} AndNotIntoWordwise(bm: seq<bv64>, vs: seq<bv16>, k: int)
    requires |bm| == BitmapLength && 0 <= k < BitmapLength
    ensures AndNotInto(bm, vs)[k] == bm[k] & !OrInto(Zeros(), vs)[k]
    decreases |vs|
  {
    if vs == [] {
      OrZeroRaw(bm[k]);
    } else {
      AndNotIntoWordwise(bm, vs[..|vs| - 1], k);
      AndNotWordwiseStep(bm, vs, k);
    }
  }

  /** The scalar and the word-wise routes reach the same buffer. */
  lemma OrRoutesAgree(bm: seq<bv64>, vs: seq<bv16>)
    requires |bm| == BitmapLength
    ensures OrWords(bm, OrInto(Zeros(), vs)) == OrInto(bm, vs)
  {
    forall k | 0 <= k < BitmapLength
      ensures OrWords(bm, OrInto(Zeros(), vs))[k] == OrInto(bm, vs)[k]
    {
      OrIntoWordwise(bm, vs, k);
    }
  }

  lemma XorWordsHas(a: seq<bv64>, b: seq<bv64>, u: bv16)
    requires |a| == BitmapLength && |b| == BitmapLength
    ensures Has(XorWords(a, b), u) == (Has(a, u) != Has(b, u))
  {
    XorWordsBit(a, b, WordIndex(u), Offset(u));
  }

  /** A buffer is determined by its members. */
  lemma SameMembersSameBuffer(a: seq<bv64>, b: seq<bv64>)
    requires |a| == BitmapLength && |b| == BitmapLength
    requires forall u :: Has(a, u) <==> Has(b, u)
    ensures a == b
  {
    forall k | 0 <= k < BitmapLength
      ensures a[k] == b[k]
    {
      var kb := IndexAsBits(k);
      forall n: bv64 | n < 64
        ensures Bit(a[k], n) == Bit(b[k], n)
      {
        SameBitAt(a, b, kb, n);
      }
      WordsEqualByBits(a[k], b[k]);
    }
  }

  lemma SameBitAt(a: seq<bv64>, b: seq<bv64>, kb: bv16, n: bv64)
    requires |a| == BitmapLength && |b| == BitmapLength && kb < 1024 && n < 64
    requires forall u :: Has(a, u) <==> Has(b, u)
    ensures kb as int < 1024 && Bit(a[kb as int], n) == Bit(b[kb as int], n)
  {
    var u := Value(kb, n);
    ValueParts(kb, n);
    assert Has(a, u) == Has(b, u);
  }

  /** The members of the other word-wise combinations. */
  lemma AndWordsHas(a: seq<bv64>, b: seq<bv64>, u: bv16)
    requires |a| == BitmapLength && |b| == BitmapLength
    ensures Has(AndWords(a, b), u) == (Has(a, u) && Has(b, u))
  {
    var k, n := WordIndex(u), Offset(u);
    AndBits(a[k], b[k], AndWords(a, b)[k], n);
  }

  lemma AndBits(x: bv64, y: bv64, z: bv64, n: bv64)
    requires n < 64 && z == x & y
    ensures Bit(z, n) == (Bit(x, n) && Bit(y, n))
  {
    BitOfAnd(x, y, n);
  }

  lemma OrWordsHas(a: seq<bv64>, b: seq<bv64>, u: bv16)
    requires |a| == BitmapLength && |b| == BitmapLength
    ensures Has(OrWords(a, b), u) == (Has(a, u) || Has(b, u))
  {
    var k, n := WordIndex(u), Offset(u);
    OrBits(a[k], b[k], OrWords(a, b)[k], n);
  }

  lemma OrBits(x: bv64, y: bv64, z: bv64, n: bv64)
    requires n < 64 && z == x | y
    ensures Bit(z, n) == (Bit(x, n) || Bit(y, n))
  {
    BitOfOr(x, y, n);
  }

  lemma AndNotWordsHas(a: seq<bv64>, b: seq<bv64>, u: bv16)
    requires |a| == BitmapLength && |b| == BitmapLength
    ensures Has(AndNotWords(a, b), u) == (Has(a, u) && !Has(b, u))
  {
    var k, n := WordIndex(u), Offset(u);
    AndNotBits(a[k], b[k], AndNotWords(a, b)[k], n);
  }

  lemma AndNotBits(x: bv64, y: bv64, z: bv64, n: bv64)
    requires n < 64 && z == x & !y
    ensures Bit(z, n) == (Bit(x, n) && !Bit(y, n))
  {
    BitOfAndNot(x, y, n);
  }

  lemma NotWordsHas(a: seq<bv64>, u: bv16)
    requires |a| == BitmapLength
    ensures Has(NotWords(a), u) == !Has(a, u)
  {
    var k, n := WordIndex(u), Offset(u);
    NotBits(a[k], NotWords(a)[k], n);
  }

  lemma NotBits(x: bv64, z: bv64, n: bv64)
    requires n < 64 && z == !x
    ensures Bit(z, n) == !Bit(x, n)
  {
    BitOfNot(x, n);
  }

  lemma XorWordsBit(a: seq<bv64>, b: seq<bv64>, k: int, n: bv64)
    requires |a| == |b| && 0 <= k < |a| && n < 64
    ensures Bit(XorWords(a, b)[k], n) == (Bit(a[k], n) != Bit(b[k], n))
  {
    XorWordsWordBit(a, b, k, n);
    BitOfXor(a[k], b[k], n);
  }

  lemma XorWordsWordBit(a: seq<bv64>, b: seq<bv64>, k: int, n: bv64)
    requires |a| == |b| && 0 <= k < |a| && n < 64
    ensures Bit(XorWords(a, b)[k], n) == Bit(a[k] ^ b[k], n)
  {
  }

  lemma XorWordsAt(a: seq<bv64>, b: seq<bv64>, k: int)
    requires |a| == |b| && 0 <= k < |a|
    ensures XorWords(a, b)[k] == a[k] ^ b[k]
  {
  }

  lemma XorOrDisjointRaw(a: bv64, z: bv64, m: bv64)
    requires z & m == 0
    ensures (a ^ z) ^ m == a ^ (z | m)
  {
  }

  /** The last of distinct members is not yet in the buffer of the others. */
  lemma FreshBit(vs: seq<bv16>, k: int)
    requires vs != [] && Distinct(vs) && k == WordIndex(vs[|vs| - 1])
    ensures OrInto(Zeros(), vs[..|vs| - 1])[k] & (1 << Offset(vs[|vs| - 1])) == 0
  {
    var p, v := vs[..|vs| - 1], vs[|vs| - 1];
    DistinctPrefix(vs);
    OrIntoHas(Zeros(), p, v);
    ZerosHasNothing(v);
    BitByMask(OrInto(Zeros(), p)[k], Offset(v));
  }

  lemma XorWordwiseSame(bm: seq<bv64>, vs: seq<bv16>, k: int)
    requires |bm| == BitmapLength && vs != [] && Distinct(vs) && k == WordIndex(vs[|vs| - 1])
    requires XorInto(bm, vs[..|vs| - 1])[k] == bm[k] ^ OrInto(Zeros(), vs[..|vs| - 1])[k]
    ensures XorInto(bm, vs)[k] == bm[k] ^ OrInto(Zeros(), vs)[k]
  {
    var p, v := vs[..|vs| - 1], vs[|vs| - 1];
    FlipMemberSameWordAt(XorInto(bm, p), v, k);
    SetMemberSameWordAt(OrInto(Zeros(), p), v, k);
    FreshBit(vs, k);
    XorOrDisjointRaw(bm[k], OrInto(Zeros(), p)[k], 1 << Offset(v));
  }

  lemma XorWordwiseOther(bm: seq<bv64>, vs: seq<bv16>, k: int)
    requires |bm| == BitmapLength && vs != [] && 0 <= k < BitmapLength && k != WordIndex(vs[|vs| - 1])
    requires XorInto(bm, vs[..|vs| - 1])[k] == bm[k] ^ OrInto(Zeros(), vs[..|vs| - 1])[k]
    ensures XorInto(bm, vs)[k] == bm[k] ^ OrInto(Zeros(), vs)[k]
  {
    var p, v := vs[..|vs| - 1], vs[|vs| - 1];
    FlipMemberOtherWordAt(XorInto(bm, p), v, k);
    SetMemberOtherWordAt(OrInto(Zeros(), p), v, k);
  }

  lemma XorWordwiseStep(bm: seq<bv64>, vs: seq<bv16>, k: int)
    requires |bm| == BitmapLength && 0 <= k < BitmapLength && vs != [] && Distinct(vs)
    requires XorInto(bm, vs[..|vs| - 1])[k] == bm[k] ^ OrInto(Zeros(), vs[..|vs| - 1])[k]
    ensures XorInto(bm, vs)[k] == bm[k] ^ OrInto(Zeros(), vs)[k]
  {
    if k == WordIndex(vs[|vs| - 1]) {
      XorWordwiseSame(bm, vs, k);
    } else {
      XorWordwiseOther(bm, vs, k);
    }
  }

  /** Toggling distinct members word by word is XOR-ing in their own
      buffer. */
  lemma {:induction false} XorIntoWordwise(bm: seq<bv64>, vs: seq<bv16>, k: int)
    requires |bm| == BitmapLength && 0 <= k < BitmapLength && Distinct(vs)
    ensures XorInto(bm, vs)[k] == bm[k] ^ OrInto(Zeros(), vs)[k]
    decreases |vs|
  {
    if vs == [] {
      OrZeroRaw(bm[k]);
    } else {
      DistinctPrefix(vs);
      XorIntoWordwise(bm, vs[..|vs| - 1], k);
      XorWordwiseStep(bm, vs, k);
    }
  }

  /** For distinct members, XOR-ing in the members' own buffer reaches the
      same buffer as toggling them one by one. */
  lemma XorRoutesAgree(bm: seq<bv64>, vs: seq<bv16>)
    requires |bm| == BitmapLength && Distinct(vs)
    ensures XorWords(bm, OrInto(Zeros(), vs)) == XorInto(bm, vs)
  {
    forall k | 0 <= k < BitmapLength
      ensures XorWords(bm, OrInto(Zeros(), vs))[k] == XorInto(bm, vs)[k]
    {
      XorWordsAt(bm, OrInto(Zeros(), vs), k);
      XorIntoWordwise(bm, vs, k);
    }
  }

  lemma AndNotRoutesAgree(bm: seq<bv64>, vs: seq<bv16>)
    requires |bm| == BitmapLength
    ensures AndNotWords(bm, OrInto(Zeros(), vs)) == AndNotInto(bm, vs)
  {
    forall k | 0 <= k < BitmapLength
      ensures AndNotWords(bm, OrInto(Zeros(), vs))[k] == AndNotInto(bm, vs)[k]
    {
      AndNotIntoWordwise(bm, vs, k);
    }
  }

  // ---------------------------------------------------------------------
  // The branchless cardinality deltas of the array primitives

  lemma ToInt32Small()
    ensures ToInt32(0) == 0 && ToInt32(1) == 1 && ToInt32(0xFFFF_FFFF_FFFF_FFFF) == -1
  {
  }

  lemma OrDeltaRaw(p: bv64, b: bv64)
    requires b < 64
    ensures (p - (p | (1 << b))) >> 63 == if (p >> b) & 1 == 1 then 0 else 1
  {
  }

  /** OrArray's `(int) ((previous - after) >> 63)` is 1 exactly when the
      bit was clear. */
  lemma OrDelta(previous: bv64, after: bv64, b: bv64)
    requires b < 64 && after == previous | (1 << b)
    ensures ToInt32((previous - after) >> 63) == if Bit(previous, b) then 0 else 1
  {
    OrDeltaRaw(previous, b);
    ToInt32Small();
  }

  lemma ZeroOrMask(p: bv64, b: bv64)
    requires b < 64
    ensures p & (1 << b) == 0 || p & (1 << b) == 1 << b
  {
  }

  /** A word holding at most the bit at b, shifted down by b. */
  lemma ShiftBack(x: bv64, m: bv64, b: bv64)
    requires b < 64 && m == 1 << b && (x == 0 || x == m)
    ensures x >> b == if x == 0 then 0 else 1
  {
  }

  lemma OneMinusTwice(x: bv64)
    requires x == 0 || x == 1
    ensures 1 - 2 * x == if x == 1 then 0xFFFF_FFFF_FFFF_FFFF else 1
  {
  }

  lemma XorDeltaBits(previous: bv64, b: bv64)
    requires b < 64
    ensures 1 - 2 * ((previous & (1 << b)) >> b) == if Bit(previous, b) then 0xFFFF_FFFF_FFFF_FFFF else 1
  {
    ZeroOrMask(previous, b);
    BitByMask(previous, b);
    ShiftBack(previous & (1 << b), 1 << b, b);
    OneMinusTwice((previous & (1 << b)) >> b);
  }

  lemma XorDeltaSign(previous: bv64, b: bv64)
    requires b < 64
    requires 1 - 2 * ((previous & (1 << b)) >> b) == if Bit(previous, b) then 0xFFFF_FFFF_FFFF_FFFF else 1
    ensures ToInt32(1 - 2 * ((previous & (1 << b)) >> b)) == if Bit(previous, b) then -1 else 1
  {
    ToInt32Small();
  }

  /** XorArray's `(int) (1 - 2 * ((previous & mask) >> v))`, where mask is
      the bit of v, is -1 when the bit was set and 1 when it was clear. */
  lemma XorDelta(previous: bv64, b: bv64)
    requires b < 64
    ensures ToInt32(1 - 2 * ((previous & (1 << b)) >> b)) == if Bit(previous, b) then -1 else 1
  {
    XorDeltaBits(previous, b);
    XorDeltaSign(previous, b);
  }

  lemma XorOfClearedRaw(p: bv64, b: bv64, after: bv64)
    requires b < 64 && after == p & !(1 << b)
    ensures p ^ after == p & (1 << b)
  {
  }

  lemma ClearedDifference(previous: bv64, b: bv64, after: bv64)
    requires b < 64 && after == previous & !(1 << b)
    ensures previous ^ after == 0 || previous ^ after == 1 << b
    ensures (previous ^ after != 0) == Bit(previous, b)
  {
    XorOfClearedRaw(previous, b, after);
    ZeroOrMask(previous, b);
    BitByMask(previous, b);
  }

  lemma AndNotDeltaBits(previous: bv64, b: bv64, after: bv64)
    requires b < 64 && after == previous & !(1 << b)
    ensures (previous ^ after) >> b == if Bit(previous, b) then 1 else 0
  {
    ClearedDifference(previous, b, after);
    ShiftBack(previous ^ after, 1 << b, b);
  }

  lemma ToInt32Cases(x: bv64)
    requires x == 0xFFFF_FFFF_FFFF_FFFF || x == 1 || x == 0
    ensures ToInt32(x) == if x == 1 then 1 else if x == 0 then 0 else -1
  {
  }

  /** AndNotArray's `(int) ((previous ^ after) >> v)`, where after is
      previous with the bit of v cleared, is 1 exactly when the bit was
      set. */
  lemma AndNotDelta(previous: bv64, b: bv64, after: bv64)
    requires b < 64 && after == previous & !(1 << b)
    ensures ToInt32((previous ^ after) >> b) == if Bit(previous, b) then 1 else 0
  {
    AndNotDeltaBits(previous, b, after);
    ToInt32Cases((previous ^ after) >> b);
  }

  // ---------------------------------------------------------------------
  // One iteration of the ArrayContainer loops on a buffer, in word terms:
  // `previous` is the word of v, b its bit, and `gain` what the loop adds
  // to its count.

  lemma SetMemberIs(bm: seq<bv64>, v: bv16, b: bv64, previous: bv64, after: bv64)
    requires |bm| == BitmapLength && b == Offset(v) && previous == bm[WordIndex(v)]
    requires after == previous | (1 << b)
    ensures SetMember(bm, v) == bm[WordIndex(v) := after]
  {
  }

  lemma FlipMemberIs(bm: seq<bv64>, v: bv16, b: bv64, previous: bv64, mask: bv64, after: bv64)
    requires |bm| == BitmapLength && b == Offset(v) && previous == bm[WordIndex(v)]
    requires mask == 1 << b && after == previous ^ mask
    ensures FlipMember(bm, v) == bm[WordIndex(v) := after]
  {
  }

  lemma ClearedWith(x: bv64, v: bv16, b: bv64)
    requires b == Offset(v)
    ensures x & !(1 << b) == x & !(1 << Offset(v))
  {
  }

  lemma ClearMemberIs(bm: seq<bv64>, v: bv16, after: bv64)
    requires |bm| == BitmapLength && after == bm[WordIndex(v)] & !(1 << Offset(v))
    ensures ClearMember(bm, v) == bm[WordIndex(v) := after]
  {
  }

  /** OrArray's gain is the change of the population count. */
  lemma OrGainStep(bm: seq<bv64>, v: bv16, b: bv64, previous: bv64, after: bv64, gain: int)
    requires |bm| == BitmapLength && b == Offset(v) && previous == bm[WordIndex(v)]
    requires after == previous | (1 << b) && gain == ToInt32((previous - after) >> 63)
    ensures Popcnt(SetMember(bm, v)) == Popcnt(bm) + gain
  {
    OrDelta(previous, after, b);
    SetMemberCount(bm, v);
  }

  /** XorArray's gain is the change of the population count. */
  lemma XorGainStep(bm: seq<bv64>, v: bv16, b: bv64, previous: bv64, mask: bv64, gain: int)
    requires |bm| == BitmapLength && b == Offset(v) && previous == bm[WordIndex(v)]
    requires mask == 1 << b && gain == if Bit(previous, b) then -1 else 1
    ensures Popcnt(FlipMember(bm, v)) == Popcnt(bm) + gain
  {
    FlipMemberCount(bm, v);
  }

  /** AndNotArray's loss is the drop of the population count. */
  lemma AndNotLossStep(bm: seq<bv64>, v: bv16, b: bv64, previous: bv64, after: bv64, loss: int)
    requires |bm| == BitmapLength && b == Offset(v) && previous == bm[WordIndex(v)]
    requires after == previous & !(1 << b) && loss == ToInt32((previous ^ after) >> b)
    ensures Popcnt(ClearMember(bm, v)) == Popcnt(bm) - loss
  {
    AndNotDelta(previous, b, after);
    assert Has(bm, v) == Bit(previous, b);
    ClearMemberCount(bm, v);
  }

  // ---------------------------------------------------------------------
  // The word loops: a buffer whose every word is the combination of the
  // words at the same index is the word-wise combination.

  lemma AndWordsFrom(a: seq<bv64>, t: seq<bv64>, r: seq<bv64>)
    requires |a| == |t| == |r|
    requires forall j :: 0 <= j < |r| ==> r[j] == a[j] & t[j]
    ensures r == AndWords(a, t)
  {
  }

  lemma OrWordsFrom(a: seq<bv64>, t: seq<bv64>, r: seq<bv64>)
    requires |a| == |t| == |r|
    requires forall j :: 0 <= j < |r| ==> r[j] == a[j] | t[j]
    ensures r == OrWords(a, t)
  {
  }

  lemma XorWordsFrom(a: seq<bv64>, t: seq<bv64>, r: seq<bv64>)
    requires |a| == |t| == |r|
    requires forall j :: 0 <= j < |r| ==> r[j] == a[j] ^ t[j]
    ensures r == XorWords(a, t)
  {
  }

  lemma AndNotWordsFrom(a: seq<bv64>, t: seq<bv64>, r: seq<bv64>)
    requires |a| == |t| == |r|
    requires forall j :: 0 <= j < |r| ==> r[j] == a[j] & !t[j]
    ensures r == AndNotWords(a, t)
  {
  }

  lemma NotWordsFrom(a: seq<bv64>, r: seq<bv64>)
    requires |a| == |r|
    requires forall j :: 0 <= j < |r| ==> r[j] == !a[j]
    ensures r == NotWords(a)
  {
  }
}
