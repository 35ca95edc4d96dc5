/** Bit-level vocabulary shared by the two container kinds: the 64-bit words
    of a dense buffer, the 16-bit member values, population counts, and the
    ascending enumeration of set bits.  A C# `ulong` is a `bv64`, a `ushort`
    a `bv16`; counts are Dafny integers. */
module Words {

  /** Words in the dense buffer of a BitmapContainer. */
  const BitmapLength := 1024
  /** Container.MaxSize: the largest cardinality kept in array form. */
  const MaxSize := 4096
  /** Container.MaxCapacity: the size of the 16-bit universe. */
  const MaxCapacity := 65536

  /** Strictly ascending 16-bit values, compared as bit-vectors. */
  ghost predicate StrictlyIncreasing(s: seq<bv16>)
  {
    forall i, j :: 0 <= i < j < |s| ==> s[i] < s[j]
  }

  /** No value occurs twice. */
  ghost predicate Distinct(s: seq<bv16>)
  {
    forall i, j :: 0 <= i < j < |s| ==> s[i] != s[j]
  }

  /** Bit n of w is set. */
  predicate Bit(w: bv64, n: bv64)
    requires n < 64
  {
    (w >> n) & 1 == 1
  }

  /** The bit position of v inside its word: C# reduces the count of
      `1UL << v` modulo 64, so the source's shifts use exactly this. */
  function Offset(v: bv16): (b: bv64)
    ensures b < 64
  {
    (v & 63) as bv64
  }

  /** The source's `v >> 6`: the word that holds v. */
  function WordIndex(v: bv16): (k: int)
    ensures 0 <= k < BitmapLength
  {
    (v >> 6) as int
  }

  /** v is a member of the dense buffer bm. */
  ghost predicate Has(bm: seq<bv64>, v: bv16)
    requires |bm| == BitmapLength
  {
    Bit(bm[WordIndex(v)], Offset(v))
  }

  // ---------------------------------------------------------------------
  // Population counts

  /** Number of set bits of w below position j. */
  function PopCountBelow(w: bv64, j: bv64): nat
    requires j <= 64
    decreases j
  {
    if j == 0 then 0 else PopCountBelow(w, j - 1) + (if Bit(w, j - 1) then 1 else 0)
  }

  /** BitOperations.PopCount on one word. */
  function PopCount(w: bv64): nat
  {
    PopCountBelow(w, 64)
  }

  /** Utils.Popcnt: the number of set bits of a whole buffer. */
  function Popcnt(s: seq<bv64>): nat
  {
    if s == [] then 0 else PopCount(s[0]) + Popcnt(s[1..])
  }

  // ---------------------------------------------------------------------
  // Ascending enumeration of set bits

  /** The member at bit b of word kb. */
  function Value(kb: bv16, b: bv64): bv16
    requires kb < 1024 && b < 64
  {
    (kb << 6) + b as bv16
  }

  /** The members held by bits n.. of word w, the word at index kb, in
      ascending order. */
  ghost function WordBits(w: bv64, n: bv64, kb: bv16): seq<bv16>
    requires n <= 64 && kb < 1024
    decreases 64 - n
  {
    if n == 64 then []
    else (if Bit(w, n) then [Value(kb, n)] else []) + WordBits(w, n + 1, kb)
  }

  /** The members held by words kb.. of a buffer, word after word. */
  ghost function BufferBits(bm: seq<bv64>, kb: bv16): seq<bv16>
    requires |bm| == BitmapLength && kb <= 1024
    decreases 1024 - kb
  {
    if kb == 1024 then []
    else
      WordIndexBound(kb);
      WordBits(bm[kb as int], 0, kb) + BufferBits(bm, kb + 1)
  }

  /** The members of a buffer in ascending order. */
  ghost function Elements(bm: seq<bv64>): seq<bv16>
    requires |bm| == BitmapLength
  {
    BufferBits(bm, 0)
  }

  // ---------------------------------------------------------------------
  // Single-bit facts

  /** The source tests a bit with a mask: `(w & (1UL << n)) != 0`. */
  lemma BitByMask(w: bv64, n: bv64)
    requires n < 64
    ensures Bit(w, n) == (w & (1 << n) != 0)
  {
  }

  lemma BitOfOr(a: bv64, m: bv64, n: bv64)
    requires n < 64
    ensures Bit(a | m, n) == (Bit(a, n) || Bit(m, n))
  {
  }

  lemma BitOfXor(a: bv64, m: bv64, n: bv64)
    requires n < 64
    ensures Bit(a ^ m, n) == (Bit(a, n) != Bit(m, n))
  {
  }

  lemma BitOfAndNot(a: bv64, m: bv64, n: bv64)
    requires n < 64
    ensures Bit(a & !m, n) == (Bit(a, n) && !Bit(m, n))
  {
  }

  lemma BitOfNot(a: bv64, n: bv64)
    requires n < 64
    ensures Bit(!a, n) == !Bit(a, n)
  {
  }

  lemma BitOfAnd(a: bv64, m: bv64, n: bv64)
    requires n < 64
    ensures Bit(a & m, n) == (Bit(a, n) && Bit(m, n))
  {
  }

  lemma BitOfSingle(b: bv64, n: bv64)
    requires b < 64 && n < 64
    ensures Bit(1 << b, n) == (n == b)
  {
  }

  lemma BitOfZero(n: bv64)
    requires n < 64
    ensures !Bit(0, n)
  {
  }

  lemma BitOfOnes(n: bv64)
    requires n < 64
    ensures Bit(0xFFFF_FFFF_FFFF_FFFF, n)
  {
  }

  lemma LowMaskByMask(b: bv64, n: bv64)
    requires b < 64 && n < 64
    ensures (((1 as bv64) << b) - 1) & ((1 as bv64) << n) != 0 <==> n < b
  {
  }

  lemma BitOfLowMask(b: bv64, n: bv64)
    requires b < 64 && n < 64
    ensures Bit((1 << b) - 1, n) == (n < b)
  {
    BitByMask((1 << b) - 1, n);
    LowMaskByMask(b, n);
  }

  // ---------------------------------------------------------------------
  // Values, words and offsets

  lemma IntRoundTrip(x: bv16)
    ensures (x as int) as bv16 == x
  {
  }

  lemma IntInjective(x: bv16, y: bv16)
    requires x as int == y as int
    ensures x == y
  {
    IntRoundTrip(x);
    IntRoundTrip(y);
  }

  lemma SameWord(u: bv16, v: bv16)
    requires WordIndex(u) == WordIndex(v)
    ensures u >> 6 == v >> 6
  {
    IntInjective(u >> 6, v >> 6);
  }

  lemma SlotBits(u: bv16, v: bv16)
    requires u >> 6 == v >> 6 && (u & 63) as bv64 == (v & 63) as bv64
    ensures u == v
  {
  }

  /** Two values in the same word at the same offset are the same value. */
  lemma SameSlot(u: bv16, v: bv16)
    requires WordIndex(u) == WordIndex(v) && Offset(u) == Offset(v)
    ensures u == v
  {
    SameWord(u, v);
    SlotBits(u, v);
  }

  lemma PredAsInt(j: bv64)
    requires 0 < j <= 64
    ensures (j - 1) as int == j as int - 1
  {
  }

  // ---------------------------------------------------------------------
  // Population-count facts

  lemma BitOfSet(w: bv64, b: bv64, n: bv64)
    requires b < 64 && n < 64
    ensures Bit(w | (1 << b), n) == (Bit(w, n) || n == b)
  {
    BitOfOr(w, 1 << b, n);
    BitOfSingle(b, n);
  }

  lemma BelowStep(b: bv64, j: bv64)
    requires 0 < j <= 64
    ensures (b < j) == (b < j - 1 || b == j - 1)
  {
  }

  lemma PopCountBelowSetStep(w: bv64, b: bv64, j: bv64)
    requires b < 64 && 0 < j <= 64 && !Bit(w, b)
    requires PopCountBelow(w | (1 << b), j - 1) == PopCountBelow(w, j - 1) + (if b < j - 1 then 1 else 0)
    ensures PopCountBelow(w | (1 << b), j) == PopCountBelow(w, j) + (if b < j then 1 else 0)
  {
    BitOfSet(w, b, j - 1);
    BelowStep(b, j);
  }

  lemma {:induction false} PopCountBelowSet(w: bv64, b: bv64, j: bv64)
    requires b < 64 && j <= 64 && !Bit(w, b)
    ensures PopCountBelow(w | (1 << b), j) == PopCountBelow(w, j) + (if b < j then 1 else 0)
    decreases j
  {
    if j > 0 {
      PopCountBelowSet(w, b, j - 1);
      PopCountBelowSetStep(w, b, j);
    }
  }

  /** Setting a clear bit adds one to the word's population count. */
  lemma PopCountSet(w: bv64, b: bv64)
    requires b < 64 && !Bit(w, b)
    ensures PopCount(w | (1 << b)) == PopCount(w) + 1
  {
    PopCountBelowSet(w, b, 64);
  }

  lemma ClearThenSet(w: bv64, b: bv64)
    requires b < 64 && Bit(w, b)
    ensures !Bit(w & !(1 << b), b) && (w & !(1 << b)) | (1 << b) == w
  {
  }

  /** Clearing a set bit removes one from the word's population count. */
  lemma PopCountClear(w: bv64, b: bv64)
    requires b < 64 && Bit(w, b)
    ensures PopCount(w & !(1 << b)) + 1 == PopCount(w)
  {
    ClearThenSet(w, b);
    PopCountSet(w & !(1 << b), b);
  }

  lemma {:induction false} PopCountBelowBound(w: bv64, j: bv64)
    requires j <= 64
    ensures PopCountBelow(w, j) <= j as int
    decreases j
  {
    if j > 0 {
      PopCountBelowBound(w, j - 1);
      PredAsInt(j);
    }
  }

  lemma {:induction false} PopCountBelowOnes(j: bv64)
    requires j <= 64
    ensures PopCountBelow(0xFFFF_FFFF_FFFF_FFFF, j) == j as int
    decreases j
  {
    if j > 0 {
      PopCountBelowOnes(j - 1);
      BitOfOnes(j - 1);
      PredAsInt(j);
    }
  }

  lemma {:induction false} PopCountBelowZero(j: bv64)
    requires j <= 64
    ensures PopCountBelow(0, j) == 0
    decreases j
  {
    if j > 0 {
      PopCountBelowZero(j - 1);
      BitOfZero(j - 1);
    }
  }

  /** The popcount of the mask m of the b low bits, counted below j. */
  lemma {:induction false} PopCountBelowLowMask(b: bv64, m: bv64, j: bv64)
    requires b < 64 && j <= 64 && m == (1 << b) - 1
    ensures PopCountBelow(m, j) == if j <= b then j as int else b as int
    decreases j
  {
    if j > 0 {
      PopCountBelowLowMask(b, m, j - 1);
      BitOfLowMaskOf(b, m, j - 1);
      PredAsInt(j);
    }
  }

  lemma BitOfLowMaskOf(b: bv64, m: bv64, n: bv64)
    requires b < 64 && n < 64 && m == (1 << b) - 1
    ensures Bit(m, n) == (n < b)
  {
    BitOfLowMask(b, n);
  }

  lemma PopCountFacts(w: bv64)
    ensures PopCount(w) <= 64
    ensures PopCount(0) == 0
    ensures PopCount(0xFFFF_FFFF_FFFF_FFFF) == 64
  {
    PopCountBelowBound(w, 64);
    PopCountBelowZero(64);
    PopCountBelowOnes(64);
  }

  // ---------------------------------------------------------------------
  // Word indices as bit-vectors

  lemma WordIndexBound(kb: bv16)
    requires kb < 1024
    ensures kb as int < 1024
  {
  }

  lemma WordIndexSucc(kb: bv16)
    requires kb < 1023
    ensures (kb + 1) as int == kb as int + 1
  {
  }

  /** The loops over word indices step kb up to 1024. */
  lemma WordIndexNext(kb: bv16)
    requires kb < 1024
    ensures kb as int < 1024 && (kb + 1) as int == kb as int + 1
  {
  }

  /** BufferBits lists word kb, then the words after it. */
  lemma BufferBitsStep(bm: seq<bv64>, kb: bv16)
    requires |bm| == BitmapLength && kb < 1024
    ensures kb as int < 1024
    ensures BufferBits(bm, kb) == WordBits(bm[kb as int], 0, kb) + BufferBits(bm, kb + 1)
  {
    WordIndexBound(kb);
  }

  lemma ValueParts(kb: bv16, b: bv64)
    requires kb < 1024 && b < 64
    ensures Value(kb, b) >> 6 == kb && Offset(Value(kb, b)) == b
  {
  }

  lemma ValueLessInWord(kb: bv16, n: bv64, u: bv16)
    requires kb < 1024 && n < 64
    requires u >> 6 == kb && n < Offset(u)
    ensures Value(kb, n) < u
  {
  }

  lemma LessAcrossWords(u: bv16, v: bv16)
    requires u >> 6 < v >> 6
    ensures u < v
  {
  }

  lemma SplitValue(v: bv16)
    ensures v as int == 64 * ((v >> 6) as int) + ((v & 63) as int)
  {
  }

  lemma WidenOffset(x: bv16)
    ensures (x as bv64) as int == x as int
  {
  }

  lemma ValueAsInt(kb: bv16, b: bv64)
    requires kb < 1024 && b < 64
    ensures Value(kb, b) as int == 64 * kb as int + b as int
  {
    var v := Value(kb, b);
    SplitValue(v);
    ValueParts(kb, b);
    WidenOffset(v & 63);
  }

  lemma ValueBound(v: bv16)
    ensures 0 <= v as int < 65536
  {
  }

  lemma ModIdentity(x: int)
    requires 0 <= x < 65536
    ensures x % 65536 == x
  {
  }

  lemma CastOfValue(v: bv16, x: int)
    requires x == v as int
    ensures (x % 65536) as bv16 == v
  {
    ValueBound(v);
    ModIdentity(x);
    IntRoundTrip(v);
  }

  /** The source's `(ushort) (shiftedK + PopCount(t - 1))` for the bit b
      of word kb is the member Value(kb, b). */
  lemma CastIsValue(kb: bv16, b: bv64, shiftedK: int, p: int)
    requires kb < 1024 && b < 64
    requires shiftedK == kb as int * 64 && p == b as int
    ensures ((shiftedK + p) % 65536) as bv16 == Value(kb, b)
  {
    ValueAsInt(kb, b);
    CastOfValue(Value(kb, b), shiftedK + p);
  }

  // ---------------------------------------------------------------------
  // Facts about the enumeration

  lemma {:induction false} WordBitsHas(w: bv64, n: bv64, kb: bv16, u: bv16)
    requires n <= 64 && kb < 1024
    ensures u in WordBits(w, n, kb) <==> u >> 6 == kb && n <= Offset(u) && Bit(w, Offset(u))
    decreases 64 - n
  {
    if n < 64 {
      WordBitsHas(w, n + 1, kb, u);
      WordBitsHasStep(w, n, kb, u);
    }
  }

  lemma WordBitsHasStep(w: bv64, n: bv64, kb: bv16, u: bv16)
    requires n < 64 && kb < 1024
    requires u in WordBits(w, n + 1, kb) <==> u >> 6 == kb && n + 1 <= Offset(u) && Bit(w, Offset(u))
    ensures u in WordBits(w, n, kb) <==> u >> 6 == kb && n <= Offset(u) && Bit(w, Offset(u))
  {
    WordBitsUnfold(w, n, kb, u);
    ValueIff(kb, n, u);
    AtLeastSplit(n, Offset(u));
  }

  lemma WordBitsUnfold(w: bv64, n: bv64, kb: bv16, u: bv16)
    requires n < 64 && kb < 1024
    ensures u in WordBits(w, n, kb) <==> (Bit(w, n) && u == Value(kb, n)) || u in WordBits(w, n + 1, kb)
  {
    var head := if Bit(w, n) then [Value(kb, n)] else [];
    assert WordBits(w, n, kb) == head + WordBits(w, n + 1, kb);
  }

  lemma AtLeastSplit(n: bv64, o: bv64)
    requires n < 64
    ensures n <= o <==> n == o || n + 1 <= o
  {
  }

  /** u is the member at bit b of word kb exactly when its word and offset
      say so. */
  lemma ValueIff(kb: bv16, b: bv64, u: bv16)
    requires kb < 1024 && b < 64
    ensures u == Value(kb, b) <==> u >> 6 == kb && Offset(u) == b
  {
    ValueIffRaw(kb, b, u);
  }

  lemma ValueIffRaw(kb: bv16, b: bv64, u: bv16)
    requires kb < 1024 && b < 64
    ensures u == (kb << 6) + b as bv16 <==> u >> 6 == kb && (u & 63) as bv64 == b
  {
  }

  lemma {:induction false} WordBitsSorted(w: bv64, n: bv64, kb: bv16)
    requires n <= 64 && kb < 1024
    ensures StrictlyIncreasing(WordBits(w, n, kb))
    decreases 64 - n
  {
    if n < 64 {
      WordBitsSorted(w, n + 1, kb);
      WordBitsSortedStep(w, n, kb);
    }
  }

  lemma WordBitsSortedStep(w: bv64, n: bv64, kb: bv16)
    requires n < 64 && kb < 1024
    requires StrictlyIncreasing(WordBits(w, n + 1, kb))
    ensures StrictlyIncreasing(WordBits(w, n, kb))
  {
    var tail := WordBits(w, n + 1, kb);
    ValueBelowLaterBits(w, n, n + 1, kb);
    HeadThenSorted(if Bit(w, n) then [Value(kb, n)] else [], tail);
  }

  lemma ValueBelowLaterBits(w: bv64, n: bv64, m: bv64, kb: bv16)
    requires n < 64 && m == n + 1 && kb < 1024
    ensures forall u :: u in WordBits(w, m, kb) ==> Value(kb, n) < u
  {
    forall u | u in WordBits(w, m, kb)
      ensures Value(kb, n) < u
    {
      WordBitsHas(w, m, kb, u);
      ValueLessInWord(kb, n, u);
    }
  }

  /** A sequence of at most one element, each below every element of a
      strictly increasing tail, gives a strictly increasing whole. */
  lemma HeadThenSorted(h: seq<bv16>, t: seq<bv16>)
    requires |h| <= 1 && StrictlyIncreasing(t)
    requires forall x, y :: x in h && y in t ==> x < y
    ensures StrictlyIncreasing(h + t)
  {
    ConcatSorted(h, t);
  }

  lemma ConcatSorted(a: seq<bv16>, b: seq<bv16>)
    requires StrictlyIncreasing(a) && StrictlyIncreasing(b)
    requires forall x, y :: x in a && y in b ==> x < y
    ensures StrictlyIncreasing(a + b)
  {
    var s := a + b;
    forall i, j | 0 <= i < j < |s|
      ensures s[i] < s[j]
    {
      if j < |a| {
        assert s[i] == a[i] && s[j] == a[j];
      } else if i >= |a| {
        assert s[i] == b[i - |a|] && s[j] == b[j - |a|];
      } else {
        assert s[i] in a && s[j] in b;
      }
    }
  }

  lemma {:induction false} WordBitsCount(w: bv64, n: bv64, kb: bv16)
    requires n <= 64 && kb < 1024
    ensures |WordBits(w, n, kb)| + PopCountBelow(w, n) == PopCount(w)
    decreases 64 - n
  {
    if n < 64 {
      WordBitsCount(w, n + 1, kb);
    }
  }

  lemma {:induction false} BufferBitsHas(bm: seq<bv64>, kb: bv16, u: bv16)
    requires |bm| == BitmapLength && kb <= 1024
    ensures u in BufferBits(bm, kb) <==> kb <= u >> 6 && Has(bm, u)
    decreases 1024 - kb
  {
    if kb < 1024 {
      BufferBitsHas(bm, kb + 1, u);
      BufferBitsHasStep(bm, kb, u);
    }
  }

  lemma BufferBitsHasStep(bm: seq<bv64>, kb: bv16, u: bv16)
    requires |bm| == BitmapLength && kb < 1024
    requires u in BufferBits(bm, kb + 1) <==> kb + 1 <= u >> 6 && Has(bm, u)
    ensures u in BufferBits(bm, kb) <==> kb <= u >> 6 && Has(bm, u)
  {
    WordIndexBound(kb);
    BufferBitsUnfold(bm, kb, u);
    WordBitsHas(bm[kb as int], 0, kb, u);
    AtLeastSplit16(kb, u >> 6);
    if u >> 6 == kb {
      HasInWord(bm, kb, u);
    }
  }

  lemma BufferBitsUnfold(bm: seq<bv64>, kb: bv16, u: bv16)
    requires |bm| == BitmapLength && kb < 1024
    ensures kb as int < 1024
    ensures u in BufferBits(bm, kb) <==> u in WordBits(bm[kb as int], 0, kb) || u in BufferBits(bm, kb + 1)
  {
    WordIndexBound(kb);
  }

  lemma AtLeastSplit16(n: bv16, o: bv16)
    requires n < 1024
    ensures n <= o <==> n == o || n + 1 <= o
  {
  }

  lemma HasInWord(bm: seq<bv64>, kb: bv16, u: bv16)
    requires |bm| == BitmapLength && kb < 1024 && u >> 6 == kb
    ensures kb as int < 1024 && Has(bm, u) == Bit(bm[kb as int], Offset(u))
  {
    WordIndexBound(kb);
  }

  lemma {:induction false} BufferBitsSorted(bm: seq<bv64>, kb: bv16)
    requires |bm| == BitmapLength && kb <= 1024
    ensures StrictlyIncreasing(BufferBits(bm, kb))
    decreases 1024 - kb
  {
    if kb < 1024 {
      BufferBitsSorted(bm, kb + 1);
      BufferBitsSortedStep(bm, kb, kb + 1);
    }
  }

  lemma BufferBitsSortedStep(bm: seq<bv64>, kb: bv16, next: bv16)
    requires |bm| == BitmapLength && kb < 1024 && next == kb + 1
    requires StrictlyIncreasing(BufferBits(bm, next))
    ensures StrictlyIncreasing(BufferBits(bm, kb))
  {
    WordIndexBound(kb);
    var head := WordBits(bm[kb as int], 0, kb);
    var tail := BufferBits(bm, next);
    assert BufferBits(bm, kb) == head + tail;
    WordBitsSorted(bm[kb as int], 0, kb);
    forall x, y | x in head && y in tail
      ensures x < y
    {
      WordBitsHas(bm[kb as int], 0, kb, x);
      BufferBitsHas(bm, next, y);
      LessAcrossWords(x, y);
    }
    ConcatSorted(head, tail);
  }

  lemma {:induction false} BufferBitsCount(bm: seq<bv64>, kb: bv16)
    requires |bm| == BitmapLength && kb <= 1024
    ensures kb as int <= 1024 && |BufferBits(bm, kb)| == Popcnt(bm[kb as int..])
    decreases 1024 - kb
  {
    if kb < 1024 {
      BufferBitsCount(bm, kb + 1);
      BufferBitsCountStep(bm, kb, kb + 1);
    }
  }

  lemma BufferBitsCountStep(bm: seq<bv64>, kb: bv16, next: bv16)
    requires |bm| == BitmapLength && kb < 1024 && next == kb + 1
    requires next as int <= 1024 && |BufferBits(bm, next)| == Popcnt(bm[next as int..])
    ensures kb as int <= 1024 && |BufferBits(bm, kb)| == Popcnt(bm[kb as int..])
  {
    WordIndexBound(kb);
    WordCountAt(bm, kb);
    if kb < 1023 {
      WordIndexSucc(kb);
    } else {
      LastWord(kb, next);
    }
    PopcntFrom(bm, kb as int);
  }

  lemma WordCountAt(bm: seq<bv64>, kb: bv16)
    requires |bm| == BitmapLength && kb < 1024
    ensures kb as int < |bm| && |WordBits(bm[kb as int], 0, kb)| == PopCount(bm[kb as int])
  {
    WordIndexBound(kb);
    WordBitsCount(bm[kb as int], 0, kb);
  }

  lemma PopcntFrom(bm: seq<bv64>, k: int)
    requires 0 <= k < |bm|
    ensures Popcnt(bm[k..]) == PopCount(bm[k]) + Popcnt(bm[k + 1..])
  {
    var t := bm[k..];
    assert t[0] == bm[k] && t[1..] == bm[k + 1..];
  }

  lemma LastWord(kb: bv16, next: bv16)
    requires kb == 1023 && next == kb + 1
    ensures next as int == kb as int + 1
  {
  }

  /** The enumeration lists each member of the buffer exactly once, in
      strictly ascending order, and has Popcnt(bm) entries. */
  lemma ElementsSpec(bm: seq<bv64>)
    requires |bm| == BitmapLength
    ensures StrictlyIncreasing(Elements(bm))
    ensures forall u :: u in Elements(bm) <==> Has(bm, u)
    ensures |Elements(bm)| == Popcnt(bm)
  {
    BufferBitsSorted(bm, 0);
    forall u
      ensures u in Elements(bm) <==> Has(bm, u)
    {
      BufferBitsHas(bm, 0, u);
    }
    ElementsCount(bm);
  }

  lemma ElementsCount(bm: seq<bv64>)
    requires |bm| == BitmapLength
    ensures |Elements(bm)| == Popcnt(bm)
  {
    BufferBitsCount(bm, 0);
    assert bm[0..] == bm;
  }

  // ---------------------------------------------------------------------
  // Lowest-set-bit extraction

  /** The bits of w below n are clear. */
  predicate ClearBelow(w: bv64, n: bv64)
    requires n < 64
  {
    w & ((1 << n) - 1) == 0
  }

  /** The first set bit of w at or above n (63 when there is none). */
  ghost function LowestFrom(w: bv64, n: bv64): bv64
    requires n < 64
    decreases 64 - n
  {
    if Bit(w, n) || n == 63 then n else LowestFrom(w, n + 1)
  }

  /** b is the lowest set bit of w, and it is at or above n. */
  ghost predicate IsLowest(w: bv64, n: bv64, b: bv64)
  {
    n <= b < 64 && Bit(w, b) && ClearBelow(w, b)
  }

  lemma ClearStepRaw(w: bv64, n: bv64)
    requires n < 63 && w & ((1 << n) - 1) == 0 && (w >> n) & 1 != 1
    ensures w & ((1 << (n + 1)) - 1) == 0
  {
  }

  lemma ClearStep(w: bv64, n: bv64)
    requires n < 63 && ClearBelow(w, n) && !Bit(w, n)
    ensures ClearBelow(w, n + 1)
  {
    ClearStepRaw(w, n);
  }

  lemma NotLastRaw(w: bv64, n: bv64)
    requires n < 64 && w != 0 && w & ((1 << n) - 1) == 0 && (w >> n) & 1 != 1
    ensures n < 63 && 64 - (n + 1) < 64 - n
  {
  }

  lemma NotLast(w: bv64, n: bv64)
    requires n < 64 && w != 0 && ClearBelow(w, n) && !Bit(w, n)
    ensures n < 63 && 64 - (n + 1) < 64 - n
  {
    NotLastRaw(w, n);
  }

  lemma LowestFromHere(w: bv64, n: bv64)
    requires n < 64 && Bit(w, n) && ClearBelow(w, n)
    ensures IsLowest(w, n, LowestFrom(w, n))
  {
  }

  lemma LowestFromSkip(w: bv64, n: bv64)
    requires n < 63 && !Bit(w, n)
    ensures LowestFrom(w, n) == LowestFrom(w, n + 1)
  {
  }

  lemma IsLowestWiden(w: bv64, n: bv64, b: bv64)
    requires n < 63 && IsLowest(w, n + 1, b)
    ensures IsLowest(w, n, b)
  {
    IsLowestWidenRaw(w, n, b);
  }

  lemma IsLowestWidenRaw(w: bv64, n: bv64, b: bv64)
    requires n < 63 && n + 1 <= b < 64 && Bit(w, b) && ClearBelow(w, b)
    ensures n <= b < 64 && Bit(w, b) && ClearBelow(w, b)
  {
  }

  lemma LowestFromStep(w: bv64, n: bv64)
    requires n < 63 && !Bit(w, n) && IsLowest(w, n + 1, LowestFrom(w, n + 1))
    ensures IsLowest(w, n, LowestFrom(w, n))
  {
    LowestFromSkip(w, n);
    IsLowestWiden(w, n, LowestFrom(w, n + 1));
  }

  /** The upward search from a point below which w is clear finds the
      lowest set bit of a non-zero word. */
  lemma {:induction false} LowestFromSpec(w: bv64, n: bv64)
    requires n < 64 && w != 0 && ClearBelow(w, n)
    ensures IsLowest(w, n, LowestFrom(w, n))
    decreases 64 - n
  {
    if Bit(w, n) {
      LowestFromHere(w, n);
    } else {
      NotLast(w, n);
      ClearStep(w, n);
      LowestFromSpec(w, n + 1);
      LowestFromStep(w, n);
    }
  }

  /** A word with no set bit is clear below 63, climbing one bit at a
      time. */
  lemma {:induction false} ClearUpTo(d: bv64, n: bv64)
    requires n < 64 && ClearBelow(d, n) && forall i: bv64 :: i < 64 ==> !Bit(d, i)
    ensures ClearBelow(d, 63)
    decreases 63 - n as int
  {
    if n < 63 {
      ClearStep(d, n);
      ClearUpTo(d, n + 1);
    }
  }

  lemma ClearTop(d: bv64)
    requires ClearBelow(d, 63) && !Bit(d, 63)
    ensures d == 0
  {
    ClearTopRaw(d);
  }

  lemma ClearTopRaw(d: bv64)
    requires d & ((1 << 63) - 1) == 0 && (d >> 63) & 1 != 1
    ensures d == 0
  {
  }

  lemma XorZeroRaw(x: bv64, y: bv64)
    requires x ^ y == 0
    ensures x == y
  {
  }

  /** Two words with the same bits are the same word. */
  lemma WordsEqualByBits(x: bv64, y: bv64)
    requires forall n: bv64 :: n < 64 ==> Bit(x, n) == Bit(y, n)
    ensures x == y
  {
    var d := x ^ y;
    forall i: bv64 | i < 64
      ensures !Bit(d, i)
    {
      BitOfXor(x, y, i);
    }
    NothingBelowZero(d);
    ClearUpTo(d, 0);
    ClearTop(d);
    XorZeroRaw(x, y);
  }

  /** Every word index is the integer value of a 16-bit one. */
  lemma {:induction false} IndexAsBits(k: int) returns (kb: bv16)
    requires 0 <= k < 1024
    ensures kb < 1024 && kb as int == k
    decreases k
  {
    if k == 0 {
      kb := 0;
    } else {
      var prev := IndexAsBits(k - 1);
      WordIndexSucc(prev);
      kb := prev + 1;
    }
  }

  lemma NothingBelowZero(w: bv64)
    ensures ClearBelow(w, 0)
  {
  }

  /** `bitset & (~bitset + 1)` isolates the lowest set bit. */
  lemma IsolateLowest(w: bv64, b: bv64)
    requires b < 64 && Bit(w, b) && ClearBelow(w, b)
    ensures w & (!w + 1) == 1 << b
  {
    IsolateLowestRaw(w, b);
  }

  lemma IsolateLowestRaw(w: bv64, b: bv64)
    requires b < 64 && (w >> b) & 1 == 1 && w & ((1 << b) - 1) == 0
    ensures w & (!w + 1) == 1 << b
  {
  }

  lemma ClearLowestDecreases(w: bv64)
    requires w != 0
    ensures w ^ (w & (!w + 1)) < w
  {
  }

  lemma ClearedBelow(w: bv64, b: bv64, i: bv64)
    requires b < 64 && i < b && ClearBelow(w, b)
    ensures !Bit(w, i)
  {
    ClearedBelowRaw(w, b, i);
  }

  lemma ClearedBelowRaw(w: bv64, b: bv64, i: bv64)
    requires b < 64 && i < b && w & ((1 << b) - 1) == 0
    ensures (w >> i) & 1 != 1
  {
  }

  /** Words that agree on the bits n.. list the same members there. */
  lemma {:induction false} WordBitsAgree(w1: bv64, w2: bv64, n: bv64, kb: bv16)
    requires n <= 64 && kb < 1024
    requires forall i :: n <= i < 64 ==> Bit(w1, i) == Bit(w2, i)
    ensures WordBits(w1, n, kb) == WordBits(w2, n, kb)
    decreases 64 - n
  {
    if n < 64 {
      WordBitsAgree(w1, w2, n + 1, kb);
    }
  }

  /** Clear bits n..b-1 contribute nothing. */
  lemma {:induction false} WordBitsSkip(w: bv64, n: bv64, b: bv64, kb: bv16)
    requires n <= b <= 64 && kb < 1024
    requires forall i :: n <= i < b ==> !Bit(w, i)
    ensures WordBits(w, n, kb) == WordBits(w, b, kb)
    decreases b - n
  {
    if n < b {
      WordBitsSkip(w, n + 1, b, kb);
    }
  }

  lemma ToggleBelow(w: bv64, b: bv64, i: bv64)
    requires b < 64 && i < b && ClearBelow(w, b)
    ensures !Bit(w ^ (1 << b), i)
  {
    ToggleBelowRaw(w, b, i);
  }

  lemma ToggleAt(w: bv64, b: bv64)
    requires b < 64 && Bit(w, b)
    ensures !Bit(w ^ (1 << b), b)
  {
    ToggleAtRaw(w, b);
  }

  lemma ToggleAbove(w: bv64, b: bv64, i: bv64)
    requires b < i < 64
    ensures Bit(w ^ (1 << b), i) == Bit(w, i)
  {
    ToggleAboveRaw(w, b, i);
  }

  lemma ToggleBelowRaw(w: bv64, b: bv64, i: bv64)
    requires b < 64 && i < b && w & ((1 << b) - 1) == 0
    ensures ((w ^ (1 << b)) >> i) & 1 != 1
  {
  }

  lemma ToggleAtRaw(w: bv64, b: bv64)
    requires b < 64 && (w >> b) & 1 == 1
    ensures ((w ^ (1 << b)) >> b) & 1 != 1
  {
  }

  lemma ToggleAboveRaw(w: bv64, b: bv64, i: bv64)
    requires b < i < 64
    ensures ((w ^ (1 << b)) >> i) & 1 == (w >> i) & 1
  {
  }

  lemma PopCountOfLowMask(b: bv64)
    requires b < 64
    ensures PopCount((1 << b) - 1) == b as int
  {
    PopCountBelowLowMask(b, (1 << b) - 1, 64);
  }

  lemma BelowSucc(b: bv64, i: bv64)
    requires b < 64 && i < b + 1
    ensures i < b || i == b
  {
  }

  /** Listing a word from bit 0 starts with its lowest member. */
  lemma WordBitsFromLowest(w: bv64, b: bv64, kb: bv16)
    requires kb < 1024 && IsLowest(w, 0, b)
    ensures WordBits(w, 0, kb) == [Value(kb, b)] + WordBits(w, b + 1, kb)
  {
    forall i | 0 <= i < b
      ensures !Bit(w, i)
    {
      ClearedBelow(w, b, i);
    }
    WordBitsSkip(w, 0, b, kb);
  }

  /** Clearing the lowest member leaves the members above it. */
  lemma WordBitsAfterLowest(w: bv64, b: bv64, kb: bv16)
    requires kb < 1024 && IsLowest(w, 0, b)
    ensures WordBits(w ^ (1 << b), 0, kb) == WordBits(w, b + 1, kb)
  {
    AfterLowestLow(w, b, kb);
    AfterLowestHigh(w, b, kb);
  }

  lemma AfterLowestLow(w: bv64, b: bv64, kb: bv16)
    requires kb < 1024 && IsLowest(w, 0, b)
    ensures WordBits(w ^ (1 << b), 0, kb) == WordBits(w ^ (1 << b), b + 1, kb)
  {
    var x := w ^ (1 << b);
    forall i | 0 <= i < b + 1
      ensures !Bit(x, i)
    {
      BelowSucc(b, i);
      if i < b {
        ToggleBelow(w, b, i);
      } else {
        ToggleAt(w, b);
      }
    }
    WordBitsSkip(x, 0, b + 1, kb);
  }

  lemma AfterLowestHigh(w: bv64, b: bv64, kb: bv16)
    requires kb < 1024 && b < 64
    ensures WordBits(w ^ (1 << b), b + 1, kb) == WordBits(w, b + 1, kb)
  {
    var x := w ^ (1 << b);
    forall i | b + 1 <= i < 64
      ensures Bit(x, i) == Bit(w, i)
    {
      ToggleAbove(w, b, i);
    }
    WordBitsAgree(x, w, b + 1, kb);
  }

  /** The value the source computes for the isolated lowest bit. */
  lemma LowestValue(w: bv64, b: bv64, kb: bv16, shiftedK: int)
    requires kb < 1024 && IsLowest(w, 0, b) && shiftedK == kb as int * 64
    ensures w & (!w + 1) == 1 << b
    ensures ((shiftedK + PopCount((w & (!w + 1)) - 1)) % 65536) as bv16 == Value(kb, b)
  {
    IsolateLowest(w, b);
    BitValue(b, kb, shiftedK);
  }

  lemma BitValue(b: bv64, kb: bv16, shiftedK: int)
    requires kb < 1024 && b < 64 && shiftedK == kb as int * 64
    ensures ((shiftedK + PopCount((1 << b) - 1)) % 65536) as bv16 == Value(kb, b)
  {
    PopCountOfLowMask(b);
    CastIsValue(kb, b, shiftedK, PopCount((1 << b) - 1));
  }

  /** One turn of the source's `while (bitset != 0)` loop emits the first
      member of the word and leaves the rest. */
  lemma LowestStep(w: bv64, kb: bv16, shiftedK: int)
    requires w != 0 && kb < 1024 && shiftedK == kb as int * 64
    ensures WordBits(w, 0, kb)
         == [((shiftedK + PopCount((w & (!w + 1)) - 1)) % 65536) as bv16] + WordBits(w ^ (w & (!w + 1)), 0, kb)
  {
    NothingBelowZero(w);
    LowestFromSpec(w, 0);
    var b := LowestFrom(w, 0);
    LowestValue(w, b, kb, shiftedK);
    WordBitsFromLowest(w, b, kb);
    WordBitsAfterLowest(w, b, kb);
  }
}
