/** The three decompositions into power-of-two ranges that SetPeiCacheMode runs:
    covering low memory upwards, carving the round-up excess off downwards, and
    covering memory above 4GB with a size clamp. Each is shown to tile its
    interval with size-aligned ranges, and its length is counted. */
module CacheCover {
  import opened Bits
  import opened Mtrr

  const FOUR_GB: nat := 0x1_0000_0000

  // ----- covering upwards -----

  function Cover(cursor: nat, rest: nat): seq<Range>
    decreases rest
  {
    if rest == 0 then []
    else
      var size := GetPowerOfTwo64(rest);
      [Range(cursor, size)] + Cover(cursor + size, rest - size)
  }

  /** The cursor is aligned beyond the highest bit of what is left. */
  predicate AboveRest(cursor: nat, rest: nat) {
    rest > 0 ==> Aligned(cursor, HighBit(rest) + 1)
  }

  /** A range of the highest size that fits is aligned, and so is what follows it. */
  lemma {:induction false} AboveRestNext(cursor: nat, rest: nat)
    requires rest > 0 && Aligned(cursor, HighBit(rest))
    ensures
      var size := GetPowerOfTwo64(rest);
      && NaturallyAligned(Range(cursor, size))
      && AboveRest(cursor, rest - size)
      && AboveRest(cursor + size, rest - size)
  {
    var h := HighBit(rest);
    var rest' := rest - Pow2(h);
    Pow2IsPow2(h);
    AlignedSelf(h);
    AlignedAdd(cursor, Pow2(h), h);
    if rest' > 0 {
      HighBitAgainst(h, rest');
      AlignedWeaken(cursor, HighBit(rest') + 1, h);
      AlignedWeaken(cursor + Pow2(h), HighBit(rest') + 1, h);
    }
  }

  lemma {:induction false} HighBitAgainst(m: nat, rest: nat)
    requires rest > 0
    ensures m <= HighBit(rest) <==> Pow2(m) <= rest
    ensures m < HighBit(rest) <==> 2 * Pow2(m) <= rest
  {
    var h := HighBit(rest);
    Pow2Le(m, h);
    Pow2Le(h + 1, m);
    Pow2Le(m + 1, h);
    Pow2Le(h, m);
  }

  lemma {:induction false} CoverTiles(cursor: nat, rest: nat)
    requires AboveRest(cursor, rest)
    ensures Tiling(Cover(cursor, rest), cursor, cursor + rest)
    ensures |Cover(cursor, rest)| == PopCount(rest)
    decreases rest
  {
    CoverCount(cursor, rest);
    if rest > 0 {
      var size := GetPowerOfTwo64(rest);
      var tail := Cover(cursor + size, rest - size);
      assert Cover(cursor, rest) == [Range(cursor, size)] + tail;
      AlignedWeaken(cursor, HighBit(rest), HighBit(rest) + 1);
      AboveRestNext(cursor, rest);
      CoverTiles(cursor + size, rest - size);
      TilingPrepend(Range(cursor, size), tail, cursor + size, cursor + rest, cursor, cursor + rest);
    }
  }

  lemma {:induction false} CoverCount(cursor: nat, rest: nat)
    ensures |Cover(cursor, rest)| == PopCount(rest)
    decreases rest
  {
    if rest > 0 {
      var size := GetPowerOfTwo64(rest);
      CoverCount(cursor + size, rest - size);
      PopCountHighBit(rest);
    }
  }

  // ----- carving downwards -----

  function Carve(top: nat, rest: nat): seq<Range>
    requires rest <= top
    decreases rest
  {
    if rest == 0 then []
    else
      var size := GetPowerOfTwo64(rest);
      [Range(top - size, size)] + Carve(top - size, rest - size)
  }

  lemma {:induction false} CarveNext(top: nat, rest: nat)
    requires 0 < rest <= top && AboveRest(top, rest)
    ensures
      var size := GetPowerOfTwo64(rest);
      NaturallyAligned(Range(top - size, size)) && AboveRest(top - size, rest - size)
  {
    var h := HighBit(rest);
    AlignedWeaken(top, h, h + 1);
    AlignedSelf(h);
    AlignedAdd(top - Pow2(h), Pow2(h), h);
    AboveRestNext(top - Pow2(h), rest);
  }

  lemma {:induction false} CarveTiles(top: nat, rest: nat)
    requires rest <= top && AboveRest(top, rest)
    ensures Tiling(Carve(top, rest), top - rest, top)
    ensures |Carve(top, rest)| == PopCount(rest)
    decreases rest
  {
    CarveCount(top, rest);
    if rest > 0 {
      var size := GetPowerOfTwo64(rest);
      var tail := Carve(top - size, rest - size);
      assert Carve(top, rest) == [Range(top - size, size)] + tail;
      CarveNext(top, rest);
      CarveTiles(top - size, rest - size);
      TilingPrepend(Range(top - size, size), tail, top - rest, top - size, top - rest, top);
    }
  }

  lemma {:induction false} CarveCount(top: nat, rest: nat)
    requires rest <= top
    ensures |Carve(top, rest)| == PopCount(rest)
    decreases rest
  {
    if rest > 0 {
      var size := GetPowerOfTwo64(rest);
      CarveCount(top - size, rest - size);
      PopCountHighBit(rest);
    }
  }

  // ----- covering above 4GB, with the clamp -----

  /** The highest power of two that fits, but no more than the cursor. */
  function ClampedSize(cursor: nat, rest: nat): (size: nat)
    ensures cursor > 0 && rest > 0 ==> 0 < size <= rest
  {
    var p := GetPowerOfTwo64(rest);
    if p > cursor then cursor else p
  }

  function CoverHigh(cursor: nat, rest: nat): seq<Range>
    requires cursor > 0
    decreases rest
  {
    if rest == 0 then []
    else
      var size := ClampedSize(cursor, rest);
      [Range(cursor, size)] + CoverHigh(cursor + size, rest - size)
  }

  /** Either the cursor is a power of two, or the rest lies below its lowest set bit. */
  predicate HighReady(cursor: nat, rest: nat) {
    cursor > 0 && (IsPow2(cursor) || AboveRest(cursor, rest))
  }

  /** From a power-of-two cursor: either it doubles, or the clamp is over. */
  lemma {:induction false} DoublingStep(m: nat, rest: nat)
    requires rest > 0
    ensures rest >= Pow2(m) ==> ClampedSize(Pow2(m), rest) == Pow2(m)
    ensures rest < Pow2(m) ==> ClampedSize(Pow2(m), rest) == GetPowerOfTwo64(rest) && HighBit(rest) < m
  {
    HighBitAgainst(m, rest);
    Pow2Le(m, HighBit(rest));
    Pow2Le(HighBit(rest), m);
  }

  lemma {:induction false} HighReadyNext(cursor: nat, rest: nat)
    requires HighReady(cursor, rest) && rest > 0
    ensures
      var size := ClampedSize(cursor, rest);
      NaturallyAligned(Range(cursor, size)) && HighReady(cursor + size, rest - size)
  {
    if IsPow2(cursor) {
      HighReadyDoubling(HighBit(cursor), rest);
    } else {
      UnclampedStep(cursor, rest);
    }
  }

  lemma {:induction false} HighReadyDoubling(m: nat, rest: nat)
    requires rest > 0
    ensures
      var size := ClampedSize(Pow2(m), rest);
      NaturallyAligned(Range(Pow2(m), size)) && HighReady(Pow2(m) + size, rest - size)
  {
    DoublingStep(m, rest);
    AlignedSelf(m);
    Pow2IsPow2(m);
    var size := ClampedSize(Pow2(m), rest);
    if rest >= Pow2(m) {
      DoubledIsPow2(m, Pow2(m) + size);
    } else {
      AlignedWeaken(Pow2(m), HighBit(rest), m);
      AboveRestNext(Pow2(m), rest);
      assert AboveRest(Pow2(m) + size, rest - size);
    }
  }

  lemma {:induction false} DoubledIsPow2(m: nat, x: nat)
    requires x == Pow2(m) + Pow2(m)
    ensures IsPow2(x)
  {
    HighBitUnique(x, m + 1);
  }

  lemma {:induction false} UnclampedStep(cursor: nat, rest: nat)
    requires cursor > 0 && rest > 0 && AboveRest(cursor, rest)
    ensures
      var size := ClampedSize(cursor, rest);
      NaturallyAligned(Range(cursor, size)) && AboveRest(cursor + size, rest - size)
  {
    var h := HighBit(rest);
    AlignedNotSmaller(cursor, h + 1);
    AlignedWeaken(cursor, h, h + 1);
    AboveRestNext(cursor, rest);
  }

  lemma {:induction false} AlignedNotSmaller(x: nat, k: nat)
    requires x > 0 && Aligned(x, k)
    ensures x >= Pow2(k)
  {
    AlignedZero(k);
    AlignedRoom(0, x, k);
  }

  lemma {:induction false} CoverHighTiles(cursor: nat, rest: nat)
    requires HighReady(cursor, rest)
    ensures Tiling(CoverHigh(cursor, rest), cursor, cursor + rest)
    decreases rest
  {
    if rest > 0 {
      var size := ClampedSize(cursor, rest);
      var tail := CoverHigh(cursor + size, rest - size);
      assert CoverHigh(cursor, rest) == [Range(cursor, size)] + tail;
      HighReadyNext(cursor, rest);
      CoverHighTiles(cursor + size, rest - size);
      TilingPrepend(Range(cursor, size), tail, cursor + size, cursor + rest, cursor, cursor + rest);
    }
  }

  /** How many times the cursor doubles before the rest is smaller than it. */
  function Doublings(m: nat, rest: nat): nat
    decreases rest
  {
    if rest < Pow2(m) then 0 else 1 + Doublings(m + 1, rest - Pow2(m))
  }

  /** What is left once the doublings are over. */
  function AfterDoublings(m: nat, rest: nat): (r: nat)
    ensures r == rest - (Pow2(m + Doublings(m, rest)) - Pow2(m))
    ensures r < Pow2(m + Doublings(m, rest))
    decreases rest
  {
    if rest < Pow2(m) then rest
    else
      assert m + 1 + Doublings(m + 1, rest - Pow2(m)) == m + Doublings(m, rest);
      AfterDoublings(m + 1, rest - Pow2(m))
  }

  /** Doublings is the largest j with 2^m * (2^j - 1) <= rest. */
  lemma {:induction false} DoublingsIsLargest(m: nat, rest: nat, j: nat)
    ensures j <= Doublings(m, rest) <==> Pow2(m) * (Pow2(j) - 1) <= rest
  {
    var r := AfterDoublings(m, rest);
    var d := Doublings(m, rest);
    ShiftedOnes(m, j);
    Pow2Le(m + j, m + d);
    if j > d {
      Pow2Le(m + d + 1, m + j);
      assert Pow2(m + d + 1) == 2 * Pow2(m + d);
    }
  }

  lemma {:induction false} ShiftedOnes(m: nat, j: nat)
    ensures Pow2(m) * (Pow2(j) - 1) == Pow2(m + j) - Pow2(m)
  {
    Pow2Add(m, j);
    var a, b := Pow2(m), Pow2(j);
    assert a * (b - 1) == a * b - a;
  }

  /** One register per doubling, then one per bit still set. */
  lemma {:induction false} CoverHighCount(m: nat, rest: nat)
    ensures |CoverHigh(Pow2(m), rest)| == Doublings(m, rest) + PopCount(AfterDoublings(m, rest))
    decreases rest
  {
    if rest < Pow2(m) {
      CoverHighBelow(m, rest);
    } else {
      CoverHighDoubles(m, rest);
      CoverHighCount(m + 1, rest - Pow2(m));
      assert Doublings(m, rest) == 1 + Doublings(m + 1, rest - Pow2(m));
      assert AfterDoublings(m, rest) == AfterDoublings(m + 1, rest - Pow2(m));
    }
  }

  lemma {:induction false} CoverHighBelow(m: nat, rest: nat)
    requires rest < Pow2(m)
    ensures |CoverHigh(Pow2(m), rest)| == PopCount(rest)
  {
    CoverHighIsCover(Pow2(m), rest);
    CoverCount(Pow2(m), rest);
  }

  lemma {:induction false} CoverHighDoubles(m: nat, rest: nat)
    requires rest >= Pow2(m)
    ensures |CoverHigh(Pow2(m), rest)| == 1 + |CoverHigh(Pow2(m + 1), rest - Pow2(m))|
  {
    DoublingStep(m, rest);
    var c := Pow2(m);
    assert c + c == Pow2(m + 1);
    assert CoverHigh(c, rest) == [Range(c, c)] + CoverHigh(c + c, rest - c);
  }

  /** Below the cursor the clamp never acts. */
  lemma {:induction false} CoverHighIsCover(cursor: nat, rest: nat)
    requires 0 < cursor && rest < cursor
    ensures CoverHigh(cursor, rest) == Cover(cursor, rest)
    decreases rest
  {
    if rest > 0 {
      var size := GetPowerOfTwo64(rest);
      assert ClampedSize(cursor, rest) == size;
      CoverHighIsCover(cursor + size, rest - size);
    }
  }

  // ----- termination of the 64-bit loop -----

  /** One iteration on (cursor, rest), the cursor being a 64-bit word. */
  function HighStep(cursor: nat, rest: nat): (nat, nat) {
    if rest == 0 then (cursor, rest)
    else
      var size := ClampedSize(cursor, rest);
      ((cursor + size) % TWO64, rest - size)
  }

  /** What is left to cover after n iterations. */
  function RestAfter(n: nat, cursor: nat, rest: nat): nat
    decreases n
  {
    if n == 0 then rest
    else
      var s := HighStep(cursor, rest);
      RestAfter(n - 1, s.0, s.1)
  }

  lemma {:induction false} HighLoopFinishes(cursor: nat, rest: nat)
    requires cursor > 0 && cursor + rest <= TWO64
    ensures RestAfter(|CoverHigh(cursor, rest)|, cursor, rest) == 0
    decreases rest
  {
    if rest > 0 {
      var size := ClampedSize(cursor, rest);
      var tail := CoverHigh(cursor + size, rest - size);
      assert |CoverHigh(cursor, rest)| == |tail| + 1;
      UnfoldRestAfter(|tail|, cursor, rest);
      if rest > size {
        HighLoopFinishes(cursor + size, rest - size);
        HighStepInRange(cursor, rest);
      } else {
        assert |tail| == 0;
      }
    }
  }

  lemma {:induction false} HighStepInRange(cursor: nat, rest: nat)
    requires cursor > 0 && cursor + rest <= TWO64 && ClampedSize(cursor, rest) < rest
    ensures HighStep(cursor, rest) == (cursor + ClampedSize(cursor, rest), rest - ClampedSize(cursor, rest))
  {
  }

  lemma {:induction false} UnfoldRestAfter(n: nat, cursor: nat, rest: nat)
    ensures RestAfter(n + 1, cursor, rest) == RestAfter(n, HighStep(cursor, rest).0, HighStep(cursor, rest).1)
  {
  }

  /** The loop can no longer finish: the cursor has wrapped to 0, or is a power of
      two that still has to pass the end of the address space. */
  ghost predicate Overshoots(cursor: nat, rest: nat) {
    rest > 0 && (cursor == 0 || exists m: nat :: m < 64 && cursor == Pow2(m) && cursor + rest > TWO64)
  }

  lemma {:induction false} OvershootsNext(cursor: nat, rest: nat)
    requires Overshoots(cursor, rest)
    ensures Overshoots(HighStep(cursor, rest).0, HighStep(cursor, rest).1)
  {
    if cursor > 0 {
      var m: nat :| m < 64 && cursor == Pow2(m) && cursor + rest > TWO64;
      DoubledCursor(m, rest);
    }
  }

  lemma {:induction false} HighLoopSticks(n: nat, cursor: nat, rest: nat)
    requires Overshoots(cursor, rest)
    ensures RestAfter(n, cursor, rest) > 0
    decreases n
  {
    if n > 0 {
      OvershootsNext(cursor, rest);
      HighLoopSticks(n - 1, HighStep(cursor, rest).0, HighStep(cursor, rest).1);
    }
  }

  lemma {:induction false} DoubledCursor(m: nat, rest: nat)
    requires m < 64 && Pow2(m) + rest > TWO64
    ensures rest > Pow2(m) && Pow2(m) + Pow2(m) == Pow2(m + 1)
    ensures HighStep(Pow2(m), rest) == (if m == 63 then 0 else Pow2(m + 1), rest - Pow2(m))
  {
    Pow2Constants();
    Pow2Le(m + 1, 64);
    DoublingStep(m, rest);
    if m < 63 {
      Pow2Mono(m + 1, 64);
    }
  }

  /** The loop above 4GB comes to an end exactly when the memory ends inside the
      64-bit address space; beyond that the wrapped cursor is 0, the clamp makes
      every further size 0, and nothing is ever consumed again. */
  lemma {:induction false} HighLoopTerminates(high: nat)
    requires high < TWO64
    ensures (exists n: nat :: RestAfter(n, FOUR_GB, high) == 0) <==> FOUR_GB + high <= TWO64
  {
    Pow2Constants();
    Pow2IsPow2(32);
    if FOUR_GB + high <= TWO64 {
      HighLoopFinishes(FOUR_GB, high);
    } else {
      assert Overshoots(FOUR_GB, high);
      forall n: nat
        ensures RestAfter(n, FOUR_GB, high) != 0
      {
        HighLoopSticks(n, FOUR_GB, high);
      }
    }
  }
}
