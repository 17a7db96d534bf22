/** PlatformInitPei/MemoryPeim.c: the memory sizes read from the HOB list and the
    cache map SetPeiCacheMode programs from them. */
module MemoryPeim {
  import opened Bits
  import opened Mtrr
  import opened CacheCover
  import opened CachePlan

  const EFI_HOB_TYPE_RESOURCE_DESCRIPTOR: nat := 3
  const EFI_RESOURCE_SYSTEM_MEMORY: nat := 0

  // ----- GetMemorySize -----

  type Word64 = x: nat | x < TWO64

  datatype Hob = Hob(hobType: nat, resourceType: nat, physicalStart: Word64, resourceLength: Word64)

  datatype HobList = Found(hobs: seq<Hob>) | NotFound

  predicate IsSystemMemory(h: Hob) {
    h.hobType == EFI_HOB_TYPE_RESOURCE_DESCRIPTOR && h.resourceType == EFI_RESOURCE_SYSTEM_MEMORY
  }

  /** Bytes of system memory that start in [from, to). */
  function MemoryIn(hobs: seq<Hob>, from: nat, to: nat): nat {
    if hobs == [] then 0
    else
      var h := hobs[|hobs| - 1];
      MemoryIn(hobs[..|hobs| - 1], from, to) +
      (if IsSystemMemory(h) && from <= h.physicalStart < to then h.resourceLength else 0)
  }

  method GetMemorySize(list: HobList) returns (low: nat, high: nat)
    ensures low < TWO64 && high < TWO64
    ensures list.NotFound? ==> low == ONE_MB && high == 0
    ensures list.Found? ==> low == (ONE_MB + MemoryIn(list.hobs, ONE_MB, FOUR_GB)) % TWO64
    ensures list.Found? ==> high == MemoryIn(list.hobs, FOUR_GB, TWO64) % TWO64
  {
    high := 0;
    low := ONE_MB;
    if list.NotFound? {
      return;
    }
    var hobs := list.hobs;
    for i := 0 to |hobs|
      invariant low == (ONE_MB + MemoryIn(hobs[..i], ONE_MB, FOUR_GB)) % TWO64
      invariant high == MemoryIn(hobs[..i], FOUR_GB, TWO64) % TWO64
    {
      var h := hobs[i];
      MemoryInNext(hobs, i, ONE_MB, FOUR_GB);
      MemoryInNext(hobs, i, FOUR_GB, TWO64);
      if h.hobType == EFI_HOB_TYPE_RESOURCE_DESCRIPTOR {
        if h.resourceType == EFI_RESOURCE_SYSTEM_MEMORY {
          if h.physicalStart >= ONE_MB && h.physicalStart < FOUR_GB {
            low := AddTo(low, ONE_MB + MemoryIn(hobs[..i], ONE_MB, FOUR_GB), h.resourceLength);
          } else if h.physicalStart >= FOUR_GB {
            high := AddTo(high, MemoryIn(hobs[..i], FOUR_GB, TWO64), h.resourceLength);
          }
        }
      }
    }
    assert hobs[..|hobs|] == hobs;
  }

  lemma {:induction false} MemoryInNext(hobs: seq<Hob>, i: nat, from: nat, to: nat)
    requires i < |hobs|
    ensures MemoryIn(hobs[..i + 1], from, to)
         == MemoryIn(hobs[..i], from, to)
            + (if IsSystemMemory(hobs[i]) && from <= hobs[i].physicalStart < to then hobs[i].resourceLength else 0)
  {
    assert hobs[..i + 1][..i] == hobs[..i];
  }

  /** A 64-bit addition to a total that may have wrapped already. */
  method AddTo(word: nat, ghost total: nat, length: nat) returns (sum: nat)
    requires word == total % TWO64
    ensures sum == (total + length) % TWO64
  {
    AddWrapped(total, length);
    sum := (word + length) % TWO64;
  }

  /** Wrapping at each addition or once at the end is the same. */
  lemma {:induction false} AddWrapped(x: nat, y: nat)
    ensures (x % TWO64 + y) % TWO64 == (x + y) % TWO64
  {
  }

  /** What one descriptor adds: its length if it is a resource descriptor (type 3) of system
      memory (resource type 0) that starts in the range, and nothing otherwise. */
  lemma {:induction false} MemoryInOne(h: Hob, from: nat, to: nat)
    ensures
      h.hobType == 3 && h.resourceType == 0 && from <= h.physicalStart < to ==>
        MemoryIn([h], from, to) == h.resourceLength
    ensures
      !(h.hobType == 3 && h.resourceType == 0 && from <= h.physicalStart < to) ==> MemoryIn([h], from, to) == 0
    ensures MemoryIn([], from, to) == 0
  {
    assert [h][..0] == [];
  }

  /** The order in which the HOBs were published does not matter. */
  lemma {:induction false} MemoryInAppend(p: seq<Hob>, q: seq<Hob>, from: nat, to: nat)
    ensures MemoryIn(p + q, from, to) == MemoryIn(p, from, to) + MemoryIn(q, from, to)
  {
    if q == [] {
      assert p + q == p;
    } else {
      MemoryInAppend(p, q[..|q| - 1], from, to);
      assert (p + q)[..|p + q| - 1] == p + q[..|q| - 1];
    }
  }

  /** Low memory rounded up to 256MB with high memory, to 64MB without. */
  function RoundedTop(low: nat, high: nat): nat {
    if high != 0 then
      if low % 0x1000_0000 == 0 then low else low + (0x1000_0000 - low % 0x1000_0000)
    else
      if low % 0x400_0000 == 0 then low else low + (0x400_0000 - low % 0x400_0000)
  }

  predicate RoundedUp(low: nat, top: nat, high: nat) {
    && low <= top <= FOUR_GB
    && top - low < 0x1000_0000
    && (if high != 0 then top % 0x1000_0000 == 0 else top % 0x400_0000 == 0 && top - low < 0x400_0000)
    && top % PAGE == 0
    && (low >= ONE_MB ==> top >= ONE_MB)
  }

  lemma {:induction false} RoundedTopFacts(low: nat, high: nat)
    requires low < FOUR_GB
    ensures RoundedUp(low, RoundedTop(low, high), high)
  {
    if high != 0 {
      RoundTo256(low);
    } else {
      RoundTo64(low);
    }
  }

  lemma {:induction false} RoundTo256(low: nat)
    requires low < FOUR_GB
    ensures
      var top := if low % 0x1000_0000 == 0 then low else low + (0x1000_0000 - low % 0x1000_0000);
      low <= top <= FOUR_GB && top - low < 0x1000_0000 && top % 0x1000_0000 == 0 && top % PAGE == 0
  {
    var top := if low % 0x1000_0000 == 0 then low else low + (0x1000_0000 - low % 0x1000_0000);
    var q := low / 0x1000_0000;
    assert top == 0x1000_0000 * (if low % 0x1000_0000 == 0 then q else q + 1);
  }

  lemma {:induction false} RoundTo64(low: nat)
    requires low < FOUR_GB
    ensures
      var top := if low % 0x400_0000 == 0 then low else low + (0x400_0000 - low % 0x400_0000);
      low <= top <= FOUR_GB && top - low < 0x400_0000 && top % 0x400_0000 == 0 && top % PAGE == 0
  {
    var top := if low % 0x400_0000 == 0 then low else low + (0x400_0000 - low % 0x400_0000);
    var q := low / 0x400_0000;
    assert top == 0x400_0000 * (if low % 0x400_0000 == 0 then q else q + 1);
  }

  /** The rounded top is aligned well enough for both low-memory loops. */
  lemma {:induction false} RoundedTopLayout(low: nat, high: nat, flash: Flash)
    requires low < FOUR_GB && low % ONE_MB == 0
    requires flash.Above(RoundedTop(low, high)) && high < TWO64
    ensures Layout(low, RoundedTop(low, high), high, flash)
  {
    var top := RoundedTop(low, high);
    RoundedTopFacts(low, high);
    MegabytePage(low);
    AboveBottom(top);
    ExcessAligned(low, top, high);
  }

  lemma {:induction false} ExcessAligned(low: nat, top: nat, high: nat)
    requires RoundedUp(low, top, high)
    ensures AboveRest(top, top - low)
  {
    ExcessBelowAlignment(low, top, if high != 0 then 28 else 26);
  }

  lemma {:induction false} AboveBottom(top: nat)
    ensures AboveRest(0, top)
  {
    if top > 0 {
      AlignedZero(HighBit(top) + 1);
    }
  }

  lemma {:induction false} MegabytePage(x: nat)
    requires x % ONE_MB == 0
    ensures x % PAGE == 0
  {
    assert x == 0x1000 * (0x100 * (x / ONE_MB));
  }

  lemma {:induction false} ExcessBelowAlignment(low: nat, top: nat, k: nat)
    requires low <= top && (k == 28 || k == 26)
    requires
      if k == 28 then top % 0x1000_0000 == 0 && top - low < 0x1000_0000
      else top % 0x400_0000 == 0 && top - low < 0x400_0000
    ensures AboveRest(top, top - low)
  {
    if top > low {
      Pow2Constants();
      AlignedIff(top, k);
      HighBitAgainst(k, top - low);
      AlignedWeaken(top, HighBit(top - low) + 1, k);
    }
  }

  // ----- the number of registers -----

  lemma {:induction false} PopCountBound(x: nat, k: nat, n: nat)
    requires Aligned(x, k) && k <= n && x < Pow2(n)
    ensures PopCount(x) <= n - k
    decreases n
  {
    if n > 0 {
      PopCountBound(x / 2, if k == 0 then 0 else k - 1, n - 1);
    }
  }

  /** The bits b to a - 1. */
  lemma {:induction false} PopCountRun(a: nat, b: nat)
    requires b <= a
    ensures Pow2(b) <= Pow2(a) && PopCount(Pow2(a) - Pow2(b)) == a - b
    decreases a
  {
    if a > 0 {
      if b == 0 {
        PopCountRun(a - 1, 0);
        OneMore(Pow2(a - 1) - 1, Pow2(a) - 1);
      } else {
        PopCountRun(a - 1, b - 1);
        HalfOfRun(Pow2(a - 1), Pow2(b - 1));
      }
    }
  }

  lemma {:induction false} OneMore(half: nat, x: nat)
    requires x == 2 * half + 1
    ensures PopCount(x) == PopCount(half) + 1
  {
    assert x / 2 == half && x % 2 == 1;
  }

  lemma {:induction false} HalfOfRun(p: nat, q: nat)
    requires q <= p
    ensures PopCount(2 * p - 2 * q) == PopCount(p - q)
  {
    var x: nat := 2 * p - 2 * q;
    assert x / 2 == p - q && x % 2 == 0;
  }

  lemma {:induction false} Powers33To35()
    ensures Pow2(33) == 0x2_0000_0000 && Pow2(34) == 0x4_0000_0000 && Pow2(35) == 0x8_0000_0000
  {
    Pow2Constants();
  }

  /** At most four doublings, after all four of them nothing is left, and otherwise at most
      the bits from the unit up. */
  lemma {:induction false} HighCountBound(high: nat, k: nat)
    requires Aligned(high, k) && k <= 32 && FOUR_GB + high <= PHYSICAL_TOP
    ensures Doublings(32, high) + PopCount(AfterDoublings(32, high)) <= 38 - k
  {
    var d, r := Doublings(32, high), AfterDoublings(32, high);
    Pow2Constants();
    Powers33To35();
    AtMostFourDoublings(high);
    if d == 4 {
      assert r == 0;
    } else {
      DoublingsAligned(32, high, k);
      PopCountBound(r, k, 32 + d);
    }
  }

  lemma {:induction false} AtMostFourDoublings(high: nat)
    requires FOUR_GB + high <= PHYSICAL_TOP
    ensures Doublings(32, high) <= 4
  {
    Pow2Constants();
    DoublingsIsLargest(32, high, 5);
    assert Pow2(5) == 32;
  }

  /** Doublings from 2^m leave the bits below 2^m alone. */
  lemma {:induction false} DoublingsAligned(m: nat, rest: nat, k: nat)
    requires Aligned(rest, k) && k <= m
    ensures Aligned(AfterDoublings(m, rest), k)
    decreases rest
  {
    if rest >= Pow2(m) {
      AlignedSelf(m);
      AlignedWeaken(Pow2(m), k, m);
      AlignedAdd(rest - Pow2(m), Pow2(m), k);
      DoublingsAligned(m + 1, rest - Pow2(m), k);
    }
  }

  /** With high memory, at most 12 registers for low memory; 13 without. */
  lemma {:induction false} LowCountBound(low: nat, top: nat, k: nat)
    requires low <= top <= FOUR_GB && low % ONE_MB == 0 && (k == 28 || k == 26)
    requires
      if k == 28 then top % 0x1000_0000 == 0 && top - low < 0x1000_0000
      else top % 0x400_0000 == 0 && top - low < 0x400_0000
    ensures PopCount(top) + PopCount(top - low) <= 13
    ensures k == 28 && top < FOUR_GB ==> PopCount(top) + PopCount(top - low) <= 12
  {
    Pow2Constants();
    Powers33To35();
    AlignedIff(top, k);
    PopCountBound(top, k, if top < FOUR_GB then 32 else 33);
    MegabytesApart(low, top, k);
    AlignedIff(top - low, 20);
    PopCountBound(top - low, 20, k);
  }

  lemma {:induction false} MegabytesApart(low: nat, top: nat, k: nat)
    requires low <= top && low % ONE_MB == 0
    requires if k == 28 then top % 0x1000_0000 == 0 else top % 0x400_0000 == 0
    ensures (top - low) % ONE_MB == 0
  {
    var q := if k == 28 then 0x100 * (top / 0x1000_0000) else 0x40 * (top / 0x400_0000);
    assert top == ONE_MB * q && low == ONE_MB * (low / ONE_MB);
    assert top - low == ONE_MB * (q - low / ONE_MB);
  }

  lemma {:induction false} CountBound(low: nat, top: nat, high: nat)
    requires RoundedUp(low, top, high) && low % ONE_MB == 0
    ensures PopCount(top) + PopCount(top - low) <= 13
    ensures high != 0 && top < FOUR_GB ==> PopCount(top) + PopCount(top - low) <= 12
  {
    LowCountBound(low, top, if high != 0 then 28 else 26);
  }

  /** Sizes the firmware can meet: low memory in units of 1MB under the flash window, high
      memory in units of 2^k that ends inside the 36-bit address space. */
  predicate Sized(low: nat, high: nat, flash: Flash, k: nat) {
    && low < FOUR_GB && low % ONE_MB == 0 && flash.Above(RoundedTop(low, high))
    && Aligned(high, k) && FOUR_GB + high <= PHYSICAL_TOP
  }

  predicate Fits(low: nat, high: nat, flash: Flash)
    requires low < FOUR_GB
  {
    RoundedTopFacts(low, high);
    |Plan(low, RoundedTop(low, high), high, flash)| <= MTRR_NUMBER_OF_VARIABLE_MTRR
  }

  /** High memory in units of 512KB or more fits the 32 variable registers. */
  lemma {:induction false} PlanFits(low: nat, high: nat, flash: Flash, k: nat)
    requires Sized(low, high, flash, k) && 19 <= k
    ensures Fits(low, high, flash)
  {
    var top := RoundedTop(low, high);
    RoundedTopLayout(low, high, flash);
    RoundedTopFacts(low, high);
    CountBound(low, top, high);
    AlignedWeaken(high, 19, k);
    HighCountBound(high, 19);
    PlanLength(low, top, high, flash);
    FlashPages(flash, top);
    if high == 0 {
      assert Doublings(32, 0) == 0 && AfterDoublings(32, 0) == 0;
    }
  }

  // ----- sizes that do not fit -----

  /** 3585MB of low memory under 4MB of flash. */
  const CROWDED_LOW: nat := 0xE010_0000
  const SMALL_FLASH: Flash := Flash(0xFFC0_0000, 22)

  /** High memory up to a unit of 2^k below the end of the 36-bit address space. */
  function AllBut(k: nat): nat
    requires k <= 32
  {
    Pow2Constants();
    Pow2Le(k, 32);
    PHYSICAL_TOP - FOUR_GB - Pow2(k)
  }

  lemma {:induction false} AllButFacts(k: nat)
    requires k <= 32
    ensures Aligned(AllBut(k), k) && FOUR_GB + AllBut(k) <= PHYSICAL_TOP && AllBut(k) < TWO64
    ensures Doublings(32, AllBut(k)) == 3 && PopCount(AfterDoublings(32, AllBut(k))) == 35 - k
  {
    var high := AllBut(k);
    Pow2Constants();
    Powers33To35();
    Pow2Le(k, 32);
    AlignedSelf(k);
    AlignedSelf(35);
    AlignedWeaken(Pow2(35), k, 35);
    AlignedSelf(36);
    AlignedSelf(32);
    AlignedWeaken(Pow2(36), k, 36);
    AlignedWeaken(Pow2(32), k, 32);
    AlignedAdd(high, Pow2(k), k);
    AlignedAdd(high + Pow2(k), Pow2(32), k);
    DoublingsIsLargest(32, high, 3);
    DoublingsIsLargest(32, high, 4);
    assert Pow2(3) == 8 && Pow2(4) == 16;
    assert AfterDoublings(32, high) == Pow2(35) - Pow2(k);
    PopCountRun(35, k);
  }

  lemma {:induction false} CrowdedTop(high: nat)
    requires high != 0
    ensures RoundedTop(CROWDED_LOW, high) == 0xF000_0000
    ensures PopCount(0xF000_0000) == 4 && PopCount(0xF000_0000 - CROWDED_LOW) == 8
  {
    Pow2Constants();
    PopCountRun(32, 28);
    PopCountRun(28, 20);
  }

  lemma {:induction false} SmallFlash()
    ensures SMALL_FLASH.Above(0xF000_0000)
  {
    Pow2Constants();
    Pow2Add(20, 2);
    AlignedIff(0xFFC0_0000, 22);
  }

  /** Then the plan has 51 - k ranges: 39 for pages of 4KB. */
  lemma {:induction false} CrowdedPlan(k: nat)
    requires k <= 32
    ensures
      var top, high := 0xF000_0000, AllBut(k);
      && top == RoundedTop(CROWDED_LOW, high)
      && Sized(CROWDED_LOW, high, SMALL_FLASH, k)
      && |Plan(CROWDED_LOW, top, high, SMALL_FLASH)| == 51 - k
  {
    var high := AllBut(k);
    AllButFacts(k);
    CrowdedTop(high);
    SmallFlash();
    RoundedTopLayout(CROWDED_LOW, high, SMALL_FLASH);
    PlanLength(CROWDED_LOW, 0xF000_0000, high, SMALL_FLASH);
  }

  /** Every size with high memory in units of 2^k fits the registers if and only if the unit
      is 512KB or more. */
  lemma {:induction false} FitsExactly(k: nat)
    ensures
      (forall low: nat, high: nat, flash: Flash :: Sized(low, high, flash, k) ==> Fits(low, high, flash))
      <==> k >= 19
  {
    if k >= 19 {
      forall low: nat, high: nat, flash: Flash | Sized(low, high, flash, k)
        ensures Fits(low, high, flash)
      {
        PlanFits(low, high, flash, k);
      }
    } else {
      CrowdedPlan(k);
      assert !Fits(CROWDED_LOW, AllBut(k), SMALL_FLASH);
    }
  }

  // ----- SetPeiCacheMode -----

  /** Rounds the top of low memory up; the overflow is what a mask leaves. */
  method RoundUpTop(low: nat, high: nat) returns (top: nat)
    ensures top == RoundedTop(low, high)
  {
    Pow2Constants();
    AndLowMask(low, 28);
    AndLowMask(low, 26);
    top := low;
    if high != 0 {
      var memOverflow := And(low, 0x0FFF_FFFF);
      if memOverflow != 0 {
        top := low + (0x1000_0000 - memOverflow);
      }
    } else {
      var memOverflow := And(low, 0x03FF_FFFF);
      if memOverflow != 0 {
        top := low + (0x400_0000 - memOverflow);
      }
    }
  }

  /** Stores one base/mask pair in the next free register. */
  method StoreRange(variables: array<VariableMtrr>, index: nat, base: nat, size: Positive, cache: nat,
                    ghost done: seq<Assignment>)
    requires Stored(variables[..], done) && index == |done| < MTRR_NUMBER_OF_VARIABLE_MTRR
    modifies variables
    ensures Stored(variables[..], done + [Assignment(Range(base, size), cache)])
  {
    EncodeConcat(done, [Assignment(Range(base, size), cache)]);
    variables[index] := VariableMtrr(
      Or(And(base, VALID_ADDRESS), cache),
      Or(And(Not64(size - 1), VALID_ADDRESS), MTRR_ENABLED));
  }

  lemma {:induction false} Regroup(done: seq<Assignment>, r: Range, tail: seq<Range>, cache: nat)
    ensures done + Assign([r] + tail, cache) == (done + [Assignment(r, cache)]) + Assign(tail, cache)
  {
    assert ([r] + tail)[1..] == tail;
  }

  /** Stores the first of the ranges still to come. */
  method StoreNext(variables: array<VariableMtrr>, index: nat, base: nat, size: Positive, cache: nat,
                   ghost tail: seq<Range>, ghost done: seq<Assignment>, ghost whole: seq<Assignment>)
    returns (ghost done': seq<Assignment>)
    requires Stored(variables[..], done) && index == |done| < MTRR_NUMBER_OF_VARIABLE_MTRR
    requires done + Assign([Range(base, size)] + tail, cache) == whole
    modifies variables
    ensures Stored(variables[..], done') && |done'| == index + 1
    ensures done' + Assign(tail, cache) == whole
  {
    Regroup(done, Range(base, size), tail, cache);
    StoreRange(variables, index, base, size, cache, done);
    done' := done + [Assignment(Range(base, size), cache)];
  }

  /** Covers [0, top) write-back, highest power of two first. */
  method CoverLowMemory(variables: array<VariableMtrr>, first: nat, top: nat, ghost before: seq<Assignment>)
    returns (index: nat)
    requires Stored(variables[..], before) && first == |before|
    requires first + |Cover(0, top)| <= MTRR_NUMBER_OF_VARIABLE_MTRR
    modifies variables
    ensures index == first + |Cover(0, top)|
    ensures Stored(variables[..], before + Assign(Cover(0, top), CACHE_WRITE_BACK))
  {
    ghost var whole := before + Assign(Cover(0, top), CACHE_WRITE_BACK);
    ghost var done, rest: nat := before, top;
    var memOverflow := 0;
    index := first;
    while top > memOverflow
      invariant memOverflow + rest == top
      invariant Stored(variables[..], done) && index == |done|
      invariant done + Assign(Cover(memOverflow, rest), CACHE_WRITE_BACK) == whole
    {
      assert top - memOverflow == rest;
      var memoryLength := GetPowerOfTwo64(top - memOverflow);
      ghost var tail := Cover(memOverflow + memoryLength, rest - memoryLength);
      done := StoreNext(variables, index, memOverflow, memoryLength, CACHE_WRITE_BACK, tail, done, whole);
      memOverflow, rest := memOverflow + memoryLength, rest - memoryLength;
      index := index + 1;
    }
    assert done == whole;
  }

  /** Stores the highest range that is still to be carved off. */
  method StoreExcess(variables: array<VariableMtrr>, index: nat, low: nat, max: nat,
                     ghost done: seq<Assignment>, ghost whole: seq<Assignment>)
    returns (max': nat, ghost done': seq<Assignment>)
    requires Stored(variables[..], done) && index == |done| < MTRR_NUMBER_OF_VARIABLE_MTRR && low < max
    requires done + Assign(Carve(max, max - low), CACHE_UNCACHEABLE) == whole
    modifies variables
    ensures Stored(variables[..], done') && |done'| == index + 1 && low <= max' < max
    ensures done' + Assign(Carve(max', max' - low), CACHE_UNCACHEABLE) == whole
  {
    var memoryLengthUc := GetPowerOfTwo64(max - low);
    max' := max - memoryLengthUc;
    ghost var rest: nat := max - low;
    assert max' - low == rest - memoryLengthUc;
    ghost var tail := Carve(max', rest - memoryLengthUc);
    done' := StoreNext(variables, index, max', memoryLengthUc, CACHE_UNCACHEABLE, tail, done, whole);
  }

  /** Marks [low, top) uncacheable, from the top down. */
  method CarveExcess(variables: array<VariableMtrr>, first: nat, low: nat, top: nat, ghost before: seq<Assignment>)
    returns (index: nat)
    requires Stored(variables[..], before) && first == |before|
    requires low <= top && first + |Carve(top, top - low)| <= MTRR_NUMBER_OF_VARIABLE_MTRR
    modifies variables
    ensures index == first + |Carve(top, top - low)|
    ensures Stored(variables[..], before + Assign(Carve(top, top - low), CACHE_UNCACHEABLE))
  {
    ghost var whole := before + Assign(Carve(top, top - low), CACHE_UNCACHEABLE);
    ghost var done := before;
    var max := top;
    index := first;
    while max != low
      invariant low <= max && Stored(variables[..], done) && index == |done|
      invariant done + Assign(Carve(max, max - low), CACHE_UNCACHEABLE) == whole
      decreases max
    {
      max, done := StoreExcess(variables, index, low, max, done, whole);
      index := index + 1;
    }
    assert done == whole;
  }

  /** High memory, descriptor by descriptor: what starts at or above 4GB, modulo 2^64. */
  lemma {:induction false} HighMemoryNext(hobs: seq<Hob>, h: Hob)
    ensures HighMemory(NotFound) == 0 && HighMemory(Found([])) == 0
    ensures
      HighMemory(Found(hobs + [h]))
      == (HighMemory(Found(hobs)) +
          (if h.hobType == 3 && h.resourceType == 0 && h.physicalStart >= 0x1_0000_0000 then h.resourceLength
           else 0)) % 0x1_0000_0000_0000_0000
  {
    MemoryInAppend(hobs, [h], FOUR_GB, TWO64);
    MemoryInOne(h, FOUR_GB, TWO64);
    AddWrapped(MemoryIn(hobs, FOUR_GB, TWO64), MemoryIn([h], FOUR_GB, TWO64));
  }

  /** The registers are full of the first ranges of the plan, and there are more. */
  predicate Full(variables: seq<VariableMtrr>, plan: seq<Assignment>) {
    && |plan| > MTRR_NUMBER_OF_VARIABLE_MTRR
    && variables == EncodeAll(plan[..MTRR_NUMBER_OF_VARIABLE_MTRR])
  }

  lemma {:induction false} FullOf(variables: seq<VariableMtrr>, done: seq<Assignment>, more: seq<Assignment>)
    requires Stored(variables, done) && |done| == MTRR_NUMBER_OF_VARIABLE_MTRR && |more| > 0
    ensures Full(variables, done + more)
  {
    assert (done + more)[..MTRR_NUMBER_OF_VARIABLE_MTRR] == done;
  }

  /** While there are registers left the cursor is far from the end of the 64-bit space. */
  lemma {:induction false} CursorInRange(cursor: nat, size: nat, index: nat)
    requires size <= cursor && index < MTRR_NUMBER_OF_VARIABLE_MTRR && cursor <= Pow2(31 + index)
    ensures cursor + size <= Pow2(32 + index) && cursor + size < TWO64
  {
    Pow2Constants();
    Pow2Mono(31 + index, 32 + index);
    Pow2Mono(32 + index, 64);
    assert 2 * Pow2(31 + index) == Pow2(32 + index);
  }

  lemma {:induction false} SmallSum(x: nat)
    requires x < TWO64
    ensures x % TWO64 == x
  {
  }

  /** Stores the next range above 4GB and moves the cursor, a 64-bit word. */
  method StoreHigh(variables: array<VariableMtrr>, index: nat, cursor: nat, rest: nat,
                   ghost done: seq<Assignment>, ghost whole: seq<Assignment>)
    returns (cursor': nat, rest': nat, ghost done': seq<Assignment>)
    requires Stored(variables[..], done) && index == |done| < MTRR_NUMBER_OF_VARIABLE_MTRR
    requires cursor > 0 && rest > 0 && cursor + ClampedSize(cursor, rest) < TWO64
    requires done + Assign(CoverHigh(cursor, rest), CACHE_WRITE_BACK) == whole
    modifies variables
    ensures Stored(variables[..], done') && |done'| == index + 1
    ensures cursor' == cursor + ClampedSize(cursor, rest) && rest' < rest
    ensures done' + Assign(CoverHigh(cursor', rest'), CACHE_WRITE_BACK) == whole
  {
    var memoryLength := GetPowerOfTwo64(rest);
    if memoryLength > cursor {
      memoryLength := cursor;
    }
    ghost var tail := CoverHigh(cursor + memoryLength, rest - memoryLength);
    done' := StoreNext(variables, index, cursor, memoryLength, CACHE_WRITE_BACK, tail, done, whole);
    SmallSum(cursor + memoryLength);
    cursor', rest' := (cursor + memoryLength) % TWO64, rest - memoryLength;
  }

  /** Covers [4GB, 4GB + high) write-back, clamping each size to the cursor; the next store
      after the last register is out of bounds. */
  method CoverHighMemory(variables: array<VariableMtrr>, first: nat, high: nat, ghost before: seq<Assignment>)
    returns (inBounds: bool)
    requires Stored(variables[..], before) && first == |before| >= 1
    modifies variables
    ensures
      var whole := before + Assign(CoverHigh(FOUR_GB, high), CACHE_WRITE_BACK);
      if inBounds then Stored(variables[..], whole) else Full(variables[..], whole)
  {
    ghost var whole := before + Assign(CoverHigh(FOUR_GB, high), CACHE_WRITE_BACK);
    ghost var done := before;
    var memOverflow, rest: nat := FOUR_GB, high;
    var index := first;
    Pow2Constants();
    Pow2Le(32, 31 + index);
    while rest > 0
      invariant 0 < memOverflow <= Pow2(31 + index)
      invariant Stored(variables[..], done) && index == |done|
      invariant done + Assign(CoverHigh(memOverflow, rest), CACHE_WRITE_BACK) == whole
      decreases rest
    {
      if index == MTRR_NUMBER_OF_VARIABLE_MTRR {
        FullOf(variables[..], done, Assign(CoverHigh(memOverflow, rest), CACHE_WRITE_BACK));
        return false;
      }
      CursorInRange(memOverflow, ClampedSize(memOverflow, rest), index);
      memOverflow, rest, done := StoreHigh(variables, index, memOverflow, rest, done, whole);
      index := index + 1;
    }
    assert done == whole;
    inBounds := true;
  }

  lemma {:induction false} LowFromRegister(bmbound: nat)
    requires bmbound < FOUR_GB
    ensures And(bmbound, 0xFFF0_0000) == bmbound - bmbound % ONE_MB
    ensures And(bmbound, 0xFFF0_0000) % ONE_MB == 0 && And(bmbound, 0xFFF0_0000) < FOUR_GB
  {
    Pow2Constants();
    AndFieldMask(bmbound, 20, 32);
    assert bmbound % 0x1_0000_0000 == bmbound;
    RoundDown(bmbound, ONE_MB);
  }

  /** The 1MB-aligned part of the memory controller's register. */
  function LowMemory(bmbound: nat): (low: nat)
    ensures low <= bmbound < low + 0x10_0000 && low % 0x10_0000 == 0
  {
    OneMegabyte(bmbound);
    bmbound - bmbound % ONE_MB
  }

  lemma {:induction false} OneMegabyte(x: nat)
    ensures x % ONE_MB <= x < x - x % ONE_MB + ONE_MB && (x - x % ONE_MB) % ONE_MB == 0
  {
    RoundDown(x, ONE_MB);
  }

  method ReadLow(bmbound: nat) returns (low: nat)
    requires bmbound < FOUR_GB
    ensures low == LowMemory(bmbound)
    ensures low <= bmbound < low + 0x10_0000 && low % 0x10_0000 == 0
  {
    low := And(bmbound, 0xFFF0_0000);
    LowFromRegister(bmbound);
  }

  /** High memory, as GetMemorySize reports it. */
  function HighMemory(list: HobList): nat {
    if list.Found? then MemoryIn(list.hobs, FOUR_GB, TWO64) % TWO64 else 0
  }

  /** The flash base is page-aligned and below 4GB, so storing it unmasked makes
      no difference. */
  lemma {:induction false} EncodeFlash(flash: Flash, top: nat)
    requires flash.Above(top)
    ensures And(flash.base, VALID_ADDRESS) == flash.base
  {
    AlignedWeaken(flash.base, 12, flash.exp);
    MaskValid(flash.base);
    SmallMod(flash.base);
  }

  lemma {:induction false} SmallMod(x: nat)
    requires x < PHYSICAL_TOP
    ensures x % PHYSICAL_TOP == x
  {
  }

  method StoreFlash(variables: array<VariableMtrr>, flash: Flash, ghost top: nat)
    requires flash.Above(top) && variables[..] == ZeroedRegisters(MTRR_NUMBER_OF_VARIABLE_MTRR)
    modifies variables
    ensures Stored(variables[..], Assign([flash.Window()], CACHE_WRITE_PROTECTED))
  {
    EncodeFlash(flash, top);
    variables[0] := VariableMtrr(
      Or(flash.base, CACHE_WRITE_PROTECTED),
      Or(And(Not64(flash.Window().size - 1), VALID_ADDRESS), MTRR_ENABLED));
    assert Assign([flash.Window()], CACHE_WRITE_PROTECTED) == [Assignment(flash.Window(), CACHE_WRITE_PROTECTED)];
  }

  /** Below 640KB write-back, the rest of the first megabyte write-protected; fixed and
      variable ranges enabled. */
  method BuildSettings(variables: array<VariableMtrr>, ghost plan: seq<Assignment>) returns (s: Settings)
    requires Stored(variables[..], plan) && variables.Length == MTRR_NUMBER_OF_VARIABLE_MTRR
    ensures Programmed(s, plan)
  {
    var fixed := [0x0606_0606_0606_0606, 0x0606_0606_0606_0606] + seq(9, _ => 0x0505_0505_0505_0505);
    s := Settings(fixed, variables[..], 3 * 0x400);
  }

  /** Flash and low memory leave registers over. */
  predicate LowFits(low: nat, top: nat) {
    low <= top && 1 + |Cover(0, top)| + |Carve(top, top - low)| <= MTRR_NUMBER_OF_VARIABLE_MTRR
  }

  lemma {:induction false} LowRangesFit(low: nat, top: nat, high: nat)
    requires RoundedUp(low, top, high) && low % ONE_MB == 0
    ensures LowFits(low, top)
  {
    CountBound(low, top, high);
    LowFitsByCount(low, top);
  }

  lemma {:induction false} LowFitsByCount(low: nat, top: nat)
    requires low <= top && PopCount(top) + PopCount(top - low) <= 13
    ensures LowFits(low, top)
  {
    CoverCount(0, top);
    CarveCount(top, top - low);
  }

  /** Fills the variable registers: flash first, then the three loops. */
  method ProgramVariables(low: nat, top: nat, high: nat, flash: Flash)
    returns (variables: array<VariableMtrr>, inBounds: bool)
    requires LowFits(low, top) && flash.Above(top)
    ensures variables.Length == MTRR_NUMBER_OF_VARIABLE_MTRR
    ensures inBounds ==> Stored(variables[..], Plan(low, top, high, flash))
    ensures !inBounds ==> Full(variables[..], Plan(low, top, high, flash))
  {
    variables := new VariableMtrr[MTRR_NUMBER_OF_VARIABLE_MTRR](_ => VariableMtrr(0, 0));
    ghost var f := Assign([flash.Window()], CACHE_WRITE_PROTECTED);
    StoreFlash(variables, flash, top);
    var index := CoverLowMemory(variables, 1, top, f);
    ghost var c := Assign(Cover(0, top), CACHE_WRITE_BACK);
    index := CarveExcess(variables, index, low, top, f + c);
    ghost var u := Assign(Carve(top, top - low), CACHE_UNCACHEABLE);
    inBounds := CoverHighMemory(variables, index, high, f + c + u);
  }

  /** What becomes of the settings: they are complete and are handed on, or the store behind
      the last register goes past the array that these registers fill. */
  datatype CacheMode = Applied(settings: Settings) | Overrun(variables: seq<VariableMtrr>)

  /** The cache map for a memory size: complete if and only if the plan has no more ranges
      than there are registers, and right if and only if it can be represented, too. */
  ghost predicate MapsMemory(mode: CacheMode, low: nat, top: nat, high: nat, flash: Flash)
    requires low <= top
  {
    var plan := Plan(low, top, high, flash);
    && (mode.Applied? <==> |plan| <= MTRR_NUMBER_OF_VARIABLE_MTRR)
    && (mode.Overrun? ==> Full(mode.variables, plan))
    && (mode.Applied? ==> Programmed(mode.settings, plan))
    && (mode.Applied? ==> (MapsAsExpected(mode.settings, low, high, flash) <==> Representable(top, high)))
  }

  method ProgramMap(low: nat, top: nat, high: nat, flash: Flash) returns (mode: CacheMode)
    requires low < FOUR_GB && low % ONE_MB == 0 && high < TWO64
    requires top == RoundedTop(low, high) && flash.Above(top)
    ensures low <= top && MapsMemory(mode, low, top, high, flash)
  {
    RoundedTopLayout(low, high, flash);
    RoundedTopFacts(low, high);
    LowRangesFit(low, top, high);
    var variables, inBounds := ProgramVariables(low, top, high, flash);
    if !inBounds {
      return Overrun(variables[..]);
    }
    var s := BuildSettings(variables, Plan(low, top, high, flash));
    CacheMapCorrect(s, low, top, high, flash);
    mode := Applied(s);
  }

  /** Programs the cache map from the HOB list and the register that holds the top
      of low memory. `list` and `bmbound` stand for what the firmware reads. */
  method SetPeiCacheMode(list: HobList, bmbound: nat, flash: Flash) returns (mode: CacheMode)
    requires bmbound < FOUR_GB
    requires flash.Above(RoundedTop(LowMemory(bmbound), HighMemory(list)))
    ensures
      var low, high := LowMemory(bmbound), HighMemory(list);
      low <= RoundedTop(low, high) && MapsMemory(mode, low, RoundedTop(low, high), high, flash)
    ensures
      var low, high := LowMemory(bmbound), HighMemory(list);
      && low <= bmbound < low + 0x10_0000 && low % 0x10_0000 == 0
      && high == (if list.Found? then MemoryIn(list.hobs, 0x1_0000_0000, TWO64) % TWO64 else 0)
      && RoundedUp(low, RoundedTop(low, high), high)
  {
    RoundedTopFacts(LowMemory(bmbound), HighMemory(list));
    var low, high := GetMemorySize(list);
    low := ReadLow(bmbound);
    LowFromRegister(bmbound);
    var top := RoundUpTop(low, high);
    assert low == LowMemory(bmbound) && high == HighMemory(list) && top == RoundedTop(low, high);
    mode := ProgramMap(low, top, high, flash);
  }
}
