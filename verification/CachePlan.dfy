/** The register plan of SetPeiCacheMode for a given top of low memory, and the
    memory type every physical address gets from it. */
module CachePlan {
  import opened Bits
  import opened Mtrr
  import opened CacheCover

  const ONE_MB: nat := 0x10_0000
  const MTRR_NUMBER_OF_VARIABLE_MTRR: nat := 32
  const MTRR_NUMBER_OF_FIXED_MTRR: nat := 11

  /** The settings handed to MtrrSetAllMtrrs. */
  datatype Settings = Settings(fixed: seq<nat>, variables: seq<VariableMtrr>, defType: nat)

  predicate WellFormed(s: Settings) {
    |s.fixed| == MTRR_NUMBER_OF_FIXED_MTRR && |s.variables| == MTRR_NUMBER_OF_VARIABLE_MTRR
  }

  /** The flash window: a power-of-two size of at least a page, naturally aligned. */
  datatype Flash = Flash(base: nat, exp: nat) {
    function Window(): Range { Range(base, Pow2(exp)) }
    predicate Above(top: nat) {
      12 <= exp && Aligned(base, exp) && top <= base && Window().End() <= FOUR_GB
    }
  }

  /** What the loops need to know of the rounded top and of the memory sizes. */
  predicate Layout(low: nat, top: nat, high: nat, flash: Flash) {
    && low <= top <= FOUR_GB
    && low % PAGE == 0 && top % PAGE == 0
    && AboveRest(0, top) && AboveRest(top, top - low)
    && flash.Above(top)
    && high < TWO64
  }

  /** Flash, low memory, the carved-off excess and high memory, in that order. */
  function Plan(low: nat, top: nat, high: nat, flash: Flash): seq<Assignment>
    requires low <= top
  {
    Assign([flash.Window()], CACHE_WRITE_PROTECTED)
    + Assign(Cover(0, top), CACHE_WRITE_BACK)
    + Assign(Carve(top, top - low), CACHE_UNCACHEABLE)
    + Assign(CoverHigh(FOUR_GB, high), CACHE_WRITE_BACK)
  }

  /** How many variable registers the plan takes: one for flash, one per set bit of
      the top and of the excess, one per doubling of the cursor above 4GB, and one
      per set bit of what the doublings leave. */
  lemma {:induction false} PlanLength(low: nat, top: nat, high: nat, flash: Flash)
    requires Layout(low, top, high, flash)
    ensures |Plan(low, top, high, flash)|
         == 1 + PopCount(top) + PopCount(top - low) + Doublings(32, high) + PopCount(AfterDoublings(32, high))
  {
    CoverTiles(0, top);
    CarveTiles(top, top - low);
    Pow2Constants();
    CoverHighCount(32, high);
  }

  function ZeroedRegisters(n: nat): seq<VariableMtrr> {
    seq(n, _ => VariableMtrr(0, 0))
  }

  /** The plan sits in the first registers and the others are still zero. */
  predicate Stored(variables: seq<VariableMtrr>, plan: seq<Assignment>) {
    && |plan| <= MTRR_NUMBER_OF_VARIABLE_MTRR
    && variables == EncodeAll(plan) + ZeroedRegisters(MTRR_NUMBER_OF_VARIABLE_MTRR - |plan|)
  }

  predicate Programmed(s: Settings, plan: seq<Assignment>) {
    && WellFormed(s)
    && Stored(s.variables, plan)
    && s.defType == 0xC00
    && s.fixed == [0x0606_0606_0606_0606, 0x0606_0606_0606_0606] + seq(9, _ => 0x0505_0505_0505_0505)
  }

  // ----- the intended map -----

  /** What the platform wants: RAM write-back, legacy ROM area and flash
      write-protected, everything else uncached. */
  function Expected(low: nat, high: nat, flash: Flash, x: nat): MemType {
    if x < 0xA_0000 then WB
    else if x < ONE_MB then WP
    else if x < low then WB
    else if flash.Window().Contains(x) then WP
    else if FOUR_GB <= x < FOUR_GB + high then WB
    else UC
  }

  function TypeUnder(s: Settings, x: nat): MemType
    requires WellFormed(s)
  {
    EffectiveType(s.defType, s.fixed, s.variables, x)
  }

  ghost predicate MapsAsExpected(s: Settings, low: nat, high: nat, flash: Flash)
    requires WellFormed(s)
  {
    forall x: nat :: x < PHYSICAL_TOP ==> TypeUnder(s, x) == Expected(low, high, flash, x)
  }

  /** In words: RAM is write-back, the legacy ROM area and flash are write-protected, and all
      else is uncached. */
  lemma {:induction false} ExpectedMap(low: nat, top: nat, high: nat, flash: Flash, x: nat)
    requires low <= top && flash.Above(top) && x < 0x10_0000_0000
    ensures
      Expected(low, high, flash, x) == WB <==>
        x < 0xA_0000 || 0x10_0000 <= x < low || 0x1_0000_0000 <= x < 0x1_0000_0000 + high
    ensures
      Expected(low, high, flash, x) == WP <==>
        || 0xA_0000 <= x < 0x10_0000
        || (0x10_0000 <= x && flash.base <= x < flash.base + Pow2(flash.exp))
    ensures Expected(low, high, flash, x) in {WB, WP, UC}
  {
  }

  /** The guard: memory ends where the truncated ranges only fall on addresses that
      are decided elsewhere, and does not end inside a page. */
  predicate Representable(top: nat, high: nat) {
    && FOUR_GB + high <= PHYSICAL_TOP + (if top < ONE_MB then ONE_MB else top)
    && (high % PAGE == 0 || FOUR_GB + high > PHYSICAL_TOP)
  }

  // ----- below 1MB -----

  lemma {:induction false} ByteOfRepeated(v: nat, b: nat, i: nat)
    requires i < 8 && b < 256
    requires v == b * 0x0101_0101_0101_0101
    ensures ByteOf(v, i) == b
  {
    var v1 := b * 0x01_0101_0101_0101;
    var v2 := b * 0x0101_0101_0101;
    var v3 := b * 0x01_0101_0101;
    var v4 := b * 0x0101_0101;
    var v5 := b * 0x01_0101;
    var v6 := b * 0x0101;
    assert v == 256 * v1 + b && v1 == 256 * v2 + b && v2 == 256 * v3 + b && v3 == 256 * v4 + b;
    assert v4 == 256 * v5 + b && v5 == 256 * v6 + b && v6 == 256 * b + b;
    ByteStep(v, v1, b, i);
    if i >= 1 { ByteStep(v1, v2, b, i - 1); }
    if i >= 2 { ByteStep(v2, v3, b, i - 2); }
    if i >= 3 { ByteStep(v3, v4, b, i - 3); }
    if i >= 4 { ByteStep(v4, v5, b, i - 4); }
    if i >= 5 { ByteStep(v5, v6, b, i - 5); }
    if i >= 6 { ByteStep(v6, b, b, i - 6); }
  }

  lemma {:induction false} ByteStep(v: nat, w: nat, b: nat, i: nat)
    requires v == 256 * w + b && b < 256
    ensures ByteOf(v, 0) == b && (i > 0 ==> ByteOf(v, i) == ByteOf(w, i - 1))
    ensures ByteOf(b, 0) == b
  {
    assert v / 256 == w && v % 256 == b;
  }

  /** Below 1MB the fixed ranges decide. */
  lemma {:induction false} BelowOneMegabyte(
      s: Settings, plan: seq<Assignment>, low: nat, high: nat, flash: Flash, x: nat)
    requires Programmed(s, plan) && x < ONE_MB
    ensures TypeUnder(s, x) == Expected(low, high, flash, x)
  {
    TypeCodes();
    EnableBits();
    assert TypeUnder(s, x) == FixedType(s.fixed, x);
    var piece := FixedPiece(x);
    var v := s.fixed[piece.0];
    assert FixedType(s.fixed, x) == DecodeType(ByteOf(v, piece.1));
    if piece.0 < 2 {
      assert v == 0x0606_0606_0606_0606;
      ByteOfRepeated(v, 6, piece.1);
    } else {
      assert v == 0x0505_0505_0505_0505;
      ByteOfRepeated(v, 5, piece.1);
    }
  }

  lemma {:induction false} TypeCodes()
    ensures DecodeType(6) == WB && DecodeType(5) == WP && DecodeType(0) == UC
  {
  }

  function FixedPiece(x: nat): (p: (nat, nat))
    requires x < ONE_MB
    ensures p.0 < 11 && p.1 < 8 && (p.0 < 2 <==> x < 0xA_0000)
  {
    if x < 0x8_0000 then (0, x / 0x1_0000)
    else if x < 0xC_0000 then
      var k := (x - 0x8_0000) / 0x4000;
      (1 + k / 8, k % 8)
    else
      var k := (x - 0xC_0000) / 0x1000;
      (3 + k / 8, k % 8)
  }

  lemma {:induction false} EnableBits()
    ensures And(0xC00, 0x800) != 0 && And(0xC00, 0x400) != 0 && And(0xC00, 0xFF) == 0
  {
    Pow2Constants();
    AndFieldMask(0xC00, 11, 12);
    assert Pow2(10) == 0x400 by { Pow2Add(8, 2); }
    AndFieldMask(0xC00, 10, 11);
    AndLowMask(0xC00, 8);
  }

  // ----- above 1MB -----

  /** The first address past high memory, rounded up to a page. */
  function HighEnd(high: nat): nat {
    (FOUR_GB + high + PAGE - 1) / PAGE * PAGE
  }

  lemma {:induction false} HighEndFacts(high: nat)
    ensures FOUR_GB + high <= HighEnd(high) < FOUR_GB + high + PAGE
    ensures high % PAGE == 0 <==> HighEnd(high) == FOUR_GB + high
    ensures FOUR_GB + high <= PHYSICAL_TOP ==> HighEnd(high) <= PHYSICAL_TOP
  {
    var q, r := high / PAGE, high % PAGE;
    assert FOUR_GB + high == 0x1000 * (0x10_0000 + q) + r;
    assert HighEnd(high) == 0x1000 * (0x10_0000 + q + (if r == 0 then 0 else 1));
  }

  lemma {:induction false} HighEndBelow(high: nat, m: nat)
    requires FOUR_GB + high <= m && m % PAGE == 0
    ensures HighEnd(high) <= m
  {
    HighEndFacts(high);
    assert HighEnd(high) % PAGE == 0;
  }

  /** Which addresses the ranges above 4GB reach, once truncated to 36 bits. */
  predicate HighReached(high: nat, x: nat) {
    high > 0 && (FOUR_GB <= x < HighEnd(high) || x + PHYSICAL_TOP < HighEnd(high))
  }

  lemma {:induction false} ReachesLow(a: nat, b: nat, x: nat)
    requires a % PAGE == 0 && b % PAGE == 0 && b <= PHYSICAL_TOP && x < PHYSICAL_TOP
    ensures Reaches(a, b, x) <==> a <= x < b
  {
    if a <= x < b {
      assert Aliases(x, x);
    }
    if Reaches(a, b, x) {
      var y: nat :| a <= y < b && Aliases(y, x);
      PageOfAlias(y, x);
    }
  }

  lemma {:induction false} ReachesHigh(high: nat, x: nat)
    requires x < PHYSICAL_TOP
    ensures Reaches(FOUR_GB, FOUR_GB + high, x) <==> HighReached(high, x)
  {
    if HighReached(high, x) {
      var page := x - x % PAGE;
      var y := if FOUR_GB <= x < HighEnd(high) then page else page + PHYSICAL_TOP;
      assert Aliases(y, x);
    }
    if Reaches(FOUR_GB, FOUR_GB + high, x) {
      var y: nat :| FOUR_GB <= y < FOUR_GB + high && Aliases(y, x);
      if y < PHYSICAL_TOP {
        assert FOUR_GB <= x < HighEnd(high);
      } else {
        assert x + PHYSICAL_TOP < HighEnd(high);
      }
    }
  }

  /** The types the programmed registers contribute at x. */
  function PlannedTypes(low: nat, top: nat, high: nat, flash: Flash, x: nat): set<MemType> {
    (if flash.Window().Contains(x) then {WP} else {})
    + (if x < top then {WB} else {})
    + (if low <= x < top then {UC} else {})
    + (if HighReached(high, x) then {WB} else {})
  }

  /** However many ranges the plan has. */
  lemma {:induction false} TypesOfPlan(low: nat, top: nat, high: nat, flash: Flash, x: nat)
    requires Layout(low, top, high, flash) && x < PHYSICAL_TOP
    ensures TypesAt(EncodeAll(Plan(low, top, high, flash)), x) == PlannedTypes(low, top, high, flash, x)
  {
    var f := Assign([flash.Window()], CACHE_WRITE_PROTECTED);
    var c := Assign(Cover(0, top), CACHE_WRITE_BACK);
    var u := Assign(Carve(top, top - low), CACHE_UNCACHEABLE);
    var h := Assign(CoverHigh(FOUR_GB, high), CACHE_WRITE_BACK);
    TypesOfParts(f, c, u, h, x);
    FlashTypes(flash, top, x);
    CoverTypes(top, x);
    CarveTypes(low, top, x);
    HighTypes(high, x);
  }

  lemma {:induction false} TypesOfParts(
      f: seq<Assignment>, c: seq<Assignment>, u: seq<Assignment>, h: seq<Assignment>, x: nat)
    ensures TypesAt(EncodeAll(f + c + u + h), x)
         == TypesAt(EncodeAll(f), x) + TypesAt(EncodeAll(c), x) + TypesAt(EncodeAll(u), x) + TypesAt(EncodeAll(h), x)
  {
    PlanConcat(f + c + u, h, x);
    PlanConcat(f + c, u, x);
    PlanConcat(f, c, x);
  }

  /** The registers behind the plan add nothing. */
  lemma {:induction false} TypesOfStored(variables: seq<VariableMtrr>, plan: seq<Assignment>, x: nat)
    requires Stored(variables, plan)
    ensures TypesAt(variables, x) == TypesAt(EncodeAll(plan), x)
  {
    var z := ZeroedRegisters(MTRR_NUMBER_OF_VARIABLE_MTRR - |plan|);
    ZeroedTypes(z, x);
    TypesConcat(EncodeAll(plan), z, x);
  }

  lemma {:induction false} PlanConcat(p: seq<Assignment>, q: seq<Assignment>, x: nat)
    ensures TypesAt(EncodeAll(p + q), x) == TypesAt(EncodeAll(p), x) + TypesAt(EncodeAll(q), x)
  {
    EncodeConcat(p, q);
    TypesConcat(EncodeAll(p), EncodeAll(q), x);
  }

  /** A page-aligned tiling below 2^36 gives its type to exactly its own addresses. */
  lemma {:induction false} TypesOfPages(rs: seq<Range>, a: nat, b: nat, cache: nat, x: nat)
    requires Tiling(rs, a, b) && b <= PHYSICAL_TOP && a % PAGE == 0 && b % PAGE == 0
    requires cache < 256 && x < PHYSICAL_TOP
    ensures TypesAt(EncodeAll(Assign(rs, cache)), x) == if a <= x < b then {DecodeType(cache)} else {}
  {
    TypesOfTiling(rs, a, b, cache, x);
    ReachesLow(a, b, x);
  }

  lemma {:induction false} FlashTypes(flash: Flash, top: nat, x: nat)
    requires flash.Above(top) && x < PHYSICAL_TOP
    ensures
      TypesAt(EncodeAll(Assign([flash.Window()], CACHE_WRITE_PROTECTED)), x)
      == if flash.Window().Contains(x) then {WP} else {}
  {
    var w := flash.Window();
    Pow2IsPow2(flash.exp);
    TilingEmpty(w.End());
    TilingPrepend(w, [], w.End(), w.End(), w.base, w.End());
    assert [w] + [] == [w];
    FlashPages(flash, top);
    TypesOfPages([w], w.base, w.End(), CACHE_WRITE_PROTECTED, x);
  }

  lemma {:induction false} FlashPages(flash: Flash, top: nat)
    requires flash.Above(top)
    ensures flash.base % PAGE == 0 && flash.Window().End() % PAGE == 0 && flash.Window().size >= PAGE
  {
    Pow2Constants();
    Pow2Le(12, flash.exp);
    AlignedSelf(flash.exp);
    AlignedAdd(flash.base, Pow2(flash.exp), flash.exp);
    AlignedWeaken(flash.base, 12, flash.exp);
    AlignedWeaken(flash.Window().End(), 12, flash.exp);
    AlignedIff(flash.base, 12);
    AlignedIff(flash.Window().End(), 12);
  }

  lemma {:induction false} CoverTypes(top: nat, x: nat)
    requires top <= FOUR_GB && top % PAGE == 0 && x < PHYSICAL_TOP && AboveRest(0, top)
    ensures TypesAt(EncodeAll(Assign(Cover(0, top), CACHE_WRITE_BACK)), x) == (if x < top then {WB} else {})
  {
    CoverTiles(0, top);
    TypesOfPages(Cover(0, top), 0, top, CACHE_WRITE_BACK, x);
  }

  lemma {:induction false} CarveTypes(low: nat, top: nat, x: nat)
    requires low <= top <= FOUR_GB && top % PAGE == 0 && low % PAGE == 0 && x < PHYSICAL_TOP
    requires AboveRest(top, top - low)
    ensures
      TypesAt(EncodeAll(Assign(Carve(top, top - low), CACHE_UNCACHEABLE)), x)
      == if low <= x < top then {UC} else {}
  {
    var rs := Carve(top, top - low);
    CarveTiles(top, top - low);
    TypesOfPages(rs, low, top, CACHE_UNCACHEABLE, x);
  }

  lemma {:induction false} HighTypes(high: nat, x: nat)
    requires high < TWO64 && x < PHYSICAL_TOP
    ensures
      TypesAt(EncodeAll(Assign(CoverHigh(FOUR_GB, high), CACHE_WRITE_BACK)), x)
      == if HighReached(high, x) then {WB} else {}
  {
    Pow2Constants();
    Pow2IsPow2(32);
    CoverHighTiles(FOUR_GB, high);
    TypesOfTiling(CoverHigh(FOUR_GB, high), FOUR_GB, FOUR_GB + high, CACHE_WRITE_BACK, x);
    ReachesHigh(high, x);
  }

  lemma {:induction false} TypeAtAddress(s: Settings, plan: seq<Assignment>, x: nat)
    requires Programmed(s, plan) && ONE_MB <= x < PHYSICAL_TOP
    ensures TypeUnder(s, x) == Combine(TypesAt(EncodeAll(plan), x), UC)
  {
    EnableBits();
    TypesOfStored(s.variables, plan, x);
  }

  lemma {:induction false} RightWhereRepresentable(low: nat, top: nat, high: nat, flash: Flash, x: nat)
    requires low <= top <= FOUR_GB && top % PAGE == 0 && flash.Above(top)
    requires ONE_MB <= x < PHYSICAL_TOP && Representable(top, high)
    ensures Combine(PlannedTypes(low, top, high, flash, x), UC) == Expected(low, high, flash, x)
  {
    HighEndFacts(high);
    HighEndBelow(high, PHYSICAL_TOP + (if top < ONE_MB then ONE_MB else top));
    var types := PlannedTypes(low, top, high, flash, x);
    if low <= x < top {
      assert UC in types;
    } else if x < low {
      assert types == {WB};
    } else if flash.Window().Contains(x) {
      assert types == {WP};
    } else if FOUR_GB <= x < FOUR_GB + high {
      assert types == {WB};
    } else {
      assert types == {};
    }
  }

  /** An address whose type is wrong when the guard fails. */
  lemma {:induction false} WrongWhereNotRepresentable(low: nat, top: nat, high: nat, flash: Flash) returns (x: nat)
    requires low <= top <= FOUR_GB && flash.Above(top) && !Representable(top, high)
    ensures ONE_MB <= x < PHYSICAL_TOP
    ensures Combine(PlannedTypes(low, top, high, flash, x), UC) != Expected(low, high, flash, x)
  {
    HighEndFacts(high);
    if FOUR_GB + high <= PHYSICAL_TOP {
      x := HighEnd(high) - 1;
      assert PlannedTypes(low, top, high, flash, x) == {WB};
    } else {
      x := if top < ONE_MB then ONE_MB else top;
      FlashPages(flash, top);
      assert HighReached(high, x);
      assert PlannedTypes(low, top, high, flash, x) == if flash.Window().Contains(x) then {WP, WB} else {WB};
    }
  }

  /** The planned ranges give each address above 1MB its intended type exactly when the sizes
      are representable, whether or not there are registers for all of them. */
  lemma {:induction false} PlanCorrect(low: nat, top: nat, high: nat, flash: Flash)
    requires Layout(low, top, high, flash)
    ensures
      (forall x: nat :: ONE_MB <= x < PHYSICAL_TOP ==> PlannedAsExpected(low, top, high, flash, x))
      <==> Representable(top, high)
  {
    if Representable(top, high) {
      forall x: nat | ONE_MB <= x < PHYSICAL_TOP
        ensures PlannedAsExpected(low, top, high, flash, x)
      {
        TypesOfPlan(low, top, high, flash, x);
        RightWhereRepresentable(low, top, high, flash, x);
      }
    } else {
      var x := WrongWhereNotRepresentable(low, top, high, flash);
      TypesOfPlan(low, top, high, flash, x);
      assert !PlannedAsExpected(low, top, high, flash, x);
    }
  }

  predicate PlannedAsExpected(low: nat, top: nat, high: nat, flash: Flash, x: nat)
    requires low <= top
  {
    Combine(TypesAt(EncodeAll(Plan(low, top, high, flash)), x), UC) == Expected(low, high, flash, x)
  }

  /** The memory map is the intended one on the whole 36-bit address space exactly
      when the sizes are representable. */
  lemma {:induction false} CacheMapCorrect(s: Settings, low: nat, top: nat, high: nat, flash: Flash)
    requires Layout(low, top, high, flash) && Programmed(s, Plan(low, top, high, flash))
    ensures MapsAsExpected(s, low, high, flash) <==> Representable(top, high)
  {
    var plan := Plan(low, top, high, flash);
    forall x: nat | ONE_MB <= x < PHYSICAL_TOP
      ensures TypeUnder(s, x) == Expected(low, high, flash, x) <==> PlannedAsExpected(low, top, high, flash, x)
    {
      TypeAtAddress(s, plan, x);
    }
    forall x: nat | x < ONE_MB
      ensures TypeUnder(s, x) == Expected(low, high, flash, x)
    {
      BelowOneMegabyte(s, plan, low, high, flash, x);
    }
    PlanCorrect(low, top, high, flash);
  }
}
