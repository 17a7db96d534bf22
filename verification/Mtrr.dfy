/** Memory type range registers: what a base/mask pair matches, how overlapping
    types combine (Intel SDM volume 3A, sections 11.11.2.3, 11.11.3 and 11.11.4.1),
    and power-of-two ranges that tile an interval. */
module Mtrr {
  import opened Bits

  const VALID_ADDRESS: nat := 0xF_FFFF_F000
  const MTRR_ENABLED: nat := 0x800
  const PHYSICAL_TOP: nat := 0x10_0000_0000
  const PAGE: nat := 0x1000

  const CACHE_UNCACHEABLE: nat := 0
  const CACHE_WRITE_COMBINING: nat := 1
  const CACHE_WRITE_THROUGH: nat := 4
  const CACHE_WRITE_PROTECTED: nat := 5
  const CACHE_WRITE_BACK: nat := 6

  datatype MemType = UC | WC | WT | WP | WB | Undefined

  datatype VariableMtrr = VariableMtrr(base: nat, mask: nat)

  function DecodeType(b: nat): MemType {
    if b == CACHE_UNCACHEABLE then UC
    else if b == CACHE_WRITE_COMBINING then WC
    else if b == CACHE_WRITE_THROUGH then WT
    else if b == CACHE_WRITE_PROTECTED then WP
    else if b == CACHE_WRITE_BACK then WB
    else Undefined
  }

  // ----- what the processor does with the registers -----

  function TypeOf(m: VariableMtrr): MemType {
    DecodeType(And(m.base, 0xFF))
  }

  /** Address and base agree on every bit that the mask selects. */
  predicate Matches(m: VariableMtrr, x: nat) {
    var physMask := And(m.mask, VALID_ADDRESS);
    && And(m.mask, MTRR_ENABLED) != 0
    && And(x, physMask) == And(And(m.base, VALID_ADDRESS), physMask)
  }

  function TypesAt(ms: seq<VariableMtrr>, x: nat): set<MemType> {
    set i | 0 <= i < |ms| && Matches(ms[i], x) :: TypeOf(ms[i])
  }

  /** UC wins, write-through wins over write-back, other mixtures are undefined. */
  function Combine(types: set<MemType>, default: MemType): MemType {
    if types == {} then default
    else if UC in types then UC
    else if types == {WB} then WB
    else if types == {WP} then WP
    else if types == {WC} then WC
    else if types == {WT} || types == {WT, WB} then WT
    else Undefined
  }

  /** Byte i of a 64-bit register, byte 0 being the least significant. */
  function ByteOf(v: nat, i: nat): nat {
    if i == 0 then v % 256 else ByteOf(v / 256, i - 1)
  }

  /** The fixed-range registers: one of 64KB pieces, two of 16KB, eight of 4KB. */
  function FixedType(fixed: seq<nat>, x: nat): MemType
    requires |fixed| == 11 && x < 0x10_0000
  {
    if x < 0x8_0000 then
      DecodeType(ByteOf(fixed[0], x / 0x1_0000))
    else if x < 0xC_0000 then
      var k := (x - 0x8_0000) / 0x4000;
      DecodeType(ByteOf(fixed[1 + k / 8], k % 8))
    else
      var k := (x - 0xC_0000) / 0x1000;
      DecodeType(ByteOf(fixed[3 + k / 8], k % 8))
  }

  /** The type of physical address x. With the enable bit clear everything is UC;
      the fixed ranges, when enabled, take priority over the variable ones. */
  function EffectiveType(defType: nat, fixed: seq<nat>, ms: seq<VariableMtrr>, x: nat): MemType
    requires |fixed| == 11
  {
    if And(defType, 0x800) == 0 then UC
    else if And(defType, 0x400) != 0 && x < 0x10_0000 then FixedType(fixed, x)
    else Combine(TypesAt(ms, x), DecodeType(And(defType, 0xFF)))
  }

  // ----- ranges and tilings -----

  datatype Range = Range(base: nat, size: Positive) {
    function End(): nat { base + size }
    predicate Contains(y: nat) { base <= y < End() }
  }

  /** A power-of-two size, and a base that is a multiple of it. */
  predicate NaturallyAligned(r: Range) {
    IsPow2(r.size) && Aligned(r.base, HighBit(r.size))
  }

  ghost predicate InSome(rs: seq<Range>, y: nat) {
    exists i :: 0 <= i < |rs| && rs[i].Contains(y)
  }

  ghost predicate Disjoint(r: Range, s: Range) {
    r.End() <= s.base || s.End() <= r.base
  }

  /** Naturally aligned, pairwise disjoint ranges whose union is exactly [a, b). */
  ghost predicate Tiling(rs: seq<Range>, a: nat, b: nat) {
    && (forall i :: 0 <= i < |rs| ==> NaturallyAligned(rs[i]))
    && (forall i, j :: 0 <= i < j < |rs| ==> Disjoint(rs[i], rs[j]))
    && (forall y: nat :: a <= y < b <==> InSome(rs, y))
  }

  lemma {:induction false} TilingEmpty(a: nat)
    ensures Tiling([], a, a)
  {
  }

  /** A new first range may sit just below or just above an existing tiling. */
  lemma {:induction false} TilingPrepend(r: Range, rs: seq<Range>, a: nat, b: nat, a': nat, b': nat)
    requires Tiling(rs, a, b) && a <= b
    requires NaturallyAligned(r)
    requires (r.End() == a && r.base == a' && b == b') || (r.base == b && r.End() == b' && a == a')
    ensures Tiling([r] + rs, a', b')
  {
    var all := [r] + rs;
    forall y: nat
      ensures a' <= y < b' <==> InSome(all, y)
    {
      InFirstOrRest(r, rs, y);
    }
    forall i, j | 0 <= i < j < |all|
      ensures Disjoint(all[i], all[j])
    {
      if i == 0 {
        InsideTiling(rs, a, b, j - 1);
      } else {
        assert Disjoint(rs[i - 1], rs[j - 1]);
      }
    }
  }

  lemma {:induction false} InFirstOrRest(r: Range, rs: seq<Range>, y: nat)
    ensures InSome([r] + rs, y) <==> r.Contains(y) || InSome(rs, y)
  {
    var all := [r] + rs;
    if InSome(all, y) {
      var i :| 0 <= i < |all| && all[i].Contains(y);
      if i > 0 {
        assert rs[i - 1].Contains(y);
      }
    }
    if InSome(rs, y) {
      var i :| 0 <= i < |rs| && rs[i].Contains(y);
      assert all[i + 1].Contains(y);
    }
    if r.Contains(y) {
      assert all[0].Contains(y);
    }
  }

  lemma {:induction false} InsideTiling(rs: seq<Range>, a: nat, b: nat, i: nat)
    requires Tiling(rs, a, b) && i < |rs|
    ensures a <= rs[i].base && rs[i].End() <= b
  {
    var last := rs[i].End() - 1;
    assert rs[i].Contains(rs[i].base) && rs[i].Contains(last);
    assert InSome(rs, rs[i].base) && InSome(rs, last);
  }

  // ----- registers that hold a range -----

  /** The base/mask pair the firmware stores for a range of `size` bytes. */
  function Encode(base: nat, size: Positive, cache: nat): VariableMtrr
  {
    VariableMtrr(Or(And(base, VALID_ADDRESS), cache),
                 Or(And(Not64(size - 1), VALID_ADDRESS), MTRR_ENABLED))
  }

  /** A range and the cache type it is to get. */
  datatype Assignment = Assignment(range: Range, cache: nat)

  function Assign(rs: seq<Range>, cache: nat): (p: seq<Assignment>)
    ensures |p| == |rs|
  {
    if rs == [] then [] else [Assignment(rs[0], cache)] + Assign(rs[1..], cache)
  }

  function EncodeAll(plan: seq<Assignment>): (ms: seq<VariableMtrr>)
    ensures |ms| == |plan|
    ensures forall i :: 0 <= i < |ms| ==> ms[i] == Encode(plan[i].range.base, plan[i].range.size, plan[i].cache)
  {
    seq(|plan|, i requires 0 <= i < |plan| => Encode(plan[i].range.base, plan[i].range.size, plan[i].cache))
  }

  lemma {:induction false} AssignAt(rs: seq<Range>, cache: nat, i: nat)
    requires i < |rs|
    ensures Assign(rs, cache)[i] == Assignment(rs[i], cache)
  {
    if i > 0 {
      AssignAt(rs[1..], cache, i - 1);
    }
  }

  lemma {:induction false} EncodeConcat(p: seq<Assignment>, q: seq<Assignment>)
    ensures EncodeAll(p + q) == EncodeAll(p) + EncodeAll(q)
  {
  }

  /** Pages that the 36-bit address field cannot tell apart from x's page. */
  predicate Aliases(y: nat, x: nat) {
    (y % PHYSICAL_TOP) / PAGE == x / PAGE
  }

  ghost predicate Reaches(a: nat, b: nat, x: nat) {
    exists y: nat :: a <= y < b && Aliases(y, x)
  }

  lemma {:induction false} ValidAddressIsAField()
    ensures VALID_ADDRESS == Pow2(36) - Pow2(12)
  {
    Pow2Constants();
  }

  lemma {:induction false} MaskIsField(x: nat)
    ensures And(x, VALID_ADDRESS) == x % PHYSICAL_TOP - x % PAGE
  {
    ValidAddressIsAField();
    Pow2Constants();
    AndFieldMask(x, 12, 36);
  }

  /** Masking with VALID_ADDRESS keeps bits 12..35. */
  lemma {:induction false} MaskValid(x: nat)
    ensures And(x, VALID_ADDRESS) == x % PHYSICAL_TOP - x % PAGE
    ensures Aligned(And(x, VALID_ADDRESS), 12) && And(x, VALID_ADDRESS) % PAGE == 0
    ensures And(x, VALID_ADDRESS) <= VALID_ADDRESS
    ensures Aligned(x, 12) ==> And(x, VALID_ADDRESS) == x % PHYSICAL_TOP
  {
    AlignedIff(And(x, VALID_ADDRESS), 12);
    AlignedIff(x, 12);
    Pow2Constants();
    MaskIsField(x);
    ModMod(x, 12, 36);
    assert Aligned(PHYSICAL_TOP, 12);
    BlockStart(x % PHYSICAL_TOP, 12);
    if x % PHYSICAL_TOP - x % PAGE > VALID_ADDRESS {
      AlignedRoom(x % PHYSICAL_TOP - x % PAGE, PHYSICAL_TOP, 12);
    }
  }

  /** The fields the processor sees in the base register of a stored pair. */
  lemma {:induction false} FieldsOfBase(base: nat, size: Positive, cache: nat)
    requires cache < 256
    ensures
      var m := Encode(base, size, cache);
      And(m.base, VALID_ADDRESS) == And(base, VALID_ADDRESS) && And(m.base, 0xFF) == cache
  {
    MaskValid(base);
    FieldsOfOr(And(base, VALID_ADDRESS), cache);
  }

  lemma {:induction false} FieldsOfOr(b: nat, cache: nat)
    requires Aligned(b, 12) && b % PAGE == 0 && b <= VALID_ADDRESS && cache < 256
    ensures And(Or(b, cache), VALID_ADDRESS) == b && And(Or(b, cache), 0xFF) == cache
  {
    OrBelowPage(b, cache);
    AddressField(b, cache);
    assert And(b + cache, 0xFF) == cache by {
      AddBelowPage(b, cache);
      LowByte(b + cache);
    }
  }

  lemma {:induction false} OrBelowPage(b: nat, c: nat)
    requires Aligned(b, 12) && c < PAGE
    ensures Or(b, c) == b + c
  {
    Pow2Constants();
    OrDisjoint(b, c, 12);
  }

  lemma {:induction false} AddressField(b: nat, c: nat)
    requires b % PAGE == 0 && b <= VALID_ADDRESS && c < PAGE
    ensures And(b + c, VALID_ADDRESS) == b
  {
    AddBelowPage(b, c);
    MaskIsField(b + c);
  }

  lemma {:induction false} LowByte(x: nat)
    ensures And(x, 0xFF) == x % 256
  {
    Pow2Constants();
    AndLowMask(x, 8);
  }

  /** The fields the processor sees in the mask register of a stored pair. */
  lemma {:induction false} FieldsOfMask(base: nat, size: Positive, cache: nat)
    ensures
      var m := Encode(base, size, cache);
      && And(m.mask, MTRR_ENABLED) != 0
      && And(m.mask, VALID_ADDRESS) == And(Not64(size - 1), VALID_ADDRESS)
  {
    EnableField(And(Not64(size - 1), VALID_ADDRESS), Not64(size - 1));
  }

  lemma {:induction false} EnableField(k: nat, x: nat)
    requires k == And(x, VALID_ADDRESS)
    ensures And(Or(k, MTRR_ENABLED), MTRR_ENABLED) != 0
    ensures And(Or(k, MTRR_ENABLED), VALID_ADDRESS) == k
  {
    MaskValid(x);
    OrBelowPage(k, MTRR_ENABLED);
    AddressField(k, MTRR_ENABLED);
    AddBelowPage(k, MTRR_ENABLED);
    EnableBit(k + MTRR_ENABLED);
  }

  lemma {:induction false} EnableBit(x: nat)
    requires x % PAGE == MTRR_ENABLED
    ensures And(x, MTRR_ENABLED) != 0
  {
    Pow2Constants();
    AndFieldMask(x, 11, 12);
  }

  lemma {:induction false} AddBelowPage(b: nat, c: nat)
    requires b % PAGE == 0 && b <= VALID_ADDRESS && c < PAGE
    ensures (b + c) % PHYSICAL_TOP - (b + c) % PAGE == b
    ensures (b + c) % PAGE == c && (c < 256 ==> (b + c) % 256 == c)
  {
    var q := b / PAGE;
    assert b == 0x1000 * q;
    assert (b + c) / 256 == 16 * q + c / 256;
  }

  /** The address mask left of a power-of-two size, clamped to 4KB and to 2^36. */
  lemma {:induction false} SizeMask(k: nat)
    requires k <= 64
    ensures Pow2(k) <= TWO64
    ensures k < 12 ==> And(Not64(Pow2(k) - 1), VALID_ADDRESS) == PHYSICAL_TOP - PAGE
    ensures
      12 <= k <= 36 ==>
        Pow2(k) <= PHYSICAL_TOP && And(Not64(Pow2(k) - 1), VALID_ADDRESS) == PHYSICAL_TOP - Pow2(k)
    ensures 36 < k ==> And(Not64(Pow2(k) - 1), VALID_ADDRESS) == 0
  {
    SizeFacts(k);
    NotOfSize(Pow2(k));
    MaskValid(TWO64 - Pow2(k));
    TopMinus(Pow2(k));
  }

  lemma {:induction false} NotOfSize(d: nat)
    requires 0 < d <= TWO64
    ensures Not64(d - 1) == TWO64 - d
  {
  }

  lemma {:induction false} SizeFacts(k: nat)
    requires k <= 64
    ensures Pow2(k) <= TWO64
    ensures k < 12 ==> Pow2(k) < PAGE
    ensures 12 <= k <= 36 ==> Pow2(k) <= PHYSICAL_TOP && Pow2(k) % PAGE == 0
    ensures 36 < k ==> Pow2(k) % PHYSICAL_TOP == 0
  {
    Pow2Constants();
    Pow2Le(k, 64);
    Pow2Le(12, k);
    Pow2Le(k, 36);
    AlignedSelf(k);
    if 12 <= k {
      AlignedWeaken(Pow2(k), 12, k);
      AlignedIff(Pow2(k), 12);
    }
    if 36 < k {
      AlignedWeaken(Pow2(k), 36, k);
      AlignedIff(Pow2(k), 36);
    }
  }

  /** The complement of a small, a page-sized or a huge power of two. */
  lemma {:induction false} TopMinus(d: nat)
    requires 0 < d <= TWO64
    ensures d < PAGE ==> (TWO64 - d) % PHYSICAL_TOP - (TWO64 - d) % PAGE == PHYSICAL_TOP - PAGE
    ensures d <= PHYSICAL_TOP && d % PAGE == 0 ==> (TWO64 - d) % PHYSICAL_TOP - (TWO64 - d) % PAGE == PHYSICAL_TOP - d
    ensures d % PHYSICAL_TOP == 0 ==> (TWO64 - d) % PHYSICAL_TOP == 0 && (TWO64 - d) % PAGE == 0
  {
  }

  lemma {:induction false} MatchesFields(base: nat, size: Positive, cache: nat, x: nat)
    requires cache < 256
    ensures
      var k := And(Not64(size - 1), VALID_ADDRESS);
      Matches(Encode(base, size, cache), x) <==> And(x, k) == And(And(base, VALID_ADDRESS), k)
  {
    FieldsOfBase(base, size, cache);
    FieldsOfMask(base, size, cache);
  }

  /** A register that holds an aligned range matches exactly the addresses whose
      page the range reaches modulo 2^36. */
  lemma {:induction false} MatchesRange(r: Range, cache: nat, x: nat)
    requires NaturallyAligned(r) && r.size <= TWO64 && cache < 256 && x < PHYSICAL_TOP
    ensures Matches(Encode(r.base, r.size, cache), x) <==> Reaches(r.base, r.End(), x)
  {
    var k := HighBit(r.size);
    Pow2Constants();
    Pow2Le(k, 64);
    SizeMask(k);
    MatchesFields(r.base, r.size, cache, x);
    if k < 12 {
      SmallRange(r, k, x);
    } else if k <= 36 {
      MiddleRange(r, k, x);
    } else {
      HugeRange(r, k, x);
    }
  }

  /** Below a page, the whole page matches. */
  lemma {:induction false} SmallRange(r: Range, k: nat, x: nat)
    requires r.size == Pow2(k) && k < 12 && Aligned(r.base, k) && x < PHYSICAL_TOP
    ensures
      And(x, PHYSICAL_TOP - PAGE) == And(And(r.base, VALID_ADDRESS), PHYSICAL_TOP - PAGE)
      <==> Reaches(r.base, r.End(), x)
  {
    PageField(r.base, x);
    if Aliases(r.base, x) {
      assert Reaches(r.base, r.End(), x);
    }
    if Reaches(r.base, r.End(), x) {
      var y: nat :| r.base <= y < r.End() && Aliases(y, x);
      WithinPage(r, k, y);
      SamePageSameAlias(y, r.base);
    }
  }

  /** With a page-sized mask the processor compares page numbers. */
  lemma {:induction false} PageField(base: nat, x: nat)
    requires x < PHYSICAL_TOP
    ensures And(x, PHYSICAL_TOP - PAGE) == And(And(base, VALID_ADDRESS), PHYSICAL_TOP - PAGE) <==> Aliases(base, x)
  {
    MaskValid(base);
    Pow2Constants();
    FieldAbove(x, 12);
    FieldAbove(And(base, VALID_ADDRESS), 12);
    PageOfAlias(base, x);
  }

  lemma {:induction false} WithinPage(r: Range, k: nat, y: nat)
    requires r.size == Pow2(k) && k < 12 && Aligned(r.base, k) && r.Contains(y)
    ensures y / PAGE == r.base / PAGE
  {
    Pow2Constants();
    var page := r.base - r.base % PAGE;
    BlockStart(r.base, 12);
    AlignedSelf(12);
    AlignedAdd(page, PAGE, 12);
    AlignedWeaken(page + PAGE, k, 12);
    AlignedRoom(r.base, page + PAGE, k);
    assert page <= y < page + PAGE;
  }

  lemma {:induction false} PageOfAlias(y: nat, x: nat)
    requires x < PHYSICAL_TOP
    ensures Aliases(y, x) <==> x - x % PAGE == y % PHYSICAL_TOP - y % PAGE
  {
    assert (y % PHYSICAL_TOP) % PAGE == y % PAGE by {
      Pow2Constants();
      ModMod(y, 12, 36);
    }
  }

  lemma {:induction false} SamePageSameAlias(y: nat, z: nat)
    requires y / PAGE == z / PAGE
    ensures (y % PHYSICAL_TOP) / PAGE == (z % PHYSICAL_TOP) / PAGE
  {
    PageNumber(y);
    PageNumber(z);
  }

  lemma {:induction false} PageNumber(y: nat)
    ensures (y % PHYSICAL_TOP) / PAGE == (y / PAGE) % 0x100_0000
  {
    var a, r := y / PHYSICAL_TOP, y % PHYSICAL_TOP;
    var b, c := r / PAGE, r % PAGE;
    assert y == 0x1000 * (0x100_0000 * a + b) + c;
    assert y / PAGE == 0x100_0000 * a + b;
  }

  lemma {:induction false} FieldAbove(x: nat, k: nat)
    requires k <= 36 && x < PHYSICAL_TOP
    ensures Pow2(k) <= PHYSICAL_TOP
    ensures And(x, PHYSICAL_TOP - Pow2(k)) == x - x % Pow2(k)
  {
    Pow2Constants();
    AndFieldMask(x, k, 36);
  }

  /** From a page up to 2^36, the matched addresses are the range itself, shifted
      down by a multiple of 2^36. */
  lemma {:induction false} MiddleRange(r: Range, k: nat, x: nat)
    requires r.size == Pow2(k) && 12 <= k <= 36 && Aligned(r.base, k) && x < PHYSICAL_TOP
    requires r.size <= PHYSICAL_TOP
    ensures
      var mask := PHYSICAL_TOP - r.size;
      And(x, mask) == And(And(r.base, VALID_ADDRESS), mask) <==> Reaches(r.base, r.End(), x)
  {
    MaskedBase(r, k);
    InBlock(x, r.base % PHYSICAL_TOP, k);
    ShiftedRange(r, x);
  }

  /** With a mask above bit k the processor compares 2^k-sized blocks. */
  lemma {:induction false} InBlock(x: nat, b: nat, k: nat)
    requires k <= 36 && x < PHYSICAL_TOP && b < PHYSICAL_TOP && Aligned(b, k)
    ensures Pow2(k) <= PHYSICAL_TOP
    ensures And(x, PHYSICAL_TOP - Pow2(k)) == And(b, PHYSICAL_TOP - Pow2(k)) <==> b <= x < b + Pow2(k)
  {
    FieldAbove(x, k);
    FieldAbove(b, k);
    BlockOf(x, b, k);
    BlockOf(b, b, k);
  }

  lemma {:induction false} ShiftedRange(r: Range, x: nat)
    requires x < PHYSICAL_TOP && r.base % PHYSICAL_TOP + r.size <= PHYSICAL_TOP
    requires (r.base % PHYSICAL_TOP) % PAGE == 0 && r.size % PAGE == 0
    ensures
      var b := r.base % PHYSICAL_TOP;
      b <= x < b + r.size <==> Reaches(r.base, r.End(), x)
  {
    var b := r.base % PHYSICAL_TOP;
    if b <= x < b + r.size {
      ShiftMod(r.base, x - b);
      assert Aliases(r.base + (x - b), x);
    }
    if Reaches(r.base, r.End(), x) {
      var y: nat :| r.base <= y < r.End() && Aliases(y, x);
      ShiftMod(r.base, y - r.base);
      PagesInside(b, r.size, b + (y - r.base), x);
    }
  }

  lemma {:induction false} MaskedBase(r: Range, k: nat)
    requires r.size == Pow2(k) && 12 <= k <= 36 && Aligned(r.base, k)
    ensures
      var b := r.base % PHYSICAL_TOP;
      && And(r.base, VALID_ADDRESS) == b
      && Aligned(b, k)
      && b + r.size <= PHYSICAL_TOP
      && b % PAGE == 0 && r.size % PAGE == 0
  {
    var b := r.base % PHYSICAL_TOP;
    MaskValid(r.base);
    Pow2Constants();
    AlignedWeaken(r.base, 12, k);
    ModMod(r.base, k, 36);
    AlignedSelf(36);
    AlignedWeaken(PHYSICAL_TOP, k, 36);
    AlignedRoom(b, PHYSICAL_TOP, k);
    AlignedSelf(k);
    AlignedWeaken(r.size, 12, k);
    AlignedWeaken(b, 12, k);
    AlignedIff(r.size, 12);
    AlignedIff(b, 12);
  }

  lemma {:induction false} ShiftMod(base: nat, delta: nat)
    requires base % PHYSICAL_TOP + delta < PHYSICAL_TOP
    ensures (base + delta) % PHYSICAL_TOP == base % PHYSICAL_TOP + delta
  {
  }

  lemma {:induction false} PagesInside(b: nat, d: nat, y: nat, x: nat)
    requires b % PAGE == 0 && d % PAGE == 0 && b <= y < b + d && y / PAGE == x / PAGE
    ensures b <= x < b + d
  {
  }

  /** Beyond 2^36 nothing is left of the mask: every address matches. */
  lemma {:induction false} HugeRange(r: Range, k: nat, x: nat)
    requires r.size == Pow2(k) && 36 < k && Aligned(r.base, k) && x < PHYSICAL_TOP
    ensures And(x, 0) == 0 && Reaches(r.base, r.End(), x)
  {
    Pow2Constants();
    AlignedWeaken(r.base, 36, k);
    AlignedIff(r.base, 36);
    Pow2Mono(36, k);
    var y := r.base + x;
    ShiftMod(r.base, x);
    assert Aliases(y, x);
  }

  /** The types a tiling of [a, b) contributes at x. */
  lemma {:induction false} TypesOfTiling(rs: seq<Range>, a: nat, b: nat, cache: nat, x: nat)
    requires Tiling(rs, a, b) && b <= a + TWO64 && cache < 256 && x < PHYSICAL_TOP
    ensures TypesAt(EncodeAll(Assign(rs, cache)), x) == if Reaches(a, b, x) then {DecodeType(cache)} else {}
  {
    var plan := Assign(rs, cache);
    var ms := EncodeAll(plan);
    forall i | 0 <= i < |rs|
      ensures Matches(ms[i], x) <==> Reaches(rs[i].base, rs[i].End(), x)
      ensures TypeOf(ms[i]) == DecodeType(cache)
    {
      InsideTiling(rs, a, b, i);
      AssignAt(rs, cache, i);
      MatchesRange(rs[i], cache, x);
      FieldsOfBase(rs[i].base, rs[i].size, cache);
    }
    if Reaches(a, b, x) {
      var y: nat :| a <= y < b && Aliases(y, x);
      assert InSome(rs, y);
      var i :| 0 <= i < |rs| && rs[i].Contains(y);
      assert Reaches(rs[i].base, rs[i].End(), x);
      assert Matches(ms[i], x);
      assert TypeOf(ms[i]) in TypesAt(ms, x);
    } else {
      forall i | 0 <= i < |rs|
        ensures !Matches(ms[i], x)
      {
        if Reaches(rs[i].base, rs[i].End(), x) {
          var y: nat :| rs[i].base <= y < rs[i].End() && Aliases(y, x);
          assert rs[i].Contains(y);
          assert InSome(rs, y);
        }
      }
    }
  }

  lemma {:induction false} TypesConcat(p: seq<VariableMtrr>, q: seq<VariableMtrr>, x: nat)
    ensures TypesAt(p + q, x) == TypesAt(p, x) + TypesAt(q, x)
  {
    var all := p + q;
    forall t | t in TypesAt(p, x) + TypesAt(q, x)
      ensures t in TypesAt(all, x)
    {
      if t in TypesAt(p, x) {
        var i :| 0 <= i < |p| && Matches(p[i], x) && TypeOf(p[i]) == t;
        assert all[i] == p[i];
      } else {
        var i :| 0 <= i < |q| && Matches(q[i], x) && TypeOf(q[i]) == t;
        assert all[|p| + i] == q[i];
      }
    }
    forall t | t in TypesAt(all, x)
      ensures t in TypesAt(p, x) + TypesAt(q, x)
    {
      var i :| 0 <= i < |all| && Matches(all[i], x) && TypeOf(all[i]) == t;
      if i < |p| {
        assert Matches(p[i], x);
      } else {
        assert Matches(q[i - |p|], x);
      }
    }
  }

  /** Registers left zeroed are disabled. */
  lemma {:induction false} ZeroedTypes(ms: seq<VariableMtrr>, x: nat)
    requires forall i :: 0 <= i < |ms| ==> ms[i] == VariableMtrr(0, 0)
    ensures TypesAt(ms, x) == {}
  {
  }
}
