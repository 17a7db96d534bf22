/** AcpiPlatform/AcpiPlatformHooks.c: PatchDsdtTable, which renames one method of the DSDT
    and stores the address and size of the global NVS area at every operation region
    named GNVS, scanning the bytes of the table. */
module PatchDsdt {
  import opened Bytes

  const LENGTH_FIELD: nat := 4
  const AML_OPREGION_OP: Byte := 0x80
  const UNDERSCORE: Byte := 0x5F
  const DSDT: seq<Byte> := [0x44, 0x53, 0x44, 0x54]
  const GNVS: seq<Byte> := [0x47, 0x4E, 0x56, 0x53]
  const NDEP: seq<Byte> := [0x4E, 0x44, 0x45, 0x50]
  const PDEP: seq<Byte> := [0x50, 0x44, 0x45, 0x50]
  /** Bytes past the end that the scan may touch. */
  const SLACK: nat := 13

  /** The global NVS area; only the low 32 and 16 bits are stored. */
  datatype NvsArea = NvsArea(address: nat, size: nat)

  /** An operation region called GNVS: its name starts at p. */
  predicate Site(s: seq<Byte>, p: nat) {
    p >= 1 && NameAt(s, p, GNVS) && s[p - 1] == AML_OPREGION_OP
  }

  /** The operand bytes of a site: the address at +6, the size at +11. */
  predicate Covers(p: nat, k: nat) {
    p + 6 <= k < p + 10 || p + 11 <= k < p + 13
  }

  function OperandByte(area: NvsArea, i: nat): Byte
    requires Covers(0, i)
  {
    if i < 10 then Le(4, area.address)[i - 6] else Le(2, area.size)[i - 11]
  }

  function Store(area: NvsArea, s: seq<Byte>, p: nat): (r: seq<Byte>)
    requires p + SLACK <= |s|
    ensures |r| == |s|
  {
    Patch(Patch(s, p + 6, Le(4, area.address)), p + 11, Le(2, area.size))
  }

  lemma {:induction false} StoreAt(area: NvsArea, s: seq<Byte>, p: nat, k: nat)
    requires p + SLACK <= |s| && k < |s|
    ensures Store(area, s, p)[k] == if Covers(p, k) then OperandByte(area, k - p) else s[k]
  {
  }

  // ----- the scan and what it leaves -----

  /** The table after the scan has passed the positions below n. */
  function Scan(area: NvsArea, s: seq<Byte>, n: nat): (r: seq<Byte>)
    requires n + SLACK <= |s| + 1
    ensures |r| == |s|
  {
    if n == 0 then s
    else
      var before := Scan(area, s, n - 1);
      if Site(before, n - 1) then Store(area, before, n - 1) else before
  }

  /** The operands stored at the sites another table t has below n, lowest first. */
  function StoreAll(area: NvsArea, s: seq<Byte>, t: seq<Byte>, n: nat): (r: seq<Byte>)
    requires n + SLACK <= |s| + 1
    ensures |r| == |s|
  {
    if n == 0 then s
    else
      var before := StoreAll(area, s, t, n - 1);
      if Site(t, n - 1) then Store(area, before, n - 1) else before
  }

  ghost predicate SameSites(s: seq<Byte>, t: seq<Byte>, n: nat) {
    forall p: nat :: p < n ==> (Site(s, p) <==> Site(t, p))
  }

  /** A later store is behind the bytes that make an earlier position a site. */
  lemma {:induction false} ScanSettled(area: NvsArea, s: seq<Byte>, p: nat, n: nat)
    requires p <= n && n + SLACK <= |s| + 1
    ensures forall k :: 0 <= k < |s| && k < p + 6 ==> Scan(area, s, n)[k] == Scan(area, s, p)[k]
    decreases n
  {
    if p < n {
      ScanSettled(area, s, p, n - 1);
      var before := Scan(area, s, n - 1);
      forall k | 0 <= k < |s| && k < p + 6
        ensures Scan(area, s, n)[k] == before[k]
      {
        StoreAt(area, before, n - 1, k);
      }
    }
  }

  lemma {:induction false} StoreAllSettled(area: NvsArea, s: seq<Byte>, t: seq<Byte>, p: nat, n: nat)
    requires p <= n && n + SLACK <= |s| + 1
    ensures forall k :: 0 <= k < |s| && k < p + 6 ==> StoreAll(area, s, t, n)[k] == StoreAll(area, s, t, p)[k]
    decreases n
  {
    if p < n {
      StoreAllSettled(area, s, t, p, n - 1);
      var before := StoreAll(area, s, t, n - 1);
      forall k | 0 <= k < |s| && k < p + 6
        ensures StoreAll(area, s, t, n)[k] == before[k]
      {
        StoreAt(area, before, n - 1, k);
      }
    }
  }

  /** Whatever the bytes are, the result is the table with the operands stored at the
      sites the result itself has. */
  lemma {:induction false} ResultSites(area: NvsArea, s: seq<Byte>, m: nat, n: nat)
    requires m <= n && n + SLACK <= |s| + 1
    ensures Scan(area, s, m) == StoreAll(area, s, Scan(area, s, n), m)
    decreases m
  {
    if m > 0 {
      ResultSites(area, s, m - 1, n);
      ScanSettled(area, s, m - 1, n);
      assert Site(Scan(area, s, n), m - 1) <==> Site(Scan(area, s, m - 1), m - 1);
    }
  }

  lemma {:induction false} StoreAllDependsOnSites(area: NvsArea, s: seq<Byte>, t: seq<Byte>, u: seq<Byte>, n: nat)
    requires n + SLACK <= |s| + 1 && SameSites(t, u, n)
    ensures StoreAll(area, s, t, n) == StoreAll(area, s, u, n)
  {
    if n > 0 {
      StoreAllDependsOnSites(area, s, t, u, n - 1);
    }
  }

  lemma {:induction false} ScanIsStoreAll(area: NvsArea, s: seq<Byte>, m: nat, n: nat)
    requires m <= n && n + SLACK <= |s| + 1 && SameSites(s, StoreAll(area, s, s, n), n)
    ensures Scan(area, s, m) == StoreAll(area, s, s, m)
    decreases m
  {
    if m > 0 {
      ScanIsStoreAll(area, s, m - 1, n);
      StoreAllSettled(area, s, s, m - 1, n);
      assert Site(StoreAll(area, s, s, n), m - 1) <==> Site(StoreAll(area, s, s, m - 1), m - 1);
    }
  }

  /** The scan keeps the sites, neither losing nor inventing one, if and only if storing at
      the sites of the input does; and then that is all it does. */
  lemma {:induction false} SitesKept(area: NvsArea, s: seq<Byte>, n: nat)
    requires n + SLACK <= |s| + 1
    ensures SameSites(s, Scan(area, s, n), n) <==> SameSites(s, StoreAll(area, s, s, n), n)
    ensures SameSites(s, Scan(area, s, n), n) ==> Scan(area, s, n) == StoreAll(area, s, s, n)
  {
    if SameSites(s, Scan(area, s, n), n) {
      ResultSites(area, s, n, n);
      StoreAllDependsOnSites(area, s, s, Scan(area, s, n), n);
    }
    if SameSites(s, StoreAll(area, s, s, n), n) {
      ScanIsStoreAll(area, s, n, n);
    }
  }

  // ----- when the scan does what it is for -----

  /** Every site is still there with its operands, no site is new, nothing else changed. */
  ghost predicate Patched(area: NvsArea, s: seq<Byte>, r: seq<Byte>, n: nat)
    requires n + SLACK <= |s| + 1 && |r| == |s|
  {
    && SameSites(s, r, n)
    && (forall p: nat, k: nat :: p < n && Site(s, p) && Covers(p, k) ==> r[k] == OperandByte(area, k - p))
    && (forall k: nat :: k < |s| && !CoveredBelow(s, n, k) ==> r[k] == s[k])
  }

  ghost predicate CoveredBelow(t: seq<Byte>, n: nat, k: nat) {
    exists p: nat :: p < n && Site(t, p) && Covers(p, k)
  }

  /** Sites at least 14 bytes apart. */
  ghost predicate Spaced(s: seq<Byte>, n: nat) {
    forall p: nat, q: nat :: p < q < n && Site(s, p) && Site(s, q) ==> p + 14 <= q
  }

  /** Byte i of the five that make a site: the operator and the name. */
  function Marker(i: nat): Byte
    requires i < 5
  {
    if i == 0 then AML_OPREGION_OP else GNVS[i - 1]
  }

  /** The operands of one site agree with all bytes of a site d bytes further that they
      cover. */
  ghost predicate Spells(area: NvsArea, d: nat)
    requires d > 0
  {
    forall i: nat :: i < 5 && Covers(0, d - 1 + i) ==> OperandByte(area, d - 1 + i) == Marker(i)
  }

  /** The operands cannot be part of a site, wherever it starts. */
  ghost predicate Neutral(area: NvsArea) {
    forall d: nat :: 5 <= d <= 13 ==> !Spells(area, d)
  }

  lemma {:induction false} SiteMarkers(s: seq<Byte>, p: nat)
    requires p >= 1 && p + 4 <= |s|
    ensures Site(s, p) <==> forall i: nat :: i < 5 ==> s[p - 1 + i] == Marker(i)
  {
    if forall i: nat :: i < 5 ==> s[p - 1 + i] == Marker(i) {
      assert s[p - 1 + 0] == Marker(0) && s[p - 1 + 1] == Marker(1) && s[p - 1 + 2] == Marker(2);
      assert s[p - 1 + 3] == Marker(3) && s[p - 1 + 4] == Marker(4);
    }
  }

  /** A site that has all its covered bytes from the operands of one before: they spell it. */
  lemma {:induction false} SpelledBy(area: NvsArea, r: seq<Byte>, p: nat, q: nat)
    requires p < q && Site(r, q)
    requires forall k: nat :: Covers(p, k) && q <= k + 1 && k < q + 4 ==> r[k] == OperandByte(area, k - p)
    ensures Spells(area, q - p)
  {
    SiteMarkers(r, q);
    forall i: nat | i < 5 && Covers(0, q - p - 1 + i)
      ensures OperandByte(area, q - p - 1 + i) == Marker(i)
    {
      assert Covers(p, q - 1 + i);
    }
  }

  lemma {:induction false} UncoveredKept(area: NvsArea, s: seq<Byte>, t: seq<Byte>, n: nat, k: nat)
    requires n + SLACK <= |s| + 1 && k < |s| && !CoveredBelow(t, n, k)
    ensures StoreAll(area, s, t, n)[k] == s[k]
  {
    if n > 0 {
      assert !CoveredBelow(t, n - 1, k);
      UncoveredKept(area, s, t, n - 1, k);
      StoreAt(area, StoreAll(area, s, t, n - 1), n - 1, k);
    }
  }

  lemma {:induction false} SpacedOperands(area: NvsArea, s: seq<Byte>, n: nat, p: nat, k: nat)
    requires n + SLACK <= |s| + 1 && Spaced(s, n) && p < n && Site(s, p) && Covers(p, k)
    ensures StoreAll(area, s, s, n)[k] == OperandByte(area, k - p)
  {
    StoreAt(area, StoreAll(area, s, s, n - 1), n - 1, k);
    if p < n - 1 {
      SpacedOperands(area, s, n - 1, p, k);
    }
  }

  lemma {:induction false} SpacedWindows(s: seq<Byte>, n: nat, p: nat, k: nat)
    requires Spaced(s, n) && p < n && Site(s, p) && p <= k + 1 && k < p + 4
    ensures !CoveredBelow(s, n, k)
  {
    forall q: nat | q < n && Site(s, q)
      ensures !Covers(q, k)
    {
    }
  }

  /** With spaced sites storing at them keeps each of them. */
  lemma {:induction false} SpacedKept(area: NvsArea, s: seq<Byte>, n: nat, p: nat)
    requires n + SLACK <= |s| + 1 && Spaced(s, n) && p < n && Site(s, p)
    ensures Site(StoreAll(area, s, s, n), p)
  {
    forall k: nat | p <= k + 1 && k < p + 4
      ensures StoreAll(area, s, s, n)[k] == s[k]
    {
      SpacedWindows(s, n, p, k);
      UncoveredKept(area, s, s, n, k);
    }
  }

  /** With spaced sites and neutral operands no site appears. */
  lemma {:induction false} NoneInvented(area: NvsArea, s: seq<Byte>, n: nat, p: nat)
    requires n + SLACK <= |s| + 1 && Spaced(s, n) && Neutral(area) && Site(StoreAll(area, s, s, n), p)
    ensures Site(s, p)
  {
    var r := StoreAll(area, s, s, n);
    forall k: nat | p <= k + 1 && k < p + 4
      ensures r[k] == s[k]
    {
      if CoveredBelow(s, n, k) {
        var q: nat :| q < n && Site(s, q) && Covers(q, k);
        SpacedKept(area, s, n, q);
        assert q + 5 <= p <= q + 13;
        forall j: nat | Covers(q, j)
          ensures r[j] == OperandByte(area, j - q)
        {
          SpacedOperands(area, s, n, q, j);
        }
        SpelledBy(area, r, q, p);
        assert false;
      }
      UncoveredKept(area, s, s, n, k);
    }
  }

  /** Sites do not overlap. */
  lemma {:induction false} SitesDisjoint(s: seq<Byte>, p: nat, q: nat)
    requires p < q && Site(s, p) && Site(s, q)
    ensures p + 5 <= q
  {
  }

  lemma {:induction false} PatchedSitesApart(area: NvsArea, s: seq<Byte>, r: seq<Byte>, n: nat, p: nat, q: nat)
    requires n + SLACK <= |s| + 1 && |r| == |s| && Neutral(area) && Patched(area, s, r, n)
    requires p < q < n && Site(s, p) && Site(s, q)
    ensures p + 14 <= q
  {
    SitesDisjoint(s, p, q);
    assert Site(r, q);
    SpelledBy(area, r, p, q);
  }

  lemma {:induction false} PatchedMeansSpaced(area: NvsArea, s: seq<Byte>, r: seq<Byte>, n: nat)
    requires n + SLACK <= |s| + 1 && |r| == |s| && Neutral(area) && Patched(area, s, r, n)
    ensures Spaced(s, n)
  {
    forall p: nat, q: nat | p < q < n && Site(s, p) && Site(s, q)
      ensures p + 14 <= q
    {
      PatchedSitesApart(area, s, r, n, p, q);
    }
  }

  /** If the operands cannot be part of a site, the scan does exactly its job if and only if
      the sites are 14 bytes apart. */
  lemma {:induction false} PatchedIffSpaced(area: NvsArea, s: seq<Byte>, n: nat)
    requires n + SLACK <= |s| + 1 && Neutral(area)
    ensures Patched(area, s, Scan(area, s, n), n) <==> Spaced(s, n)
  {
    if Patched(area, s, Scan(area, s, n), n) {
      PatchedMeansSpaced(area, s, Scan(area, s, n), n);
    }
    if Spaced(s, n) {
      var r := StoreAll(area, s, s, n);
      forall p: nat | p < n
        ensures Site(s, p) <==> Site(r, p)
      {
        if Site(s, p) { SpacedKept(area, s, n, p); }
        if Site(r, p) { NoneInvented(area, s, n, p); }
      }
      SitesKept(area, s, n);
      SpacedIsPatched(area, s, n);
    }
  }

  lemma {:induction false} SpellsFirst(area: NvsArea)
    ensures Spells(area, 5) <==> Le(4, area.address)[..3] == GNVS[1..]
    ensures Spells(area, 6) <==> Le(4, area.address) == GNVS
    ensures Spells(area, 7) <==> Le(4, area.address) == [AML_OPREGION_OP] + GNVS[..3]
  {
    var a := Le(4, area.address);
    assert Marker(0) == AML_OPREGION_OP && Marker(1) == GNVS[0] && Marker(2) == GNVS[1];
    assert Marker(3) == GNVS[2] && Marker(4) == GNVS[3];
    assert Spells(area, 5) <==> a[0] == Marker(2) && a[1] == Marker(3) && a[2] == Marker(4);
    assert Spells(area, 6) <==> a[0] == Marker(1) && a[1] == Marker(2) && a[2] == Marker(3) && a[3] == Marker(4);
    assert Spells(area, 7) <==> a[0] == Marker(0) && a[1] == Marker(1) && a[2] == Marker(2) && a[3] == Marker(3);
  }

  /** For a size whose two bytes do not occur in a site, the operands are neutral unless the
      low word of the address reads NVS and a byte, GNVS, or 0x80 GNV. */
  lemma {:induction false} NeutralIff(area: NvsArea)
    requires forall i: nat :: i < 5 ==> Marker(i) != Le(2, area.size)[0] && Marker(i) != Le(2, area.size)[1]
    ensures
      var a := Le(4, area.address);
      Neutral(area) <==> a[..3] != GNVS[1..] && a != GNVS && a != [AML_OPREGION_OP] + GNVS[..3]
  {
    SpellsFirst(area);
    forall d: nat | 8 <= d <= 13
      ensures !Spells(area, d)
    {
      var i: nat := if d <= 12 then 12 - d else 0;
      var k := d - 1 + i;
      assert Covers(0, k) && OperandByte(area, k) != Marker(i);
    }
  }

  lemma {:induction false} SpacedIsPatched(area: NvsArea, s: seq<Byte>, n: nat)
    requires n + SLACK <= |s| + 1 && Spaced(s, n) && SameSites(s, StoreAll(area, s, s, n), n)
    ensures Patched(area, s, StoreAll(area, s, s, n), n)
  {
    var r := StoreAll(area, s, s, n);
    forall p: nat, k: nat | p < n && Site(s, p) && Covers(p, k)
      ensures r[k] == OperandByte(area, k - p)
    {
      SpacedOperands(area, s, n, p, k);
    }
    forall k: nat | k < |s| && !CoveredBelow(s, n, k)
      ensures r[k] == s[k]
    {
      UncoveredKept(area, s, s, n, k);
    }
  }

  /** The bytes behind site p are such that its operands, if they spell it, complete another
      site d bytes further. */
  ghost predicate Completes(s: seq<Byte>, p: nat, d: nat)
    requires d > 0 && p + d + 4 <= |s|
  {
    forall i: nat :: i < 5 && !Covers(0, d - 1 + i) ==> s[p + d - 1 + i] == Marker(i)
  }

  /** Operands that spell a part of a site break the patch of a table that has the rest of
      that site in the right place: the scan leaves a site the input does not have. */
  lemma {:induction false} AddressSpellsSite(area: NvsArea, s: seq<Byte>, n: nat, p: nat, d: nat)
    requires n + SLACK <= |s| + 1 && Spaced(s, n) && 5 <= d <= 13 && p + d < n && Site(s, p)
    requires Spells(area, d) && Completes(s, p, d) && !Site(s, p + d)
    ensures !Patched(area, s, Scan(area, s, n), n)
  {
    var r := Scan(area, s, n);
    if Patched(area, s, r, n) {
      forall i: nat | i < 5
        ensures r[p + d - 1 + i] == Marker(i)
      {
        SpelledByte(area, s, r, n, p, d, i);
      }
      SiteMarkers(r, p + d);
    }
  }

  lemma {:induction false} SpelledByte(area: NvsArea, s: seq<Byte>, r: seq<Byte>, n: nat, p: nat, d: nat, i: nat)
    requires n + SLACK <= |s| + 1 && |r| == |s| && Spaced(s, n) && 5 <= d <= 13 && p + d < n && Site(s, p)
    requires Spells(area, d) && Completes(s, p, d) && Patched(area, s, r, n) && i < 5
    ensures r[p + d - 1 + i] == Marker(i)
  {
    var k := p + d - 1 + i;
    if Covers(0, d - 1 + i) {
      assert Covers(p, k);
    } else {
      forall q: nat | q < n && Site(s, q)
        ensures !Covers(q, k)
      {
      }
      assert !CoveredBelow(s, n, k);
    }
  }

  /** One site, and the uncovered bytes of another one d bytes further. */
  function Trap(d: nat): (s: seq<Byte>)
    requires 5 <= d <= 13
    ensures |s| == d + 2 + SLACK
  {
    seq(d + 2 + SLACK, k requires 0 <= k < d + 2 + SLACK =>
      if k < 5 then Marker(k)
      else if d <= k < d + 5 && !Covers(1, k) then Marker(k - d)
      else 0)
  }

  lemma {:induction false} TrapSites(d: nat, p: nat)
    requires 5 <= d <= 13
    ensures Site(Trap(d), p) <==> p == 1
  {
    TrapOpen(d);
    SiteMarkers(Trap(d), 1);
  }

  /** The second site of the trap lacks a byte. */
  lemma {:induction false} TrapOpen(d: nat)
    requires 5 <= d <= 13
    ensures !Site(Trap(d), d + 1)
  {
    var k := if d <= 7 then 8 else if d <= 12 then 12 else 13;
    assert Covers(1, k) && Trap(d)[k] == 0;
    assert Trap(d)[d + 1 - 1 + (k - d)] != Marker(k - d);
    SiteMarkers(Trap(d), d + 1);
  }

  /** Neutral operands are exactly those for which spacing is enough on every table. */
  lemma {:induction false} NeutralExactly(area: NvsArea)
    ensures
      Neutral(area) <==>
      forall s: seq<Byte>, n: nat :: n + SLACK <= |s| + 1 && Spaced(s, n) ==> Patched(area, s, Scan(area, s, n), n)
  {
    if Neutral(area) {
      forall s: seq<Byte>, n: nat | n + SLACK <= |s| + 1 && Spaced(s, n)
        ensures Patched(area, s, Scan(area, s, n), n)
      {
        PatchedIffSpaced(area, s, n);
      }
    } else {
      var d: nat :| 5 <= d <= 13 && Spells(area, d);
      TrapBreaks(area, d);
    }
  }

  lemma {:induction false} TrapBreaks(area: NvsArea, d: nat)
    requires 5 <= d <= 13 && Spells(area, d)
    ensures Spaced(Trap(d), d + 2) && !Patched(area, Trap(d), Scan(area, Trap(d), d + 2), d + 2)
  {
    var s := Trap(d);
    forall p: nat ensures Site(s, p) <==> p == 1 {
      TrapSites(d, p);
    }
    forall i: nat | i < 5 && !Covers(0, d - 1 + i)
      ensures s[1 + d - 1 + i] == Marker(i)
    {
      assert !Covers(1, d + i);
    }
    AddressSpellsSite(area, s, d + 2, 1, d);
  }

  // ----- renaming one method -----

  /** The first place below end - 2 where the name stands, from p on; end - 2 if none. */
  function FindName(s: seq<Byte>, name: seq<Byte>, p: nat, end: nat): (at: nat)
    requires |name| == 4 && p + 2 <= end < |s|
    ensures p <= at <= end - 2
    ensures at + 2 < end ==> NameAt(s, at, name)
    ensures forall k: nat :: p <= k < at ==> !NameAt(s, k, name)
    decreases end - p
  {
    if p + 2 == end || NameAt(s, p, name) then p else FindName(s, name, p + 1, end)
  }

  /** The display configuration selects the name that loses its first letter. */
  function NameToHide(mipiDsi: Byte): (name: seq<Byte>)
    ensures |name| == 4
  {
    if mipiDsi == 1 then NDEP else PDEP
  }

  function Hide(s: seq<Byte>, mipiDsi: Byte, end: nat): (r: seq<Byte>)
    requires 2 <= end < |s|
    ensures |r| == |s|
  {
    var at := FindName(s, NameToHide(mipiDsi), 0, end);
    if at + 2 < end then s[at := UNDERSCORE] else s
  }

  /** The bytes at k read NDEP with a MIPI display, PDEP without. */
  predicate ReadsDep(mipiDsi: Byte, s: seq<Byte>, k: nat) {
    && k + 4 <= |s| && s[k + 1] == 0x44 && s[k + 2] == 0x45 && s[k + 3] == 0x50
    && (mipiDsi == 1 ==> s[k] == 0x4E) && (mipiDsi != 1 ==> s[k] == 0x50)
  }

  /** `at` is the first such place in front of the last two bytes. */
  ghost predicate FirstDep(mipiDsi: Byte, s: seq<Byte>, at: nat, end: nat) {
    at + 2 < end && ReadsDep(mipiDsi, s, at) && forall k: nat :: k < at ==> !ReadsDep(mipiDsi, s, k)
  }

  /** The first one gets an underscore; if there is none, nothing changes. */
  ghost predicate DepRenamed(mipiDsi: Byte, s: seq<Byte>, t: seq<Byte>, end: nat) {
    && |t| == |s|
    && (forall at: nat :: FirstDep(mipiDsi, s, at, end) ==> at < |s| && t == s[at := 0x5F])
    && ((forall at: nat :: !FirstDep(mipiDsi, s, at, end)) ==> t == s)
  }

  lemma {:induction false} HideRenames(s: seq<Byte>, mipiDsi: Byte, end: nat)
    requires 2 <= end < |s|
    ensures DepRenamed(mipiDsi, s, Hide(s, mipiDsi, end), end)
  {
    var name, found := NameToHide(mipiDsi), FindName(s, NameToHide(mipiDsi), 0, end);
    assert forall k: nat :: NameAt(s, k, name) <==> ReadsDep(mipiDsi, s, k);
    forall at: nat
      ensures FirstDep(mipiDsi, s, at, end) <==> at == found && at + 2 < end
    {
    }
    assert found + 2 < end ==> FirstDep(mipiDsi, s, found, end);
  }

  /** Hiding the name neither makes nor breaks a site. */
  lemma {:induction false} HideKeepsSites(s: seq<Byte>, mipiDsi: Byte, end: nat, p: nat)
    requires 2 <= end < |s|
    ensures Site(Hide(s, mipiDsi, end), p) <==> Site(s, p)
  {
    var at := FindName(s, NameToHide(mipiDsi), 0, end);
    if at + 2 < end {
      assert NameAt(s, at, NameToHide(mipiDsi));
    }
  }

  /** The signature is untouched, and so is the length of a table shorter than 0x44000000. */
  lemma {:induction false} HideKeepsHeader(s: seq<Byte>, mipiDsi: Byte, end: nat)
    requires 8 <= end < |s| && end == Field(s, LENGTH_FIELD, 4) && NameAt(s, 0, DSDT)
    ensures NameAt(Hide(s, mipiDsi, end), 0, DSDT)
    ensures end < 0x4400_0000 ==> Field(Hide(s, mipiDsi, end), LENGTH_FIELD, 4) == end
  {
    var at := FindName(s, NameToHide(mipiDsi), 0, end);
    if at + 2 < end && at < 8 {
      assert NameAt(s, at, NameToHide(mipiDsi));
      assert at >= 4;
      assert s[7] >= 0x44;
      LengthBytes(s);
    } else if at + 2 < end {
      assert Hide(s, mipiDsi, end)[4..8] == s[4..8];
    }
  }

  lemma {:induction false} LengthBytes(s: seq<Byte>)
    requires |s| >= 8
    ensures
      var high: nat := s[7];
      Field(s, LENGTH_FIELD, 4) >= 0x100_0000 * high
  {
    var f := s[4..8];
    assert FromLe(f) >= 256 * FromLe(f[1..]);
    assert FromLe(f[1..]) >= 256 * FromLe(f[1..][1..]);
    assert FromLe(f[1..][1..]) >= 256 * FromLe(f[1..][1..][1..]);
    assert f[1..][1..][1..][0] == s[7];
  }

  // ----- PatchDsdtTable -----

  /** A site in a table with the signature stores behind the length field. */
  lemma {:induction false} HeaderKept(area: NvsArea, s: seq<Byte>, p: nat)
    requires p + SLACK <= |s| && NameAt(s, 0, DSDT) && Site(s, p)
    ensures NameAt(Store(area, s, p), 0, DSDT) && Field(Store(area, s, p), LENGTH_FIELD, 4) == Field(s, LENGTH_FIELD, 4)
  {
    assert p >= 4;
    assert Store(area, s, p)[..8] == s[..8];
    assert Store(area, s, p)[4..8] == s[4..8];
  }

  /** The loop that hides the first occurrence of a name. */
  method HideName(mipiDsi: Byte, table: array<Byte>, end: nat)
    requires 2 <= end < table.Length
    modifies table
    ensures table[..] == Hide(old(table[..]), mipiDsi, end)
    ensures DepRenamed(mipiDsi, old(table[..]), table[..], end)
  {
    HideRenames(table[..], mipiDsi, end);
    ghost var s, name := table[..], NameToHide(mipiDsi);
    var curr := 0;
    while curr + 2 < end
      invariant curr + 2 <= end && table[..] == s
      invariant FindName(s, name, 0, end) == FindName(s, name, curr, end)
    {
      if mipiDsi == 1 {
        if table[curr] == 0x4E && table[curr + 1] == 0x44 && table[curr + 2] == 0x45 && table[curr + 3] == 0x50 {
          table[curr] := UNDERSCORE;
          break;
        }
      } else {
        if table[curr] == 0x50 && table[curr + 1] == 0x44 && table[curr + 2] == 0x45 && table[curr + 3] == 0x50 {
          table[curr] := UNDERSCORE;
          break;
        }
      }
      curr := curr + 1;
    }
  }

  /** The scan; the length of the table is read again in each turn. */
  method StoreGnvs(area: NvsArea, table: array<Byte>)
    requires table.Length >= 8 && NameAt(table[..], 0, DSDT)
    requires Field(table[..], LENGTH_FIELD, 4) + SLACK <= table.Length
    modifies table
    ensures table[..] == Scan(area, old(table[..]), Field(old(table[..]), LENGTH_FIELD, 4) + 1)
  {
    ghost var s, end := table[..], Field(table[..], LENGTH_FIELD, 4);
    var p := 0;
    while p <= Field(table[..], LENGTH_FIELD, 4)
      invariant p <= end + 1 && Field(table[..], LENGTH_FIELD, 4) == end
      invariant NameAt(table[..], 0, DSDT) && table[..] == Scan(area, s, p)
      decreases end + 1 - p
    {
      if table[p] == 0x47 && table[p + 1] == 0x4E && table[p + 2] == 0x56 && table[p + 3] == 0x53 {
        assert p > 0;
        if table[p - 1] == AML_OPREGION_OP {
          HeaderKept(area, table[..], p);
          StoreBytes(table, p + 6, Le(4, area.address));
          StoreBytes(table, p + 11, Le(2, area.size));
        }
      }
      p := p + 1;
    }
  }

  /** The buffer holds the table and the bytes behind it that the loops touch. */
  predicate Fits(mipiDsi: Byte, s: seq<Byte>) {
    && |s| >= 8 && NameAt(s, 0, DSDT) && 8 <= Field(s, LENGTH_FIELD, 4) < |s|
    && Field(Hide(s, mipiDsi, Field(s, LENGTH_FIELD, 4)), LENGTH_FIELD, 4) + SLACK <= |s|
  }

  /** The positions the scan visits: up to the length, as it reads after the renaming. */
  function Visited(mipiDsi: Byte, s: seq<Byte>): (n: nat)
    requires Fits(mipiDsi, s)
    ensures n + SLACK <= |s| + 1
  {
    Field(Hide(s, mipiDsi, Field(s, LENGTH_FIELD, 4)), LENGTH_FIELD, 4) + 1
  }

  /** The table after PatchDsdtTable. */
  function PatchTable(mipiDsi: Byte, area: NvsArea, s: seq<Byte>): (r: seq<Byte>)
    requires Fits(mipiDsi, s)
    ensures |r| == |s|
  {
    Scan(area, Hide(s, mipiDsi, Field(s, LENGTH_FIELD, 4)), Visited(mipiDsi, s))
  }

  lemma {:induction false} ScanKeepsHeader(area: NvsArea, s: seq<Byte>, n: nat)
    requires n + SLACK <= |s| + 1 && |s| >= 8 && NameAt(s, 0, DSDT)
    ensures NameAt(Scan(area, s, n), 0, DSDT) && Field(Scan(area, s, n), LENGTH_FIELD, 4) == Field(s, LENGTH_FIELD, 4)
  {
    if n > 0 {
      ScanKeepsHeader(area, s, n - 1);
      if Site(Scan(area, s, n - 1), n - 1) {
        HeaderKept(area, Scan(area, s, n - 1), n - 1);
      }
    }
  }

  /** The whole patch: with neutral operands it hides one name, stores the operands at the
      sites of the input and changes nothing else, exactly when the sites are 14 bytes
      apart; and a table of real size keeps its length. */
  lemma {:induction false} TablePatched(mipiDsi: Byte, area: NvsArea, s: seq<Byte>)
    requires Fits(mipiDsi, s) && Neutral(area)
    ensures
      var hidden := Hide(s, mipiDsi, Field(s, LENGTH_FIELD, 4));
      Patched(area, hidden, PatchTable(mipiDsi, area, s), Visited(mipiDsi, s)) <==> Spaced(s, Visited(mipiDsi, s))
    ensures
      Field(s, LENGTH_FIELD, 4) < 0x4400_0000 ==>
        && Visited(mipiDsi, s) == Field(s, LENGTH_FIELD, 4) + 1
        && Field(PatchTable(mipiDsi, area, s), LENGTH_FIELD, 4) == Field(s, LENGTH_FIELD, 4)
  {
    var end, n := Field(s, LENGTH_FIELD, 4), Visited(mipiDsi, s);
    var hidden := Hide(s, mipiDsi, end);
    HideKeepsHeader(s, mipiDsi, end);
    ScanKeepsHeader(area, hidden, n);
    PatchedIffSpaced(area, hidden, n);
    assert Spaced(hidden, n) <==> Spaced(s, n) by {
      forall p: nat ensures Site(hidden, p) <==> Site(s, p) {
        HideKeepsSites(s, mipiDsi, end, p);
      }
    }
  }

  /** Every byte that is no operand of one of the result's sites is as before, except the first
      one of the name that is renamed. */
  ghost predicate RestKept(mipiDsi: Byte, s: seq<Byte>, r: seq<Byte>, n: nat) {
    && |r| == |s| && |s| >= 8
    && var end := Field(s, LENGTH_FIELD, 4);
       && (forall at: nat, k: nat :: FirstDep(mipiDsi, s, at, end) && k < |s| && !CoveredBelow(r, n, k) ==>
             r[k] == if k == at then 0x5F else s[k])
       && ((forall at: nat :: !FirstDep(mipiDsi, s, at, end)) ==>
             forall k: nat :: k < |s| && !CoveredBelow(r, n, k) ==> r[k] == s[k])
  }

  /** Whatever the bytes are. */
  lemma {:induction false} TableRest(mipiDsi: Byte, area: NvsArea, s: seq<Byte>)
    requires Fits(mipiDsi, s)
    ensures RestKept(mipiDsi, s, PatchTable(mipiDsi, area, s), Visited(mipiDsi, s))
  {
    var end, n, r := Field(s, LENGTH_FIELD, 4), Visited(mipiDsi, s), PatchTable(mipiDsi, area, s);
    var hidden := Hide(s, mipiDsi, end);
    HideRenames(s, mipiDsi, end);
    ResultSites(area, hidden, n, n);
    forall k: nat | k < |s| && !CoveredBelow(r, n, k)
      ensures r[k] == hidden[k]
    {
      UncoveredKept(area, hidden, r, n, k);
    }
  }

  /** With neutral operands and spaced sites, every site of the input has the low words of the
      address and of the size six and eleven bytes behind the start of its name. */
  lemma {:induction false} OperandWords(mipiDsi: Byte, area: NvsArea, s: seq<Byte>, p: nat)
    requires Fits(mipiDsi, s) && Neutral(area) && Spaced(s, Visited(mipiDsi, s))
    requires p < Visited(mipiDsi, s) && p >= 1 && s[p - 1] == 0x80 && NameAt(s, p, GNVS)
    ensures
      var r := PatchTable(mipiDsi, area, s);
      && Field(r, p + 6, 4) == area.address % 0x1_0000_0000 && Field(r, p + 11, 2) == area.size % 0x1_0000
      && r[p - 1] == 0x80 && NameAt(r, p, GNVS)
  {
    var r, n := PatchTable(mipiDsi, area, s), Visited(mipiDsi, s);
    var hidden := Hide(s, mipiDsi, Field(s, LENGTH_FIELD, 4));
    TablePatched(mipiDsi, area, s);
    HideKeepsSites(s, mipiDsi, Field(s, LENGTH_FIELD, 4), p);
    assert Site(hidden, p) && Site(r, p);
    OperandField(area, r, p);
  }

  lemma {:induction false} OperandField(area: NvsArea, r: seq<Byte>, p: nat)
    requires p + SLACK <= |r| && forall k: nat :: Covers(p, k) ==> r[k] == OperandByte(area, k - p)
    ensures Field(r, p + 6, 4) == area.address % 0x1_0000_0000 && Field(r, p + 11, 2) == area.size % 0x1_0000
  {
    Limits();
    LoadLow(4, area.address);
    LoadLow(2, area.size);
    var a, b := r[p + 6..p + 10], r[p + 11..p + 13];
    forall i | 0 <= i < 4 ensures a[i] == Le(4, area.address)[i] {
      assert Covers(p, p + 6 + i);
    }
    forall i | 0 <= i < 2 ensures b[i] == Le(2, area.size)[i] {
      assert Covers(p, p + 11 + i);
    }
    assert a == Le(4, area.address) && b == Le(2, area.size);
  }

  method PatchDsdtTable(mipiDsi: Byte, area: NvsArea, table: array<Byte>)
    requires Fits(mipiDsi, table[..])
    modifies table
    ensures table[..] == PatchTable(mipiDsi, area, old(table[..]))
    ensures RestKept(mipiDsi, old(table[..]), table[..], Visited(mipiDsi, old(table[..])))
  {
    ghost var s := table[..];
    var end := Field(table[..], LENGTH_FIELD, 4);
    HideKeepsHeader(table[..], mipiDsi, end);
    HideName(mipiDsi, table, end);
    StoreGnvs(area, table);
    assert table[..] == PatchTable(mipiDsi, area, s);
    TableRest(mipiDsi, area, s);
  }
}
