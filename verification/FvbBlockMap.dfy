/** FvbRuntimeDxe/FvbService.c: the run-length block map of a firmware volume and
    the translation of logical block addresses through it. */
module FvbBlockMap {

  const TWO32: nat := 0x1_0000_0000
  type UInt32 = x: nat | x < TWO32

  /** numBlocks consecutive blocks of `length` bytes each. */
  datatype MapEntry = MapEntry(numBlocks: UInt32, length: UInt32) {
    /** FvbGetLbaAddress gives up at such an entry. */
    predicate Stops() { numBlocks == 0 || length == 0 }

    /** UINT32 times UINT32: what skipping the entry adds to the offset. */
    function Skip(): nat { (numBlocks * length) % TWO32 }

    /** What the 32-bit product drops, in units of 4GB. */
    function Lost(): nat { (numBlocks * length) / TWO32 }
  }

  /** The array of a header always ends in an entry without blocks. */
  ghost predicate Terminated(m: seq<MapEntry>) {
    exists i :: 0 <= i < |m| && m[i].numBlocks == 0
  }

  // ----- the map unfolded block by block -----

  function Repeat(x: nat, n: nat): (s: seq<nat>)
    ensures |s| == n
    ensures forall i :: 0 <= i < n ==> s[i] == x
  {
    seq(n, _ => x)
  }

  /** The length of every block the lookup can reach, in order. */
  function Flat(m: seq<MapEntry>): seq<nat> {
    if m == [] || m[0].Stops() then [] else Repeat(m[0].length, m[0].numBlocks) + Flat(m[1..])
  }

  function Sum(s: seq<nat>): nat {
    if s == [] then 0 else s[0] + Sum(s[1..])
  }

  lemma {:induction false} SumConcat(p: seq<nat>, q: seq<nat>)
    ensures Sum(p + q) == Sum(p) + Sum(q)
  {
    if p == [] {
      assert p + q == q;
    } else {
      assert (p + q)[1..] == p[1..] + q;
      SumConcat(p[1..], q);
    }
  }

  lemma {:induction false} SumRepeat(x: nat, n: nat)
    ensures Sum(Repeat(x, n)) == n * x
  {
    if n > 0 {
      assert Repeat(x, n)[1..] == Repeat(x, n - 1);
      SumRepeat(x, n - 1);
      assert n * x == x + (n - 1) * x;
    }
  }

  /** The blocks of the entries in front of the one that holds block lba. */
  function EntryStart(m: seq<MapEntry>, lba: nat): (start: nat)
    requires lba < |Flat(m)|
    ensures start <= lba
  {
    if lba < m[0].numBlocks then 0 else m[0].numBlocks + EntryStart(m[1..], lba - m[0].numBlocks)
  }

  /** The first block after the entry that holds block lba. */
  function EntryEnd(m: seq<MapEntry>, lba: nat): (end: nat)
    requires lba < |Flat(m)|
    ensures lba < end <= |Flat(m)|
    ensures forall k :: EntryStart(m, lba) <= k < end ==> Flat(m)[k] == Flat(m)[lba]
  {
    var n := m[0].numBlocks;
    if lba < n then n
    else
      assert forall k :: n <= k < |Flat(m)| ==> Flat(m)[k] == Flat(m[1..])[k - n];
      n + EntryEnd(m[1..], lba - n)
  }

  /** What the 32-bit products drop on the way to block lba, in units of 4GB. */
  function LostBefore(m: seq<MapEntry>, lba: nat): nat
    requires lba < |Flat(m)|
  {
    if lba < m[0].numBlocks then 0
    else m[0].Lost() + LostBefore(m[1..], lba - m[0].numBlocks)
  }

  /** The offset of block lba in a volume: the lengths of all blocks before it. */
  function BlockOffset(m: seq<MapEntry>, lba: nat): nat
    requires lba <= |Flat(m)|
  {
    Sum(Flat(m)[..lba])
  }

  // ----- FvbGetLbaAddress -----

  datatype LbaInfo = Found(address: nat, length: nat, numOfBlocks: nat) | NoSuchBlock

  /** What FvbGetLbaAddress returns for block lba of a volume at fvBase. */
  ghost predicate Translates(fvBase: nat, m: seq<MapEntry>, lba: nat, r: LbaInfo) {
    if lba < |Flat(m)| then
      && r.Found?
      && r.address + TWO32 * LostBefore(m, lba) == fvBase + BlockOffset(m, lba)
      && r.length == Flat(m)[lba]
      && lba + r.numOfBlocks == EntryEnd(m, lba)
    else
      r.NoSuchBlock?
  }

  /** Moving one entry on: what is known about the rest carries over. */
  lemma {:induction false} TranslateRest(m: seq<MapEntry>, base: nat, lba: nat, r: LbaInfo)
    requires m != [] && !m[0].Stops() && m[0].numBlocks <= lba
    requires Translates(base + m[0].Skip(), m[1..], lba - m[0].numBlocks, r)
    ensures Translates(base, m, lba, r)
  {
    var n, rest := m[0].numBlocks, lba - m[0].numBlocks;
    var head, tail := Repeat(m[0].length, n), Flat(m[1..]);
    if rest < |tail| {
      assert Flat(m)[..lba] == head + tail[..rest];
      SumConcat(head, tail[..rest]);
      SumRepeat(m[0].length, n);
      ProductSplits(m[0]);
    }
  }

  lemma {:induction false} ProductSplits(e: MapEntry)
    ensures e.Skip() + TWO32 * e.Lost() == e.numBlocks * e.length
  {
  }

  /** The entry that holds the block. */
  lemma {:induction false} TranslateHere(m: seq<MapEntry>, base: nat, lba: nat, r: LbaInfo)
    requires m != [] && !m[0].Stops() && lba < m[0].numBlocks
    requires r == Found(base + lba * m[0].length, m[0].length, m[0].numBlocks - lba)
    ensures Translates(base, m, lba, r)
  {
    assert Flat(m)[..lba] == Repeat(m[0].length, lba);
    SumRepeat(m[0].length, lba);
  }

  /** Translating what is left of the lookup translates the block. */
  ghost predicate LeadsTo(base: nat, rest: seq<MapEntry>, left: nat, fvBase: nat, m: seq<MapEntry>, lba: nat) {
    forall q :: Translates(base, rest, left, q) ==> Translates(fvBase, m, lba, q)
  }

  lemma {:induction false} LookupOn(base: nat, rest: seq<MapEntry>, left: nat, fvBase: nat, m: seq<MapEntry>, lba: nat)
    requires LeadsTo(base, rest, left, fvBase, m, lba)
    requires rest != [] && !rest[0].Stops() && rest[0].numBlocks <= left
    ensures LeadsTo(base + rest[0].Skip(), rest[1..], left - rest[0].numBlocks, fvBase, m, lba)
  {
    forall q | Translates(base + rest[0].Skip(), rest[1..], left - rest[0].numBlocks, q)
      ensures Translates(base, rest, left, q)
    {
      TranslateRest(rest, base, left, q);
    }
  }

  /** Parses the block map to find which entry the block belongs to. */
  method FvbGetLbaAddress(fvBase: nat, blockMap: seq<MapEntry>, lba: nat) returns (r: LbaInfo)
    requires Terminated(blockMap)
    ensures Translates(fvBase, blockMap, lba, r)
  {
    var startLba: nat, offset: nat, i: nat := 0, 0, 0;
    ghost var stop :| 0 <= stop < |blockMap| && blockMap[stop].numBlocks == 0;
    assert blockMap[0..] == blockMap;
    while true
      invariant 0 <= i <= stop && startLba <= lba
      invariant LeadsTo(fvBase + offset, blockMap[i..], lba - startLba, fvBase, blockMap, lba)
      decreases stop - i
    {
      var numBlocks, blockLength := blockMap[i].numBlocks, blockMap[i].length;
      ghost var here := blockMap[i..];
      assert here[0] == blockMap[i] && here[1..] == blockMap[i + 1..];
      if numBlocks == 0 || blockLength == 0 {
        r := NoSuchBlock;
        assert Translates(fvBase + offset, here, lba - startLba, r);
        return;
      }
      var nextLba := startLba + numBlocks;
      if lba >= startLba && lba < nextLba {
        r := Found(fvBase + (offset + (lba - startLba) * blockLength), blockLength, nextLba - lba);
        TranslateHere(here, fvBase + offset, lba - startLba, r);
        return;
      }
      LookupOn(fvBase + offset, here, lba - startLba, fvBase, blockMap, lba);
      startLba := nextLba;
      offset := offset + (numBlocks * blockLength) % TWO32;
      i := i + 1;
    }
  }

  // ----- when the translation is the flat one -----

  /** Every entry that has another usable entry behind it fits in 32 bits. */
  predicate NoProductWraps(m: seq<MapEntry>) {
    Flat(m) == [] || Flat(m[1..]) == [] || (m[0].numBlocks * m[0].length < TWO32 && NoProductWraps(m[1..]))
  }

  lemma {:induction false} WrapSomewhere(m: seq<MapEntry>) returns (lba: nat)
    requires !NoProductWraps(m)
    ensures lba < |Flat(m)| && LostBefore(m, lba) > 0
  {
    ProductSplits(m[0]);
    var n := m[0].numBlocks;
    if n * m[0].length >= TWO32 {
      lba := n;
    } else {
      var k := WrapSomewhere(m[1..]);
      lba := n + k;
    }
  }

  lemma {:induction false} NothingLost(m: seq<MapEntry>, lba: nat)
    requires NoProductWraps(m) && lba < |Flat(m)|
    ensures LostBefore(m, lba) == 0
  {
    if lba >= m[0].numBlocks {
      ProductSplits(m[0]);
      if Flat(m[1..]) != [] {
        NothingLost(m[1..], lba - m[0].numBlocks);
      }
    }
  }

  /** The ideal translation: base plus the lengths of all earlier blocks. */
  ghost predicate TranslatesFlat(fvBase: nat, m: seq<MapEntry>, lba: nat, r: LbaInfo)
    requires lba < |Flat(m)|
  {
    r == Found(fvBase + BlockOffset(m, lba), Flat(m)[lba], EntryEnd(m, lba) - lba)
  }

  /** The lookup refines the flat list of block lengths for every block of the
      volume exactly when no entry but the last overflows 32 bits. */
  lemma {:induction false} LookupIsFlat(fvBase: nat, m: seq<MapEntry>)
    ensures NoProductWraps(m) <==>
            forall lba: nat, r :: lba < |Flat(m)| && Translates(fvBase, m, lba, r) ==> TranslatesFlat(fvBase, m, lba, r)
  {
    if NoProductWraps(m) {
      forall lba: nat, r | lba < |Flat(m)| && Translates(fvBase, m, lba, r)
        ensures TranslatesFlat(fvBase, m, lba, r)
      {
        NothingLost(m, lba);
      }
    } else {
      var lba := WrapSomewhere(m);
      LostFits(m, lba);
      var r := Found(fvBase + BlockOffset(m, lba) - TWO32 * LostBefore(m, lba), Flat(m)[lba], EntryEnd(m, lba) - lba);
      assert Translates(fvBase, m, lba, r) && !TranslatesFlat(fvBase, m, lba, r);
    }
  }

  lemma {:induction false} LostFits(m: seq<MapEntry>, lba: nat)
    requires lba < |Flat(m)|
    ensures TWO32 * LostBefore(m, lba) <= BlockOffset(m, lba)
  {
    var n := m[0].numBlocks;
    if lba >= n {
      LostFits(m[1..], lba - n);
      assert Flat(m)[..lba] == Repeat(m[0].length, n) + Flat(m[1..])[..lba - n];
      SumConcat(Repeat(m[0].length, n), Flat(m[1..])[..lba - n]);
      SumRepeat(m[0].length, n);
      ProductSplits(m[0]);
    }
  }

  // ----- NumOfBlocks -----

  /** The blocks of all entries in front of the terminator. */
  function CountedBlocks(m: seq<MapEntry>): nat {
    if m == [] || m[0].numBlocks == 0 then 0 else m[0].numBlocks + CountedBlocks(m[1..])
  }

  /** No entry in front of the terminator has length 0. */
  predicate NoEmptyBlocks(m: seq<MapEntry>) {
    m == [] || m[0].numBlocks == 0 || (m[0].length > 0 && NoEmptyBlocks(m[1..]))
  }

  /** The loop of FvbInitialize over the block map. */
  method CountBlocks(blockMap: seq<MapEntry>, maxLbaSize: UInt32) returns (numOfBlocks: nat, newMax: UInt32)
    requires Terminated(blockMap)
    ensures numOfBlocks == CountedBlocks(blockMap)
    ensures newMax >= maxLbaSize
    ensures forall k :: 0 <= k < |Flat(blockMap)| ==> Flat(blockMap)[k] <= newMax
  {
    numOfBlocks, newMax := 0, maxLbaSize;
    var i := 0;
    ghost var stop :| 0 <= stop < |blockMap| && blockMap[stop].numBlocks == 0;
    while blockMap[i].numBlocks != 0
      invariant 0 <= i <= stop && newMax >= maxLbaSize
      invariant numOfBlocks + CountedBlocks(blockMap[i..]) == CountedBlocks(blockMap)
      invariant forall j :: 0 <= j < i ==> blockMap[j].length <= newMax && blockMap[j].numBlocks != 0
      decreases stop - i
    {
      if newMax < blockMap[i].length {
        newMax := blockMap[i].length;
      }
      numOfBlocks := numOfBlocks + blockMap[i].numBlocks;
      assert blockMap[i..][1..] == blockMap[i + 1..];
      i := i + 1;
    }
    FlatBounded(blockMap, i, newMax);
  }

  lemma {:induction false} FlatBounded(m: seq<MapEntry>, n: nat, bound: nat)
    requires n < |m| && m[n].numBlocks == 0
    requires forall j :: 0 <= j < n ==> m[j].length <= bound
    ensures forall k :: 0 <= k < |Flat(m)| ==> Flat(m)[k] <= bound
  {
    if !m[0].Stops() {
      FlatBounded(m[1..], n - 1, bound);
    }
  }

  lemma {:induction false} FlatAgainstCount(m: seq<MapEntry>)
    ensures |Flat(m)| <= CountedBlocks(m)
    ensures |Flat(m)| == CountedBlocks(m) <==> NoEmptyBlocks(m)
  {
    if m != [] && m[0].numBlocks != 0 && m[0].length != 0 {
      FlatAgainstCount(m[1..]);
    }
  }

  /** The lookup fails exactly for the blocks at or beyond NumOfBlocks if and only if
      no entry in front of the terminator has length 0. */
  lemma {:induction false} LookupAgreesWithCount(fvBase: nat, m: seq<MapEntry>)
    ensures NoEmptyBlocks(m) <==>
            forall lba: nat, r :: Translates(fvBase, m, lba, r) ==> (r.Found? <==> lba < CountedBlocks(m))
  {
    FlatAgainstCount(m);
    if !NoEmptyBlocks(m) {
      assert Translates(fvBase, m, |Flat(m)|, NoSuchBlock);
    }
  }

  // ----- the blocks tile the volume -----

  lemma {:induction false} OffsetNext(m: seq<MapEntry>, lba: nat)
    requires lba < |Flat(m)|
    ensures BlockOffset(m, lba + 1) == BlockOffset(m, lba) + Flat(m)[lba]
  {
    assert Flat(m)[..lba + 1] == Flat(m)[..lba] + [Flat(m)[lba]];
    SumConcat(Flat(m)[..lba], [Flat(m)[lba]]);
    assert Sum([Flat(m)[lba]]) == Flat(m)[lba];
  }

  lemma {:induction false} OffsetMonotonic(m: seq<MapEntry>, i: nat, j: nat)
    requires i <= j <= |Flat(m)|
    ensures BlockOffset(m, i) <= BlockOffset(m, j)
    decreases j
  {
    if i < j {
      OffsetMonotonic(m, i, j - 1);
      OffsetNext(m, j - 1);
    }
  }

  /** The number of bytes in the volume's blocks. */
  function VolumeSize(m: seq<MapEntry>): nat {
    Sum(Flat(m))
  }

  predicate InBlock(m: seq<MapEntry>, lba: nat, offset: nat)
    requires lba < |Flat(m)|
  {
    BlockOffset(m, lba) <= offset < BlockOffset(m, lba) + Flat(m)[lba]
  }

  /** Distinct blocks do not overlap and stay inside the volume. */
  lemma {:induction false} BlocksDisjoint(m: seq<MapEntry>, i: nat, j: nat)
    requires i < j < |Flat(m)|
    ensures BlockOffset(m, i) + Flat(m)[i] <= BlockOffset(m, j)
    ensures BlockOffset(m, j) + Flat(m)[j] <= VolumeSize(m)
  {
    OffsetNext(m, i);
    OffsetMonotonic(m, i + 1, j);
    BlockInside(m, j);
  }

  lemma {:induction false} BlockInside(m: seq<MapEntry>, lba: nat)
    requires lba < |Flat(m)|
    ensures BlockOffset(m, lba) + Flat(m)[lba] <= VolumeSize(m)
  {
    OffsetNext(m, lba);
    OffsetMonotonic(m, lba + 1, |Flat(m)|);
    assert Flat(m)[..|Flat(m)|] == Flat(m);
  }

  /** Every byte of the volume lies in exactly one block. */
  lemma {:induction false} BlocksTile(m: seq<MapEntry>, offset: nat)
    ensures offset < VolumeSize(m) <==> exists lba: nat :: lba < |Flat(m)| && InBlock(m, lba, offset)
    ensures
      forall i: nat, j: nat ::
        i < |Flat(m)| && j < |Flat(m)| && InBlock(m, i, offset) && InBlock(m, j, offset) ==> i == j
  {
    if offset < VolumeSize(m) {
      assert Flat(m)[..|Flat(m)|] == Flat(m);
      var lba := FindBlock(m, |Flat(m)|, offset);
    }
    forall lba: nat | lba < |Flat(m)| && InBlock(m, lba, offset)
      ensures offset < VolumeSize(m)
    {
      BlockInside(m, lba);
    }
    forall i: nat, j: nat | i < |Flat(m)| && j < |Flat(m)| && InBlock(m, i, offset) && InBlock(m, j, offset)
      ensures i == j
    {
      if i < j {
        BlocksDisjoint(m, i, j);
      } else if j < i {
        BlocksDisjoint(m, j, i);
      }
    }
  }

  lemma {:induction false} FindBlock(m: seq<MapEntry>, n: nat, offset: nat) returns (lba: nat)
    requires n <= |Flat(m)| && offset < BlockOffset(m, n)
    ensures lba < n && InBlock(m, lba, offset)
    decreases n
  {
    OffsetNext(m, n - 1);
    if offset < BlockOffset(m, n - 1) {
      lba := FindBlock(m, n - 1, offset);
    } else {
      lba := n - 1;
    }
  }
}
