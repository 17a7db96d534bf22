/** FvbRuntimeDxe/FvbService.c, FvbProtocolEraseBlocks: when a list is erased all or nothing.
    The first pass adds the start and the length of an extent in 64 bits, so an extent that
    starts near the end of the 64-bit range passes although its blocks do not exist. */
module FvbEraseList {
  import opened FvbBlockMap
  import opened FvbSpec

  // ----- one extent -----

  predicate Wraps(e: Extent) {
    e.lba + e.count >= TWO64
  }

  predicate NoWrap(list: seq<Extent>) {
    forall i :: 0 <= i < |list| ==> !Wraps(list[i])
  }

  /** The test of the first pass is right about an extent if and only if the sum does not
      wrap or what is left of it is out of range as well. */
  lemma {:induction false} CheckIsRight(v: Volume, e: Extent)
    requires v.numOfBlocks == CountedBlocks(v.blockMap) && v.numOfBlocks < TWO64 && NoEmptyBlocks(v.blockMap)
    requires 0 < e.count < TWO32 && e.lba < TWO64
    ensures
      (ExtentValid(v, e) <==> ExtentExists(v, e))
      <==> (!Wraps(e) || e.lba + e.count - TWO64 > v.numOfBlocks)
  {
    FlatAgainstCount(v.blockMap);
  }

  /** A validated extent names existing blocks if and only if it does not wrap, and one
      that wraps names none at all. */
  lemma {:induction false} ValidatedExists(v: Volume, e: Extent)
    requires v.numOfBlocks == CountedBlocks(v.blockMap) && v.numOfBlocks + TWO32 <= TWO64 && NoEmptyBlocks(v.blockMap)
    requires ExtentValid(v, e) && e.count < TWO32
    ensures ExtentExists(v, e) <==> !Wraps(e)
    ensures Wraps(e) ==> e.lba >= v.Blocks()
  {
    FlatAgainstCount(v.blockMap);
  }

  // ----- a list -----

  /** Whatever is in memory, InvalidParameter means that the flash is untouched. */
  ghost predicate AllOrNothing(s: State, i: nat, list: seq<Extent>)
    requires i < |s.volumes|
  {
    forall memory: seq<Byte>, s': State :: |memory| == |s.memory| ==>
      Erases(s.(memory := memory), i, list, InvalidParameter, s') ==> s' == s.(memory := memory)
  }

  /** No byte lies in front of the first missing block if that is the first block. */
  lemma {:induction false} NothingInFront(v: Volume, list: seq<Extent>, a: nat)
    requires list != [] && list[0].lba >= v.Blocks() && Validated(v, list)
    ensures Existing(v, list) == 0 && !InFront(v, list, a)
  {
    assert ExtentValid(v, list[0]);
  }

  /** The memory after a second pass that stops at a missing block. */
  ghost function StoppedAt(v: Volume, list: seq<Extent>, memory: seq<Byte>): (r: seq<Byte>)
    ensures |r| == |memory|
  {
    seq(|memory|, a requires 0 <= a < |memory| => if InFront(v, list, a) then ERASED else memory[a])
  }

  lemma {:induction false} BlocksArePositive(m: seq<MapEntry>, lba: nat)
    requires lba < |Flat(m)|
    ensures Flat(m)[lba] > 0
  {
    if lba >= m[0].numBlocks {
      BlocksArePositive(m[1..], lba - m[0].numBlocks);
    }
  }

  lemma {:induction false} FirstBlockInFront(v: Volume, list: seq<Extent>)
    requires list != [] && Validated(v, list) && list[0].lba < v.Blocks()
    ensures InFront(v, list, v.BlockAddress(list[0].lba))
  {
    var lba := list[0].lba;
    var a := v.BlockAddress(lba);
    assert ExtentValid(v, list[0]);
    BlocksArePositive(v.blockMap, lba);
    assert v.BlockHolds(lba, a);
    assert InExtent(v, list[0], list[0].count, a);
  }

  lemma {:induction false} InFrontIsRequested(v: Volume, list: seq<Extent>, a: nat)
    requires InFront(v, list, a)
    ensures Requested(v, list, a)
  {
  }

  /** A stop at a missing block is possible whenever the second pass is reached. */
  lemma {:induction false} StopHappens(s: State, i: nat, list: seq<Extent>)
    requires i < |s.volumes| && Existing(s.volumes[i], list) < |list|
    requires Validated(s.volumes[i], list) && WriteEnabled(s.volumes[i].attributes)
    ensures Erases(s, i, list, InvalidParameter, s.(memory := StoppedAt(s.volumes[i], list, s.memory)))
  {
    var v := s.volumes[i];
    forall a | 0 <= a < |s.memory| && !Requested(v, list, a)
      ensures StoppedAt(v, list, s.memory)[a] == s.memory[a]
    {
      if InFront(v, list, a) {
        InFrontIsRequested(v, list, a);
      }
    }
  }

  /** InvalidParameter means an untouched flash if and only if the list fails the first pass,
      or writing is disabled, or no block is missing, or the first block is. */
  lemma {:induction false} InvalidMeansUntouched(s: State, i: nat, list: seq<Extent>)
    requires Valid(s) && i < |s.volumes|
    ensures
      var v := s.volumes[i];
      AllOrNothing(s, i, list) <==>
        !Validated(v, list) || !WriteEnabled(v.attributes) || Existing(v, list) == |list| || list[0].lba >= v.Blocks()
  {
    var v := s.volumes[i];
    if Validated(v, list) && WriteEnabled(v.attributes) && Existing(v, list) < |list| {
      if list[0].lba >= v.Blocks() {
        forall memory: seq<Byte>, s': State |
          |memory| == |s.memory| && Erases(s.(memory := memory), i, list, InvalidParameter, s')
          ensures s' == s.(memory := memory)
        {
          forall a: nat ensures !InFront(v, list, a) {
            NothingInFront(v, list, a);
          }
          assert s'.memory == memory;
        }
      } else {
        SomethingErased(s, i, list);
      }
    }
  }

  lemma {:induction false} SomethingErased(s: State, i: nat, list: seq<Extent>)
    requires Valid(s) && i < |s.volumes| && Existing(s.volumes[i], list) < |list|
    requires Validated(s.volumes[i], list) && WriteEnabled(s.volumes[i].attributes)
    requires list[0].lba < s.volumes[i].Blocks()
    ensures !AllOrNothing(s, i, list)
  {
    var v := s.volumes[i];
    var memory: seq<Byte> := seq(|s.memory|, _ => 0);
    var t := s.(memory := memory);
    var t' := t.(memory := StoppedAt(v, list, memory));
    StopHappens(t, i, list);
    FirstBlockInFront(v, list);
    var a := v.BlockAddress(list[0].lba);
    BlockInMemory(v, list[0].lba, |s.memory|);
    assert t'.memory[a] == ERASED && memory[a] == 0;
    assert t' != t;
  }

  lemma {:induction false} BlockInMemory(v: Volume, lba: nat, size: nat)
    requires Placed(v, size) && lba < v.Blocks()
    ensures v.BlockAddress(lba) < size
  {
    BlocksArePositive(v.blockMap, lba);
    BlockInside(v.blockMap, lba);
  }

  /** With no empty entry in the block map: all or nothing holds if and only if no extent
      that wraps and passes the check stands behind other blocks. */
  lemma {:induction false} AllOrNothingIff(s: State, i: nat, list: EraseList)
    requires Valid(s) && i < |s.volumes| && NoEmptyBlocks(s.volumes[i].blockMap)
    ensures
      var v := s.volumes[i];
      AllOrNothing(s, i, list) <==>
        !Validated(v, list) || !WriteEnabled(v.attributes) || NoWrap(list) || Wraps(list[0])
  {
    var v := s.volumes[i];
    InvalidMeansUntouched(s, i, list);
    assert Placed(v, |s.memory|);
    if Validated(v, list) {
      forall k | 0 <= k < |list|
        ensures ExtentExists(v, list[k]) <==> !Wraps(list[k])
        ensures Wraps(list[k]) ==> list[k].lba >= v.Blocks()
      {
        assert ExtentValid(v, list[k]);
        ValidatedExists(v, list[k]);
      }
      if list != [] && !Wraps(list[0]) {
        assert ExtentExists(v, list[0]) && list[0].count > 0;
      }
    }
  }

  /** Without wrap the second pass never answers InvalidParameter to a list that validated. */
  lemma {:induction false} ValidatedNeverInvalid(s: State, i: nat, list: EraseList, status: Status, s': State)
    requires Valid(s) && i < |s.volumes| && NoEmptyBlocks(s.volumes[i].blockMap)
    requires Validated(s.volumes[i], list) && Erases(s, i, list, status, s')
    ensures NoWrap(list) ==> status != InvalidParameter
    ensures !NoWrap(list) ==> status != Success
  {
    var v := s.volumes[i];
    assert Placed(v, |s.memory|);
    forall k | 0 <= k < |list|
      ensures ExtentExists(v, list[k]) <==> !Wraps(list[k])
    {
      assert ExtentValid(v, list[k]);
      ValidatedExists(v, list[k]);
    }
  }

  /** The list that shows it: block 0, and an extent that wraps to the first blocks. */
  const TRAP: EraseList := [Extent(0, 1), Extent(TWO64 - 2, 5)]

  /** The first pass lets it through, and when the second pass stops at the missing block,
      the first block is erased. */
  lemma {:induction false} TrapErasesFirstBlock(s: State, i: nat)
    requires Valid(s) && i < |s.volumes| && s.volumes[i].numOfBlocks >= 3 && s.volumes[i].Blocks() > 0
    requires WriteEnabled(s.volumes[i].attributes)
    ensures Validated(s.volumes[i], TRAP) && !AllOrNothing(s, i, TRAP)
    ensures Erases(s, i, TRAP, InvalidParameter, s.(memory := StoppedAt(s.volumes[i], TRAP, s.memory)))
    ensures
      forall a: nat :: a < |s.memory| && s.volumes[i].BlockHolds(0, a) ==>
        StoppedAt(s.volumes[i], TRAP, s.memory)[a] == ERASED
  {
    var v := s.volumes[i];
    assert Placed(v, |s.memory|);
    FlatAgainstCount(v.blockMap);
    assert ExtentValid(v, TRAP[0]) && ExtentValid(v, TRAP[1]);
    assert ExtentExists(v, TRAP[0]) && !ExtentExists(v, TRAP[1]);
    assert Existing(v, TRAP) == 1 + Existing(v, TRAP[1..]);
    SomethingErased(s, i, TRAP);
    StopHappens(s, i, TRAP);
    forall a: nat | a < |s.memory| && v.BlockHolds(0, a)
      ensures InFront(v, TRAP, a)
    {
      assert InExtent(v, TRAP[0], TRAP[0].count, a);
    }
  }
}
