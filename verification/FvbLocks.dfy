/** FvbRuntimeDxe/FvbService.c: the lock calls around a device write or erase, and what is
    left unlocked when some of them fail. The services ignore the status of a lock call. */
module FvbLocks {
  import opened FvbBlockMap
  import opened FvbSpec
  import opened FlashDevice

  function BlockBytes(v: Volume, lba: nat): set<nat>
    requires lba < v.Blocks()
  {
    Addresses(v.BlockAddress(lba), v.BlockLength(lba))
  }

  lemma {:induction false} BlockByte(v: Volume, lba: nat, a: nat)
    requires lba < v.Blocks()
    ensures a in BlockBytes(v, lba) <==> v.BlockHolds(lba, a)
  {
    assert InRange(a, v.BlockAddress(lba), v.BlockLength(lba)) <==> v.BlockHolds(lba, a);
  }

  // ----- one block -----

  /** The block is unlocked, the device does one thing, the block is locked. */
  function Bracket(v: Volume, lba: nat, e: Event, unlocked: bool, relocked: bool): seq<Event>
    requires lba < v.Blocks()
  {
    var address, length := v.BlockAddress(lba), v.BlockLength(lba);
    [LockSet(address, length, false, unlocked), e, LockSet(address, length, true, relocked)]
  }

  /** The bytes unlocked when a bracket is over, as far as its lock calls took effect. */
  function BracketEffect(v: Volume, lba: nat, before: set<nat>, unlocked: bool, relocked: bool): set<nat>
    requires lba < v.Blocks()
  {
    if relocked then before - BlockBytes(v, lba)
    else if unlocked then before + BlockBytes(v, lba)
    else before
  }

  lemma {:induction false} AfterBracket(v: Volume, lba: nat, e: Event, before: set<nat>, unlocked: bool, relocked: bool)
    requires lba < v.Blocks() && !e.LockSet?
    ensures After(before, Bracket(v, lba, e, unlocked, relocked)) == BracketEffect(v, lba, before, unlocked, relocked)
  {
    var address, length := v.BlockAddress(lba), v.BlockLength(lba);
    var u, l := LockSet(address, length, false, unlocked), LockSet(address, length, true, relocked);
    assert Bracket(v, lba, e, unlocked, relocked) == ([] + [u] + [e]) + [l];
    AfterNext(before, [], u);
    AfterNext(before, [] + [u], e);
    AfterNext(before, [] + [u] + [e], l);
    assert before + BlockBytes(v, lba) - BlockBytes(v, lba) == before - BlockBytes(v, lba);
  }

  /** A block that was locked is locked again on exit if and only if the last call that
      locks it succeeded or it was never unlocked. */
  lemma {:induction false} LockedOnExit(v: Volume, lba: nat, e: Event, before: set<nat>, unlocked: bool, relocked: bool)
    requires lba < v.Blocks() && v.BlockLength(lba) > 0 && !e.LockSet? && before !! BlockBytes(v, lba)
    ensures After(before, Bracket(v, lba, e, unlocked, relocked)) == before <==> relocked || !unlocked
  {
    AfterBracket(v, lba, e, before, unlocked, relocked);
    BlockByte(v, lba, v.BlockAddress(lba));
    assert v.BlockAddress(lba) in BlockBytes(v, lba);
  }

  /** What the device is asked to do in between happens while the block is unlocked, if the
      first lock call succeeded. */
  lemma {:induction false} UnlockedMeanwhile(v: Volume, lba: nat, e: Event, before: set<nat>, relocked: bool, j: nat)
    requires lba < v.Blocks() && !e.LockSet? && j < 3 && Bracket(v, lba, e, true, relocked)[j] == e
    ensures BlockBytes(v, lba) <= After(before, Bracket(v, lba, e, true, relocked)[..j])
  {
    var events := Bracket(v, lba, e, true, relocked);
    assert j == 1 && events[..1] == [] + [events[0]];
    AfterNext(before, [], events[0]);
  }

  /** At no moment is a byte outside the block newly unlocked, whatever fails. */
  lemma {:induction false} OnlyTheBlock(
      v: Volume, lba: nat, e: Event, before: set<nat>, unlocked: bool, relocked: bool, j: nat)
    requires lba < v.Blocks() && !e.LockSet? && j <= 3
    ensures After(before, Bracket(v, lba, e, unlocked, relocked)[..j]) <= before + BlockBytes(v, lba)
  {
    var events := Bracket(v, lba, e, unlocked, relocked);
    if j > 0 {
      OnlyTheBlock(v, lba, e, before, unlocked, relocked, j - 1);
      assert events[..j] == events[..j - 1] + [events[j - 1]];
      AfterNext(before, events[..j - 1], events[j - 1]);
    }
  }

  // ----- a list of blocks -----

  /** A block that was erased, and whether the two lock calls around that succeeded. */
  datatype Visit = Visit(lba: nat, unlocked: bool, erased: bool, relocked: bool)

  ghost predicate VisitsOk(v: Volume, visits: seq<Visit>) {
    forall k :: 0 <= k < |visits| ==> visits[k].lba < v.Blocks()
  }

  function EraseBracket(v: Volume, x: Visit): seq<Event>
    requires x.lba < v.Blocks()
  {
    Bracket(v, x.lba, Erased(v.BlockAddress(x.lba), v.BlockLength(x.lba), x.erased), x.unlocked, x.relocked)
  }

  function EraseEvents(v: Volume, visits: seq<Visit>): seq<Event>
    requires VisitsOk(v, visits)
  {
    if visits == [] then []
    else EraseEvents(v, visits[..|visits| - 1]) + EraseBracket(v, visits[|visits| - 1])
  }

  lemma {:induction false} EraseEventsNext(v: Volume, visits: seq<Visit>, x: Visit)
    requires VisitsOk(v, visits) && x.lba < v.Blocks()
    ensures VisitsOk(v, visits + [x])
    ensures EraseEvents(v, visits + [x]) == EraseEvents(v, visits) + EraseBracket(v, x)
  {
    assert (visits + [x])[..|visits|] == visits;
  }

  /** The block is left unlocked: in its last visit in which a lock call took effect, the
      locking one did not. */
  predicate LeftUnlocked(visits: seq<Visit>, lba: nat) {
    if visits == [] then false
    else
      var last := visits[|visits| - 1];
      if last.lba == lba && (last.unlocked || last.relocked) then !last.relocked
      else LeftUnlocked(visits[..|visits| - 1], lba)
  }

  lemma {:induction false} SameBlock(v: Volume, i: nat, j: nat, a: nat)
    requires i < v.Blocks() && j < v.Blocks() && v.BlockHolds(i, a) && v.BlockHolds(j, a)
    ensures i == j
  {
    if i < j {
      BlocksDisjoint(v.blockMap, i, j);
    } else if j < i {
      BlocksDisjoint(v.blockMap, j, i);
    }
  }

  /** What is unlocked after a list, all locked before: the blocks left unlocked, no more
      and no less. */
  lemma {:induction false} UnlockedAfterList(v: Volume, visits: seq<Visit>, lba: nat, a: nat)
    requires VisitsOk(v, visits) && lba < v.Blocks() && v.BlockHolds(lba, a)
    ensures a in After({}, EraseEvents(v, visits)) <==> LeftUnlocked(visits, lba)
  {
    if visits != [] {
      var init, last := visits[..|visits| - 1], visits[|visits| - 1];
      UnlockedAfterList(v, init, lba, a);
      AfterConcat({}, EraseEvents(v, init), EraseBracket(v, last));
      AfterBracket(v, last.lba, Erased(v.BlockAddress(last.lba), v.BlockLength(last.lba), last.erased),
        After({}, EraseEvents(v, init)), last.unlocked, last.relocked);
      BlockByte(v, last.lba, a);
      if v.BlockHolds(last.lba, a) {
        SameBlock(v, last.lba, lba, a);
      }
    }
  }

  /** Nothing outside the blocks is ever unlocked. */
  lemma {:induction false} UnlockedInBlocks(v: Volume, visits: seq<Visit>, a: nat)
    requires VisitsOk(v, visits) && a in After({}, EraseEvents(v, visits))
    ensures exists lba: nat :: lba < v.Blocks() && v.BlockHolds(lba, a)
  {
    if visits != [] {
      var init, last := visits[..|visits| - 1], visits[|visits| - 1];
      AfterConcat({}, EraseEvents(v, init), EraseBracket(v, last));
      AfterBracket(v, last.lba, Erased(v.BlockAddress(last.lba), v.BlockLength(last.lba), last.erased),
        After({}, EraseEvents(v, init)), last.unlocked, last.relocked);
      BlockByte(v, last.lba, a);
      if a in After({}, EraseEvents(v, init)) {
        UnlockedInBlocks(v, init, a);
      }
    }
  }

  /** All blocks are locked again after a list if and only if none is left unlocked. */
  lemma {:induction false} AllLockedAfterList(v: Volume, visits: seq<Visit>)
    requires VisitsOk(v, visits) && forall lba: nat :: lba < v.Blocks() ==> v.BlockLength(lba) > 0
    ensures
      After({}, EraseEvents(v, visits)) == {}
      <==> forall lba: nat :: lba < v.Blocks() ==> !LeftUnlocked(visits, lba)
  {
    var left := After({}, EraseEvents(v, visits));
    forall lba: nat | lba < v.Blocks()
      ensures v.BlockAddress(lba) in left <==> LeftUnlocked(visits, lba)
    {
      UnlockedAfterList(v, visits, lba, v.BlockAddress(lba));
    }
    if left != {} {
      var a :| a in left;
      UnlockedInBlocks(v, visits, a);
      var lba: nat :| lba < v.Blocks() && v.BlockHolds(lba, a);
      UnlockedAfterList(v, visits, lba, a);
    }
  }

  /** If every locking call succeeds, at each moment at most one block is unlocked. */
  lemma {:induction false} OneBlockAtATime(v: Volume, visits: seq<Visit>, j: nat)
    requires VisitsOk(v, visits) && j <= |EraseEvents(v, visits)|
    requires forall k :: 0 <= k < |visits| ==> visits[k].relocked
    ensures After({}, EraseEvents(v, visits)) == {}
    ensures
      var now := After({}, EraseEvents(v, visits)[..j]);
      now == {} || exists k :: 0 <= k < |visits| && now <= BlockBytes(v, visits[k].lba)
    decreases |visits|
  {
    if visits != [] {
      var init, last := visits[..|visits| - 1], visits[|visits| - 1];
      var done, e := EraseEvents(v, init), Erased(v.BlockAddress(last.lba), v.BlockLength(last.lba), last.erased);
      OneBlockAtATime(v, init, if j <= |done| then j else |done|);
      AfterConcat({}, done, EraseBracket(v, last));
      AfterBracket(v, last.lba, e, {}, last.unlocked, last.relocked);
      if j <= |done| {
        assert EraseEvents(v, visits)[..j] == done[..j];
      } else {
        assert EraseEvents(v, visits)[..j] == done + EraseBracket(v, last)[..j - |done|];
        AfterConcat({}, done, EraseBracket(v, last)[..j - |done|]);
        OnlyTheBlock(v, last.lba, e, {}, last.unlocked, last.relocked, j - |done|);
        assert visits[|visits| - 1] == last;
      }
    }
  }
}
