/** FvbRuntimeDxe/FvbService.c: the firmware volume block services over the flash
    device. Each method is proved against the relation of the same call in FvbSpec. */
module FvbService {
  import opened FvbBlockMap
  import opened FvbSpec
  import opened FlashDevice
  import opened FvbLocks

  datatype NumBytes = Null | At(n: nat)

  // ----- attribute requests -----

  /** The tests of FvbSetVolumeAttributes, in its order. */
  method CheckRequest(oldAttributes: Attributes, requested: Attributes) returns (status: Status)
    ensures status == Verdict(oldAttributes, requested)
    ensures
      status == Success <==>
        && oldAttributes & UNCHANGED == requested & UNCHANGED
        && (oldAttributes & LOCK_STATUS != 0 ==> oldAttributes & STATUS == requested & STATUS)
        && Capable(requested, oldAttributes)
    ensures
      status == AccessDenied <==>
        && oldAttributes & UNCHANGED == requested & UNCHANGED
        && oldAttributes & LOCK_STATUS != 0 && oldAttributes & STATUS != requested & STATUS
  {
    VerdictInBits(oldAttributes, requested);
    var capabilities := oldAttributes & CAPABILITIES;
    var oldStatus := oldAttributes & STATUS;
    var newStatus := requested & STATUS;
    Differ(oldAttributes & UNCHANGED, requested & UNCHANGED);
    Differ(oldStatus, newStatus);
    CapabilityBits(oldAttributes);
    StatusBits(requested);
    BitsAfter(oldAttributes, requested);
    if (oldAttributes & UNCHANGED) ^ (requested & UNCHANGED) != 0 {
      return InvalidParameter;
    }
    if oldAttributes & LOCK_STATUS != 0 {
      if oldStatus ^ newStatus != 0 {
        return AccessDenied;
      }
    }
    if capabilities & READ_DISABLED_CAP == 0 {
      if newStatus & READ_STATUS == 0 {
        return InvalidParameter;
      }
    }
    if capabilities & READ_ENABLED_CAP == 0 {
      if newStatus & READ_STATUS != 0 {
        return InvalidParameter;
      }
    }
    if capabilities & WRITE_DISABLED_CAP == 0 {
      if newStatus & WRITE_STATUS == 0 {
        return InvalidParameter;
      }
    }
    if capabilities & WRITE_ENABLED_CAP == 0 {
      if newStatus & WRITE_STATUS != 0 {
        return InvalidParameter;
      }
    }
    if capabilities & LOCK_CAP == 0 {
      if newStatus & LOCK_STATUS != 0 {
        return InvalidParameter;
      }
    }
    return Success;
  }

  lemma {:induction false} Differ(x: Attributes, y: Attributes)
    ensures x ^ y != 0 <==> x != y
  {
  }

  lemma {:induction false} CapabilityBits(a: Attributes)
    ensures (a & CAPABILITIES) & READ_DISABLED_CAP == a & READ_DISABLED_CAP
    ensures (a & CAPABILITIES) & READ_ENABLED_CAP == a & READ_ENABLED_CAP
    ensures (a & CAPABILITIES) & WRITE_DISABLED_CAP == a & WRITE_DISABLED_CAP
    ensures (a & CAPABILITIES) & WRITE_ENABLED_CAP == a & WRITE_ENABLED_CAP
    ensures (a & CAPABILITIES) & LOCK_CAP == a & LOCK_CAP
  {
  }

  lemma {:induction false} StatusBits(requested: Attributes)
    ensures (requested & STATUS) & READ_STATUS == requested & READ_STATUS
    ensures (requested & STATUS) & WRITE_STATUS == requested & WRITE_STATUS
    ensures (requested & STATUS) & LOCK_STATUS == requested & LOCK_STATUS
  {
  }

  lemma {:induction false} BitsAfter(a: Attributes, requested: Attributes)
    ensures ReadEnabled(WithStatus(a, requested)) <==> requested & READ_STATUS != 0
    ensures WriteEnabled(WithStatus(a, requested)) <==> requested & WRITE_STATUS != 0
    ensures Locked(WithStatus(a, requested)) <==> requested & LOCK_STATUS != 0
    ensures WithStatus(a, requested) & READ_DISABLED_CAP == a & READ_DISABLED_CAP
    ensures WithStatus(a, requested) & READ_ENABLED_CAP == a & READ_ENABLED_CAP
    ensures WithStatus(a, requested) & WRITE_DISABLED_CAP == a & WRITE_DISABLED_CAP
    ensures WithStatus(a, requested) & WRITE_ENABLED_CAP == a & WRITE_ENABLED_CAP
    ensures WithStatus(a, requested) & LOCK_CAP == a & LOCK_CAP
  {
  }

  /** Clears the old status bits and stores the new ones. */
  method StatusStored(a: Attributes, requested: Attributes) returns (b: Attributes)
    ensures b == WithStatus(a, requested)
  {
    var newStatus := requested & STATUS;
    b := a & (0xFFFF_FFFF & !STATUS);
    b := b | newStatus;
    StoredStatus(a, requested);
  }

  lemma {:induction false} StoredStatus(a: Attributes, requested: Attributes)
    ensures (a & (0xFFFF_FFFF & !STATUS)) | (requested & STATUS) == WithStatus(a, requested)
  {
    assert 0xFFFF_FFFF & !STATUS == !STATUS;
  }

  // ----- addresses -----

  /** The lookup gives the block's address, and the block lies in memory. */
  lemma {:induction false} AddressOfBlock(v: Volume, lba: nat, r: LbaInfo, size: nat)
    requires Placed(v, size) && Translates(v.fvBase, v.blockMap, lba, r) && r.Found?
    ensures lba < v.Blocks() && r.address == v.BlockAddress(lba) && r.length == v.BlockLength(lba) < TWO32
    ensures r.address + r.length <= size
  {
    NothingLost(v.blockMap, lba);
    BlockInside(v.blockMap, lba);
    LengthIs32Bit(v.blockMap, lba);
  }

  lemma {:induction false} LengthIs32Bit(m: seq<MapEntry>, lba: nat)
    requires lba < |Flat(m)|
    ensures Flat(m)[lba] < TWO32
  {
    if lba >= m[0].numBlocks {
      LengthIs32Bit(m[1..], lba - m[0].numBlocks);
    }
  }

  // ----- erasing a list -----

  /** FvbEraseBlock on volume i. */
  ghost predicate ErasesBlock(s: State, i: nat, lba: nat, status: Status, s': State)
    requires i < |s.volumes|
  {
    var v := s.volumes[i];
    && s'.volumes == s.volumes && |s'.memory| == |s.memory|
    && (!WriteEnabled(v.attributes) ==> status == AccessDenied && s' == s)
    && (WriteEnabled(v.attributes) && lba >= v.Blocks() ==> status == InvalidParameter && s' == s)
    && (WriteEnabled(v.attributes) && lba < v.Blocks() ==>
          && (status == Success || status == DeviceError)
          && (forall a :: 0 <= a < |s.memory| && !v.BlockHolds(lba, a) ==> s'.memory[a] == s.memory[a])
          && (status == Success ==> forall a :: 0 <= a < |s.memory| && v.BlockHolds(lba, a) ==> s'.memory[a] == ERASED))
  }

  /** Address a lies in one of the blocks of the first k extents, or in one of the
      first done blocks of extent k. */
  ghost predicate Reached(v: Volume, list: seq<Extent>, k: nat, done: nat, a: nat)
    requires k <= |list| && (k < |list| ==> done <= list[k].count)
  {
    || (exists j :: 0 <= j < k && InExtent(v, list[j], list[j].count, a))
    || (k < |list| && InExtent(v, list[k], done, a))
  }

  /** The bytes reached so far are erased, all others are as before. */
  ghost predicate Progress(s: State, i: nat, list: seq<Extent>, k: nat, done: nat, s': State)
    requires i < |s.volumes|
  {
    && k <= |list| && (k < |list| ==> done <= list[k].count)
    && s'.volumes == s.volumes && |s'.memory| == |s.memory|
    && forall a :: 0 <= a < |s.memory| ==>
         s'.memory[a] == if Reached(s.volumes[i], list, k, done, a) then ERASED else s.memory[a]
  }

  lemma {:induction false} ExtentGrows(v: Volume, e: Extent, done: nat, a: nat)
    ensures InExtent(v, e, done + 1, a) <==>
            InExtent(v, e, done, a) || (e.lba + done < v.Blocks() && v.BlockHolds(e.lba + done, a))
  {
    if InExtent(v, e, done + 1, a) {
      var lba: nat :| e.lba <= lba < e.lba + done + 1 && lba < v.Blocks() && v.BlockHolds(lba, a);
      if lba < e.lba + done {
        assert InExtent(v, e, done, a);
      }
    }
    if InExtent(v, e, done, a) {
      var lba: nat :| e.lba <= lba < e.lba + done && lba < v.Blocks() && v.BlockHolds(lba, a);
      assert InExtent(v, e, done + 1, a);
    }
    if e.lba + done < v.Blocks() && v.BlockHolds(e.lba + done, a) {
      assert InExtent(v, e, done + 1, a);
    }
  }

  lemma {:induction false} EraseAdvances(s: State, i: nat, list: seq<Extent>, k: nat, done: nat, t: State, u: State)
    requires i < |s.volumes| && k < |list| && done < list[k].count
    requires Progress(s, i, list, k, done, t)
    requires ErasesBlock(t, i, list[k].lba + done, Success, u)
    ensures Progress(s, i, list, k, done + 1, u)
  {
    var v := s.volumes[i];
    forall a | 0 <= a < |s.memory|
      ensures u.memory[a] == if Reached(v, list, k, done + 1, a) then ERASED else s.memory[a]
    {
      ExtentGrows(v, list[k], done, a);
    }
  }

  lemma {:induction false} NextExtent(s: State, i: nat, list: seq<Extent>, k: nat, t: State)
    requires i < |s.volumes| && k < |list| && Progress(s, i, list, k, list[k].count, t)
    ensures Progress(s, i, list, k + 1, 0, t)
  {
    var v := s.volumes[i];
    forall a | 0 <= a < |s.memory|
      ensures Reached(v, list, k + 1, 0, a) <==> Reached(v, list, k, list[k].count, a)
    {
      if InExtent(v, list[k], list[k].count, a) {
        assert Reached(v, list, k + 1, 0, a);
      }
    }
  }

  lemma {:induction false} ReachedIsRequested(v: Volume, list: seq<Extent>, k: nat, done: nat, a: nat)
    requires k <= |list| && (k < |list| ==> done <= list[k].count)
    ensures Reached(v, list, k, done, a) ==> Requested(v, list, a)
  {
    if k < |list| && InExtent(v, list[k], done, a) {
      var lba: nat :| list[k].lba <= lba < list[k].lba + done && lba < v.Blocks() && v.BlockHolds(lba, a);
      assert InExtent(v, list[k], list[k].count, a);
    }
  }

  lemma {:induction false} EraseFinished(s: State, i: nat, list: seq<Extent>, t: State)
    requires i < |s.volumes| && Validated(s.volumes[i], list)
    requires list != [] ==> WriteEnabled(s.volumes[i].attributes)
    requires forall j :: 0 <= j < |list| ==> ExtentExists(s.volumes[i], list[j])
    requires Progress(s, i, list, |list|, 0, t)
    ensures Erases(s, i, list, Success, t)
  {
    var v := s.volumes[i];
    forall a | 0 <= a < |s.memory|
      ensures Reached(v, list, |list|, 0, a) <==> Requested(v, list, a)
    {
      ReachedIsRequested(v, list, |list|, 0, a);
    }
    if list == [] {
      assert t.memory == s.memory;
    }
  }

  lemma {:induction false} ExistingIs(v: Volume, list: seq<Extent>, k: nat)
    requires k < |list| && (forall j :: 0 <= j < k ==> ExtentExists(v, list[j])) && !ExtentExists(v, list[k])
    ensures Existing(v, list) == k
  {
    if k > 0 {
      ExistingIs(v, list[1..], k - 1);
    }
  }

  /** At a missing block the bytes reached are those in front of it. */
  lemma {:induction false} ReachedIsInFront(v: Volume, list: seq<Extent>, k: nat, done: nat, a: nat)
    requires k < |list| && done < list[k].count && list[k].lba + done >= v.Blocks()
    requires forall j :: 0 <= j < k ==> ExtentExists(v, list[j])
    ensures Existing(v, list) == k && (Reached(v, list, k, done, a) <==> InFront(v, list, a))
  {
    ExistingIs(v, list, k);
    if InExtent(v, list[k], list[k].count, a) {
      var lba: nat :| list[k].lba <= lba < list[k].lba + list[k].count && lba < v.Blocks() && v.BlockHolds(lba, a);
      assert InExtent(v, list[k], done, a);
    }
    if InExtent(v, list[k], done, a) {
      var lba: nat :| list[k].lba <= lba < list[k].lba + done && lba < v.Blocks() && v.BlockHolds(lba, a);
      assert InExtent(v, list[k], list[k].count, a);
    }
  }

  /** The second pass stops at a missing block. */
  lemma {:induction false} StopsAtMissing(s: State, i: nat, list: seq<Extent>, k: nat, done: nat, t: State)
    requires i < |s.volumes| && k < |list| && done < list[k].count
    requires list[k].lba + done >= s.volumes[i].Blocks()
    requires forall j :: 0 <= j < k ==> ExtentExists(s.volumes[i], list[j])
    requires Progress(s, i, list, k, done, t)
    ensures SecondPass(s.volumes[i], list, s.memory, InvalidParameter, t.memory)
  {
    var v := s.volumes[i];
    ExistingIs(v, list, k);
    forall a | 0 <= a < |s.memory|
      ensures Reached(v, list, k, done, a) <==> InFront(v, list, a)
    {
      ReachedIsInFront(v, list, k, done, a);
    }
  }

  /** What a failed block leaves of the list. */
  lemma {:induction false} EraseFailed(
      s: State, i: nat, list: seq<Extent>, k: nat, done: nat, t: State, status: Status, u: State)
    requires i < |s.volumes| && Validated(s.volumes[i], list)
    requires k < |list| && done < list[k].count
    requires k > 0 || done > 0 ==> WriteEnabled(s.volumes[i].attributes)
    requires forall j :: 0 <= j < k ==> ExtentExists(s.volumes[i], list[j])
    requires Progress(s, i, list, k, done, t)
    requires ErasesBlock(t, i, list[k].lba + done, status, u) && status != Success
    ensures Erases(s, i, list, status, u)
  {
    var v := s.volumes[i];
    forall a | 0 <= a < |s.memory| && !Requested(v, list, a)
      ensures u.memory[a] == s.memory[a]
    {
      ReachedIsRequested(v, list, k, done, a);
      ExtentGrows(v, list[k], done, a);
      ReachedIsRequested(v, list, k, done + 1, a);
    }
    if !WriteEnabled(v.attributes) {
      assert forall a :: !InExtent(v, list[0], 0, a);
      assert t.memory == s.memory;
    } else if list[k].lba + done >= v.Blocks() {
      StopsAtMissing(s, i, list, k, done, t);
    }
  }

  // ----- the order of the blocks -----

  function Lbas(lba: nat, n: nat): (s: seq<nat>)
    ensures |s| == n
  {
    seq(n, i => lba + i)
  }

  /** The blocks a list asks for, in order. */
  function BlocksOf(list: seq<Extent>): seq<nat> {
    if list == [] then []
    else BlocksOf(list[..|list| - 1]) + Lbas(list[|list| - 1].lba, list[|list| - 1].count)
  }

  function LbasOf(visits: seq<Visit>): (s: seq<nat>)
    ensures |s| == |visits|
  {
    seq(|visits|, i requires 0 <= i < |visits| => visits[i].lba)
  }

  /** The blocks of the extents in front of k and the first ones of extent k. */
  function BlocksUpTo(list: seq<Extent>, k: nat, done: nat): seq<nat>
    requires k <= |list|
  {
    BlocksOf(list[..k]) + if k < |list| then Lbas(list[k].lba, done) else []
  }

  lemma {:induction false} UpToNext(list: seq<Extent>, k: nat, done: nat)
    requires k < |list|
    ensures BlocksUpTo(list, k, done + 1) == BlocksUpTo(list, k, done) + [list[k].lba + done]
    ensures BlocksUpTo(list, k + 1, 0) == BlocksUpTo(list, k, list[k].count)
  {
    assert Lbas(list[k].lba, done + 1) == Lbas(list[k].lba, done) + [list[k].lba + done];
    assert list[..k + 1][..k] == list[..k];
  }

  lemma {:induction false} UpToIsPrefix(list: seq<Extent>, k: nat, done: nat)
    requires k <= |list| && (k < |list| ==> done <= list[k].count)
    ensures BlocksUpTo(list, k, done) <= BlocksOf(list)
    ensures k == |list| ==> BlocksUpTo(list, k, done) == BlocksOf(list)
    decreases |list| - k
  {
    if k < |list| {
      UpToNext(list, k, done);
      UpToIsPrefix(list, k + 1, 0);
      assert Lbas(list[k].lba, done) == Lbas(list[k].lba, list[k].count)[..done];
      assert BlocksUpTo(list, k, done) <= BlocksUpTo(list, k, list[k].count);
    } else {
      assert list[..k] == list;
    }
  }

  // ----- what the visited blocks hold -----

  ghost predicate InBlocks(v: Volume, lbas: seq<nat>, a: nat) {
    exists j :: 0 <= j < |lbas| && lbas[j] < v.Blocks() && v.BlockHolds(lbas[j], a)
  }

  /** All these blocks are erased and all else is as before; if the last one failed, nothing is
      said of its own bytes. */
  ghost predicate ErasedBlocks(v: Volume, lbas: seq<nat>, failed: bool, memory: seq<Byte>, memory': seq<Byte>) {
    && |memory'| == |memory|
    && forall a :: 0 <= a < |memory| && !(failed && lbas != [] && InBlocks(v, lbas[|lbas| - 1..], a)) ==>
         memory'[a] == if InBlocks(v, lbas, a) then ERASED else memory[a]
  }

  lemma {:induction false} InBlocksOfMore(v: Volume, lbas: seq<nat>, lba: nat, a: nat)
    ensures InBlocks(v, lbas + [lba], a) <==> InBlocks(v, lbas, a) || (lba < v.Blocks() && v.BlockHolds(lba, a))
    ensures InBlocks(v, [lba], a) <==> lba < v.Blocks() && v.BlockHolds(lba, a)
  {
    var all := lbas + [lba];
    assert all[|lbas|] == lba && [lba][0] == lba;
    if InBlocks(v, lbas, a) {
      var j :| 0 <= j < |lbas| && lbas[j] < v.Blocks() && v.BlockHolds(lbas[j], a);
      assert all[j] == lbas[j];
    }
  }

  lemma {:induction false} ErasedNext(
      s: State, i: nat, lbas: seq<nat>, more: seq<nat>, lba: nat, memory: seq<Byte>, status: Status, t: State)
    requires i < |s.volumes| && ErasedBlocks(s.volumes[i], lbas, false, memory, s.memory)
    requires ErasesBlock(s, i, lba, status, t)
    requires
      var v := s.volumes[i];
      more == if WriteEnabled(v.attributes) && lba < v.Blocks() then [lba] else []
    ensures ErasedBlocks(s.volumes[i], lbas + more, status == DeviceError, memory, t.memory)
  {
    if more == [] {
      assert lbas + more == lbas;
    } else {
      assert (lbas + more)[|lbas + more| - 1..] == [lba];
      forall a: nat
        ensures InBlocks(s.volumes[i], lbas + [lba], a) <==>
                InBlocks(s.volumes[i], lbas, a) || InBlocks(s.volumes[i], [lba], a)
        ensures InBlocks(s.volumes[i], [lba], a) <==> s.volumes[i].BlockHolds(lba, a)
      {
        InBlocksOfMore(s.volumes[i], lbas, lba, a);
      }
    }
  }

  // ----- calls of the device -----

  lemma {:induction false} Bracketed(v: Volume, lba: nat, e: Event, before: set<nat>, unlocked: bool, relocked: bool)
    requires lba < v.Blocks()
    ensures
      var address, length := v.BlockAddress(lba), v.BlockLength(lba);
      After(before, Bracket(v, lba, e, unlocked, relocked))
      == Effect(Effect(Effect(before, LockSet(address, length, false, unlocked)), e),
                LockSet(address, length, true, relocked))
  {
    var u := LockSet(v.BlockAddress(lba), v.BlockLength(lba), false, unlocked);
    var l := LockSet(v.BlockAddress(lba), v.BlockLength(lba), true, relocked);
    assert Bracket(v, lba, e, unlocked, relocked) == ([] + [u] + [e]) + [l];
    AfterNext(before, [], u);
    AfterNext(before, [] + [u], e);
    AfterNext(before, [] + [u] + [e], l);
  }

  lemma {:induction false} ThreeCalls(first: seq<Event>, a: Event, b: Event, c: Event)
    ensures first + [a] + [b] + [c] == first + [a, b, c]
  {
  }

  lemma {:induction false} OneVisit(v: Volume, x: Visit)
    requires x.lba < v.Blocks()
    ensures VisitsOk(v, [x]) && EraseEvents(v, [x]) == EraseBracket(v, x)
  {
    EraseEventsNext(v, [], x);
    assert [] + [x] == [x];
  }

  lemma {:induction false} EventsOfMore(v: Volume, visits: seq<Visit>, more: seq<Visit>)
    requires VisitsOk(v, visits) && VisitsOk(v, more) && |more| <= 1
    ensures VisitsOk(v, visits + more)
    ensures EraseEvents(v, visits + more) == EraseEvents(v, visits) + EraseEvents(v, more)
  {
    if more == [] {
      assert visits + more == visits;
    } else {
      OneVisit(v, more[0]);
      EraseEventsNext(v, visits, more[0]);
      assert more == [more[0]];
    }
  }

  /** The events and the locks after some more visits. */
  lemma {:induction false} VisitedNext(
      v: Volume, first: seq<Event>, locks: set<nat>, visits: seq<Visit>, more: seq<Visit>,
      events: seq<Event>, unlocked: set<nat>)
    requires VisitsOk(v, visits) && VisitsOk(v, more) && |more| <= 1
    requires events == first + EraseEvents(v, visits) + EraseEvents(v, more)
    requires unlocked == After(After(locks, EraseEvents(v, visits)), EraseEvents(v, more))
    ensures VisitsOk(v, visits + more)
    ensures events == first + EraseEvents(v, visits + more) && unlocked == After(locks, EraseEvents(v, visits + more))
  {
    EventsOfMore(v, visits, more);
    Regroup(first, EraseEvents(v, visits), EraseEvents(v, more));
    AfterConcat(locks, EraseEvents(v, visits), EraseEvents(v, more));
  }

  lemma {:induction false} Regroup(a: seq<Event>, b: seq<Event>, c: seq<Event>)
    ensures (a + b) + c == a + (b + c)
  {
  }

  lemma {:induction false} ErasedVisits(
      s: State, i: nat, visits: seq<Visit>, more: seq<Visit>, lba: nat, memory: seq<Byte>, status: Status, t: State)
    requires i < |s.volumes| && ErasedBlocks(s.volumes[i], LbasOf(visits), false, memory, s.memory)
    requires ErasesBlock(s, i, lba, status, t)
    requires
      var v := s.volumes[i];
      LbasOf(more) == if WriteEnabled(v.attributes) && lba < v.Blocks() then [lba] else []
    ensures ErasedBlocks(s.volumes[i], LbasOf(visits + more), status == DeviceError, memory, t.memory)
  {
    ErasedNext(s, i, LbasOf(visits), LbasOf(more), lba, memory, status, t);
    assert LbasOf(visits + more) == LbasOf(visits) + LbasOf(more);
  }

  lemma {:induction false} LbasNext(list: seq<Extent>, k: nat, done: nat, visits: seq<Visit>, more: seq<Visit>)
    requires k < |list| && done < list[k].count && LbasOf(visits) == BlocksUpTo(list, k, done)
    ensures LbasOf(more) == [list[k].lba + done] ==> LbasOf(visits + more) == BlocksUpTo(list, k, done + 1)
    ensures more == [] ==> LbasOf(visits + more) == BlocksUpTo(list, k, done)
    ensures BlocksUpTo(list, k, done) <= BlocksOf(list) && BlocksUpTo(list, k, done + 1) <= BlocksOf(list)
  {
    assert LbasOf(visits + more) == LbasOf(visits) + LbasOf(more);
    UpToNext(list, k, done);
    UpToIsPrefix(list, k, done);
    UpToIsPrefix(list, k, done + 1);
  }

  /** The answer to an erasure is the device's to the last block, all blocks before that are
      erased. */
  ghost predicate Answered(visits: seq<Visit>, status: Status) {
    && (status == DeviceError <==> visits != [] && !visits[|visits| - 1].erased)
    && forall k :: 0 <= k < |visits| - 1 ==> visits[k].erased
  }

  predicate AllErased(visits: seq<Visit>) {
    forall k :: 0 <= k < |visits| ==> visits[k].erased
  }

  lemma {:induction false} AnsweredNext(visits: seq<Visit>, more: seq<Visit>, status: Status)
    requires AllErased(visits) && |more| <= 1 && (status == DeviceError <==> more != [] && !more[0].erased)
    ensures Answered(visits + more, status) && (status != DeviceError ==> AllErased(visits + more))
  {
  }

  /** The 64-bit block number does not wrap behind a block that exists. */
  lemma {:induction false} NoWrapAtBlock(v: Volume, lba: nat, size: nat)
    requires Placed(v, size) && lba < v.Blocks()
    ensures (lba + 1) % TWO64 == lba + 1
  {
    FlatAgainstCount(v.blockMap);
  }

  // ----- the erasure of a list, block by block -----

  /** The volumes and the memory, the calls of the device so far, and what they left unlocked. */
  datatype Moment = Moment(state: State, events: seq<Event>, unlocked: set<nat>)

  /** The calls from one moment to another. */
  ghost predicate Between(m: Moment, events: seq<Event>, u: Moment) {
    u.events == m.events + events && u.unlocked == After(m.unlocked, events)
  }

  /** What EraseBlock does: the block visited, if any, and how the device answered. */
  ghost predicate Visits(m: Moment, i: nat, lba: nat, status: Status, visits: seq<Visit>, u: Moment)
    requires i < |m.state.volumes|
  {
    var v := m.state.volumes[i];
    && ErasesBlock(m.state, i, lba, status, u.state)
    && LbasOf(visits) == (if WriteEnabled(v.attributes) && lba < v.Blocks() then [lba] else [])
    && VisitsOk(v, visits) && (status == DeviceError <==> visits != [] && !visits[0].erased)
    && Between(m, EraseEvents(v, visits), u)
  }

  /** The first k extents and done blocks of the next are erased, all of them exist, and
      nothing else happened. */
  ghost predicate Erasing(before: State, i: nat, list: EraseList, k: nat, done: nat, now: State)
    requires i < |before.volumes| && k <= |list|
  {
    var v := before.volumes[i];
    && now.volumes == before.volumes && FvbSpec.Valid(now)
    && (k > 0 || done > 0 ==> WriteEnabled(v.attributes))
    && (forall j :: 0 <= j < k ==> ExtentExists(v, list[j]))
    && (k < |list| && done > 0 ==> list[k].lba + done <= v.Blocks())
    && Progress(before, i, list, k, done, now)
  }

  /** The blocks visited so far, what they hold, and the calls made for them. */
  ghost predicate Visited(m: Moment, i: nat, visits: seq<Visit>, status: Status, u: Moment)
    requires i < |m.state.volumes|
  {
    var v := m.state.volumes[i];
    && VisitsOk(v, visits) && Answered(visits, status) && (status != DeviceError ==> AllErased(visits))
    && ErasedBlocks(v, LbasOf(visits), status == DeviceError, m.state.memory, u.state.memory)
    && Between(m, EraseEvents(v, visits), u)
  }

  /** The erasure so far, from m to u. */
  ghost predicate Underway(m: Moment, i: nat, list: EraseList, k: nat, done: nat, visits: seq<Visit>, u: Moment)
    requires i < |m.state.volumes| && k <= |list|
  {
    && Erasing(m.state, i, list, k, done, u.state) && Visited(m, i, visits, Success, u)
    && LbasOf(visits) == BlocksUpTo(list, k, done)
  }

  /** The erasure is over with an answer. */
  ghost predicate Answers(m: Moment, i: nat, list: EraseList, status: Status, visits: seq<Visit>, u: Moment)
    requires i < |m.state.volumes|
  {
    && u.state.volumes == m.state.volumes && FvbSpec.Valid(u.state) && Erases(m.state, i, list, status, u.state)
    && Visited(m, i, visits, status, u) && LbasOf(visits) <= BlocksOf(list)
    && (status == Success ==> LbasOf(visits) == BlocksOf(list))
  }

  lemma {:induction false} VisitedOn(
      m: Moment, i: nat, visits: seq<Visit>, u: Moment, lba: nat, more: seq<Visit>, status: Status, w: Moment)
    requires i < |m.state.volumes| && u.state.volumes == m.state.volumes
    requires Visited(m, i, visits, Success, u) && Visits(u, i, lba, status, more, w)
    ensures Visited(m, i, visits + more, status, w)
  {
    var v := m.state.volumes[i];
    VisitedNext(v, m.events, m.unlocked, visits, more, w.events, w.unlocked);
    ErasedVisits(u.state, i, visits, more, lba, m.state.memory, status, w.state);
    AnsweredNext(visits, more, status);
  }

  lemma {:induction false} BlockErased(
      m: Moment, i: nat, list: EraseList, k: nat, done: nat, visits: seq<Visit>, u: Moment,
      more: seq<Visit>, w: Moment)
    requires i < |m.state.volumes| && k < |list| && done < list[k].count && FvbSpec.Valid(w.state)
    requires Underway(m, i, list, k, done, visits, u) && Visits(u, i, list[k].lba + done, Success, more, w)
    ensures Underway(m, i, list, k, done + 1, visits + more, w) && list[k].lba + done < m.state.volumes[i].Blocks()
  {
    VisitedOn(m, i, visits, u, list[k].lba + done, more, Success, w);
    LbasNext(list, k, done, visits, more);
    EraseAdvances(m.state, i, list, k, done, u.state, w.state);
  }

  lemma {:induction false} BlockFailed(
      m: Moment, i: nat, list: EraseList, k: nat, done: nat, visits: seq<Visit>, u: Moment,
      more: seq<Visit>, status: Status, w: Moment)
    requires i < |m.state.volumes| && k < |list| && done < list[k].count && FvbSpec.Valid(w.state)
    requires Validated(m.state.volumes[i], list) && status != Success
    requires Underway(m, i, list, k, done, visits, u) && Visits(u, i, list[k].lba + done, status, more, w)
    ensures Answers(m, i, list, status, visits + more, w)
  {
    VisitedOn(m, i, visits, u, list[k].lba + done, more, status, w);
    LbasNext(list, k, done, visits, more);
    EraseFailed(m.state, i, list, k, done, u.state, status, w.state);
  }

  /** How it goes on behind a block. */
  ghost predicate Proceeds(
      m: Moment, i: nat, list: EraseList, k: nat, done: nat, status: Status, visits: seq<Visit>, w: Moment)
    requires i < |m.state.volumes| && k < |list|
  {
    if status == Success then
      Underway(m, i, list, k, done + 1, visits, w) && list[k].lba + done < m.state.volumes[i].Blocks()
    else
      Answers(m, i, list, status, visits, w)
  }

  lemma {:induction false} BlockDone(
      m: Moment, i: nat, list: EraseList, k: nat, done: nat, visits: seq<Visit>, u: Moment,
      more: seq<Visit>, status: Status, w: Moment)
    requires i < |m.state.volumes| && k < |list| && done < list[k].count && FvbSpec.Valid(w.state)
    requires Validated(m.state.volumes[i], list)
    requires Underway(m, i, list, k, done, visits, u) && Visits(u, i, list[k].lba + done, status, more, w)
    ensures Proceeds(m, i, list, k, done, status, visits + more, w)
  {
    if status == Success {
      BlockErased(m, i, list, k, done, visits, u, more, w);
    } else {
      BlockFailed(m, i, list, k, done, visits, u, more, status, w);
    }
  }

  lemma {:induction false} UnderwayStart(m: Moment, i: nat, list: EraseList)
    requires i < |m.state.volumes| && FvbSpec.Valid(m.state)
    ensures Underway(m, i, list, 0, 0, [], m)
  {
    assert m.events == m.events + [];
  }

  lemma {:induction false} UnderwayNext(m: Moment, i: nat, list: EraseList, k: nat, visits: seq<Visit>, u: Moment)
    requires i < |m.state.volumes| && k < |list| && list[k].count > 0
    requires Underway(m, i, list, k, list[k].count, visits, u)
    ensures Underway(m, i, list, k + 1, 0, visits, u)
  {
    NextExtent(m.state, i, list, k, u.state);
    UpToNext(list, k, 0);
  }

  lemma {:induction false} UnderwayDone(m: Moment, i: nat, list: EraseList, visits: seq<Visit>, u: Moment)
    requires i < |m.state.volumes| && Validated(m.state.volumes[i], list)
    requires Underway(m, i, list, |list|, 0, visits, u)
    ensures Answers(m, i, list, Success, visits, u)
  {
    UpToIsPrefix(list, |list|, 0);
    EraseFinished(m.state, i, list, u.state);
  }

  class FvbModule {
    var volumes: seq<Volume>
    const device: Device

    constructor (volumes: seq<Volume>, device: Device)
      ensures this.volumes == volumes && this.device == device
    {
      this.volumes := volumes;
      this.device := device;
    }

    ghost function Now(): State
      reads this, device.memory
    {
      State(volumes, device.memory[..])
    }

    ghost function Current(): Moment
      reads this, device, device.memory
    {
      Moment(Now(), device.events, device.unlocked)
    }

    ghost predicate Ready()
      reads this, device.memory
    {
      FvbSpec.Valid(Now())
    }

    /** The calls since then are the given ones, and the locks are what they leave. */
    ghost predicate Called(first: seq<Event>, unlocked: set<nat>, events: seq<Event>)
      reads device
    {
      device.events == first + events && device.unlocked == After(unlocked, events)
    }

    /** FvbSetVolumeAttributes. */
    method SetAttributes(i: nat, requested: Attributes) returns (status: Status, result: Attributes)
      requires i < |volumes|
      modifies `volumes
      ensures SetsAttributes(old(Now()), i, requested, status, result, Now())
      ensures
        status == Success ==>
          && Capable(requested, old(volumes[i].attributes))
          && result & STATUS == requested & STATUS && result & !STATUS == old(volumes[i].attributes) & !STATUS
    {
      result := requested;
      status := CheckRequest(volumes[i].attributes, requested);
      if status != Success {
        return;
      }
      SuccessInBits(volumes[i].attributes, requested);
      result := StatusStored(volumes[i].attributes, requested);
      volumes := volumes[i := volumes[i].(attributes := result)];
    }

    /** The checks FvbReadBlock and FvbWriteBlock make before they call the device: the
        lookup, the status bit, the offset, and the clamp to the end of the block. */
    method Admit(i: nat, lba: nat, blockOffset: nat, n: nat, enabled: bool)
      returns (granted: bool, status: Status, count: nat, r: LbaInfo)
      requires Ready() && i < |volumes| && 0 < n && n + TWO32 <= TWO64
      ensures
        match Accessed(volumes[i], enabled, lba, blockOffset, n)
        case Refused(st) => !granted && status == st && count == n
        case Granted(st, c) =>
          && granted && status == st && count == c && r.Found?
          && r.address == volumes[i].BlockAddress(lba) && r.length == volumes[i].BlockLength(lba)
          && r.address + r.length <= device.memory.Length
    {
      granted, count := false, n;
      r := FvbGetLbaAddress(volumes[i].fvBase, volumes[i].blockMap, lba);
      if r.NoSuchBlock? {
        status := InvalidParameter;
        return;
      }
      AddressOfBlock(volumes[i], lba, r, device.memory.Length);
      if !enabled {
        status := AccessDenied;
        return;
      }
      if blockOffset > r.length {
        status := InvalidParameter;
        return;
      }
      granted, status := true, Success;
      if r.length < (n + blockOffset) % TWO64 {
        count := (r.length - blockOffset) % TWO32;
        status := BadBufferSize;
      }
    }

    /** FvbReadBlock. The result of the device's read is not looked at. */
    method ReadBlock(i: nat, lba: nat, blockOffset: nat, numBytes: NumBytes, buffer: array?<Byte>)
      returns (status: Status, count: NumBytes)
      requires Ready() && i < |volumes|
      requires numBytes.At? && buffer != null ==> numBytes.n <= buffer.Length && buffer.Length + TWO32 <= TWO64
      requires buffer != device.memory
      modifies if buffer == null then {} else {buffer}
      ensures numBytes.Null? || buffer == null ==> status == InvalidParameter && count == numBytes
      ensures numBytes.At? && buffer != null ==>
                var r := Accessed(volumes[i], ReadEnabled(volumes[i].attributes), lba, blockOffset, numBytes.n);
                && count == At(if r.Granted? then r.count else numBytes.n)
                && Reads(Now(), i, lba, blockOffset, numBytes.n, status, buffer[..Delivered(r)])
                && buffer[Delivered(r)..] == old(buffer[..])[Delivered(r)..]
    {
      count := numBytes;
      if numBytes.Null? || buffer == null {
        return InvalidParameter, count;
      }
      if numBytes.n == 0 {
        return InvalidParameter, count;
      }
      var granted, n, r;
      granted, status, n, r := Admit(i, lba, blockOffset, numBytes.n, volumes[i].attributes & READ_STATUS != 0);
      if granted {
        count := At(n);
        device.Read(r.address + blockOffset, n, buffer);
      }
    }

    /** Unlocks the block, writes, and locks it again; the answers of the lock calls are
        dropped. */
    method WriteUnlocked(
        ghost v: Volume, ghost lba: nat, address: nat, length: nat, blockOffset: nat, n: nat, bytes: seq<Byte>)
      returns (status: Status, ghost unlocked: bool, ghost written: bool, ghost relocked: bool)
      requires lba < v.Blocks() && address == v.BlockAddress(lba) && length == v.BlockLength(lba)
      requires blockOffset + n <= length && n <= |bytes| && address + length <= device.memory.Length
      modifies device, device.memory
      ensures status == if written then Success else DeviceError
      ensures
        var from := address + blockOffset;
        && SameOutside(old(device.memory[..]), device.memory[..], from, from + n)
        && (status == Success ==> device.memory[..] == Spliced(old(device.memory[..]), from, bytes[..n]))
      ensures
        Called(old(device.events), old(device.unlocked),
               Bracket(v, lba, Wrote(address + blockOffset, n, written), unlocked, relocked))
    {
      ghost var first, locks := device.events, device.unlocked;
      var status0 := device.BlockLock(address, length, false);
      status := device.Write(address + blockOffset, n, bytes);
      var status2 := device.BlockLock(address, length, true);
      unlocked, written, relocked := status0 == Success, status == Success, status2 == Success;
      ghost var e := Wrote(address + blockOffset, n, written);
      Bracketed(v, lba, e, locks, unlocked, relocked);
      ThreeCalls(first, LockSet(address, length, false, unlocked), e, LockSet(address, length, true, relocked));
    }

    /** FvbWriteBlock. */
    method WriteBlock(i: nat, lba: nat, blockOffset: nat, numBytes: NumBytes, buffer: array?<Byte>)
      returns (status: Status, count: NumBytes, ghost unlocked: bool, ghost written: bool, ghost relocked: bool)
      requires Ready() && i < |volumes|
      requires numBytes.At? && buffer != null ==> numBytes.n <= buffer.Length && buffer.Length + TWO32 <= TWO64
      requires buffer != device.memory
      modifies device, device.memory
      ensures Ready()
      ensures numBytes.Null? || buffer == null ==>
                && status == InvalidParameter && count == numBytes && Now() == old(Now())
                && Called(old(device.events), old(device.unlocked), [])
      ensures numBytes.At? && buffer != null ==>
                count.At? && Writes(old(Now()), i, lba, blockOffset, buffer[..], numBytes.n, status, count.n, Now())
      ensures numBytes.At? && buffer != null ==>
                var v := volumes[i];
                match Accessed(v, WriteEnabled(v.attributes), lba, blockOffset, numBytes.n)
                case Refused(st) => status == st && Called(old(device.events), old(device.unlocked), [])
                case Granted(st, n) =>
                  && status == (if written then st else DeviceError)
                  && Called(old(device.events), old(device.unlocked),
                            Bracket(v, lba, Wrote(v.BlockAddress(lba) + blockOffset, n, written), unlocked, relocked))
    {
      unlocked, written, relocked := false, false, false;
      count := numBytes;
      if numBytes.Null? || buffer == null {
        status := InvalidParameter;
        return;
      }
      if numBytes.n == 0 {
        status := InvalidParameter;
        return;
      }
      var granted, n, r;
      granted, status, n, r := Admit(i, lba, blockOffset, numBytes.n, volumes[i].attributes & WRITE_STATUS != 0);
      if granted {
        count := At(n);
        var status1;
        status1, unlocked, written, relocked :=
          WriteUnlocked(volumes[i], lba, r.address, r.length, blockOffset, n, buffer[..]);
        if status1 != Success {
          status := status1;
        }
      }
    }

    /** FvbEraseBlock. */
    method EraseBlock(i: nat, lba: nat) returns (status: Status, ghost visits: seq<Visit>)
      requires Ready() && i < |volumes|
      modifies device, device.memory
      ensures ErasesBlock(old(Now()), i, lba, status, Now())
      ensures Ready()
      ensures LbasOf(visits) == if WriteEnabled(volumes[i].attributes) && lba < volumes[i].Blocks() then [lba] else []
      ensures VisitsOk(volumes[i], visits)
      ensures status == DeviceError <==> visits != [] && !visits[0].erased
      ensures Called(old(device.events), old(device.unlocked), EraseEvents(volumes[i], visits))
    {
      visits := [];
      if volumes[i].attributes & WRITE_STATUS == 0 {
        status := AccessDenied;
        return;
      }
      var r := FvbGetLbaAddress(volumes[i].fvBase, volumes[i].blockMap, lba);
      if r.NoSuchBlock? {
        status := InvalidParameter;
        return;
      }
      AddressOfBlock(volumes[i], lba, r, device.memory.Length);
      var status0, status2;
      ghost var first, locks := device.events, device.unlocked;
      status0 := device.BlockLock(r.address, r.length, false);
      status := device.BlockErase(r.address, r.length);
      status2 := device.BlockLock(r.address, r.length, true);
      ghost var x := Visit(lba, status0 == Success, status == Success, status2 == Success);
      visits := [x];
      OneVisit(volumes[i], x);
      Bracketed(volumes[i], lba, Erased(r.address, r.length, x.erased), locks, x.unlocked, x.relocked);
      ThreeCalls(first, LockSet(r.address, r.length, false, x.unlocked), Erased(r.address, r.length, x.erased),
                 LockSet(r.address, r.length, true, x.relocked));
    }

    /** The first pass over an erase list. */
    method ListIsValid(i: nat, list: EraseList) returns (valid: bool)
      requires i < |volumes|
      ensures valid <==> Validated(volumes[i], list)
    {
      var numOfBlocks := volumes[i].numOfBlocks;
      for k := 0 to |list|
        invariant forall j :: 0 <= j < k ==> ExtentValid(volumes[i], list[j])
      {
        assert ExtentValid(volumes[i], list[k]) <==>
          list[k].count != 0 && (list[k].lba + list[k].count) % TWO64 <= numOfBlocks;
        if list[k].count == 0 {
          return false;
        }
        if (list[k].lba + list[k].count) % TWO64 > numOfBlocks {
          return false;
        }
      }
      valid := true;
    }

    method VisitBlock(i: nat, lba: nat, ghost u: Moment)
      returns (status: Status, ghost visits: seq<Visit>, ghost w: Moment)
      requires Ready() && i < |volumes| && u == Current()
      modifies device, device.memory
      ensures w == Current() && w.state.volumes == u.state.volumes && FvbSpec.Valid(w.state)
      ensures Visits(u, i, lba, status, visits, w)
    {
      status, visits := EraseBlock(i, lba);
      w := Current();
    }

    /** One block of an extent. */
    method EraseNext(
        i: nat, list: EraseList, ghost k: nat, ghost done: nat, lba: nat,
        ghost m: Moment, ghost visited: seq<Visit>, ghost u: Moment)
      returns (status: Status, ghost visits: seq<Visit>, ghost w: Moment)
      requires Ready() && u == Current()
      requires i < |m.state.volumes| && u.state.volumes == m.state.volumes
      requires k < |list| && Validated(m.state.volumes[i], list)
      requires Underway(m, i, list, k, done, visited, u) && done < list[k].count && lba == list[k].lba + done
      modifies device, device.memory
      ensures w == Current() && w.state.volumes == u.state.volumes && FvbSpec.Valid(w.state)
      ensures Proceeds(m, i, list, k, done, status, visits, w)
    {
      ghost var more;
      status, more, w := VisitBlock(i, lba, u);
      visits := visited + more;
      BlockDone(m, i, list, k, done, visited, u, more, status, w);
    }

    /** The blocks of one extent. */
    method EraseExtent(
        i: nat, list: EraseList, k: nat, ghost m: Moment, ghost visited: seq<Visit>, ghost u: Moment)
      returns (status: Status, ghost visits: seq<Visit>, ghost w: Moment)
      requires Ready() && u == Current()
      requires i < |m.state.volumes| && u.state.volumes == m.state.volumes
      requires k < |list| && Validated(m.state.volumes[i], list)
      requires Underway(m, i, list, k, 0, visited, u)
      modifies device, device.memory
      ensures w == Current() && w.state.volumes == u.state.volumes && FvbSpec.Valid(w.state)
      ensures status == Success ==> Underway(m, i, list, k, list[k].count, visits, w)
      ensures status != Success ==> Answers(m, i, list, status, visits, w)
    {
      var startingLba, numOfLba := list[k].lba, list[k].count;
      ghost var done: nat := 0;
      status := Success;
      visits, w := visited, u;
      while numOfLba > 0
        invariant startingLba == list[k].lba + done && done + numOfLba == list[k].count
        invariant w == Current() && w.state.volumes == u.state.volumes && FvbSpec.Valid(w.state)
        invariant status == Success && Underway(m, i, list, k, done, visits, w)
        decreases numOfLba
      {
        status, visits, w := EraseNext(i, list, k, done, startingLba, m, visits, w);
        if status != Success {
          return;
        }
        NoWrapAtBlock(m.state.volumes[i], startingLba, |w.state.memory|);
        startingLba := (startingLba + 1) % TWO64;
        numOfLba, done := numOfLba - 1, done + 1;
      }
    }

    /** The loop over the list, once it has validated. */
    method ErasePass(i: nat, list: EraseList, ghost m: Moment)
      returns (status: Status, ghost visits: seq<Visit>, ghost w: Moment)
      requires Ready() && i < |volumes| && Validated(volumes[i], list) && m == Current()
      modifies device, device.memory
      ensures w == Current() && Answers(m, i, list, status, visits, w)
    {
      visits, w := [], m;
      status := Success;
      UnderwayStart(m, i, list);
      for k := 0 to |list|
        invariant w == Current() && w.state.volumes == m.state.volumes && FvbSpec.Valid(w.state)
        invariant status == Success && Underway(m, i, list, k, 0, visits, w)
      {
        status, visits, w := EraseExtent(i, list, k, m, visits, w);
        if status != Success {
          return;
        }
        assert ExtentValid(m.state.volumes[i], list[k]);
        UnderwayNext(m, i, list, k, visits, w);
      }
      UnderwayDone(m, i, list, visits, w);
    }

    /** FvbProtocolEraseBlocks: the whole list is checked before anything is erased. The
        blocks are visited in the order of the list, each unlocked, erased and locked. */
    method EraseBlocks(i: nat, list: EraseList) returns (status: Status, ghost visits: seq<Visit>)
      requires Ready() && i < |volumes|
      modifies device, device.memory
      ensures Erases(old(Now()), i, list, status, Now())
      ensures Ready()
      ensures VisitsOk(volumes[i], visits) && LbasOf(visits) <= BlocksOf(list)
      ensures status == Success ==> LbasOf(visits) == BlocksOf(list)
      ensures status == DeviceError <==> visits != [] && !visits[|visits| - 1].erased
      ensures forall k :: 0 <= k < |visits| - 1 ==> visits[k].erased
      ensures ErasedBlocks(volumes[i], LbasOf(visits), status == DeviceError, old(device.memory[..]), device.memory[..])
      ensures Called(old(device.events), old(device.unlocked), EraseEvents(volumes[i], visits))
    {
      visits := [];
      var valid := ListIsValid(i, list);
      if !valid {
        status := InvalidParameter;
        return;
      }
      ghost var w;
      status, visits, w := ErasePass(i, list, Current());
    }
  }
}
