/** FvbRuntimeDxe/FvbService.c: what the block services promise, as relations
    between the states before and after a call, and what follows for whole runs. */
module FvbSpec {
  import opened FvbBlockMap
  import Bytes

  type Byte = Bytes.Byte
  const ERASED: Byte := 0xFF
  const TWO64: nat := 0x1_0000_0000_0000_0000

  datatype Status = Success | InvalidParameter | AccessDenied | BadBufferSize | DeviceError

  type Attributes = bv32

  const READ_DISABLED_CAP: Attributes := 0x0000_0001
  const READ_ENABLED_CAP: Attributes := 0x0000_0002
  const READ_STATUS: Attributes := 0x0000_0004
  const WRITE_DISABLED_CAP: Attributes := 0x0000_0008
  const WRITE_ENABLED_CAP: Attributes := 0x0000_0010
  const WRITE_STATUS: Attributes := 0x0000_0020
  const LOCK_CAP: Attributes := 0x0000_0040
  const LOCK_STATUS: Attributes := 0x0000_0080
  const CAPABILITIES: Attributes := 0x0000_005B
  const STATUS: Attributes := 0x0000_00A4
  /** All capabilities, sticky write, memory mapped, erase polarity, the read and
      write lock capabilities and the alignment. */
  const UNCHANGED: Attributes := 0x001F_5E5B

  /** One firmware volume: the private data FvbInitialize lays down for it. */
  datatype Volume = Volume(fvBase: nat, numOfBlocks: nat, attributes: Attributes, blockMap: seq<MapEntry>) {
    function Blocks(): nat { |Flat(blockMap)| }
    function End(): nat { fvBase + VolumeSize(blockMap) }

    function BlockAddress(lba: nat): nat
      requires lba < Blocks()
    {
      fvBase + BlockOffset(blockMap, lba)
    }

    function BlockLength(lba: nat): nat
      requires lba < Blocks()
    {
      Flat(blockMap)[lba]
    }

    predicate Holds(a: nat) { fvBase <= a < End() }

    predicate BlockHolds(lba: nat, a: nat)
      requires lba < Blocks()
    {
      BlockAddress(lba) <= a < BlockAddress(lba) + BlockLength(lba)
    }

    /** Only the attributes of a volume ever change. */
    predicate SameLayout(v: Volume) {
      fvBase == v.fvBase && numOfBlocks == v.numOfBlocks && blockMap == v.blockMap
    }
  }

  /** The volumes, and memory as the flash device shows it: index is address. */
  datatype State = State(volumes: seq<Volume>, memory: seq<Byte>)

  /** The volume lies in memory and its private data agree with its block map. The header
      length has 16 bits, so the map cannot have blocks near the end of the 64-bit range. */
  ghost predicate Placed(v: Volume, size: nat) {
    && Terminated(v.blockMap) && NoProductWraps(v.blockMap)
    && v.numOfBlocks == CountedBlocks(v.blockMap) && v.numOfBlocks + TWO32 <= TWO64
    && v.End() <= size
  }

  ghost predicate Valid(s: State) {
    && (forall i :: 0 <= i < |s.volumes| ==> Placed(s.volumes[i], |s.memory|))
    && (forall i, j :: 0 <= i < j < |s.volumes| ==>
          s.volumes[i].End() <= s.volumes[j].fvBase || s.volumes[j].End() <= s.volumes[i].fvBase)
  }

  /** A volume that stays below 4GB meets the condition of the 32-bit products. */
  lemma {:induction false} SmallVolumesDoNotWrap(m: seq<MapEntry>)
    requires VolumeSize(m) < TWO32
    ensures NoProductWraps(m)
  {
    if Flat(m) != [] {
      var head := Repeat(m[0].length, m[0].numBlocks);
      SumConcat(head, Flat(m[1..]));
      SumRepeat(m[0].length, m[0].numBlocks);
      SmallVolumesDoNotWrap(m[1..]);
    }
  }

  lemma {:induction false} BlockInVolume(v: Volume, lba: nat, a: nat)
    requires lba < v.Blocks() && v.BlockHolds(lba, a)
    ensures v.Holds(a)
  {
    BlockInside(v.blockMap, lba);
  }

  // ----- attributes -----

  predicate Locked(a: Attributes) { a & LOCK_STATUS != 0 }
  predicate WriteEnabled(a: Attributes) { a & WRITE_STATUS != 0 }
  predicate ReadEnabled(a: Attributes) { a & READ_STATUS != 0 }

  /** Every status bit is one the capabilities allow in its current position. */
  predicate StatusAllowed(a: Attributes) {
    && (if ReadEnabled(a) then a & READ_ENABLED_CAP != 0 else a & READ_DISABLED_CAP != 0)
    && (if WriteEnabled(a) then a & WRITE_ENABLED_CAP != 0 else a & WRITE_DISABLED_CAP != 0)
    && (Locked(a) ==> a & LOCK_CAP != 0)
  }

  /** The old attributes with the requested status bits. */
  function WithStatus(old_: Attributes, requested: Attributes): Attributes {
    (old_ & !STATUS) | (requested & STATUS)
  }

  /** A request goes through when it leaves the fixed bits alone, does not touch the
      status of a locked volume, and asks for a status the capabilities allow. */
  predicate Accepts(old_: Attributes, requested: Attributes) {
    && old_ & UNCHANGED == requested & UNCHANGED
    && (Locked(old_) ==> old_ & STATUS == requested & STATUS)
    && StatusAllowed(WithStatus(old_, requested))
  }

  lemma {:induction false} WithStatusRest(old_: Attributes, requested: Attributes)
    ensures WithStatus(old_, requested) & !STATUS == old_ & !STATUS
  {
  }

  lemma {:induction false} WithSameStatus(old_: Attributes, requested: Attributes)
    requires old_ & STATUS == requested & STATUS
    ensures WithStatus(old_, requested) == old_
  {
  }

  /** How the attributes of a volume may develop over time: the non-status bits stay,
      a locked volume keeps all of them, and a changed status is an allowed one. */
  predicate Evolves(a: Attributes, b: Attributes) {
    && b & !STATUS == a & !STATUS
    && (Locked(a) ==> b == a)
    && (b != a ==> StatusAllowed(b))
  }

  lemma {:induction false} EvolvesOn(a: Attributes, b: Attributes, c: Attributes)
    requires Evolves(a, b) && Evolves(b, c)
    ensures Evolves(a, c)
  {
  }

  lemma {:induction false} AcceptedEvolves(old_: Attributes, requested: Attributes)
    requires Accepts(old_, requested)
    ensures Evolves(old_, WithStatus(old_, requested))
  {
    WithStatusRest(old_, requested);
    if Locked(old_) {
      WithSameStatus(old_, requested);
    }
  }

  /** In bits: what each status bit of a needs of the capabilities of b. */
  predicate Capable(a: Attributes, b: Attributes) {
    && (a & READ_STATUS != 0 ==> b & READ_ENABLED_CAP != 0)
    && (a & READ_STATUS == 0 ==> b & READ_DISABLED_CAP != 0)
    && (a & WRITE_STATUS != 0 ==> b & WRITE_ENABLED_CAP != 0)
    && (a & WRITE_STATUS == 0 ==> b & WRITE_DISABLED_CAP != 0)
    && (a & LOCK_STATUS != 0 ==> b & LOCK_CAP != 0)
  }

  /** Attributes after a request: status bits from the request, all others from before. */
  lemma {:induction false} WithStatusBits(old_: Attributes, requested: Attributes)
    ensures WithStatus(old_, requested) & STATUS == requested & STATUS
    ensures WithStatus(old_, requested) & !STATUS == old_ & !STATUS
    ensures
      var a := WithStatus(old_, requested);
      && a & READ_STATUS == requested & READ_STATUS && a & WRITE_STATUS == requested & WRITE_STATUS
      && a & LOCK_STATUS == requested & LOCK_STATUS
      && a & READ_ENABLED_CAP == old_ & READ_ENABLED_CAP && a & READ_DISABLED_CAP == old_ & READ_DISABLED_CAP
      && a & WRITE_ENABLED_CAP == old_ & WRITE_ENABLED_CAP && a & WRITE_DISABLED_CAP == old_ & WRITE_DISABLED_CAP
      && a & LOCK_CAP == old_ & LOCK_CAP
  {
  }

  lemma {:induction false} AllowedInBits(old_: Attributes, requested: Attributes)
    ensures StatusAllowed(WithStatus(old_, requested)) <==> Capable(requested, old_)
  {
    WithStatusBits(old_, requested);
    AllowedOf(WithStatus(old_, requested), old_, requested);
  }

  lemma {:induction false} AllowedOf(a: Attributes, old_: Attributes, requested: Attributes)
    requires
      && a & READ_STATUS == requested & READ_STATUS && a & WRITE_STATUS == requested & WRITE_STATUS
      && a & LOCK_STATUS == requested & LOCK_STATUS
      && a & READ_ENABLED_CAP == old_ & READ_ENABLED_CAP && a & READ_DISABLED_CAP == old_ & READ_DISABLED_CAP
      && a & WRITE_ENABLED_CAP == old_ & WRITE_ENABLED_CAP && a & WRITE_DISABLED_CAP == old_ & WRITE_DISABLED_CAP
      && a & LOCK_CAP == old_ & LOCK_CAP
    ensures StatusAllowed(a) <==> Capable(requested, old_)
  {
  }

  // ----- the effect of each call -----

  /** The answer to a request: a change of a locked status is denied, everything else
      that does not go through is invalid. */
  function Verdict(old_: Attributes, requested: Attributes): Status {
    if Accepts(old_, requested) then Success
    else if old_ & UNCHANGED == requested & UNCHANGED && Locked(old_) && old_ & STATUS != requested & STATUS then
      AccessDenied
    else InvalidParameter
  }

  /** The answer in bits: success needs the same fixed bits, the same status if the volume is
      locked, and the capability of every requested status bit; it is denied exactly for a
      changed status of a locked volume whose fixed bits are requested as they are. */
  lemma {:induction false} VerdictInBits(old_: Attributes, requested: Attributes)
    ensures
      Verdict(old_, requested) == Success <==>
        && old_ & UNCHANGED == requested & UNCHANGED
        && (old_ & LOCK_STATUS != 0 ==> old_ & STATUS == requested & STATUS)
        && Capable(requested, old_)
    ensures
      Verdict(old_, requested) == AccessDenied <==>
        && old_ & UNCHANGED == requested & UNCHANGED
        && old_ & LOCK_STATUS != 0 && old_ & STATUS != requested & STATUS
    ensures Verdict(old_, requested) in {Success, AccessDenied, InvalidParameter}
  {
    AllowedInBits(old_, requested);
  }

  /** What a successful request leaves. */
  lemma {:induction false} SuccessInBits(old_: Attributes, requested: Attributes)
    ensures Verdict(old_, requested) == Success ==> Capable(requested, old_)
    ensures WithStatus(old_, requested) & STATUS == requested & STATUS
    ensures WithStatus(old_, requested) & !STATUS == old_ & !STATUS
  {
    VerdictInBits(old_, requested);
    WithStatusBits(old_, requested);
  }

  /** FvbSetVolumeAttributes on volume i. */
  ghost predicate SetsAttributes(s: State, i: nat, requested: Attributes, status: Status, result: Attributes, s': State)
    requires i < |s.volumes|
  {
    var old_ := s.volumes[i].attributes;
    && status == Verdict(old_, requested)
    && (status == Success ==>
          && result == WithStatus(old_, requested)
          && s' == s.(volumes := s.volumes[i := s.volumes[i].(attributes := result)]))
    && (status != Success ==> s' == s && result == requested)
  }

  /** Whether an access of n bytes at an offset in a block is let through, and how
      many bytes of it. */
  datatype Access = Refused(status: Status) | Granted(status: Status, count: nat)

  function Accessed(v: Volume, enabled: bool, lba: nat, blockOffset: nat, n: nat): (r: Access)
    ensures r.Granted? ==> lba < v.Blocks() && blockOffset + r.count <= v.BlockLength(lba) && r.count <= n
    ensures r.Granted? ==> (r.status == Success && r.count == n)
                           || (r.status == BadBufferSize && blockOffset + r.count == v.BlockLength(lba) && r.count < n)
    ensures r.Granted? ==> enabled && n > 0
    ensures
      r.Refused? && enabled ==>
        r.status == InvalidParameter && (n == 0 || lba >= v.Blocks() || blockOffset > v.BlockLength(lba))
    ensures
      r.Refused? && !enabled ==>
        r.status == if n == 0 || lba >= v.Blocks() then InvalidParameter else AccessDenied
  {
    if n == 0 || lba >= v.Blocks() then Refused(InvalidParameter)
    else if !enabled then Refused(AccessDenied)
    else if blockOffset > v.BlockLength(lba) then Refused(InvalidParameter)
    else if v.BlockLength(lba) < n + blockOffset then Granted(BadBufferSize, v.BlockLength(lba) - blockOffset)
    else Granted(Success, n)
  }

  /** The number of bytes an access moves. */
  function Delivered(r: Access): nat {
    if r.Granted? then r.count else 0
  }

  /** Memory with `data` at address a. */
  function Spliced(memory: seq<Byte>, a: nat, data: seq<Byte>): seq<Byte>
    requires a + |data| <= |memory|
  {
    memory[..a] + data + memory[a + |data|..]
  }

  ghost predicate SameOutside(memory: seq<Byte>, memory': seq<Byte>, from: nat, to: nat) {
    |memory'| == |memory| && forall a :: 0 <= a < |memory| && !(from <= a < to) ==> memory'[a] == memory[a]
  }

  /** FvbReadBlock on volume i: what lands in the buffer. */
  ghost predicate Reads(s: State, i: nat, lba: nat, blockOffset: nat, n: nat, status: Status, data: seq<Byte>)
    requires i < |s.volumes|
  {
    var v := s.volumes[i];
    match Accessed(v, ReadEnabled(v.attributes), lba, blockOffset, n)
    case Refused(st) => status == st && data == []
    case Granted(st, count) =>
      var a := v.BlockAddress(lba) + blockOffset;
      status == st && a + count <= |s.memory| && data == s.memory[a..a + count]
  }

  /** FvbWriteBlock on volume i. The device may fail after changing part of the range. */
  ghost predicate Writes(s: State, i: nat, lba: nat, blockOffset: nat, buffer: seq<Byte>, n: nat,
                         status: Status, count: nat, s': State)
    requires i < |s.volumes| && n <= |buffer|
  {
    var v := s.volumes[i];
    && s'.volumes == s.volumes
    && match Accessed(v, WriteEnabled(v.attributes), lba, blockOffset, n)
       case Refused(st) => status == st && count == n && s' == s
       case Granted(st, granted) =>
         var a := v.BlockAddress(lba) + blockOffset;
         && a + granted <= |s.memory| && count == granted
         && (if status == DeviceError then SameOutside(s.memory, s'.memory, a, a + granted)
             else status == st && s'.memory == Spliced(s.memory, a, buffer[..granted]))
  }

  /** One (starting block, number of blocks) pair of an erase list. The 64-bit start
      is never the list terminator. */
  datatype Extent = Extent(lba: nat, count: nat)

  type EraseList = l: seq<Extent> | forall i :: 0 <= i < |l| ==> l[i].lba < TWO64 - 1 && l[i].count < TWO32
    witness []

  predicate ExtentValid(v: Volume, e: Extent) {
    e.count > 0 && (e.lba + e.count) % TWO64 <= v.numOfBlocks
  }

  predicate Validated(v: Volume, list: seq<Extent>) {
    forall i :: 0 <= i < |list| ==> ExtentValid(v, list[i])
  }

  /** Address a lies in one of the first k blocks of an extent. */
  ghost predicate InExtent(v: Volume, e: Extent, k: nat, a: nat) {
    exists lba: nat :: e.lba <= lba < e.lba + k && lba < v.Blocks() && v.BlockHolds(lba, a)
  }

  ghost predicate Requested(v: Volume, list: seq<Extent>, a: nat) {
    exists i :: 0 <= i < |list| && InExtent(v, list[i], list[i].count, a)
  }

  /** All blocks of the extent exist. */
  predicate ExtentExists(v: Volume, e: Extent) {
    e.lba + e.count <= v.Blocks()
  }

  /** How many extents in front of the first one that lacks a block. */
  function Existing(v: Volume, list: seq<Extent>): (k: nat)
    ensures k <= |list| && (forall j :: 0 <= j < k ==> ExtentExists(v, list[j]))
    ensures k < |list| ==> !ExtentExists(v, list[k])
  {
    if list == [] || !ExtentExists(v, list[0]) then 0 else 1 + Existing(v, list[1..])
  }

  /** Address a lies in a block that comes in front of the first missing one. */
  ghost predicate InFront(v: Volume, list: seq<Extent>, a: nat) {
    var k := Existing(v, list);
    || (exists j :: 0 <= j < k && InExtent(v, list[j], list[j].count, a))
    || (k < |list| && InExtent(v, list[k], list[k].count, a))
  }

  /** The second pass, over a list that validated: it reaches the end only if every block
      exists; it stops with InvalidParameter only at a missing block, with everything in
      front of that one erased. */
  ghost predicate SecondPass(v: Volume, list: seq<Extent>, memory: seq<Byte>, status: Status, memory': seq<Byte>) {
    && |memory'| == |memory|
    && (status == Success || status == InvalidParameter || status == DeviceError)
    && (status == Success ==> Existing(v, list) == |list|)
    && (status == InvalidParameter ==> Existing(v, list) < |list|)
    && (status == InvalidParameter ==>
          forall a :: 0 <= a < |memory| ==> memory'[a] == if InFront(v, list, a) then ERASED else memory[a])
  }

  /** FvbProtocolEraseBlocks on volume i. */
  ghost predicate Erases(s: State, i: nat, list: seq<Extent>, status: Status, s': State)
    requires i < |s.volumes|
  {
    var v := s.volumes[i];
    && s'.volumes == s.volumes && |s'.memory| == |s.memory|
    && (!Validated(v, list) ==> status == InvalidParameter && s' == s)
    && (Validated(v, list) && list == [] ==> status == Success && s' == s)
    && (Validated(v, list) && list != [] && !WriteEnabled(v.attributes) ==> status == AccessDenied && s' == s)
    && (Validated(v, list) && list != [] && WriteEnabled(v.attributes) ==>
          SecondPass(v, list, s.memory, status, s'.memory))
    && (forall a :: 0 <= a < |s.memory| && !Requested(v, list, a) ==> s'.memory[a] == s.memory[a])
    && (status == Success ==> forall a :: 0 <= a < |s.memory| && Requested(v, list, a) ==> s'.memory[a] == ERASED)
  }

  // ----- consequences of a single call -----

  /** A successful write is read back by a read of the same range. */
  lemma {:induction false} ReadBack(s: State, i: nat, lba: nat, blockOffset: nat, buffer: seq<Byte>, n: nat,
                                    status: Status, count: nat, s': State, readStatus: Status, data: seq<Byte>)
    requires Valid(s) && i < |s.volumes| && n <= |buffer|
    requires Writes(s, i, lba, blockOffset, buffer, n, status, count, s')
    requires status == Success || status == BadBufferSize
    requires ReadEnabled(s.volumes[i].attributes)
    requires Reads(s', i, lba, blockOffset, n, readStatus, data)
    ensures readStatus == status && data == buffer[..count]
  {
    var v := s.volumes[i];
    var a := v.BlockAddress(lba) + blockOffset;
    assert s'.memory[a..a + count] == buffer[..count];
  }

  /** A write stays inside the bytes it was granted, which lie in its block. */
  lemma {:induction false} WriteStaysInBlock(s: State, i: nat, lba: nat, blockOffset: nat, buffer: seq<Byte>, n: nat,
                                             status: Status, count: nat, s': State, a: nat)
    requires i < |s.volumes| && n <= |buffer| && a < |s.memory|
    requires Writes(s, i, lba, blockOffset, buffer, n, status, count, s')
    ensures |s'.memory| == |s.memory|
    ensures s'.memory[a] != s.memory[a] ==>
              var v := s.volumes[i];
              && lba < v.Blocks() && v.BlockHolds(lba, a)
              && v.BlockAddress(lba) + blockOffset <= a < v.BlockAddress(lba) + blockOffset + n
  {
  }

  // ----- runs -----

  datatype Call =
    | GetAttributes(i: nat)
    | SetAttributes(i: nat, requested: Attributes, setStatus: Status, result: Attributes)
    | Read(i: nat, lba: nat, blockOffset: nat, n: nat, readStatus: Status, data: seq<Byte>)
    | Write(i: nat, lba: nat, blockOffset: nat, n: nat, buffer: seq<Byte>, writeStatus: Status, count: nat)
    | EraseBlocks(i: nat, list: EraseList, eraseStatus: Status)

  ghost predicate Step(s: State, c: Call, s': State) {
    && c.i < |s.volumes|
    && match c
       case GetAttributes(_) => s' == s
       case SetAttributes(i, requested, status, result) => SetsAttributes(s, i, requested, status, result, s')
       case Read(i, lba, blockOffset, n, status, data) => s' == s && Reads(s, i, lba, blockOffset, n, status, data)
       case Write(i, lba, blockOffset, n, buffer, status, count) =>
         n <= |buffer| && Writes(s, i, lba, blockOffset, buffer, n, status, count, s')
       case EraseBlocks(i, list, status) => Erases(s, i, list, status, s')
  }

  /** states[k] becomes states[k + 1] by calls[k]. */
  ghost predicate Run(states: seq<State>, calls: seq<Call>) {
    && |states| == |calls| + 1
    && forall k {:trigger calls[k]} :: 0 <= k < |calls| ==> Step(states[k], calls[k], states[k + 1])
  }

  /** Nothing but attributes and memory bytes differs, and the attributes evolve. */
  ghost predicate Kept(s: State, s': State) {
    && |s'.volumes| == |s.volumes| && |s'.memory| == |s.memory|
    && forall i :: 0 <= i < |s.volumes| ==>
         s'.volumes[i].SameLayout(s.volumes[i]) && Evolves(s.volumes[i].attributes, s'.volumes[i].attributes)
  }

  lemma {:induction false} KeptOn(s: State, t: State, u: State)
    requires Kept(s, t) && Kept(t, u)
    ensures Kept(s, u)
  {
    forall i | 0 <= i < |s.volumes|
      ensures Evolves(s.volumes[i].attributes, u.volumes[i].attributes)
    {
      EvolvesOn(s.volumes[i].attributes, t.volumes[i].attributes, u.volumes[i].attributes);
    }
  }

  lemma {:induction false} SetKeeps(
      s: State, j: nat, requested: Attributes, status: Status, result: Attributes, s': State)
    requires j < |s.volumes| && SetsAttributes(s, j, requested, status, result, s')
    ensures Kept(s, s')
  {
    if Accepts(s.volumes[j].attributes, requested) {
      AcceptedEvolves(s.volumes[j].attributes, requested);
    }
  }

  lemma {:induction false} WriteKeepsSize(s: State, i: nat, lba: nat, blockOffset: nat, buffer: seq<Byte>, n: nat,
                                          status: Status, count: nat, s': State)
    requires i < |s.volumes| && n <= |buffer|
    requires Writes(s, i, lba, blockOffset, buffer, n, status, count, s')
    ensures |s'.memory| == |s.memory|
  {
  }

  /** One call keeps the layout of every volume and lets its attributes evolve. */
  lemma {:induction false} StepKeeps(s: State, c: Call, s': State)
    requires Step(s, c, s')
    ensures Kept(s, s')
  {
    match c
    case SetAttributes(j, requested, status, result) =>
      SetKeeps(s, j, requested, status, result, s');
    case Write(j, lba, blockOffset, n, buffer, status, count) =>
      WriteKeepsSize(s, j, lba, blockOffset, buffer, n, status, count, s');
    case _ =>
  }

  lemma {:induction false} StepValid(s: State, c: Call, s': State)
    requires Valid(s) && Step(s, c, s')
    ensures Valid(s')
  {
    StepKeeps(s, c, s');
    forall i | 0 <= i < |s'.volumes|
      ensures Placed(s'.volumes[i], |s'.memory|)
    {
      assert Placed(s.volumes[i], |s.memory|);
    }
  }

  /** One call leaves the bytes of a write-disabled volume alone. */
  lemma {:induction false} StepKeepsContents(s: State, c: Call, s': State, i: nat, a: nat)
    requires Valid(s) && Step(s, c, s') && i < |s.volumes|
    requires !WriteEnabled(s.volumes[i].attributes)
    requires s.volumes[i].Holds(a) && a < |s.memory|
    ensures a < |s'.memory| && s'.memory[a] == s.memory[a]
  {
    var v := s.volumes[c.i];
    match c
    case Write(j, lba, blockOffset, n, buffer, status, count) =>
      WriteStaysInBlock(s, j, lba, blockOffset, buffer, n, status, count, s', a);
      if s'.memory[a] != s.memory[a] {
        BlockInVolume(v, lba, a);
      }
    case EraseBlocks(j, list, status) =>
      if Requested(v, list, a) {
        var k :| 0 <= k < |list| && InExtent(v, list[k], list[k].count, a);
        var lba: nat :| list[k].lba <= lba < list[k].lba + list[k].count && lba < v.Blocks() && v.BlockHolds(lba, a);
        BlockInVolume(v, lba, a);
      }
    case _ =>
  }

  /** Over any stretch of any run, capability, polarity, alignment and all other
      non-status bits stay, and the status of a locked volume never changes again. */
  lemma {:induction false} LockIsForever(states: seq<State>, calls: seq<Call>, p: nat, q: nat)
    requires Run(states, calls) && p <= q < |states|
    ensures Kept(states[p], states[q])
    decreases q
  {
    if p < q {
      LockIsForever(states, calls, p, q - 1);
      RunStepKeeps(states, calls, q - 1);
      KeptOn(states[p], states[q - 1], states[q]);
    }
  }

  /** Over any stretch of any run: where the attributes of a volume have changed, the status
      bits it has now are ones its capabilities allow. */
  lemma {:induction false} StatusHasCapability(states: seq<State>, calls: seq<Call>, p: nat, q: nat, i: nat)
    requires Run(states, calls) && p <= q < |states| && i < |states[p].volumes|
    ensures i < |states[q].volumes|
    ensures
      var a, b := states[p].volumes[i].attributes, states[q].volumes[i].attributes;
      a != b ==> Capable(b, b)
    ensures
      var a, b := states[p].volumes[i].attributes, states[q].volumes[i].attributes;
      b & !STATUS == a & !STATUS && (a & LOCK_STATUS != 0 ==> b == a)
  {
    LockIsForever(states, calls, p, q);
    assert Evolves(states[p].volumes[i].attributes, states[q].volumes[i].attributes);
  }

  lemma {:induction false} RunStepKeeps(states: seq<State>, calls: seq<Call>, k: nat)
    requires Run(states, calls) && k < |calls|
    ensures Kept(states[k], states[k + 1])
    ensures Valid(states[k]) ==> Valid(states[k + 1])
  {
    assert Step(states[k], calls[k], states[k + 1]);
    StepKeeps(states[k], calls[k], states[k + 1]);
    if Valid(states[k]) {
      StepValid(states[k], calls[k], states[k + 1]);
    }
  }

  lemma {:induction false} RunValid(states: seq<State>, calls: seq<Call>, q: nat)
    requires Run(states, calls) && q < |states| && Valid(states[0])
    ensures Valid(states[q])
  {
    if q > 0 {
      RunValid(states, calls, q - 1);
      RunStepKeeps(states, calls, q - 1);
    }
  }

  /** Once a volume is locked with writing disabled, its contents never change. */
  lemma {:induction false} LockedContentsAreForever(
      states: seq<State>, calls: seq<Call>, p: nat, q: nat, i: nat, a: nat)
    requires Run(states, calls) && p <= q < |states| && Valid(states[0]) && i < |states[p].volumes|
    requires
      states[p].volumes[i].attributes & LOCK_STATUS != 0 && states[p].volumes[i].attributes & WRITE_STATUS == 0
    requires states[p].volumes[i].Holds(a) && a < |states[p].memory|
    ensures a < |states[q].memory| && states[q].memory[a] == states[p].memory[a]
    decreases q
  {
    if p < q {
      LockedContentsAreForever(states, calls, p, q - 1, i, a);
      LockIsForever(states, calls, p, q - 1);
      RunValid(states, calls, q - 1);
      RunStepKeepsContents(states, calls, q - 1, i, a);
    }
  }

  lemma {:induction false} RunStepKeepsContents(states: seq<State>, calls: seq<Call>, k: nat, i: nat, a: nat)
    requires Run(states, calls) && k < |calls| && Valid(states[k]) && i < |states[k].volumes|
    requires !WriteEnabled(states[k].volumes[i].attributes)
    requires states[k].volumes[i].Holds(a) && a < |states[k].memory|
    ensures a < |states[k + 1].memory| && states[k + 1].memory[a] == states[k].memory[a]
  {
    assert Step(states[k], calls[k], states[k + 1]);
    StepKeepsContents(states[k], calls[k], states[k + 1], i, a);
  }
}
