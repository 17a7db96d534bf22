/** FvbRuntimeDxe/FvbService.c: the attribute calls on the module's own data, the packed
    arena of instance records, refine the calls on a list of volumes. */
module FvbInstances {
  import opened Bytes
  import opened FvbBlockMap
  import opened FvbArena
  import FvbSpec
  import FvbService

  /** The volumes that the records stand for. */
  ghost function VolumesOf(rs: seq<Record>): (vs: seq<FvbSpec.Volume>)
    requires RecordsOk(rs)
    ensures |vs| == |rs| && forall i :: 0 <= i < |rs| ==> vs[i] == VolumeOf(rs[i])
  {
    seq(|rs|, i requires 0 <= i < |rs| => VolumeOf(rs[i]))
  }

  /** A record laid down from a valid header has the private data the services rely on: the
      counted blocks, a terminated map, and no blocks near the end of the 64-bit range. */
  lemma {:induction false} RecordIsPlaced(r: Record, size: nat)
    requires RecordOk(r) && NoProductWraps(MapFrom(r.header, BLOCK_MAP))
    requires VolumeOf(r).End() <= size
    ensures FvbSpec.Placed(VolumeOf(r), size)
  {
    CountBound(MapFrom(r.header, BLOCK_MAP));
    MapLength(r.header, BLOCK_MAP);
    Limits();
  }

  /** An attribute word and the number it is stored as. */
  lemma {:induction false} WordOfAttributes(a: FvbSpec.Attributes)
    ensures a as nat < TWO32 && (a as nat) as bv32 == a
  {
  }

  /** The attributes of a volume are the word in the header of its record. */
  lemma {:induction false} AttributesInArena(rs: seq<Record>, i: nat, arena: seq<Byte>, at: nat)
    requires RecordsOk(rs) && i < |rs| && arena == Concat(rs) && at == OffsetOf(rs, i) + PREFIX + ATTRIBUTES
    ensures at + 4 <= |arena| && Field(arena, at, 4) < TWO32
    ensures VolumesOf(rs)[i].attributes == Field(arena, at, 4) as bv32
  {
    assert RecordOk(rs[i]);
    HeaderFieldInArena(rs, i, ATTRIBUTES, 4);
    AttributesOfVolume(rs[i]);
  }

  lemma {:induction false} AttributesOfVolume(r: Record)
    requires RecordOk(r)
    ensures Field(r.header, ATTRIBUTES, 4) < TWO32
    ensures VolumeOf(r).attributes == Field(r.header, ATTRIBUTES, 4) as bv32
  {
    Limits();
  }

  /** What stands in the arena at the offset of a record. */
  lemma {:induction false} RecordThere(rs: seq<Record>, i: nat, arena: seq<Byte>)
    requires RecordsOk(rs) && i < |rs| && arena == Concat(rs)
    ensures
      var off, r := OffsetOf(rs, i), rs[i];
      && off + r.Size() <= |arena| && HeaderOk(r.header)
      && arena[off + PREFIX..off + PREFIX + |r.header|] == r.header
      && Field(arena, off, 8) == r.fvBase && Field(arena, off + 8, 8) == r.numOfBlocks
  {
    assert RecordOk(rs[i]);
    RecordInArena(rs, i);
    PrefixInArena(rs, i);
    HeaderPart(arena, OffsetOf(rs, i), rs[i]);
  }

  lemma {:induction false} HeaderPart(s: seq<Byte>, at: nat, r: Record)
    requires at + r.Size() <= |s| && s[at..at + r.Size()] == r.Encoded()
    ensures s[at + PREFIX..at + PREFIX + |r.header|] == r.header
  {
    assert s[at..at + r.Size()][PREFIX..] == r.header;
    assert s[at..at + r.Size()][PREFIX..] == s[at + PREFIX..at + PREFIX + |r.header|];
  }

  /** The state of the module: mFvbModuleGlobal. */
  class FvbGlobal {
    const arena: array<Byte>
    const numFv: nat
    ghost var records: seq<Record>

    ghost predicate Valid()
      reads this, arena
    {
      arena[..] == Concat(records) && numFv == |records| && RecordsOk(records)
    }

    /** FvbInitialize over headers that are all valid on flash. */
    constructor (bases: seq<nat>, headers: seq<seq<Byte>>)
      requires HeadersOk(bases, headers)
      ensures Valid() && records == RecordsOf(bases, headers) && fresh(arena)
    {
      var a, n := FvbInitialize(bases, headers);
      arena, numFv, records := a, n, RecordsOf(bases, headers);
    }

    method LoadAttributes(p: nat) returns (attributes: FvbSpec.Attributes)
      requires p + 4 <= arena.Length && Field(arena[..], p, 4) < TWO32
      ensures attributes == Field(arena[..], p, 4) as bv32
    {
      var word := LoadField(arena, p, 4);
      attributes := word as bv32;
    }

    /** FvbGetVolumeAttributes: the word in the header of the i-th record. */
    method GetVolumeAttributes(i: nat) returns (attributes: FvbSpec.Attributes)
      requires Valid() && i < numFv
      ensures attributes == VolumesOf(records)[i].attributes
    {
      var r := GetFvbInstance(arena, numFv, i, records);
      var at := r.offset + PREFIX + ATTRIBUTES;
      AttributesInArena(records, i, arena[..], at);
      attributes := LoadAttributes(at);
    }

    /** FvbGetLbaAddress on the header of the i-th record. */
    method GetLbaAddress(i: nat, lba: nat) returns (r: LbaInfo)
      requires Valid() && i < numFv
      ensures Translates(VolumesOf(records)[i].fvBase, VolumesOf(records)[i].blockMap, lba, r)
    {
      var instance := GetFvbInstance(arena, numFv, i, records);
      RecordThere(records, i, arena[..]);
      var fvBase := LoadField(arena, instance.offset, 8);
      r := LookupInArena(arena, instance.offset + PREFIX, fvBase, lba, records[i].header);
    }

    /** NumOfBlocks of the i-th record. */
    method GetNumOfBlocks(i: nat) returns (numOfBlocks: nat)
      requires Valid() && i < numFv
      ensures numOfBlocks == VolumesOf(records)[i].numOfBlocks
    {
      var instance := GetFvbInstance(arena, numFv, i, records);
      RecordThere(records, i, arena[..]);
      numOfBlocks := LoadField(arena, instance.offset + 8, 8);
    }

    /** Stores the word in the header of the i-th record. */
    method StoreVolumeAttributes(i: nat, attributes: FvbSpec.Attributes)
      requires Valid() && i < numFv
      modifies arena, `records
      ensures Valid() && |records| == |old(records)|
      ensures
        VolumesOf(records) == old(VolumesOf(records))[i := old(VolumesOf(records))[i].(attributes := attributes)]
    {
      WordOfAttributes(attributes);
      StoreAttributes(arena, numFv, i, attributes as nat, records);
      VolumeStored(records, i, attributes);
      records := records[i := WithAttributes(records[i], attributes as nat)];
    }

    /** FvbSetVolumeAttributes on the arena does to the volumes what the call must do, whatever
        the memory holds. */
    method SetVolumeAttributes(i: nat, requested: FvbSpec.Attributes, ghost memory: seq<Byte>)
      returns (status: FvbSpec.Status, result: FvbSpec.Attributes)
      requires Valid() && i < numFv
      modifies arena, `records
      ensures Valid()
      ensures
        FvbSpec.SetsAttributes(FvbSpec.State(old(VolumesOf(records)), memory), i, requested, status, result,
                               FvbSpec.State(VolumesOf(records), memory))
      ensures
        status == FvbSpec.Success ==>
          var was := old(VolumesOf(records))[i].attributes;
          && FvbSpec.Capable(requested, was) && result & FvbSpec.STATUS == requested & FvbSpec.STATUS
          && result & !FvbSpec.STATUS == was & !FvbSpec.STATUS
    {
      result := requested;
      var attributes := GetVolumeAttributes(i);
      status := FvbService.CheckRequest(attributes, requested);
      if status != FvbSpec.Success {
        return;
      }
      FvbService.StoredStatus(attributes, requested);
      FvbSpec.SuccessInBits(attributes, requested);
      result := (attributes & (0xFFFF_FFFF & !FvbSpec.STATUS)) | (requested & FvbSpec.STATUS);
      StoreVolumeAttributes(i, result);
    }
  }

  /** One record with new attributes is one volume with new attributes. */
  lemma {:induction false} VolumeStored(rs: seq<Record>, i: nat, a: FvbSpec.Attributes)
    requires RecordsOk(rs) && i < |rs| && a as nat < TWO32 && RecordOk(rs[i])
    requires RecordsOk(rs[i := WithAttributes(rs[i], a as nat)])
    ensures
      VolumesOf(rs[i := WithAttributes(rs[i], a as nat)]) == VolumesOf(rs)[i := VolumeOf(rs[i]).(attributes := a)]
  {
    WordOfAttributes(a);
    AttributesOfRecord(rs[i], a as nat);
  }
}
