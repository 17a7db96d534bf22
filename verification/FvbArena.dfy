/** FvbRuntimeDxe/FvbService.c: the packed arena of variable-length instance records
    that FvbInitialize lays down and GetFvbInstance strides through. */
module FvbArena {
  import opened Bytes
  import opened FvbBlockMap
  import FvbSpec

  /** sizeof (EFI_FW_VOL_INSTANCE) - sizeof (EFI_FIRMWARE_VOLUME_HEADER) with 64-bit
      UINTN: FvBase and NumOfBlocks. */
  const PREFIX: nat := 16
  const ATTRIBUTES: nat := 44
  const HEADER_LENGTH: nat := 48
  const BLOCK_MAP: nat := 56
  const ENTRY: nat := 8

  function HeaderLength(h: seq<Byte>): nat
    requires |h| >= BLOCK_MAP
  {
    Field(h, HEADER_LENGTH, 2)
  }

  function EntryAt(h: seq<Byte>, p: nat): MapEntry
    requires p + ENTRY <= |h|
  {
    Limits();
    MapEntry(Field(h, p, 4), Field(h, p + 4, 4))
  }

  /** The block map from offset p to the end of the header. */
  function MapFrom(h: seq<Byte>, p: nat): seq<MapEntry>
    decreases |h| - p
  {
    if p + ENTRY > |h| then [] else [EntryAt(h, p)] + MapFrom(h, p + ENTRY)
  }

  /** A header whose length field is its length and whose block map ends inside it. */
  ghost predicate HeaderOk(h: seq<Byte>) {
    && |h| >= BLOCK_MAP + ENTRY
    && HeaderLength(h) == |h|
    && Terminated(MapFrom(h, BLOCK_MAP))
  }

  datatype Record = Record(fvBase: nat, numOfBlocks: nat, header: seq<Byte>) {
    function Size(): nat { PREFIX + |header| }
    function Encoded(): (s: seq<Byte>)
      ensures |s| == Size()
    {
      Le(8, fvBase) + Le(8, numOfBlocks) + header
    }
  }

  ghost predicate RecordOk(r: Record) {
    HeaderOk(r.header) && r.fvBase < Limit(8) && r.numOfBlocks == CountedBlocks(MapFrom(r.header, BLOCK_MAP))
  }

  ghost predicate RecordsOk(rs: seq<Record>) {
    forall i :: 0 <= i < |rs| ==> RecordOk(rs[i])
  }

  function Concat(rs: seq<Record>): seq<Byte> {
    if rs == [] then [] else rs[0].Encoded() + Concat(rs[1..])
  }

  function OffsetOf(rs: seq<Record>, i: nat): nat
    requires i <= |rs|
  {
    if i == 0 then 0 else rs[0].Size() + OffsetOf(rs[1..], i - 1)
  }

  lemma {:induction false} ConcatAppend(rs: seq<Record>, r: Record)
    ensures Concat(rs + [r]) == Concat(rs) + r.Encoded()
  {
    if rs == [] {
      assert [r][1..] == [];
    } else {
      assert (rs + [r])[1..] == rs[1..] + [r];
      ConcatAppend(rs[1..], r);
    }
  }

  lemma {:induction false} OffsetNext(rs: seq<Record>, i: nat)
    requires i < |rs|
    ensures OffsetOf(rs, i + 1) == OffsetOf(rs, i) + rs[i].Size()
  {
    if i > 0 {
      OffsetNext(rs[1..], i - 1);
    }
  }

  /** The records fill the arena without a gap or an overlap: record i lies between
      its offset and that of record i + 1, and the last one ends the arena. */
  lemma {:induction false} RecordInArena(rs: seq<Record>, i: nat)
    requires i < |rs|
    ensures OffsetOf(rs, i) + rs[i].Size() == OffsetOf(rs, i + 1) <= |Concat(rs)|
    ensures Concat(rs)[OffsetOf(rs, i)..OffsetOf(rs, i + 1)] == rs[i].Encoded()
    ensures i + 1 == |rs| ==> OffsetOf(rs, i + 1) == |Concat(rs)|
  {
    OffsetNext(rs, i);
    if i > 0 {
      RecordInArena(rs[1..], i - 1);
      PartOfTail(rs[0].Encoded(), Concat(rs[1..]), OffsetOf(rs[1..], i - 1), OffsetOf(rs[1..], i));
    } else {
      assert OffsetOf(rs[1..], 0) == 0;
      PartOfHead(rs[0].Encoded(), Concat(rs[1..]));
    }
  }

  lemma {:induction false} PartOfTail(head: seq<Byte>, tail: seq<Byte>, from: nat, to: nat)
    requires from <= to <= |tail|
    ensures (head + tail)[|head| + from..|head| + to] == tail[from..to]
  {
  }

  lemma {:induction false} PartOfHead(head: seq<Byte>, tail: seq<Byte>)
    ensures (head + tail)[0..|head|] == head
  {
  }

  lemma {:induction false} RecordsDoNotOverlap(rs: seq<Record>, i: nat, j: nat)
    requires i < j < |rs|
    ensures OffsetOf(rs, i) + rs[i].Size() <= OffsetOf(rs, j)
    decreases j
  {
    OffsetNext(rs, i);
    if i + 1 < j {
      RecordsDoNotOverlap(rs, i, j - 1);
      OffsetNext(rs, j - 1);
    }
  }

  /** A field of record i, read from the arena, is that field of its header. */
  lemma {:induction false} HeaderFieldInArena(rs: seq<Record>, i: nat, p: nat, n: nat)
    requires i < |rs| && p + n <= |rs[i].header|
    ensures OffsetOf(rs, i) + PREFIX + p + n <= |Concat(rs)|
    ensures Field(Concat(rs), OffsetOf(rs, i) + PREFIX + p, n) == Field(rs[i].header, p, n)
  {
    RecordInArena(rs, i);
    var record := rs[i].Encoded();
    HeaderFieldInRecord(rs[i], p, n);
    FieldOfPart(Concat(rs), OffsetOf(rs, i), record, PREFIX + p, n);
  }

  lemma {:induction false} HeaderFieldInRecord(r: Record, p: nat, n: nat)
    requires p + n <= |r.header|
    ensures Field(r.Encoded(), PREFIX + p, n) == Field(r.header, p, n)
  {
    var lead := Le(8, r.fvBase) + Le(8, r.numOfBlocks);
    assert r.Encoded() == lead + r.header && |lead| == PREFIX;
    assert r.Encoded()[PREFIX + p..PREFIX + p + n] == r.header[p..p + n];
  }

  lemma {:induction false} CountBound(m: seq<MapEntry>)
    ensures CountedBlocks(m) <= |m| * TWO32
  {
    if m != [] && m[0].numBlocks != 0 {
      CountBound(m[1..]);
    }
  }

  lemma {:induction false} MapLength(h: seq<Byte>, p: nat)
    ensures |MapFrom(h, p)| <= |h|
    ensures p <= |h| ==> |MapFrom(h, p)| <= |h| - p
    decreases |h| - p
  {
    if p + ENTRY <= |h| {
      MapLength(h, p + ENTRY);
    }
  }

  /** The two words in front of a header are its base address and block count. */
  lemma {:induction false} PrefixInArena(rs: seq<Record>, i: nat)
    requires i < |rs| && RecordOk(rs[i])
    ensures OffsetOf(rs, i) + PREFIX <= |Concat(rs)|
    ensures Field(Concat(rs), OffsetOf(rs, i), 8) == rs[i].fvBase
    ensures Field(Concat(rs), OffsetOf(rs, i) + 8, 8) == rs[i].numOfBlocks
  {
    var r := rs[i];
    RecordInArena(rs, i);
    Limits();
    CountBound(MapFrom(r.header, BLOCK_MAP));
    MapLength(r.header, BLOCK_MAP);
    LoadStored(8, r.fvBase);
    LoadStored(8, r.numOfBlocks);
    var e := r.Encoded();
    assert e[0..8] == Le(8, r.fvBase) && e[8..16] == Le(8, r.numOfBlocks);
    FieldOfPart(Concat(rs), OffsetOf(rs, i), e, 0, 8);
    FieldOfPart(Concat(rs), OffsetOf(rs, i), e, 8, 8);
  }

  // ----- GetFvbInstance -----

  datatype Instance = NoInstance | At(offset: nat)

  method LoadField(a: array<Byte>, p: nat, n: nat) returns (v: nat)
    requires p + n <= a.Length
    ensures v == Field(a[..], p, n)
  {
    v := Field(a[..], p, n);
  }

  /** Strides over the records in front of the wanted one. */
  method GetFvbInstance(arena: array<Byte>, numFv: nat, instance: nat, ghost rs: seq<Record>) returns (r: Instance)
    requires arena[..] == Concat(rs) && numFv == |rs| && RecordsOk(rs)
    ensures r == if instance >= numFv then NoInstance else At(OffsetOf(rs, instance))
  {
    if instance >= numFv {
      return NoInstance;
    }
    var offset, left: nat := 0, instance;
    while left > 0
      invariant left <= instance && offset == OffsetOf(rs, instance - left)
    {
      HeaderFieldInArena(rs, instance - left, HEADER_LENGTH, 2);
      OffsetNext(rs, instance - left);
      assert RecordOk(rs[instance - left]);
      var headerLength := LoadField(arena, offset + PREFIX + HEADER_LENGTH, 2);
      offset := offset + headerLength + PREFIX;
      left := left - 1;
    }
    r := At(offset);
  }

  // ----- FvbInitialize -----

  function RecordOf(base: nat, header: seq<Byte>): Record {
    Record(base, CountedBlocks(MapFrom(header, BLOCK_MAP)), header)
  }

  function RecordsOf(bases: seq<nat>, headers: seq<seq<Byte>>): (rs: seq<Record>)
    requires |bases| == |headers|
    ensures |rs| == |bases|
  {
    if bases == [] then [] else [RecordOf(bases[0], headers[0])] + RecordsOf(bases[1..], headers[1..])
  }

  lemma {:induction false} RecordsOfAppend(bases: seq<nat>, headers: seq<seq<Byte>>, i: nat)
    requires |bases| == |headers| && i < |bases|
    ensures
      RecordsOf(bases[..i + 1], headers[..i + 1])
      == RecordsOf(bases[..i], headers[..i]) + [RecordOf(bases[i], headers[i])]
  {
    if i > 0 {
      assert bases[..i + 1][1..] == bases[1..][..i] && headers[..i + 1][1..] == headers[1..][..i];
      assert bases[..i][1..] == bases[1..][..i - 1] && headers[..i][1..] == headers[1..][..i - 1];
      RecordsOfAppend(bases[1..], headers[1..], i - 1);
    }
  }

  ghost predicate HeadersOk(bases: seq<nat>, headers: seq<seq<Byte>>) {
    && |bases| == |headers|
    && (forall i :: 0 <= i < |headers| ==> HeaderOk(headers[i]))
    && (forall i :: 0 <= i < |bases| ==> bases[i] < Limit(8))
  }

  /** The arena once i headers are laid down. */
  function Laid(bases: seq<nat>, headers: seq<seq<Byte>>, i: nat): seq<Byte>
    requires |bases| == |headers| && i <= |bases|
  {
    Concat(RecordsOf(bases[..i], headers[..i]))
  }

  lemma {:induction false} LaidNext(bases: seq<nat>, headers: seq<seq<Byte>>, i: nat)
    requires |bases| == |headers| && i < |bases|
    ensures Laid(bases, headers, i + 1) == Laid(bases, headers, i) + RecordOf(bases[i], headers[i]).Encoded()
  {
    RecordsOfAppend(bases, headers, i);
    ConcatAppend(RecordsOf(bases[..i], headers[..i]), RecordOf(bases[i], headers[i]));
  }

  lemma {:induction false} LaidFits(bases: seq<nat>, headers: seq<seq<Byte>>, i: nat)
    requires |bases| == |headers| && i <= |bases|
    ensures |Laid(bases, headers, i)| <= |Laid(bases, headers, |bases|)|
    decreases |bases| - i
  {
    if i < |bases| {
      LaidNext(bases, headers, i);
      LaidFits(bases, headers, i + 1);
    }
  }

  lemma {:induction false} LaidAll(bases: seq<nat>, headers: seq<seq<Byte>>)
    requires |bases| == |headers|
    ensures Laid(bases, headers, 0) == []
    ensures Laid(bases, headers, |bases|) == Concat(RecordsOf(bases, headers))
  {
    assert bases[..|bases|] == bases && headers[..|headers|] == headers;
  }

  /** The size of the pool allocation, from the headers on flash. */
  method ArenaSize(bases: seq<nat>, headers: seq<seq<Byte>>) returns (size: nat)
    requires HeadersOk(bases, headers)
    ensures size == |Concat(RecordsOf(bases, headers))|
  {
    size := 0;
    LaidAll(bases, headers);
    for i := 0 to |headers|
      invariant size == |Laid(bases, headers, i)|
    {
      LaidNext(bases, headers, i);
      assert HeaderOk(headers[i]);
      size := size + HeaderLength(headers[i]) + PREFIX;
    }
  }

  /** Adds up the block counts of the header at `at` in the arena. */
  method CountInArena(arena: array<Byte>, at: nat, ghost h: seq<Byte>) returns (numOfBlocks: nat)
    requires HeaderOk(h) && at + |h| <= arena.Length && arena[at..at + |h|] == h
    ensures numOfBlocks == CountedBlocks(MapFrom(h, BLOCK_MAP))
  {
    numOfBlocks := 0;
    var p := BLOCK_MAP;
    ghost var map_ := MapFrom(h, p);
    while true
      invariant BLOCK_MAP <= p <= |h| && map_ == MapFrom(h, p) && Terminated(map_)
      invariant numOfBlocks + CountedBlocks(map_) == CountedBlocks(MapFrom(h, BLOCK_MAP))
      decreases |h| - p
    {
      NextEntry(arena[..], at, h, p);
      var numBlocks := LoadField(arena, at + p, 4);
      if numBlocks == 0 {
        return;
      }
      TerminatedRest(map_);
      map_ := map_[1..];
      numOfBlocks := numOfBlocks + numBlocks;
      p := p + ENTRY;
    }
  }

  /** The entry of the block map at offset p of a header in the arena. */
  method LoadEntry(arena: array<Byte>, at: nat, p: nat, ghost h: seq<Byte>)
    returns (e: MapEntry, ghost rest: seq<MapEntry>)
    requires at + |h| <= arena.Length && arena[at..at + |h|] == h && Terminated(MapFrom(h, p))
    ensures p + ENTRY <= |h| && rest == MapFrom(h, p + ENTRY) && MapFrom(h, p) == [e] + rest
    ensures !e.Stops() ==> Terminated(rest)
  {
    NextEntry(arena[..], at, h, p);
    FieldOfPart(arena[..], at, h, p + 4, 4);
    var numBlocks := LoadField(arena, at + p, 4);
    var length := LoadField(arena, at + p + 4, 4);
    e := MapEntry(numBlocks, length);
    rest := MapFrom(h, p + ENTRY);
    EntryRest(h, p, e);
  }

  lemma {:induction false} EntryRest(h: seq<Byte>, p: nat, e: MapEntry)
    requires p + ENTRY <= |h| && Terminated(MapFrom(h, p)) && MapFrom(h, p) == [e] + MapFrom(h, p + ENTRY)
    ensures !e.Stops() ==> Terminated(MapFrom(h, p + ENTRY))
  {
    if !e.Stops() {
      TerminatedRest(MapFrom(h, p));
      assert MapFrom(h, p)[1..] == MapFrom(h, p + ENTRY);
    }
  }

  /** The lookup comes to an end at an entry. */
  method LookupHere(
      base: nat, e: MapEntry, left: nat, ghost rest: seq<MapEntry>, ghost fvBase: nat, ghost m: seq<MapEntry>,
      ghost lba: nat)
    returns (r: LbaInfo)
    requires LeadsTo(base, [e] + rest, left, fvBase, m, lba) && (e.Stops() || left < e.numBlocks)
    ensures Translates(fvBase, m, lba, r)
  {
    if e.numBlocks == 0 || e.length == 0 {
      r := NoSuchBlock;
      StopsHere(base, e, rest, left);
    } else {
      r := Found(base + left * e.length, e.length, e.numBlocks - left);
      TranslateHere([e] + rest, base, left, r);
    }
  }

  lemma {:induction false} StopsHere(base: nat, e: MapEntry, rest: seq<MapEntry>, left: nat)
    requires e.Stops()
    ensures Translates(base, [e] + rest, left, NoSuchBlock)
  {
  }

  lemma {:induction false} EntryOn(
      base: nat, e: MapEntry, rest: seq<MapEntry>, left: nat, fvBase: nat, m: seq<MapEntry>, lba: nat)
    requires LeadsTo(base, [e] + rest, left, fvBase, m, lba) && !e.Stops() && e.numBlocks <= left
    ensures LeadsTo(base + e.Skip(), rest, left - e.numBlocks, fvBase, m, lba)
  {
    LookupOn(base, [e] + rest, left, fvBase, m, lba);
    assert ([e] + rest)[1..] == rest;
  }

  /** The lookup has come to the entry at offset p of a header. */
  ghost predicate Looking(h: seq<Byte>, p: nat, startLba: nat, offset: nat, fvBase: nat, lba: nat) {
    && p <= |h| && startLba <= lba && Terminated(MapFrom(h, p))
    && LeadsTo(fvBase + offset, MapFrom(h, p), lba - startLba, fvBase, MapFrom(h, BLOCK_MAP), lba)
  }

  /** One turn of the lookup, which finds the block or goes on to the next entry. */
  method LookupTurn(
      arena: array<Byte>, at: nat, p: nat, startLba: nat, offset: nat, fvBase: nat, lba: nat, ghost h: seq<Byte>)
    returns (done: bool, r: LbaInfo, startLba': nat, offset': nat)
    requires at + |h| <= arena.Length && arena[at..at + |h|] == h && Looking(h, p, startLba, offset, fvBase, lba)
    ensures done ==> Translates(fvBase, MapFrom(h, BLOCK_MAP), lba, r)
    ensures !done ==> p + ENTRY <= |h| && Looking(h, p + ENTRY, startLba', offset', fvBase, lba)
  {
    var e;
    ghost var rest;
    e, rest := LoadEntry(arena, at, p, h);
    r, startLba', offset' := NoSuchBlock, startLba + e.numBlocks, offset + e.Skip();
    done := e.numBlocks == 0 || e.length == 0 || lba - startLba < e.numBlocks;
    if done {
      r := LookupHere(fvBase + offset, e, lba - startLba, rest, fvBase, MapFrom(h, BLOCK_MAP), lba);
    } else {
      EntryOn(fvBase + offset, e, rest, lba - startLba, fvBase, MapFrom(h, BLOCK_MAP), lba);
    }
  }

  /** FvbGetLbaAddress on the header at `at` in the arena. */
  method LookupInArena(arena: array<Byte>, at: nat, fvBase: nat, lba: nat, ghost h: seq<Byte>) returns (r: LbaInfo)
    requires HeaderOk(h) && at + |h| <= arena.Length && arena[at..at + |h|] == h
    ensures Translates(fvBase, MapFrom(h, BLOCK_MAP), lba, r)
  {
    var done, startLba: nat, offset: nat, p: nat := false, 0, 0, BLOCK_MAP;
    r := NoSuchBlock;
    while !done
      invariant done ==> Translates(fvBase, MapFrom(h, BLOCK_MAP), lba, r)
      invariant !done ==> Looking(h, p, startLba, offset, fvBase, lba)
      decreases !done, |h| - p
    {
      done, r, startLba, offset := LookupTurn(arena, at, p, startLba, offset, fvBase, lba, h);
      p := p + ENTRY;
    }
  }

  lemma {:induction false} NextEntry(s: seq<Byte>, at: nat, h: seq<Byte>, p: nat)
    requires at + |h| <= |s| && s[at..at + |h|] == h && Terminated(MapFrom(h, p))
    ensures p + ENTRY <= |h|
    ensures MapFrom(h, p) == [EntryAt(h, p)] + MapFrom(h, p + ENTRY)
    ensures Field(s, at + p, 4) == EntryAt(h, p).numBlocks
  {
    assert MapFrom(h, p) != [] && p + ENTRY <= |h|;
    FieldOfPart(s, at, h, p, 4);
  }

  lemma {:induction false} TerminatedRest(m: seq<MapEntry>)
    requires Terminated(m) && m[0].numBlocks != 0
    ensures Terminated(m[1..])
  {
    var i :| 0 <= i < |m| && m[i].numBlocks == 0;
    assert m[1..][i - 1].numBlocks == 0;
  }

  /** Copies the headers into the arena one behind the other and fills in the base
      address and the number of blocks of each. */
  method FvbInitialize(bases: seq<nat>, headers: seq<seq<Byte>>) returns (arena: array<Byte>, numFv: nat)
    requires HeadersOk(bases, headers)
    ensures numFv == |headers| && fresh(arena)
    ensures arena[..] == Concat(RecordsOf(bases, headers))
    ensures RecordsOk(RecordsOf(bases, headers))
  {
    var size := ArenaSize(bases, headers);
    arena := new Byte[size](_ => 0);
    var offset := 0;
    numFv := 0;
    LaidAll(bases, headers);
    for i := 0 to |headers|
      invariant numFv == i && offset == |Laid(bases, headers, i)| <= size
      invariant arena[..offset] == Laid(bases, headers, i)
    {
      ghost var before := arena[..];
      LaidNext(bases, headers, i);
      LaidFits(bases, headers, i + 1);
      var next := AppendRecord(arena, offset, bases[i], headers[i]);
      PrefixGrows(before, offset, RecordOf(bases[i], headers[i]).Encoded());
      numFv := numFv + 1;
      offset := next;
    }
    AllOk(bases, headers);
  }

  /** Lays one record down and moves on by the header length it finds there. */
  method AppendRecord(arena: array<Byte>, offset: nat, base: nat, header: seq<Byte>) returns (next: nat)
    requires HeaderOk(header) && offset + PREFIX + |header| <= arena.Length
    modifies arena
    ensures arena[..] == Patch(old(arena[..]), offset, RecordOf(base, header).Encoded())
    ensures next == offset + RecordOf(base, header).Size()
  {
    LayRecord(arena, offset, base, header);
    ghost var at := offset + PREFIX + HEADER_LENGTH;
    assert arena[..][at..at + 2] == RecordOf(base, header).Encoded()[PREFIX + HEADER_LENGTH..PREFIX + HEADER_LENGTH + 2]
                                 == header[HEADER_LENGTH..HEADER_LENGTH + 2];
    var headerLength := LoadField(arena, offset + PREFIX + HEADER_LENGTH, 2);
    next := offset + headerLength + PREFIX;
  }

  method LayRecord(arena: array<Byte>, offset: nat, base: nat, header: seq<Byte>)
    requires HeaderOk(header) && offset + PREFIX + |header| <= arena.Length
    modifies arena
    ensures arena[..] == Patch(old(arena[..]), offset, RecordOf(base, header).Encoded())
  {
    ghost var before := arena[..];
    StoreBytes(arena, offset + PREFIX, header);
    PatchRead(before, offset + PREFIX, header);
    var numOfBlocks := CountInArena(arena, offset + PREFIX, header);
    ghost var words := (Le(8, base), Le(8, numOfBlocks));
    StoreBytes(arena, offset, Le(8, base));
    StoreBytes(arena, offset + 8, Le(8, numOfBlocks));
    ThreePatches(before, offset, words.0, words.1, header);
    assert RecordOf(base, header).Encoded() == words.0 + words.1 + header;
  }

  lemma {:induction false} PatchRead(s: seq<Byte>, p: nat, bytes: seq<Byte>)
    requires p + |bytes| <= |s|
    ensures Patch(s, p, bytes)[p..p + |bytes|] == bytes
  {
  }

  /** Three adjacent fields stored one by one. */
  lemma {:induction false} ThreePatches(s: seq<Byte>, p: nat, x: seq<Byte>, y: seq<Byte>, z: seq<Byte>)
    requires p + |x| + |y| + |z| <= |s|
    ensures Patch(Patch(Patch(s, p + |x| + |y|, z), p, x), p + |x|, y) == Patch(s, p, x + y + z)
  {
  }

  lemma {:induction false} PrefixGrows(s: seq<Byte>, p: nat, bytes: seq<Byte>)
    requires p + |bytes| <= |s|
    ensures Patch(s, p, bytes)[..p + |bytes|] == s[..p] + bytes
  {
  }

  lemma {:induction false} AllOk(bases: seq<nat>, headers: seq<seq<Byte>>)
    requires HeadersOk(bases, headers)
    ensures RecordsOk(RecordsOf(bases, headers))
    decreases |bases|
  {
    if bases != [] {
      assert HeaderOk(headers[0]);
      AllOk(bases[1..], headers[1..]);
    }
  }

  // ----- a record is a volume -----

  /** The volume a record stands for. */
  function VolumeOf(r: Record): FvbSpec.Volume
    requires |r.header| >= BLOCK_MAP
  {
    Limits();
    FvbSpec.Volume(r.fvBase, r.numOfBlocks, Field(r.header, ATTRIBUTES, 4) as bv32, MapFrom(r.header, BLOCK_MAP))
  }

  function WithAttributes(r: Record, word: nat): Record
    requires |r.header| >= BLOCK_MAP
  {
    WithAttributeBytes(r, Le(4, word))
  }

  function WithAttributeBytes(r: Record, bytes: seq<Byte>): Record
    requires |r.header| >= BLOCK_MAP && |bytes| == 4
  {
    r.(header := Patch(r.header, ATTRIBUTES, bytes))
  }

  lemma {:induction false} MapUnchanged(h: seq<Byte>, h': seq<Byte>, p: nat)
    requires |h'| == |h| && p >= BLOCK_MAP && forall k :: BLOCK_MAP <= k < |h| ==> h'[k] == h[k]
    ensures MapFrom(h', p) == MapFrom(h, p)
    decreases |h| - p
  {
    if p + ENTRY <= |h| {
      assert EntryAt(h', p) == EntryAt(h, p) by {
        assert h'[p..p + 4] == h[p..p + 4] && h'[p + 4..p + 8] == h[p + 4..p + 8];
      }
      MapUnchanged(h, h', p + ENTRY);
    }
  }

  /** Storing an attribute word in a record changes the attributes of its volume and
      nothing else, and leaves the record well formed. */
  lemma {:induction false} AttributesOfRecord(r: Record, word: nat)
    requires RecordOk(r) && word < TWO32
    ensures RecordOk(WithAttributes(r, word)) && WithAttributes(r, word).Size() == r.Size()
    ensures VolumeOf(WithAttributes(r, word)) == VolumeOf(r).(attributes := word as bv32)
  {
    var h, h' := r.header, WithAttributes(r, word).header;
    Limits();
    LoadStored(4, word);
    assert h'[ATTRIBUTES..ATTRIBUTES + 4] == Le(4, word);
    assert h'[HEADER_LENGTH..HEADER_LENGTH + 2] == h[HEADER_LENGTH..HEADER_LENGTH + 2];
    MapUnchanged(h, h', BLOCK_MAP);
  }

  lemma {:induction false} ConcatUpdate(rs: seq<Record>, i: nat, r: Record)
    requires i < |rs| && r.Size() == rs[i].Size()
    ensures OffsetOf(rs, i) + r.Size() <= |Concat(rs)|
    ensures Concat(rs[i := r]) == Patch(Concat(rs), OffsetOf(rs, i), r.Encoded())
  {
    if i == 0 {
      assert rs[0 := r][1..] == rs[1..];
    } else {
      assert rs[i := r][1..] == rs[1..][i - 1 := r];
      ConcatUpdate(rs[1..], i - 1, r);
    }
  }

  /** Storing attributes through the record's address replaces that record only: all
      other records, and the strides to them, stay. */
  method StoreAttributes(arena: array<Byte>, numFv: nat, instance: nat, word: nat, ghost rs: seq<Record>)
    requires arena[..] == Concat(rs) && numFv == |rs| && RecordsOk(rs) && instance < numFv && word < TWO32
    modifies arena
    ensures RecordOk(rs[instance])
    ensures arena[..] == Concat(rs[instance := WithAttributes(rs[instance], word)])
    ensures RecordsOk(rs[instance := WithAttributes(rs[instance], word)])
  {
    assert RecordOk(rs[instance]);
    AttributesOfRecord(rs[instance], word);
    StoreAttributeBytes(arena, numFv, instance, Le(4, word), rs);
  }

  method StoreAttributeBytes(arena: array<Byte>, numFv: nat, instance: nat, bytes: seq<Byte>, ghost rs: seq<Record>)
    requires arena[..] == Concat(rs) && numFv == |rs| && RecordsOk(rs) && instance < numFv && |bytes| == 4
    modifies arena
    ensures |rs[instance].header| >= BLOCK_MAP
    ensures arena[..] == Concat(rs[instance := WithAttributeBytes(rs[instance], bytes)])
  {
    var r := GetFvbInstance(arena, numFv, instance, rs);
    assert RecordOk(rs[instance]);
    RecordInArena(rs, instance);
    ConcatUpdate(rs, instance, WithAttributeBytes(rs[instance], bytes));
    PatchInRecord(Concat(rs), OffsetOf(rs, instance), rs[instance], bytes);
    StoreBytes(arena, r.offset + PREFIX + ATTRIBUTES, bytes);
  }

  lemma {:induction false} PatchInRecord(s: seq<Byte>, at: nat, r: Record, bytes: seq<Byte>)
    requires |r.header| >= BLOCK_MAP && at + r.Size() <= |s| && s[at..at + r.Size()] == r.Encoded() && |bytes| == 4
    ensures Patch(s, at + PREFIX + ATTRIBUTES, bytes) == Patch(s, at, WithAttributeBytes(r, bytes).Encoded())
  {
    var lead := Le(8, r.fvBase) + Le(8, r.numOfBlocks);
    PatchInside(s, at, lead, r.header, ATTRIBUTES, bytes);
  }

  /** Replacing bytes of a part in place is replacing the part. */
  lemma {:induction false} PatchInside(
      s: seq<Byte>, at: nat, lead: seq<Byte>, part: seq<Byte>, p: nat, bytes: seq<Byte>)
    requires at + |lead| + |part| <= |s| && s[at..at + |lead| + |part|] == lead + part && p + |bytes| <= |part|
    ensures Patch(s, at + |lead| + p, bytes) == Patch(s, at, lead + Patch(part, p, bytes))
  {
    var q := at + |lead| + |part|;
    assert s == s[..at] + (lead + part) + s[q..];
    assert part == part[..p] + part[p..p + |bytes|] + part[p + |bytes|..];
    assert Patch(s, at + |lead| + p, bytes) == s[..at] + lead + Patch(part, p, bytes) + s[q..];
  }
}
