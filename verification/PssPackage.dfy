/** AcpiPlatform/AcpiPlatformHooks.c: what PatchGv3SsdtTable does to one NPSS or SPSS
    package, the table of performance states of a processor. The name of the package
    object starts at p, its AML name operator is the byte before. */
module PssPackage {
  import opened Bytes

  const AML_NAME_OP: Byte := 0x08
  const AML_NOOP_OP: Byte := 0xA3
  const ENTRY_SIZE: nat := 33

  /** One state of the processor as the speedstep driver reports it. */
  datatype PssState = PssState(
    coreFrequency: nat, power: nat, transitionLatency: nat, busMasterLatency: nat, control: nat, status: nat)

  // ----- package lengths (ACPI 5.0 section 20.2.4) -----

  /** The length two bytes encode: four bits in the lead byte, eight in the next one. */
  function DecodeLength(code: seq<Byte>): (n: nat)
    requires |code| == 2
    ensures n < 4096
  {
    var high: nat := code[1];
    code[0] % 16 + 16 * high
  }

  /** Bits 6 and 7 of the lead byte say that two bytes are used. */
  function EncodeLength(n: nat): (code: seq<Byte>)
    ensures |code| == 2
  {
    [0x40 + n % 16, n / 16 % 256]
  }

  lemma {:induction false} EncodedDecodes(n: nat)
    ensures DecodeLength(EncodeLength(n)) == n <==> n < 4096
  {
    assert (0x40 + n % 16) % 16 == n % 16;
    assert n < 4096 ==> n / 16 % 256 == n / 16;
  }

  lemma {:induction false} DecodedEncodes(code: seq<Byte>)
    requires |code| == 2
    ensures EncodeLength(DecodeLength(code)) == code <==> code[0] / 16 == 4
  {
    var m := DecodeLength(code);
    assert m % 16 == code[0] % 16 && m / 16 == code[1];
  }

  // ----- entries -----

  /** SPSS packages double and decuple the latencies. */
  function TransitionLatency(x: PssState, npss: bool): nat {
    if npss then x.transitionLatency else x.transitionLatency * 10
  }

  function BusMasterLatency(x: PssState, npss: bool): nat {
    if npss then x.busMasterLatency else x.busMasterLatency * 2
  }

  /** The six values of an entry, four bytes each. */
  datatype Values = Values(
    freq: seq<Byte>, power: seq<Byte>, trans: seq<Byte>, bus: seq<Byte>, control: seq<Byte>, status: seq<Byte>)
  {
    predicate Words() {
      |freq| == 4 && |power| == 4 && |trans| == 4 && |bus| == 4 && |control| == 4 && |status| == 4
    }
  }

  function ValuesOf(x: PssState, npss: bool): (v: Values)
    ensures v.Words()
  {
    Values(Le(4, x.coreFrequency * x.control), Le(4, x.power * 1000), Le(4, TransitionLatency(x, npss)),
           Le(4, BusMasterLatency(x, npss)), Le(4, x.control), Le(4, x.status))
  }

  /** Byte k of an entry: the operators and prefixes stay, the values change. */
  function EntryByte(was: seq<Byte>, v: Values, k: nat): Byte
    requires k < ENTRY_SIZE == |was| && v.Words()
  {
    if 4 <= k < 8 then v.freq[k - 4]
    else if 9 <= k < 13 then v.power[k - 9]
    else if 14 <= k < 18 then v.trans[k - 14]
    else if 19 <= k < 23 then v.bus[k - 19]
    else if 24 <= k < 28 then v.control[k - 24]
    else if 29 <= k then v.status[k - 29]
    else was[k]
  }

  function EntryWith(was: seq<Byte>, v: Values): (e: seq<Byte>)
    requires |was| == ENTRY_SIZE && v.Words()
    ensures |e| == ENTRY_SIZE
  {
    seq(ENTRY_SIZE, k requires 0 <= k < ENTRY_SIZE => EntryByte(was, v, k))
  }

  function EntryBytes(was: seq<Byte>, x: PssState, npss: bool): (e: seq<Byte>)
    requires |was| == ENTRY_SIZE
    ensures |e| == ENTRY_SIZE
  {
    EntryWith(was, ValuesOf(x, npss))
  }

  function WriteEntry(s: seq<Byte>, at: nat, x: PssState, npss: bool): (r: seq<Byte>)
    requires at + ENTRY_SIZE <= |s|
    ensures |r| == |s|
  {
    Patch(s, at, EntryBytes(s[at..at + ENTRY_SIZE], x, npss))
  }

  /** The first n states written from an offset on, the last one of them first. */
  function WriteEntries(s: seq<Byte>, at: nat, states: seq<PssState>, n: nat, npss: bool): (r: seq<Byte>)
    requires n <= |states| && at + ENTRY_SIZE * n <= |s|
    ensures |r| == |s|
    decreases n
  {
    if n == 0 then s
    else WriteEntries(WriteEntry(s, at, states[n - 1], npss), at + ENTRY_SIZE, states, n - 1, npss)
  }

  ghost predicate Same(s: seq<Byte>, t: seq<Byte>, from: nat, to: nat)
    requires to <= |s| && to <= |t|
  {
    forall k :: from <= k < to ==> s[k] == t[k]
  }

  lemma {:induction false} EntriesFrame(s: seq<Byte>, at: nat, states: seq<PssState>, n: nat, npss: bool)
    requires n <= |states| && at + ENTRY_SIZE * n <= |s|
    ensures Same(WriteEntries(s, at, states, n, npss), s, 0, at)
    ensures Same(WriteEntries(s, at, states, n, npss), s, at + ENTRY_SIZE * n, |s|)
    decreases n
  {
    if n > 0 {
      EntriesFrame(WriteEntry(s, at, states[n - 1], npss), at + ENTRY_SIZE, states, n - 1, npss);
    }
  }

  lemma {:induction false} EntryWritten(s: seq<Byte>, at: nat, states: seq<PssState>, n: nat, npss: bool, i: nat)
    requires n <= |states| && at + ENTRY_SIZE * n <= |s| && i < n
    ensures
      var from := at + ENTRY_SIZE * i;
      WriteEntries(s, at, states, n, npss)[from..from + ENTRY_SIZE]
      == EntryBytes(s[from..from + ENTRY_SIZE], states[n - 1 - i], npss)
    decreases n
  {
    if i == 0 {
      FirstWritten(s, at, states, n, npss);
    } else {
      var w, from := WriteEntry(s, at, states[n - 1], npss), at + ENTRY_SIZE * i;
      EntryWritten(w, at + ENTRY_SIZE, states, n - 1, npss, i - 1);
      assert Same(w, s, from, from + ENTRY_SIZE);
      SameSlice(w, s, from, from + ENTRY_SIZE);
    }
  }

  lemma {:induction false} FirstWritten(s: seq<Byte>, at: nat, states: seq<PssState>, n: nat, npss: bool)
    requires 0 < n <= |states| && at + ENTRY_SIZE * n <= |s|
    ensures
      WriteEntries(s, at, states, n, npss)[at..at + ENTRY_SIZE]
      == EntryBytes(s[at..at + ENTRY_SIZE], states[n - 1], npss)
  {
    var w, next := WriteEntry(s, at, states[n - 1], npss), at + ENTRY_SIZE;
    EntriesFrame(w, next, states, n - 1, npss);
    SameSlice(WriteEntries(s, at, states, n, npss), w, at, next);
  }

  lemma {:induction false} SameSlice(s: seq<Byte>, t: seq<Byte>, from: nat, to: nat)
    requires from <= to <= |s| && to <= |t| && Same(s, t, from, to)
    ensures s[from..to] == t[from..to]
  {
  }

  lemma {:induction false} EntryTwice(was: seq<Byte>, x: PssState, npss: bool)
    requires |was| == ENTRY_SIZE
    ensures EntryBytes(EntryBytes(was, x, npss), x, npss) == EntryBytes(was, x, npss)
  {
  }

  /** The six values of a written entry, as 32-bit words, and its operators and prefixes. */
  predicate EntryHolds(e: seq<Byte>, was: seq<Byte>, x: PssState, npss: bool)
    requires |e| == ENTRY_SIZE == |was|
  {
    && Field(e, 4, 4) == x.coreFrequency * x.control % 0x1_0000_0000
    && Field(e, 9, 4) == x.power * 1000 % 0x1_0000_0000
    && Field(e, 14, 4) == (if npss then x.transitionLatency else 10 * x.transitionLatency) % 0x1_0000_0000
    && Field(e, 19, 4) == (if npss then x.busMasterLatency else 2 * x.busMasterLatency) % 0x1_0000_0000
    && Field(e, 24, 4) == x.control % 0x1_0000_0000
    && Field(e, 29, 4) == x.status % 0x1_0000_0000
    && e[..4] == was[..4] && e[8] == was[8] && e[13] == was[13] && e[18] == was[18]
    && e[23] == was[23] && e[28] == was[28]
  }

  lemma {:induction false} LoadWord(v: nat)
    ensures FromLe(Le(4, v)) == v % 0x1_0000_0000
  {
    LoadLow(4, v);
    Limits();
  }

  lemma {:induction false} ValuesStored(was: seq<Byte>, v: Values)
    requires |was| == ENTRY_SIZE && v.Words()
    ensures
      var e := EntryWith(was, v);
      && e[4..8] == v.freq && e[9..13] == v.power && e[14..18] == v.trans
      && e[19..23] == v.bus && e[24..28] == v.control && e[29..33] == v.status
      && e[..4] == was[..4] && e[8] == was[8] && e[13] == was[13] && e[18] == was[18]
      && e[23] == was[23] && e[28] == was[28]
  {
  }

  lemma {:induction false} EntryBytesHold(was: seq<Byte>, x: PssState, npss: bool)
    requires |was| == ENTRY_SIZE
    ensures EntryHolds(EntryBytes(was, x, npss), was, x, npss)
  {
    ValuesStored(was, ValuesOf(x, npss));
    LoadWord(x.coreFrequency * x.control);
    LoadWord(x.power * 1000);
    LoadWord(TransitionLatency(x, npss));
    LoadWord(BusMasterLatency(x, npss));
    LoadWord(x.control);
    LoadWord(x.status);
  }

  // ----- the package -----

  const SIZE: nat := 5
  const COUNT: nat := 7
  const ENTRIES: nat := 8

  function PackageSize(s: seq<Byte>, p: nat): (n: nat)
    requires p + ENTRIES <= |s|
    ensures n < 4096
  {
    DecodeLength([s[p + SIZE], s[p + SIZE + 1]])
  }

  /** A package object of count entries whose length covers just them. */
  predicate WellFormed(s: seq<Byte>, p: nat, count: nat) {
    && 1 <= p && p + ENTRIES + ENTRY_SIZE * count <= |s| && s[p - 1] == AML_NAME_OP
    && s[p + COUNT] == count && PackageSize(s, p) == 3 + ENTRY_SIZE * count
  }

  /** Shrinking the package to n entries writes inside the buffer. */
  predicate Contained(s: seq<Byte>, p: nat, n: nat) {
    && p + ENTRIES + ENTRY_SIZE * n <= |s| && n <= s[p + COUNT]
    && ENTRY_SIZE * (s[p + COUNT] - n) <= PackageSize(s, p)
    && (s[p + COUNT] == n || p + SIZE + PackageSize(s, p) <= |s|)
  }

  function Noops(n: nat): (s: seq<Byte>)
    ensures |s| == n
  {
    seq(n, _ => AML_NOOP_OP)
  }

  /** The new length and count, and no-operations in place of the entries that go. */
  function PatchHeader(s: seq<Byte>, p: nat, n: nat): (r: seq<Byte>)
    requires Contained(s, p, n)
    ensures |r| == |s|
  {
    var surplus := ENTRY_SIZE * (s[p + COUNT] - n);
    Resized(s, p, PackageSize(s, p) - surplus, surplus)[p + COUNT := n]
  }

  /** A new length, and no-operations behind that many bytes. */
  function Resized(s: seq<Byte>, p: nat, size: nat, surplus: nat): (r: seq<Byte>)
    requires p + ENTRIES <= |s| && (surplus == 0 || p + SIZE + size + surplus <= |s|)
    ensures |r| == |s|
  {
    var resized := Patch(s, p + SIZE, EncodeLength(size));
    if surplus == 0 then resized else Patch(resized, p + SIZE + size, Noops(surplus))
  }

  /** The states in reverse order. */
  function PatchPackage(s: seq<Byte>, p: nat, states: seq<PssState>, npss: bool): (r: seq<Byte>)
    requires Contained(s, p, |states|)
    ensures |r| == |s|
  {
    WriteEntries(PatchHeader(s, p, |states|), p + ENTRIES, states, |states|, npss)
  }

  lemma {:induction false} PackageFrame(s: seq<Byte>, p: nat, states: seq<PssState>, npss: bool)
    requires Contained(s, p, |states|)
    ensures Same(PatchPackage(s, p, states, npss), s, 0, p + SIZE)
  {
    EntriesFrame(PatchHeader(s, p, |states|), p + ENTRIES, states, |states|, npss);
  }

  /** Where entry i of the package starts. */
  function EntryAt(p: nat, i: nat): nat {
    p + ENTRIES + ENTRY_SIZE * i
  }

  function PackageEntry(s: seq<Byte>, p: nat, i: nat): (e: seq<Byte>)
    requires EntryAt(p, i + 1) <= |s|
    ensures |e| == ENTRY_SIZE
  {
    s[EntryAt(p, i)..EntryAt(p, i + 1)]
  }

  lemma {:induction false} HeaderPatched(s: seq<Byte>, p: nat, count: nat, n: nat)
    requires WellFormed(s, p, count) && n <= count
    ensures Contained(s, p, n) && Shrunk(PatchHeader(s, p, n), s, p, count, n)
  {
    var size := 3 + ENTRY_SIZE * n;
    var h, at, code := PatchHeader(s, p, n), p + SIZE, EncodeLength(size);
    EncodedDecodes(size);
    assert h[at] == code[0] && h[at + 1] == code[1];
  }

  lemma {:induction false} SameEntry(s: seq<Byte>, t: seq<Byte>, p: nat, i: nat)
    requires |s| == |t| && EntryAt(p, i + 1) <= |s| && Same(s, t, EntryAt(p, i), EntryAt(p, i + 1))
    ensures PackageEntry(s, p, i) == PackageEntry(t, p, i)
  {
  }

  lemma {:induction false} EntryPatched(
      h: seq<Byte>, s: seq<Byte>, p: nat, states: seq<PssState>, npss: bool, i: nat)
    requires |h| == |s| && EntryAt(p, |states|) <= |s| && i < |states|
    requires Same(h, s, EntryAt(p, 0), EntryAt(p, |states|))
    ensures
      var r := WriteEntries(h, EntryAt(p, 0), states, |states|, npss);
      EntryHolds(PackageEntry(r, p, i), PackageEntry(s, p, i), states[|states| - 1 - i], npss)
  {
    EntryWritten(h, EntryAt(p, 0), states, |states|, npss, i);
    SameEntry(h, s, p, i);
    EntryBytesHold(PackageEntry(s, p, i), states[|states| - 1 - i], npss);
  }

  lemma {:induction false} RestPatched(h: seq<Byte>, p: nat, states: seq<PssState>, npss: bool)
    requires WellFormed(h, p, |states|)
    ensures
      var r, to := WriteEntries(h, EntryAt(p, 0), states, |states|, npss), EntryAt(p, |states|);
      WellFormed(r, p, |states|) && Same(r, h, 0, EntryAt(p, 0)) && Same(r, h, to, |h|)
  {
    EntriesFrame(h, EntryAt(p, 0), states, |states|, npss);
  }

  /** In r the package has the states in reverse order, padded to the old end with
      no-operations; its operators and prefixes are those of s. */
  ghost predicate PackageHolds(r: seq<Byte>, s: seq<Byte>, p: nat, count: nat, states: seq<PssState>, npss: bool) {
    && |r| == |s| && |states| <= count && EntryAt(p, count) <= |s|
    && WellFormed(r, p, |states|)
    && (forall i: nat :: i < |states| ==>
         EntryHolds(PackageEntry(r, p, i), PackageEntry(s, p, i), states[|states| - 1 - i], npss))
    && (forall k :: EntryAt(p, |states|) <= k < EntryAt(p, count) ==> r[k] == AML_NOOP_OP)
  }

  /** Nothing before the length or behind the old end differs. */
  ghost predicate SameAround(r: seq<Byte>, s: seq<Byte>, p: nat, count: nat) {
    |r| == |s| && EntryAt(p, count) <= |s| && Same(r, s, 0, p + SIZE) && Same(r, s, EntryAt(p, count), |s|)
  }

  /** What PatchHeader leaves of a package: shorter, with the entries to come as they were. */
  ghost predicate Shrunk(h: seq<Byte>, s: seq<Byte>, p: nat, count: nat, n: nat) {
    && |h| == |s| && n <= count && EntryAt(p, count) <= |s| && WellFormed(h, p, n)
    && Same(h, s, 0, p + SIZE) && Same(h, s, EntryAt(p, 0), EntryAt(p, n)) && Same(h, s, EntryAt(p, count), |s|)
    && (forall k :: EntryAt(p, n) <= k < EntryAt(p, count) ==> h[k] == AML_NOOP_OP)
  }

  lemma {:induction false} ShrunkHolds(
      h: seq<Byte>, s: seq<Byte>, p: nat, count: nat, states: seq<PssState>, npss: bool)
    requires Shrunk(h, s, p, count, |states|)
    ensures
      var r := WriteEntries(h, EntryAt(p, 0), states, |states|, npss);
      PackageHolds(r, s, p, count, states, npss) && SameAround(r, s, p, count)
  {
    var r := WriteEntries(h, EntryAt(p, 0), states, |states|, npss);
    RestPatched(h, p, states, npss);
    forall i: nat | i < |states|
      ensures EntryHolds(PackageEntry(r, p, i), PackageEntry(s, p, i), states[|states| - 1 - i], npss)
    {
      EntryPatched(h, s, p, states, npss, i);
    }
  }

  /** Patching a well-formed package gives a well-formed package of the states, padded with
      no-operations to the old end; nothing before the length or behind the end changes. */
  lemma {:induction false} PackagePatched(s: seq<Byte>, p: nat, count: nat, states: seq<PssState>, npss: bool)
    requires WellFormed(s, p, count) && |states| <= count
    ensures Contained(s, p, |states|)
    ensures PackageHolds(PatchPackage(s, p, states, npss), s, p, count, states, npss)
    ensures SameAround(PatchPackage(s, p, states, npss), s, p, count)
  {
    HeaderPatched(s, p, count, |states|);
    assert PatchPackage(s, p, states, npss)
        == WriteEntries(PatchHeader(s, p, |states|), EntryAt(p, 0), states, |states|, npss);
    ShrunkHolds(PatchHeader(s, p, |states|), s, p, count, states, npss);
  }

  // ----- the empty length -----

  lemma {:induction false} EntriesFixed(s: seq<Byte>, at: nat, states: seq<PssState>, n: nat, npss: bool)
    requires n <= |states| && at + ENTRY_SIZE * n <= |s|
    requires forall i: nat :: i < n ==> EntryFixed(s, at + ENTRY_SIZE * i, states[n - 1 - i], npss)
    ensures WriteEntries(s, at, states, n, npss) == s
    decreases n
  {
    if n > 0 {
      assert EntryFixed(s, at + ENTRY_SIZE * 0, states[n - 1 - 0], npss);
      var next := at + ENTRY_SIZE;
      assert WriteEntry(s, at, states[n - 1], npss) == s;
      forall i: nat | i < n - 1
        ensures EntryFixed(s, next + ENTRY_SIZE * i, states[n - 1 - 1 - i], npss)
      {
        assert EntryFixed(s, at + ENTRY_SIZE * (i + 1), states[n - 1 - (i + 1)], npss);
      }
      EntriesFixed(s, next, states, n - 1, npss);
    }
  }

  predicate EntryFixed(s: seq<Byte>, at: nat, x: PssState, npss: bool) {
    at + ENTRY_SIZE <= |s| && EntryBytes(s[at..at + ENTRY_SIZE], x, npss) == s[at..at + ENTRY_SIZE]
  }

  lemma {:induction false} EntriesTwice(s: seq<Byte>, at: nat, states: seq<PssState>, npss: bool)
    requires at + ENTRY_SIZE * |states| <= |s|
    ensures
      var r := WriteEntries(s, at, states, |states|, npss);
      WriteEntries(r, at, states, |states|, npss) == r
  {
    var n, r := |states|, WriteEntries(s, at, states, |states|, npss);
    forall i: nat | i < n
      ensures EntryFixed(r, at + ENTRY_SIZE * i, states[n - 1 - i], npss)
    {
      var from := at + ENTRY_SIZE * i;
      EntryWritten(s, at, states, n, npss, i);
      EntryTwice(s[from..from + ENTRY_SIZE], states[n - 1 - i], npss);
    }
    EntriesFixed(r, at, states, n, npss);
  }

  lemma {:induction false} UpdateSame(s: seq<Byte>, k: nat, b: Byte)
    requires k < |s| && s[k] == b
    ensures s[k := b] == s
  {
  }

  lemma {:induction false} ResizedFixed(r: seq<Byte>, p: nat)
    requires p + ENTRIES <= |r| && r[p + SIZE] == 0x40 && r[p + SIZE + 1] == 0
    ensures Resized(r, p, 0, 0) == r
  {
    assert EncodeLength(0) == [0x40, 0];
  }

  lemma {:induction false} HeaderFixed(r: seq<Byte>, p: nat, n: nat)
    requires p + ENTRIES + ENTRY_SIZE * n <= |r|
    requires n < 256 && r[p + SIZE] == 0x40 && r[p + SIZE + 1] == 0 && r[p + COUNT] == n
    ensures Contained(r, p, n) && PackageSize(r, p) == 0 && PatchHeader(r, p, n) == r
  {
    assert DecodeLength([0x40, 0]) == 0;
    ResizedFixed(r, p);
    assert PatchHeader(r, p, n) == Resized(r, p, 0, 0)[p + COUNT := n];
    UpdateSame(r, p + COUNT, n);
  }

  lemma {:induction false} EmptyHeader(s: seq<Byte>, p: nat, n: nat)
    requires Contained(s, p, n) && PackageSize(s, p) == 0
    ensures
      var h := PatchHeader(s, p, n);
      h[p + SIZE] == 0x40 && h[p + SIZE + 1] == 0 && h[p + COUNT] == n
  {
    var code := EncodeLength(0);
    assert PatchHeader(s, p, n) == Patch(s, p + SIZE, code)[p + COUNT := n];
    assert code == [0x40, 0];
  }

  /** A package length of 0 makes the scan stand still: the patch leaves a length of 0 and
      patching again changes nothing. */
  lemma {:induction false} EmptyPackageSticks(s: seq<Byte>, p: nat, states: seq<PssState>, npss: bool)
    requires Contained(s, p, |states|) && PackageSize(s, p) == 0
    ensures
      var r := PatchPackage(s, p, states, npss);
      Contained(r, p, |states|) && PackageSize(r, p) == 0 && PatchPackage(r, p, states, npss) == r
  {
    var h, r, from := PatchHeader(s, p, |states|), PatchPackage(s, p, states, npss), p + ENTRIES;
    EntriesFrame(h, from, states, |states|, npss);
    EmptyHeader(s, p, |states|);
    HeaderFixed(r, p, |states|);
    EntriesTwice(h, from, states, npss);
  }

  // ----- in place -----

  lemma {:induction false} PatchByte(s: seq<Byte>, p: nat, bytes: seq<Byte>, k: nat)
    requires p + |bytes| <= |s| && k < |s|
    ensures Patch(s, p, bytes)[k] == if p <= k < p + |bytes| then bytes[k - p] else s[k]
  {
  }

  /** The values one after the other, in the order the code stores them. */
  lemma {:induction false} ValueByValue(e: seq<Byte>, v: Values)
    requires |e| == ENTRY_SIZE && v.Words()
    ensures
      Patch(Patch(Patch(Patch(Patch(Patch(e, 4, v.freq), 9, v.power), 19, v.bus), 14, v.trans), 24, v.control),
            29, v.status) == EntryWith(e, v)
  {
    var e1 := Patch(e, 4, v.freq);
    var e2 := Patch(e1, 9, v.power);
    var e3 := Patch(e2, 19, v.bus);
    var e4 := Patch(e3, 14, v.trans);
    var e5 := Patch(e4, 24, v.control);
    forall k | 0 <= k < ENTRY_SIZE
      ensures Patch(e5, 29, v.status)[k] == EntryWith(e, v)[k]
    {
      PatchByte(e, 4, v.freq, k);
      PatchByte(e1, 9, v.power, k);
      PatchByte(e2, 19, v.bus, k);
      PatchByte(e3, 14, v.trans, k);
      PatchByte(e4, 24, v.control, k);
      PatchByte(e5, 29, v.status, k);
    }
  }

  /** Stores one value of the entry e that stands at an offset of s. */
  method StoreValue(table: array<Byte>, at: nat, k: nat, v: seq<Byte>, ghost s: seq<Byte>, ghost e: seq<Byte>)
    returns (ghost e': seq<Byte>)
    requires at + |e| <= |s| && table[..] == Patch(s, at, e) && k + |v| <= |e|
    modifies table
    ensures e' == Patch(e, k, v) && table[..] == Patch(s, at, e')
  {
    StoreBytes(table, at + k, v);
    PatchField(s, at, e, k, v);
    e' := Patch(e, k, v);
  }

  lemma {:induction false} PatchField(s: seq<Byte>, at: nat, e: seq<Byte>, k: nat, bytes: seq<Byte>)
    requires at + |e| <= |s| && k + |bytes| <= |e|
    ensures Patch(Patch(s, at, e), at + k, bytes) == Patch(s, at, Patch(e, k, bytes))
  {
  }

  method StoreValues(table: array<Byte>, at: nat, v: Values, ghost s: seq<Byte>, ghost e: seq<Byte>)
    requires v.Words() && |e| == ENTRY_SIZE && at + ENTRY_SIZE <= |s| && table[..] == Patch(s, at, e)
    modifies table
    ensures table[..] == Patch(s, at, EntryWith(e, v))
  {
    ghost var e1 := StoreValue(table, at, 4, v.freq, s, e);
    ghost var e2 := StoreValue(table, at, 9, v.power, s, e1);
    ghost var e3 := StoreValue(table, at, 19, v.bus, s, e2);
    ghost var e4 := StoreValue(table, at, 14, v.trans, s, e3);
    ghost var e5 := StoreValue(table, at, 24, v.control, s, e4);
    ghost var e6 := StoreValue(table, at, 29, v.status, s, e5);
    ValueByValue(e, v);
  }

  method StoreEntry(table: array<Byte>, at: nat, x: PssState, npss: bool)
    requires at + ENTRY_SIZE <= table.Length
    modifies table
    ensures table[..] == WriteEntry(old(table[..]), at, x, npss)
  {
    assert table[..] == Patch(table[..], at, table[at..at + ENTRY_SIZE]);
    StoreValues(table, at, ValuesOf(x, npss), table[..], table[at..at + ENTRY_SIZE]);
  }

  method StoreLength(table: array<Byte>, p: nat, size: nat, surplus: nat)
    requires p + ENTRIES <= table.Length && (surplus == 0 || p + SIZE + size + surplus <= table.Length)
    modifies table
    ensures table[..] == Resized(old(table[..]), p, size, surplus)
  {
    StoreBytes(table, p + SIZE, EncodeLength(size));
    if surplus > 0 {
      StoreBytes(table, p + SIZE + size, Noops(surplus));
    }
  }

  method StoreHeader(table: array<Byte>, p: nat, n: nat)
    requires Contained(table[..], p, n)
    modifies table
    ensures table[..] == PatchHeader(old(table[..]), p, n)
  {
    var surplus := ENTRY_SIZE * (table[p + COUNT] - n);
    var size := PackageSize(table[..], p) - surplus;
    StoreLength(table, p, size, surplus);
    table[p + COUNT] := n;
  }

  /** The loop over the states, last one first. */
  method StoreEntries(table: array<Byte>, start: nat, states: seq<PssState>, npss: bool)
    requires start + ENTRY_SIZE * |states| <= table.Length
    modifies table
    ensures table[..] == WriteEntries(old(table[..]), start, states, |states|, npss)
  {
    ghost var goal := WriteEntries(table[..], start, states, |states|, npss);
    var at := start;
    for i := 0 to |states|
      invariant at == start + ENTRY_SIZE * i
      invariant WriteEntries(table[..], at, states, |states| - i, npss) == goal
    {
      StoreEntry(table, at, states[|states| - i - 1], npss);
      at := at + ENTRY_SIZE;
    }
  }

  /** The body of the NPSS and SPSS cases. */
  method StorePackage(table: array<Byte>, p: nat, states: seq<PssState>, npss: bool)
    requires Contained(table[..], p, |states|)
    modifies table
    ensures table[..] == PatchPackage(old(table[..]), p, states, npss)
  {
    StoreHeader(table, p, |states|);
    StoreEntries(table, p + ENTRIES, states, npss);
  }
}
