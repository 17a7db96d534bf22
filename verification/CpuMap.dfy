/** AcpiPlatform/AcpiPlatformHooks.c: the table that maps APIC ids to ACPI processor
    ids, filled while the MADT is patched. */
module CpuMap {
  import opened Bytes

  /** MAX_THREAD * MAX_CORE * MAX_DIE * MAX_CPU_SOCKET. */
  const MAX_CPU_NUM: nat := 4
  const NO_APIC_ID: nat := 0xFFFF_FFFF

  datatype Entry = Entry(acpiProcessorId: Byte, apicId: Byte, flags: nat)

  /** A local APIC structure handed to AppendCpuMapTableEntry. */
  datatype LocalApic = LocalApic(acpiProcessorId: Byte, apicId: Byte)

  function EntryOf(l: LocalApic): Entry {
    Entry(l.acpiProcessorId, l.apicId, 1)
  }

  // ----- what a sequence of appends means -----

  predicate Known(ls: seq<LocalApic>, apicId: Byte) {
    exists i :: 0 <= i < |ls| && ls[i].apicId == apicId
  }

  /** The first structure with each APIC id, in the order they came. */
  function Dedup(ls: seq<LocalApic>): (r: seq<LocalApic>)
    ensures forall id :: Known(r, id) <==> Known(ls, id)
    ensures forall i, j :: 0 <= i < j < |r| ==> r[i].apicId != r[j].apicId
    ensures |r| <= |ls|
  {
    if ls == [] then []
    else
      var init, last := ls[..|ls| - 1], ls[|ls| - 1];
      var r := Dedup(init);
      assert forall id :: Known(ls, id) <==> Known(init, id) || id == last.apicId by {
        KnownLast(ls);
      }
      if Known(init, last.apicId) then r
      else
        assert forall id :: Known(r + [last], id) <==> Known(r, id) || id == last.apicId by {
          assert (r + [last])[..|r|] == r;
          KnownLast(r + [last]);
        }
        r + [last]
  }

  lemma {:induction false} KnownLast(ls: seq<LocalApic>)
    requires ls != []
    ensures forall id :: Known(ls, id) <==> Known(ls[..|ls| - 1], id) || id == ls[|ls| - 1].apicId
  {
    forall id | Known(ls, id)
      ensures Known(ls[..|ls| - 1], id) || id == ls[|ls| - 1].apicId
    {
      var i :| 0 <= i < |ls| && ls[i].apicId == id;
      if i < |ls| - 1 {
        assert ls[..|ls| - 1][i].apicId == id;
      }
    }
    forall id | Known(ls[..|ls| - 1], id)
      ensures Known(ls, id)
    {
      var i :| 0 <= i < |ls| - 1 && ls[..|ls| - 1][i].apicId == id;
      assert ls[i].apicId == id;
    }
  }

  /** Structure i is the first one of its APIC id. */
  predicate IsFirst(ls: seq<LocalApic>, i: nat) {
    i < |ls| && forall j :: 0 <= j < i ==> ls[j].apicId != ls[i].apicId
  }

  /** Every kept structure is the first one with its APIC id. */
  lemma {:induction false} DedupKeepsFirst(ls: seq<LocalApic>, k: nat) returns (i: nat)
    requires k < |Dedup(ls)|
    ensures IsFirst(ls, i) && ls[i] == Dedup(ls)[k]
  {
    var init, last := ls[..|ls| - 1], ls[|ls| - 1];
    if k < |Dedup(init)| {
      i := DedupKeepsFirst(init, k);
      assert forall j :: 0 <= j <= i ==> init[j] == ls[j];
    } else {
      i := |ls| - 1;
      assert !Known(init, last.apicId);
      forall j | 0 <= j < i
        ensures ls[j].apicId != ls[i].apicId
      {
        assert init[j] == ls[j];
      }
    }
  }

  /** The kept structures are the first ones of their APIC ids, all of them, in the order in
      which they came. */
  lemma {:induction false} DedupInOrder(ls: seq<LocalApic>, i: nat, j: nat) returns (k: nat, l: nat)
    requires i <= j && IsFirst(ls, i) && IsFirst(ls, j)
    ensures k <= l < |Dedup(ls)| && (k == l <==> i == j)
    ensures Dedup(ls)[k] == ls[i] && Dedup(ls)[l] == ls[j]
  {
    var n, init, last := |ls| - 1, ls[..|ls| - 1], ls[|ls| - 1];
    if j < n {
      assert IsFirst(init, i) && IsFirst(init, j);
      k, l := DedupInOrder(init, i, j);
    } else {
      LastIsFirst(ls);
      l := |Dedup(init)|;
      if i < n {
        assert IsFirst(init, i);
        k, l := DedupInOrder(init, i, i);
        l := |Dedup(init)|;
      } else {
        k := l;
      }
    }
  }

  lemma {:induction false} LastIsFirst(ls: seq<LocalApic>)
    requires ls != [] && IsFirst(ls, |ls| - 1)
    ensures Dedup(ls) == Dedup(ls[..|ls| - 1]) + [ls[|ls| - 1]]
  {
    var init, last := ls[..|ls| - 1], ls[|ls| - 1];
    forall j | 0 <= j < |init|
      ensures init[j].apicId != last.apicId
    {
      assert init[j] == ls[j];
    }
    assert !Known(init, last.apicId);
  }

  function First(ls: seq<LocalApic>): seq<LocalApic> {
    if |ls| <= MAX_CPU_NUM then ls else ls[..MAX_CPU_NUM]
  }

  /** The table after the appends ls: used entries without a gap, then unused ones. */
  ghost predicate Holds(table: seq<Entry>, ls: seq<LocalApic>) {
    && |table| == MAX_CPU_NUM
    && var kept := First(Dedup(ls));
       && (forall k :: 0 <= k < |kept| ==> table[k] == EntryOf(kept[k]))
       && (forall k :: |kept| <= k < MAX_CPU_NUM ==> table[k].flags == 0)
  }

  ghost predicate Full(s: seq<Entry>) {
    forall k :: 0 <= k < |s| ==> s[k].flags != 0
  }

  /** Entry i was the first unused one and is now the given one. */
  ghost predicate Filled(s: seq<Entry>, t: seq<Entry>, i: nat, entry: Entry) {
    && i < |s| && t == s[i := entry] && s[i].flags == 0
    && forall k :: 0 <= k < i ==> s[k].flags != 0
  }

  lemma {:induction false} KnownKept(ls: seq<LocalApic>, apicId: Byte)
    ensures Known(First(Dedup(ls)), apicId) ==> Known(ls, apicId)
    ensures |Dedup(ls)| <= MAX_CPU_NUM ==> (Known(First(Dedup(ls)), apicId) <==> Known(ls, apicId))
  {
    var d := Dedup(ls);
    if Known(First(d), apicId) {
      var i :| 0 <= i < |First(d)| && First(d)[i].apicId == apicId;
      assert d[i].apicId == apicId;
      assert Known(d, apicId);
    }
  }

  lemma {:induction false} AppendKnown(table: seq<Entry>, ls: seq<LocalApic>, l: LocalApic)
    requires Holds(table, ls) && Known(First(Dedup(ls)), l.apicId)
    ensures Holds(table, ls + [l])
  {
    KnownKept(ls, l.apicId);
    assert (ls + [l])[..|ls|] == ls;
  }

  /** An unknown structure takes the first unused entry; in a full table it is not kept. */
  lemma {:induction false} AppendNew(table: seq<Entry>, after: seq<Entry>, ls: seq<LocalApic>, l: LocalApic)
    requires Holds(table, ls) && !Known(First(Dedup(ls)), l.apicId)
    requires
      || (after == table && Full(table))
      || exists i: nat :: Filled(table, after, i, EntryOf(l))
    ensures Holds(after, ls + [l])
  {
    var d, now := Dedup(ls), ls + [l];
    KnownKept(ls, l.apicId);
    assert now[..|ls|] == ls;
    assert Dedup(now) == d || Dedup(now) == d + [l];
    if after == table && Full(table) {
      FullKeeps(table, ls, Dedup(now));
    } else {
      var i: nat :| Filled(table, after, i, EntryOf(l));
      FirstUnused(table, after, ls, i, EntryOf(l));
      assert Known(First(d), l.apicId) <==> Known(ls, l.apicId);
    }
  }

  lemma {:induction false} NextUnused(table: seq<Entry>, ls: seq<LocalApic>)
    requires Holds(table, ls)
    ensures |First(Dedup(ls))| < MAX_CPU_NUM ==> table[|First(Dedup(ls))|].flags == 0
  {
  }

  lemma {:induction false} FullKeeps(table: seq<Entry>, ls: seq<LocalApic>, d: seq<LocalApic>)
    requires Holds(table, ls) && Full(table) && Dedup(ls) <= d
    ensures First(d) == First(Dedup(ls))
  {
    NextUnused(table, ls);
    assert d[..MAX_CPU_NUM] == Dedup(ls)[..MAX_CPU_NUM];
  }

  lemma {:induction false} FirstUnused(
      table: seq<Entry>, after: seq<Entry>, ls: seq<LocalApic>, i: nat, entry: Entry)
    requires Holds(table, ls) && Filled(table, after, i, entry)
    ensures i == |Dedup(ls)| < MAX_CPU_NUM
  {
    var kept := First(Dedup(ls));
    assert i < |kept| ==> table[i] == EntryOf(kept[i]);
    NextUnused(table, ls);
  }

  /** The APIC id of the first structure with that processor id. */
  function ApicOf(ls: seq<LocalApic>, acpiProcessorId: nat): nat {
    if ls == [] then NO_APIC_ID
    else if ls[0].acpiProcessorId == acpiProcessorId then ls[0].apicId
    else ApicOf(ls[1..], acpiProcessorId)
  }

  /** How many structures have bit 4 of their APIC id equal to the package. */
  function InPackage(ls: seq<LocalApic>, package: Byte): nat {
    if ls == [] then 0
    else (if (ls[0].apicId / 0x10) % 2 == package then 1 else 0) + InPackage(ls[1..], package)
  }

  /** Structure k is the first one with the processor id. */
  ghost predicate FirstCpu(ls: seq<LocalApic>, acpiProcessorId: nat, k: nat) {
    && k < |ls| && ls[k].acpiProcessorId == acpiProcessorId
    && forall j :: 0 <= j < k ==> ls[j].acpiProcessorId != acpiProcessorId
  }

  lemma {:induction false} ApicOfFirst(ls: seq<LocalApic>, acpiProcessorId: nat)
    ensures forall k: nat :: FirstCpu(ls, acpiProcessorId, k) ==> ApicOf(ls, acpiProcessorId) == ls[k].apicId
    ensures
      (forall k: nat :: !FirstCpu(ls, acpiProcessorId, k)) ==> ApicOf(ls, acpiProcessorId) == 0xFFFF_FFFF
  {
    if ls != [] && ls[0].acpiProcessorId == acpiProcessorId {
      assert FirstCpu(ls, acpiProcessorId, 0);
    } else if ls != [] {
      ApicOfFirst(ls[1..], acpiProcessorId);
      forall k: nat ensures FirstCpu(ls[1..], acpiProcessorId, k) <==> FirstCpu(ls, acpiProcessorId, k + 1) {
        FirstCpuNext(ls, acpiProcessorId, k);
      }
      forall k: nat | FirstCpu(ls, acpiProcessorId, k)
        ensures ApicOf(ls, acpiProcessorId) == ls[k].apicId
      {
        assert FirstCpu(ls[1..], acpiProcessorId, k - 1);
      }
    }
  }

  lemma {:induction false} FirstCpuNext(ls: seq<LocalApic>, acpiProcessorId: nat, k: nat)
    requires ls != [] && ls[0].acpiProcessorId != acpiProcessorId
    ensures FirstCpu(ls[1..], acpiProcessorId, k) <==> FirstCpu(ls, acpiProcessorId, k + 1)
  {
    if FirstCpu(ls[1..], acpiProcessorId, k) {
      forall j | 0 <= j < k + 1 ensures ls[j].acpiProcessorId != acpiProcessorId {
        if j > 0 {
          assert ls[1..][j - 1] == ls[j];
        }
      }
    }
    if FirstCpu(ls, acpiProcessorId, k + 1) {
      forall j | 0 <= j < k ensures ls[1..][j].acpiProcessorId != acpiProcessorId {
        assert ls[1..][j] == ls[j + 1];
      }
    }
  }

  /** The structures whose APIC id has the package in bit 4. */
  function PackageMembers(ls: seq<LocalApic>, package: Byte): set<nat> {
    set k: nat | k < |ls| && ls[k].apicId / 0x10 % 2 == package
  }

  lemma {:induction false} InPackageLast(ls: seq<LocalApic>, l: LocalApic, package: Byte)
    ensures
      InPackage(ls + [l], package) == InPackage(ls, package) + if l.apicId / 0x10 % 2 == package then 1 else 0
  {
    if ls == [] {
      assert [l][1..] == [];
    } else {
      assert (ls + [l])[1..] == ls[1..] + [l];
      InPackageLast(ls[1..], l, package);
    }
  }

  /** The count is the number of these structures. */
  lemma {:induction false} InPackageCounts(ls: seq<LocalApic>, package: Byte)
    ensures InPackage(ls, package) == |PackageMembers(ls, package)|
  {
    if ls == [] {
      assert PackageMembers(ls, package) == {};
    } else {
      var n, init := |ls| - 1, ls[..|ls| - 1];
      assert ls == init + [ls[n]];
      InPackageCounts(init, package);
      InPackageLast(init, ls[n], package);
      MembersOfMore(init, ls[n], package);
    }
  }

  lemma {:induction false} MembersOfMore(ls: seq<LocalApic>, l: LocalApic, package: Byte)
    ensures
      |PackageMembers(ls + [l], package)|
      == |PackageMembers(ls, package)| + if l.apicId / 0x10 % 2 == package then 1 else 0
  {
    var all, members := PackageMembers(ls + [l], package), PackageMembers(ls, package);
    if l.apicId / 0x10 % 2 == package {
      assert all == members + {|ls|};
    } else {
      assert all == members;
    }
  }

  /** With distinct processor ids the lookup inverts the table. */
  lemma {:induction false} LookupInverts(ls: seq<LocalApic>, k: nat)
    requires k < |ls|
    requires forall i, j :: 0 <= i < j < |ls| ==> ls[i].acpiProcessorId != ls[j].acpiProcessorId
    ensures ApicOf(ls, ls[k].acpiProcessorId) == ls[k].apicId
  {
    if k > 0 {
      LookupInverts(ls[1..], k - 1);
    }
  }

  class CpuIdMap {
    var table: array<Entry>
    ghost var appended: seq<LocalApic>

    ghost predicate Valid()
      reads this, table
    {
      Holds(table[..], appended)
    }

    constructor ()
      ensures Valid() && appended == [] && fresh(table)
    {
      table := new Entry[MAX_CPU_NUM](_ => Entry(0, 0, 0));
      appended := [];
    }

    /** Whether a used entry has the APIC id. */
    method Contains(apicId: Byte) returns (found: bool)
      requires Valid()
      ensures found <==> Known(First(Dedup(appended)), apicId)
    {
      ghost var kept := First(Dedup(appended));
      assert forall k :: 0 <= k < |kept| ==> table[..][k] == EntryOf(kept[k]);
      for i := 0 to MAX_CPU_NUM
        invariant forall k :: 0 <= k < i ==> !(table[k].apicId == apicId && table[k].flags != 0)
      {
        if table[i].apicId == apicId && table[i].flags != 0 {
          assert i < |kept| && kept[i].apicId == apicId;
          return true;
        }
      }
      forall k | 0 <= k < |kept| ensures kept[k].apicId != apicId {
        assert table[k] == EntryOf(kept[k]);
      }
      found := false;
    }

    /** Fills the first unused entry, if there is one. */
    method Fill(entry: Entry)
      requires table.Length == MAX_CPU_NUM
      modifies table
      ensures
        || (table[..] == old(table[..]) && Full(table[..]))
        || exists i: nat :: Filled(old(table[..]), table[..], i, entry)
    {
      for i := 0 to MAX_CPU_NUM
        invariant forall k :: 0 <= k < i ==> table[k].flags != 0
        invariant table[..] == old(table[..])
      {
        if table[i].flags == 0 {
          table[i] := entry;
          assert Filled(old(table[..]), table[..], i, entry);
          return;
        }
      }
    }

    /** AppendCpuMapTableEntry. A table without room stays as it is: the source only
        asserts that this does not happen. */
    method Append(l: LocalApic)
      requires Valid()
      modifies `appended, table
      ensures Valid() && appended == old(appended) + [l]
    {
      ghost var before, was := appended, table[..];
      var known := Contains(l.apicId);
      appended := appended + [l];
      if known {
        AppendKnown(was, before, l);
        return;
      }
      Fill(EntryOf(l));
      AppendNew(was, table[..], before, l);
    }

    /** ProcessorId2ApicId. */
    method ProcessorId2ApicId(acpiProcessorId: nat) returns (apicId: nat)
      requires Valid()
      ensures apicId == ApicOf(First(Dedup(appended)), acpiProcessorId)
    {
      ghost var kept := First(Dedup(appended));
      for i := 0 to MAX_CPU_NUM
        invariant i <= |kept| ==> ApicOf(kept, acpiProcessorId) == ApicOf(kept[i..], acpiProcessorId)
        invariant i > |kept| ==> ApicOf(kept, acpiProcessorId) == NO_APIC_ID
      {
        if i < |kept| {
          assert table[i] == EntryOf(kept[i]) && kept[i..][1..] == kept[i + 1..];
        }
        if table[i].flags != 0 && table[i].acpiProcessorId == acpiProcessorId {
          return table[i].apicId;
        }
      }
      return NO_APIC_ID;
    }

    /** GetProcNumberInPackage. */
    method GetProcNumberInPackage(package: Byte) returns (number: Byte)
      requires Valid()
      ensures number == InPackage(First(Dedup(appended)), package)
      ensures number == |PackageMembers(First(Dedup(appended)), package)|
    {
      InPackageCounts(First(Dedup(appended)), package);
      ghost var kept := First(Dedup(appended));
      number := 0;
      for i := 0 to MAX_CPU_NUM
        invariant number <= i
        invariant number + InPackage(if i <= |kept| then kept[i..] else [], package) == InPackage(kept, package)
      {
        if i < |kept| {
          assert table[i] == EntryOf(kept[i]) && kept[i..][1..] == kept[i + 1..];
        }
        if table[i].flags != 0 && (table[i].apicId / 0x10) % 2 == package {
          number := number + 1;
        }
      }
    }
  }
}
