/** AcpiPlatform/AcpiPlatform.c: the MADT case of PlatformUpdateTables, which walks the
    interrupt controller structures (ACPI 5.0 section 5.2.12) and patches local APIC
    and I/O APIC entries in place, whatever lengths the structures claim. */
module Madt {
  import opened Bytes
  import opened CpuMap

  const LENGTH_FIELD: nat := 4
  const FLAGS_FIELD: nat := 40
  /** Description header, local APIC address and flags. */
  const FIRST_ENTRY: nat := 44

  const PROCESSOR_LOCAL_APIC: Byte := 0
  const IO_APIC: Byte := 1
  const LOCAL_APIC_SIZE: nat := 8
  const IO_APIC_ID: Byte := 2
  /** Bytes past the end that the patch of a structure at the end may touch. */
  const SLACK: nat := 7

  /** What GetProcessorInfo tells about one processor, if it succeeds. */
  datatype Processor = Unknown | Info(id: nat, enabled: bool, thread: nat)

  /** The multiprocessor services: all processors and the index of the boot processor. */
  datatype Platform = Platform(processors: seq<Processor>, bsp: nat)

  // ----- the patch of one structure -----

  predicate HasId(x: Processor, apicId: Byte) {
    x.Info? && x.id == apicId
  }

  /** The first processor whose id is the APIC id, from index k on. */
  function Find(p: Platform, apicId: Byte, k: nat): (i: nat)
    requires k <= |p.processors|
    ensures k <= i <= |p.processors|
    ensures i < |p.processors| ==> HasId(p.processors[i], apicId)
    ensures forall j :: k <= j < i ==> !HasId(p.processors[j], apicId)
    decreases |p.processors| - k
  {
    if k == |p.processors| then k
    else if HasId(p.processors[k], apicId) then k
    else Find(p, apicId, k + 1)
  }

  /** The first match is the boot processor or an enabled one. */
  predicate Usable(p: Platform, apicId: Byte) {
    var i := Find(p, apicId, 0);
    i < |p.processors| && (p.bsp == i || p.processors[i].enabled)
  }

  /** ... and it is the first thread of its core. */
  predicate Enabled(p: Platform, apicId: Byte) {
    Usable(p, apicId) && p.processors[Find(p, apicId, 0)].thread == 0
  }

  function ClampedId(p: Platform, id: Byte): Byte {
    if id > |p.processors| then |p.processors| else id
  }

  /** The bytes written for the structure at an offset, whatever its length says: processor id
      and flags of a local APIC, the id of an I/O APIC. */
  function PatchAt(p: Platform, s: seq<Byte>, at: nat): (r: seq<Byte>)
    requires at + LOCAL_APIC_SIZE <= |s|
    ensures |r| == |s|
  {
    if s[at] == PROCESSOR_LOCAL_APIC then
      s[at + 2 := ClampedId(p, s[at + 2])][at + 4 := Flag(p, s[at + 3])][at + 5 := 0][at + 6 := 0][at + 7 := 0]
    else if s[at] == IO_APIC then s[at + 2 := IO_APIC_ID]
    else s
  }

  function Flag(p: Platform, apicId: Byte): Byte {
    if Enabled(p, apicId) then 1 else 0
  }

  function Recorded(p: Platform, id: Byte, apicId: Byte): seq<LocalApic> {
    if Usable(p, apicId) then [LocalApic(ClampedId(p, id), apicId)] else []
  }

  /** What the structure adds to the CPU map: any usable processor, whatever its thread. */
  function RecordedAt(p: Platform, s: seq<Byte>, at: nat): seq<LocalApic>
    requires at + LOCAL_APIC_SIZE <= |s|
  {
    if s[at] == PROCESSOR_LOCAL_APIC then Recorded(p, s[at + 2], s[at + 3]) else []
  }

  /** The patch leaves type and length of the structure alone, and everything outside of the
      six bytes behind them. */
  lemma {:induction false} PatchAtFrame(p: Platform, s: seq<Byte>, at: nat, k: nat)
    requires at + LOCAL_APIC_SIZE <= |s| && k < |s| && !(at + 2 <= k < at + LOCAL_APIC_SIZE)
    ensures PatchAt(p, s, at)[k] == s[k]
  {
  }

  /** The bytes the patch of a local APIC structure leaves. */
  lemma {:induction false} LocalApicPatched(p: Platform, s: seq<Byte>, at: nat)
    requires at + LOCAL_APIC_SIZE <= |s| && s[at] == PROCESSOR_LOCAL_APIC
    ensures
      var t := PatchAt(p, s, at);
      && t[at + 2] == ClampedId(p, s[at + 2]) && t[at + 3] == s[at + 3]
      && t[at + 4] == (if Enabled(p, s[at + 3]) then 1 else 0)
      && t[at + 5] == 0 && t[at + 6] == 0 && t[at + 7] == 0
  {
  }

  lemma {:induction false} IoApicPatched(p: Platform, s: seq<Byte>, at: nat)
    requires at + LOCAL_APIC_SIZE <= |s| && s[at] == IO_APIC
    ensures PatchAt(p, s, at) == s[at + 2 := IO_APIC_ID]
  {
  }

  // ----- what the patch means for the processors -----

  /** Processor i is the first one that the services report with the APIC id. */
  ghost predicate FirstWith(p: Platform, apicId: Byte, i: nat) {
    && i < |p.processors| && p.processors[i].Info? && p.processors[i].id == apicId
    && forall j :: 0 <= j < i ==> !(p.processors[j].Info? && p.processors[j].id == apicId)
  }

  /** The processor of a local APIC goes into the CPU map. */
  ghost predicate InUse(p: Platform, apicId: Byte) {
    exists i: nat :: FirstWith(p, apicId, i) && (p.bsp == i || p.processors[i].enabled)
  }

  /** It is shown to the operating system. */
  ghost predicate Shown(p: Platform, apicId: Byte) {
    exists i: nat ::
      FirstWith(p, apicId, i) && (p.bsp == i || p.processors[i].enabled) && p.processors[i].thread == 0
  }

  lemma {:induction false} FirstIsFound(p: Platform, apicId: Byte, i: nat)
    ensures FirstWith(p, apicId, i) <==> i < |p.processors| && i == Find(p, apicId, 0)
  {
    var k := Find(p, apicId, 0);
    if i < k && i < |p.processors| {
      assert !HasId(p.processors[i], apicId);
    }
    if i < |p.processors| && i == k {
      forall j | 0 <= j < i ensures !HasId(p.processors[j], apicId) {
      }
    }
  }

  lemma {:induction false} UsableMeans(p: Platform, apicId: Byte)
    ensures Usable(p, apicId) <==> InUse(p, apicId)
    ensures Enabled(p, apicId) <==> Shown(p, apicId)
  {
    FirstIsFound(p, apicId, Find(p, apicId, 0));
    forall i: nat
      ensures FirstWith(p, apicId, i) ==> i == Find(p, apicId, 0)
    {
      FirstIsFound(p, apicId, i);
    }
  }

  /** What a structure at an offset of s leaves in t, and adds to the CPU map: a local APIC keeps
      its APIC id, its processor id is at most the number of processors, and its flag word is 1
      if its processor is shown and 0 otherwise; it adds a processor in use, whatever its thread.
      An I/O APIC gets the id 2, anything else stays as it is. */
  ghost predicate Updated(p: Platform, s: seq<Byte>, at: nat, t: seq<Byte>, more: seq<LocalApic>) {
    && at + LOCAL_APIC_SIZE <= |s| == |t|
    && (s[at] == 0 ==>
          && t[at + 2] == (if s[at + 2] <= |p.processors| then s[at + 2] else |p.processors|) && t[at + 3] == s[at + 3]
          && (Shown(p, s[at + 3]) ==> t[at + 4] == 1) && (!Shown(p, s[at + 3]) ==> t[at + 4] == 0)
          && t[at + 5] == 0 && t[at + 6] == 0 && t[at + 7] == 0
          && (forall k :: 0 <= k < |s| && !(at + 2 <= k < at + 8) ==> t[k] == s[k])
          && (InUse(p, s[at + 3]) ==> more == [LocalApic(t[at + 2], s[at + 3])])
          && (!InUse(p, s[at + 3]) ==> more == []))
    && (s[at] == 1 ==> t == s[at + 2 := 2] && more == [])
    && (s[at] > 1 ==> t == s && more == [])
  }

  lemma {:induction false} PatchUpdates(p: Platform, s: seq<Byte>, at: nat)
    requires at + LOCAL_APIC_SIZE <= |s|
    ensures Updated(p, s, at, PatchAt(p, s, at), RecordedAt(p, s, at))
  {
    UsableMeans(p, s[at + 3]);
  }

  // ----- the walk -----

  /** Stuck: a length of 0 keeps the loop at one structure for ever. */
  datatype Outcome = Done | Stuck

  /** The table and the CPU map entries afterwards, and where the walk looked for structures. */
  datatype Run = Run(outcome: Outcome, table: seq<Byte>, visited: seq<nat>, recorded: seq<LocalApic>)

  function Walk(p: Platform, s: seq<Byte>, curr: nat, end: nat): (run: Run)
    requires end + SLACK <= |s|
    ensures |run.table| == |s|
    decreases end - curr
  {
    if curr >= end then Run(Done, s, [], [])
    else
      var t, more := PatchAt(p, s, curr), RecordedAt(p, s, curr);
      if t[curr + 1] == 0 then Run(Stuck, t, [curr], more)
      else
        var rest := Walk(p, t, curr + t[curr + 1], end);
        rest.(visited := [curr] + rest.visited, recorded := more + rest.recorded)
  }

  /** The table and the position after n turns of the loop. */
  function AfterTurns(n: nat, p: Platform, s: seq<Byte>, curr: nat, end: nat): (r: (seq<Byte>, nat))
    requires end + SLACK <= |s|
    decreases n
  {
    if n == 0 || curr >= end then (s, curr)
    else
      var t := PatchAt(p, s, curr);
      AfterTurns(n - 1, p, t, curr + t[curr + 1], end)
  }

  predicate EndsAfter(n: nat, p: Platform, s: seq<Byte>, curr: nat, end: nat)
    requires end + SLACK <= |s|
  {
    AfterTurns(n, p, s, curr, end).1 >= end
  }

  lemma {:induction false} TurnFirst(n: nat, p: Platform, s: seq<Byte>, curr: nat, end: nat)
    requires end + SLACK <= |s| && curr < end
    ensures
      var t := PatchAt(p, s, curr);
      AfterTurns(n + 1, p, s, curr, end) == AfterTurns(n, p, t, curr + t[curr + 1], end)
  {
  }

  /** Some number of turns ends the loop if and only if the walk does not get stuck. */
  lemma {:induction false} WalkEndsIff(p: Platform, s: seq<Byte>, curr: nat, end: nat)
    requires end + SLACK <= |s|
    ensures (exists n: nat :: EndsAfter(n, p, s, curr, end)) <==> Walk(p, s, curr, end).outcome == Done
    decreases end - curr
  {
    if curr >= end {
      assert EndsAfter(0, p, s, curr, end);
    } else if PatchAt(p, s, curr)[curr + 1] == 0 {
      PatchAtFrame(p, s, curr, curr + 1);
      forall n: nat ensures !EndsAfter(n, p, s, curr, end) {
        TurnsStay(n, p, s, curr, end);
      }
    } else {
      var t := PatchAt(p, s, curr);
      WalkEndsIff(p, t, curr + t[curr + 1], end);
      EndsLater(p, s, curr, end);
    }
  }

  lemma {:induction false} EndsLater(p: Platform, s: seq<Byte>, curr: nat, end: nat)
    requires end + SLACK <= |s| && curr < end
    ensures
      var t := PatchAt(p, s, curr);
      var next := curr + t[curr + 1];
      (exists n: nat :: EndsAfter(n, p, s, curr, end))
      <==> exists n: nat :: EndsAfter(n, p, t, next, end)
  {
    var t := PatchAt(p, s, curr);
    var next := curr + t[curr + 1];
    if n: nat :| EndsAfter(n, p, t, next, end) {
      TurnFirst(n, p, s, curr, end);
      assert EndsAfter(n + 1, p, s, curr, end);
    }
    if n: nat :| EndsAfter(n, p, s, curr, end) {
      assert n > 0;
      TurnFirst(n - 1, p, s, curr, end);
      assert EndsAfter(n - 1, p, t, next, end);
    }
  }

  lemma {:induction false} TurnsStay(n: nat, p: Platform, s: seq<Byte>, curr: nat, end: nat)
    requires end + SLACK <= |s| && curr < end && s[curr + 1] == 0
    ensures AfterTurns(n, p, s, curr, end).1 == curr
    decreases n
  {
    if n > 0 {
      PatchAtFrame(p, s, curr, curr + 1);
      TurnsStay(n - 1, p, PatchAt(p, s, curr), curr, end);
    }
  }

  /** Type and length of the structure where the walk is never change again. */
  lemma {:induction false} Settled(p: Platform, s: seq<Byte>, curr: nat, end: nat)
    requires end + SLACK <= |s|
    ensures forall k :: 0 <= k < |s| && k < curr + 2 ==> Walk(p, s, curr, end).table[k] == s[k]
    decreases end - curr
  {
    if curr < end {
      var t := PatchAt(p, s, curr);
      forall k | 0 <= k < |s| && k < curr + 2 ensures t[k] == s[k] {
        PatchAtFrame(p, s, curr, k);
      }
      if t[curr + 1] != 0 {
        Settled(p, t, curr + t[curr + 1], end);
      }
    }
  }

  // ----- in place -----

  /** The processor loop: the index of the first match. */
  method FindProcessor(p: Platform, apicId: Byte) returns (k: nat)
    ensures k == Find(p, apicId, 0)
  {
    k := 0;
    while k < |p.processors|
      invariant k <= |p.processors| && Find(p, apicId, 0) == Find(p, apicId, k)
    {
      if HasId(p.processors[k], apicId) {
        break;
      }
      k := k + 1;
    }
  }

  /** The flag of a local APIC structure; a usable processor goes into the CPU map. */
  method LocalApicFlag(p: Platform, cpus: CpuIdMap, id: Byte, apicId: Byte) returns (flag: Byte)
    requires cpus.Valid()
    modifies cpus`appended, cpus.table
    ensures cpus.Valid() && flag == Flag(p, apicId)
    ensures cpus.appended == old(cpus.appended) + if Usable(p, apicId) then [LocalApic(id, apicId)] else []
  {
    flag := 0;
    var k := FindProcessor(p, apicId);
    if k < |p.processors| {
      if p.bsp == k || p.processors[k].enabled {
        flag := 1;
        if p.processors[k].thread != 0 {
          flag := 0;
        }
        cpus.Append(LocalApic(id, apicId));
      }
    }
  }

  /** The sanity check on the processor id. */
  method ClampId(p: Platform, table: array<Byte>, at: nat) returns (id: Byte)
    requires at < table.Length && |p.processors| <= MAX_CPU_NUM
    modifies table
    ensures id == ClampedId(p, old(table[at])) && table[..] == old(table[..])[at := id]
  {
    if table[at] > |p.processors| {
      table[at] := |p.processors|;
    }
    id := table[at];
  }

  /** Clamps the processor id, sets or clears the enabled flag, and records a usable
      processor in the CPU map. */
  method UpdateLocalApic(p: Platform, cpus: CpuIdMap, table: array<Byte>, curr: nat)
    requires cpus.Valid() && |p.processors| <= MAX_CPU_NUM
    requires curr + LOCAL_APIC_SIZE <= table.Length && table[curr] == PROCESSOR_LOCAL_APIC
    modifies table, cpus`appended, cpus.table
    ensures table[..] == PatchAt(p, old(table[..]), curr)
    ensures cpus.Valid()
    ensures cpus.appended == old(cpus.appended) + Recorded(p, old(table[curr + 2]), old(table[curr + 3]))
  {
    ghost var was := table[..];
    var id := ClampId(p, table, curr + 2);
    var flag := LocalApicFlag(p, cpus, id, table[curr + 3]);
    StoreBytes(table, curr + 4, [flag, 0, 0, 0]);
    IdAndFlags(was, curr, id, flag);
  }

  lemma {:induction false} IdAndFlags(s: seq<Byte>, at: nat, id: Byte, flag: Byte)
    requires at + LOCAL_APIC_SIZE <= |s|
    ensures
      Patch(s[at + 2 := id], at + 4, [flag, 0, 0, 0])
      == s[at + 2 := id][at + 4 := flag][at + 5 := 0][at + 6 := 0][at + 7 := 0]
  {
  }

  /** The switch on the structure's type. */
  method PatchStructure(p: Platform, cpus: CpuIdMap, table: array<Byte>, curr: nat)
    requires cpus.Valid() && |p.processors| <= MAX_CPU_NUM && curr + LOCAL_APIC_SIZE <= table.Length
    modifies table, cpus`appended, cpus.table
    ensures table[..] == PatchAt(p, old(table[..]), curr)
    ensures cpus.Valid() && cpus.appended == old(cpus.appended) + RecordedAt(p, old(table[..]), curr)
    ensures
      exists more :: cpus.appended == old(cpus.appended) + more && Updated(p, old(table[..]), curr, table[..], more)
  {
    PatchUpdates(p, table[..], curr);
    if table[curr] == PROCESSOR_LOCAL_APIC {
      UpdateLocalApic(p, cpus, table, curr);
    } else if table[curr] == IO_APIC {
      IoApicPatched(p, table[..], curr);
      table[curr + 2] := IO_APIC_ID;
    }
  }

  /** The rest of the walk leads to the goal, and completes the CPU map's entries. */
  ghost predicate Ahead(
      p: Platform, s: seq<Byte>, curr: nat, end: nat, recorded: seq<LocalApic>, goal: Run, all: seq<LocalApic>)
  {
    && end + SLACK <= |s|
    && var run := Walk(p, s, curr, end);
       run.outcome == goal.outcome && run.table == goal.table && recorded + run.recorded == all
  }

  lemma {:induction false} AheadEnds(
      p: Platform, s: seq<Byte>, curr: nat, end: nat, recorded: seq<LocalApic>, goal: Run, all: seq<LocalApic>)
    requires Ahead(p, s, curr, end, recorded, goal, all) && curr >= end
    ensures goal.outcome == Done && s == goal.table && recorded == all
  {
  }

  /** After a turn, by the length of the structure: the loop is stuck, or the rest leads on. */
  ghost predicate GoesOn(
      p: Platform, t: seq<Byte>, curr: nat, end: nat, recorded: seq<LocalApic>, goal: Run, all: seq<LocalApic>,
      length: nat)
  {
    if length == 0 then goal.outcome == Stuck && t == goal.table && recorded == all
    else Ahead(p, t, curr + length, end, recorded, goal, all)
  }

  lemma {:induction false} AheadNext(
      p: Platform, s: seq<Byte>, curr: nat, end: nat, recorded: seq<LocalApic>, goal: Run, all: seq<LocalApic>,
      t: seq<Byte>, more: seq<LocalApic>)
    requires Ahead(p, s, curr, end, recorded, goal, all) && curr < end
    requires t == PatchAt(p, s, curr) && more == recorded + RecordedAt(p, s, curr)
    ensures GoesOn(p, t, curr, end, more, goal, all, t[curr + 1])
  {
    if t[curr + 1] != 0 {
      Regroup(recorded, RecordedAt(p, s, curr), Walk(p, t, curr + t[curr + 1], end).recorded);
    }
  }

  lemma {:induction false} Regroup(a: seq<LocalApic>, b: seq<LocalApic>, c: seq<LocalApic>)
    ensures (a + b) + c == a + (b + c)
  {
  }

  /** One turn of the loop. */
  method WalkOn(
      p: Platform, cpus: CpuIdMap, table: array<Byte>, curr: nat, ghost end: nat, ghost goal: Run,
      ghost all: seq<LocalApic>)
    returns (length: nat)
    requires cpus.Valid() && |p.processors| <= MAX_CPU_NUM && curr < end
    requires Ahead(p, table[..], curr, end, cpus.appended, goal, all)
    modifies table, cpus`appended, cpus.table
    ensures cpus.Valid() && GoesOn(p, table[..], curr, end, cpus.appended, goal, all, length)
  {
    ghost var s, recorded := table[..], cpus.appended;
    PatchStructure(p, cpus, table, curr);
    AheadNext(p, s, curr, end, recorded, goal, all, table[..], cpus.appended);
    length := table[curr + 1];
  }

  /** The loop over the structures up to the end of the table; the length of each is read
      after its patch. */
  method WalkStructures(p: Platform, cpus: CpuIdMap, table: array<Byte>, end: nat) returns (outcome: Outcome)
    requires cpus.Valid() && |p.processors| <= MAX_CPU_NUM && end + SLACK <= table.Length
    modifies table, cpus`appended, cpus.table
    ensures
      var run := Walk(p, old(table[..]), FIRST_ENTRY, end);
      && outcome == run.outcome && table[..] == run.table
      && cpus.Valid() && cpus.appended == old(cpus.appended) + run.recorded
  {
    ghost var goal := Walk(p, table[..], FIRST_ENTRY, end);
    ghost var all := cpus.appended + goal.recorded;
    var curr := FIRST_ENTRY;
    while curr < end
      invariant cpus.Valid() && cpus.table == old(cpus.table)
      invariant Ahead(p, table[..], curr, end, cpus.appended, goal, all)
      decreases end - curr
    {
      var length := WalkOn(p, cpus, table, curr, end, goal, all);
      if length == 0 {
        return Stuck;
      }
      curr := curr + length;
    }
    AheadEnds(p, table[..], curr, end, cpus.appended, goal, all);
    outcome := Done;
  }

  /** PCAT_COMPAT set. */
  function WithFlag(s: seq<Byte>): (r: seq<Byte>)
    requires |s| > FLAGS_FIELD
    ensures |r| == |s| && r[40] % 2 == 1 && r[40] / 2 == s[40] / 2
    ensures forall k :: 0 <= k < |s| && k != 40 ==> r[k] == s[k]
  {
    s[FLAGS_FIELD := s[FLAGS_FIELD] / 2 * 2 + 1]
  }

  method SetFlag(table: array<Byte>)
    requires table.Length > FLAGS_FIELD
    modifies table
    ensures table[..] == WithFlag(old(table[..]))
  {
    table[FLAGS_FIELD] := table[FLAGS_FIELD] / 2 * 2 + 1;
  }

  /** The MADT case: sets PCAT_COMPAT and walks over every structure up to the end. */
  method PatchMadt(p: Platform, cpus: CpuIdMap, table: array<Byte>) returns (outcome: Outcome)
    requires cpus.Valid() && |p.processors| <= MAX_CPU_NUM && table.Length >= FIRST_ENTRY
    requires Field(table[..], LENGTH_FIELD, 4) + SLACK <= table.Length
    modifies table, cpus`appended, cpus.table
    ensures
      var s := old(table[..]);
      var run := Walk(p, WithFlag(s), 44, Field(s, 4, 4));
      && outcome == run.outcome && table[..] == run.table
      && cpus.Valid() && cpus.appended == old(cpus.appended) + run.recorded
  {
    var end := Field(table[..], LENGTH_FIELD, 4);
    SetFlag(table);
    outcome := WalkStructures(p, cpus, table, end);
  }
}
