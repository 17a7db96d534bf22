/** AcpiPlatform/AcpiPlatformHooks.c: PatchGv3SsdtTable, the scan over the processor SSDT
    that stores domain and processor numbers and the performance states. */
module PatchGv3Ssdt {
  import opened Bytes
  import opened CpuMap
  import opened PssPackage

  const LENGTH_FIELD: nat := 4
  const AML_NAME_DWORD_SIZE: Byte := 0x0C
  const SSDT: seq<Byte> := [0x53, 0x53, 0x44, 0x54]
  const PR: seq<Byte> := [0x5F, 0x50, 0x52, 0x5F]
  const DOMN: seq<Byte> := [0x44, 0x4F, 0x4D, 0x4E]
  const NCPU: seq<Byte> := [0x4E, 0x43, 0x50, 0x55]
  const NPSS: seq<Byte> := [0x4E, 0x50, 0x53, 0x53]
  const SPSS: seq<Byte> := [0x53, 0x50, 0x53, 0x53]
  /** Bytes past the end that the scan may read. */
  const SLACK: nat := 9

  /** An instance of the speedstep protocol: its processor and the states it reports. */
  datatype Eist = Eist(procApicId: nat, states: seq<PssState>)

  /** The protocol the scan holds, or none. */
  datatype EistProt = Null | Located(states: seq<PssState>)

  /** What does not change during the scan: the CPU map and the protocol instances. */
  datatype Env = Env(cpus: seq<LocalApic>, eists: seq<Eist>)

  /** The scan's position, the processor named last, and its protocol. */
  datatype Cursor = Cursor(p: nat, cpu: nat, eist: EistProt)

  // ----- the lookups -----

  /** The index that the letter after _PR_.CPU stands for. */
  function CpuOf(letter: Byte): nat {
    if 0x30 <= letter <= 0x39 then letter - 0x30 else if letter > 0x39 then letter - 0x37 else letter
  }

  function FirstEist(eists: seq<Eist>, apicId: nat): EistProt {
    if eists == [] then Null
    else if eists[0].procApicId == apicId then Located(eists[0].states)
    else FirstEist(eists[1..], apicId)
  }

  /** The processor ids of the MADT count from 1. */
  function EistOf(env: Env, cpu: nat): EistProt {
    var apicId := ApicOf(env.cpus, cpu + 1);
    if apicId == NO_APIC_ID then Null else FirstEist(env.eists, apicId)
  }

  /** Bit 4 of the APIC id, the package; 0 for an unused entry. */
  function DomainOf(env: Env, cpu: nat): nat {
    if cpu < |env.cpus| then env.cpus[cpu].apicId / 0x10 % 2 else 0
  }

  function NumberOf(env: Env, cpu: nat): nat {
    if cpu < |env.cpus| then InPackage(env.cpus, env.cpus[cpu].apicId / 0x10 % 2) else 0
  }

  /** The letter is a hexadecimal digit, in capitals. */
  lemma {:induction false} CpuLetter(digit: nat)
    requires digit < 16
    ensures CpuOf("0123456789ABCDEF"[digit] as int) == digit
  {
  }

  /** Instance m is the first one of the protocol for the APIC id. */
  ghost predicate FirstInstance(eists: seq<Eist>, apicId: nat, m: nat) {
    m < |eists| && eists[m].procApicId == apicId && forall j :: 0 <= j < m ==> eists[j].procApicId != apicId
  }

  /** The protocol of the processor whose id in the MADT is one more than the index, if it is
      known and there is one. */
  ghost predicate LocatedFor(env: Env, cpu: nat, prot: EistProt) {
    && (forall k: nat, m: nat ::
          FirstCpu(env.cpus, cpu + 1, k) && FirstInstance(env.eists, env.cpus[k].apicId, m) ==>
            prot == Located(env.eists[m].states))
    && (prot.Located? ==>
          exists k: nat, m: nat ::
            && FirstCpu(env.cpus, cpu + 1, k) && FirstInstance(env.eists, env.cpus[k].apicId, m)
            && prot.states == env.eists[m].states)
  }

  lemma {:induction false} FirstEistIs(eists: seq<Eist>, apicId: nat)
    ensures forall m: nat :: FirstInstance(eists, apicId, m) ==> FirstEist(eists, apicId) == Located(eists[m].states)
    ensures FirstEist(eists, apicId).Located? ==> exists m: nat :: FirstInstance(eists, apicId, m)
  {
    if eists != [] && eists[0].procApicId == apicId {
      assert FirstInstance(eists, apicId, 0);
    } else if eists != [] {
      FirstEistIs(eists[1..], apicId);
      forall m: nat ensures FirstInstance(eists[1..], apicId, m) <==> FirstInstance(eists, apicId, m + 1) {
        FirstInstanceNext(eists, apicId, m);
      }
      forall m: nat | FirstInstance(eists, apicId, m)
        ensures FirstEist(eists, apicId) == Located(eists[m].states)
      {
        assert FirstInstance(eists[1..], apicId, m - 1);
      }
    }
  }

  lemma {:induction false} FirstInstanceNext(eists: seq<Eist>, apicId: nat, m: nat)
    requires eists != [] && eists[0].procApicId != apicId
    ensures FirstInstance(eists[1..], apicId, m) <==> FirstInstance(eists, apicId, m + 1)
  {
    if FirstInstance(eists[1..], apicId, m) {
      forall j | 0 <= j < m + 1 ensures eists[j].procApicId != apicId {
        if j > 0 {
          assert eists[1..][j - 1] == eists[j];
        }
      }
    }
    if FirstInstance(eists, apicId, m + 1) {
      forall j | 0 <= j < m ensures eists[1..][j].procApicId != apicId {
        assert eists[1..][j] == eists[j + 1];
      }
    }
  }

  lemma {:induction false} EistIsLocated(env: Env, cpu: nat)
    ensures LocatedFor(env, cpu, EistOf(env, cpu))
  {
    var apicId := ApicOf(env.cpus, cpu + 1);
    ApicOfFirst(env.cpus, cpu + 1);
    FirstEistIs(env.eists, apicId);
    if EistOf(env, cpu).Located? {
      var k: nat :| FirstCpu(env.cpus, cpu + 1, k);
      var m: nat :| FirstInstance(env.eists, apicId, m);
      assert env.cpus[k].apicId == apicId;
    }
  }

  /** The double words of a processor of the CPU map: bit 4 of its APIC id, and how many
      processors of the map have the same. */
  lemma {:induction false} NumbersMean(env: Env, cpu: nat)
    ensures
      cpu < |env.cpus| ==>
        var package := env.cpus[cpu].apicId / 0x10 % 2;
        DomainOf(env, cpu) == package && NumberOf(env, cpu) == |PackageMembers(env.cpus, package)|
    ensures cpu >= |env.cpus| ==> DomainOf(env, cpu) == 0 && NumberOf(env, cpu) == 0
  {
    if cpu < |env.cpus| {
      InPackageCounts(env.cpus, env.cpus[cpu].apicId / 0x10 % 2);
    }
  }

  // ----- one position -----

  /** What the scan does at its position. A named double word is the value at +5.
      Clear: the code stores 0 there and then reads the CPU map outside of its bounds.
      Leave: it writes outside of the buffer. */
  datatype Action =
    | Skip
    | Select(cpu: nat)
    | Value(v: nat)
    | Package(states: seq<PssState>, npss: bool)
    | Clear
    | Leave
  {
    predicate Leaves() { Clear? || Leave? }
  }

  predicate NamedDword(s: seq<Byte>, p: nat) {
    p >= 1 && p + SLACK <= |s| && s[p - 1] == AML_NAME_OP && s[p + 4] == AML_NAME_DWORD_SIZE
  }

  function ActionAt(env: Env, s: seq<Byte>, c: Cursor): (a: Action)
    requires c.p + SLACK <= |s|
    ensures a.Value? || a.Clear? ==> NamedDword(s, c.p)
    ensures a.Package? ==> c.p >= 1 && s[c.p - 1] == AML_NAME_OP && Contained(s, c.p, |a.states|)
  {
    if NameAt(s, c.p, PR) then Select(CpuOf(s[c.p + 7]))
    else if NameAt(s, c.p, DOMN) then
      if !NamedDword(s, c.p) then Skip else if c.cpu >= MAX_CPU_NUM then Clear else Value(DomainOf(env, c.cpu))
    else if NameAt(s, c.p, NCPU) then
      if !NamedDword(s, c.p) then Skip else if c.cpu >= MAX_CPU_NUM then Clear else Value(NumberOf(env, c.cpu))
    else if NameAt(s, c.p, NPSS) || NameAt(s, c.p, SPSS) then
      if c.eist.Null? || c.p == 0 || s[c.p - 1] != AML_NAME_OP then Skip
      else if Contained(s, c.p, |c.eist.states|) then Package(c.eist.states, NameAt(s, c.p, NPSS))
      else Leave
    else Skip
  }

  function Effect(s: seq<Byte>, p: nat, a: Action): (r: seq<Byte>)
    requires p + SLACK <= |s| && (a.Package? ==> Contained(s, p, |a.states|))
    ensures |r| == |s|
  {
    match a
    case Value(v) => Patch(s, p + 5, Le(4, v))
    case Clear => Patch(s, p + 5, Le(4, 0))
    case Package(states, npss) => PatchPackage(s, p, states, npss)
    case _ => s
  }

  /** Where the scan goes on: behind a package it jumps to its start plus its old length. */
  function Advance(env: Env, s: seq<Byte>, c: Cursor, a: Action): Cursor
    requires c.p + SLACK <= |s|
  {
    match a
    case Select(cpu) => Cursor(c.p + 1, cpu, EistOf(env, cpu))
    case Package(_, _) => c.(p := c.p + PackageSize(s, c.p))
    case _ => c.(p := c.p + 1)
  }

  // ----- the scan -----

  /** Stuck: the loop comes back to the same position with the same bytes for ever. */
  datatype Outcome = Done | OutOfBounds | Stuck

  /** What was stored, where: the length and count are those the package had. */
  datatype Fix =
    | Dword(p: nat, v: nat)
    | Pss(p: nat, size: nat, count: nat, states: seq<PssState>, npss: bool)

  /** With the positions of the turns that selected or stored something, or left the bounds. */
  datatype Run = Run(outcome: Outcome, table: seq<Byte>, fixes: seq<Fix>, acts: seq<nat>)

  function FixOf(s: seq<Byte>, p: nat, a: Action): seq<Fix>
    requires p + SLACK <= |s|
  {
    match a
    case Value(v) => [Dword(p, v)]
    case Clear => [Dword(p, 0)]
    case Package(states, npss) => [Pss(p, PackageSize(s, p), s[p + COUNT], states, npss)]
    case _ => []
  }

  function ActOf(p: nat, a: Action): seq<nat> {
    if a.Skip? then [] else [p]
  }

  /** What a turn adds to the run of the rest. */
  function Turned(s: seq<Byte>, p: nat, a: Action, rest: Run): Run
    requires p + SLACK <= |s|
  {
    rest.(fixes := FixOf(s, p, a) + rest.fixes, acts := ActOf(p, a) + rest.acts)
  }

  function Scan(env: Env, s: seq<Byte>, c: Cursor, end: nat): (run: Run)
    requires end + SLACK <= |s|
    ensures |run.table| == |s|
    decreases end + 1 - c.p
  {
    if c.p > end then Run(Done, s, [], [])
    else
      var a := ActionAt(env, s, c);
      var t := Effect(s, c.p, a);
      if a.Leaves() then Turned(s, c.p, a, Run(OutOfBounds, t, [], []))
      else if a.Package? && PackageSize(s, c.p) == 0 then Turned(s, c.p, a, Run(Stuck, t, [], []))
      else Turned(s, c.p, a, Scan(env, t, Advance(env, s, c, a), end))
  }

  // ----- progress -----

  lemma {:induction false} SameAction(env: Env, s: seq<Byte>, t: seq<Byte>, c: Cursor)
    requires c.p + SLACK <= |s| && |t| == |s| && Same(t, s, 0, c.p + 5)
    requires ActionAt(env, s, c).Package? && Contained(t, c.p, |ActionAt(env, s, c).states|)
    ensures ActionAt(env, t, c) == ActionAt(env, s, c)
  {
  }

  lemma {:induction false} EmptyStays(env: Env, s: seq<Byte>, c: Cursor)
    requires c.p + SLACK <= |s| && ActionAt(env, s, c).Package? && PackageSize(s, c.p) == 0
    ensures
      var a := ActionAt(env, s, c);
      var t := Effect(s, c.p, a);
      ActionAt(env, t, c) == a && PackageSize(t, c.p) == 0 && Effect(t, c.p, a) == t && Advance(env, t, c, a) == c
  {
    var a := ActionAt(env, s, c);
    PackageFrame(s, c.p, a.states, a.npss);
    EmptyPackageSticks(s, c.p, a.states, a.npss);
    SameAction(env, s, Effect(s, c.p, a), c);
  }

  /** Every turn moves the scan forward, except at a package whose length reads 0; there the
      next turn finds the same position and the same action and changes nothing. */
  lemma {:induction false} AdvancesUnlessEmpty(env: Env, s: seq<Byte>, c: Cursor)
    requires c.p + SLACK <= |s| && !ActionAt(env, s, c).Leaves()
    ensures
      var a := ActionAt(env, s, c);
      Advance(env, s, c, a).p > c.p <==> !(a.Package? && PackageSize(s, c.p) == 0)
    ensures
      var a := ActionAt(env, s, c);
      var t := Effect(s, c.p, a);
      a.Package? && PackageSize(s, c.p) == 0 ==>
        Advance(env, s, c, a) == c && ActionAt(env, t, c) == a && Effect(t, c.p, a) == t && Advance(env, t, c, a) == c
  {
    var a := ActionAt(env, s, c);
    if a.Package? && PackageSize(s, c.p) == 0 {
      EmptyStays(env, s, c);
    }
  }

  /** The loop is over: the position is past the end, or the code has left its bounds. */
  predicate Over(env: Env, s: seq<Byte>, c: Cursor, end: nat)
    requires end + SLACK <= |s|
  {
    c.p > end || ActionAt(env, s, c).Leaves()
  }

  /** The table and the cursor after n turns of the loop. */
  function AfterTurns(n: nat, env: Env, s: seq<Byte>, c: Cursor, end: nat): (r: (seq<Byte>, Cursor))
    requires end + SLACK <= |s|
    ensures |r.0| == |s|
    decreases n
  {
    if n == 0 || Over(env, s, c, end) then (s, c)
    else
      var a := ActionAt(env, s, c);
      AfterTurns(n - 1, env, Effect(s, c.p, a), Advance(env, s, c, a), end)
  }

  predicate EndsAfter(n: nat, env: Env, s: seq<Byte>, c: Cursor, end: nat)
    requires end + SLACK <= |s|
  {
    var (t, d) := AfterTurns(n, env, s, c, end);
    Over(env, t, d, end)
  }

  /** At an empty package no number of turns leads on. */
  lemma {:induction false} TurnsStay(n: nat, env: Env, s: seq<Byte>, c: Cursor, end: nat)
    requires end + SLACK <= |s| && c.p <= end
    requires ActionAt(env, s, c).Package? && PackageSize(s, c.p) == 0
    ensures !EndsAfter(n, env, s, c, end)
    decreases n
  {
    if n > 0 {
      EmptyStays(env, s, c);
      TurnsStay(n - 1, env, Effect(s, c.p, ActionAt(env, s, c)), c, end);
    }
  }

  lemma {:induction false} EndsLater(env: Env, s: seq<Byte>, c: Cursor, end: nat, t: seq<Byte>, d: Cursor)
    requires end + SLACK <= |s| && !Over(env, s, c, end)
    requires t == Effect(s, c.p, ActionAt(env, s, c)) && d == Advance(env, s, c, ActionAt(env, s, c))
    ensures (exists n: nat :: EndsAfter(n, env, s, c, end)) <==> exists n: nat :: EndsAfter(n, env, t, d, end)
  {
    if n: nat :| EndsAfter(n, env, t, d, end) {
      assert AfterTurns(n + 1, env, s, c, end) == AfterTurns(n, env, t, d, end);
      assert EndsAfter(n + 1, env, s, c, end);
    }
    if n: nat :| EndsAfter(n, env, s, c, end) {
      assert n > 0 && AfterTurns(n, env, s, c, end) == AfterTurns(n - 1, env, t, d, end);
      assert EndsAfter(n - 1, env, t, d, end);
    }
  }

  /** Some number of turns ends the loop if and only if the scan does not get stuck. */
  lemma {:induction false} ScanEndsIff(env: Env, s: seq<Byte>, c: Cursor, end: nat)
    requires end + SLACK <= |s|
    ensures (exists n: nat :: EndsAfter(n, env, s, c, end)) <==> Scan(env, s, c, end).outcome != Stuck
    decreases end + 1 - c.p
  {
    if Over(env, s, c, end) {
      assert EndsAfter(0, env, s, c, end);
    } else {
      var a := ActionAt(env, s, c);
      if a.Package? && PackageSize(s, c.p) == 0 {
        forall n: nat ensures !EndsAfter(n, env, s, c, end) {
          TurnsStay(n, env, s, c, end);
        }
      } else {
        EndsLater(env, s, c, end, Effect(s, c.p, a), Advance(env, s, c, a));
        ScanEndsIff(env, Effect(s, c.p, a), Advance(env, s, c, a), end);
      }
    }
  }

  // ----- what the scan leaves -----

  function Low(f: Fix): nat {
    f.p + 5
  }

  /** The end of the bytes a fix stores. */
  function High(f: Fix): nat {
    match f
    case Dword(p, _) => p + 9
    case Pss(p, _, count, _, _) => EntryAt(p, count)
  }

  /** The length of the package covers its entries, and they suffice for the states. */
  predicate WellSized(f: Fix) {
    f.Pss? ==> f.size == 3 + ENTRY_SIZE * f.count && |f.states| <= f.count
  }

  /** The names that go with a fix. */
  predicate Named(s: seq<Byte>, f: Fix) {
    match f
    case Dword(p, _) => (NameAt(s, p, DOMN) || NameAt(s, p, NCPU)) && NamedDword(s, p)
    case Pss(p, _, _, _, npss) => NameAt(s, p, if npss then NPSS else SPSS)
  }

  /** The fix is in place in r, where the input was s. */
  ghost predicate Fixed(r: seq<Byte>, s: seq<Byte>, f: Fix) {
    && Named(r, f)
    && match f
       case Dword(p, v) => Field(r, p + 5, 4) == v % 0x1_0000_0000
       case Pss(p, _, count, states, npss) => PackageHolds(r, s, p, count, states, npss)
  }

  /** No byte changes before the values of the position where the scan is. */
  lemma {:induction false} Settled(env: Env, s: seq<Byte>, c: Cursor, end: nat)
    requires end + SLACK <= |s|
    ensures forall k :: 0 <= k < |s| && k < c.p + 5 ==> Scan(env, s, c, end).table[k] == s[k]
    decreases end + 1 - c.p
  {
    if c.p <= end {
      var a := ActionAt(env, s, c);
      EffectSettled(s, c.p, a);
      if !a.Leaves() {
        if !(a.Package? && PackageSize(s, c.p) == 0) {
          Settled(env, Effect(s, c.p, a), Advance(env, s, c, a), end);
        }
      }
    }
  }

  lemma {:induction false} EffectSettled(s: seq<Byte>, p: nat, a: Action)
    requires p + SLACK <= |s| && (a.Package? ==> Contained(s, p, |a.states|))
    ensures forall k :: 0 <= k < p + 5 ==> Effect(s, p, a)[k] == s[k]
  {
    if a.Package? {
      PackageFrame(s, p, a.states, a.npss);
    }
  }

  lemma {:induction false} FixNamed(env: Env, s: seq<Byte>, c: Cursor, r: seq<Byte>)
    requires c.p + SLACK <= |s| && |r| == |s| && Same(r, s, 0, c.p + 5)
    ensures
      var fixes := FixOf(s, c.p, ActionAt(env, s, c));
      fixes != [] ==> fixes[0].p == c.p && Named(r, fixes[0])
  {
  }

  /** Every fix is at or behind the scan's position, at a name the result still has. */
  lemma {:induction false} FixesNamed(env: Env, s: seq<Byte>, c: Cursor, end: nat, i: nat)
    requires end + SLACK <= |s| && i < |Scan(env, s, c, end).fixes|
    ensures
      var run := Scan(env, s, c, end);
      run.fixes[i].p >= c.p && Named(run.table, run.fixes[i])
    decreases end + 1 - c.p
  {
    var a := ActionAt(env, s, c);
    Settled(env, s, c, end);
    FixNamed(env, s, c, Scan(env, s, c, end).table);
    var first := FixOf(s, c.p, a);
    if i >= |first| {
      FixesNamed(env, Effect(s, c.p, a), Advance(env, s, c, a), end, i - |first|);
    }
  }

  /** No name starts inside the head of a named double word. */
  lemma {:induction false} NoNameInside(s: seq<Byte>, p: nat, f: Fix)
    requires (NameAt(s, p, DOMN) || NameAt(s, p, NCPU)) && NamedDword(s, p) && Named(s, f) && f.p > p
    ensures f.p >= p + 5
  {
  }

  lemma {:induction false} BehindDword(env: Env, s: seq<Byte>, c: Cursor, end: nat, i: nat, p: nat)
    requires end + SLACK <= |s| && i < |Scan(env, s, c, end).fixes|
    requires c.p == p + 1 && (NameAt(s, p, DOMN) || NameAt(s, p, NCPU)) && NamedDword(s, p)
    ensures Scan(env, s, c, end).fixes[i].p >= p + 5
  {
    var run := Scan(env, s, c, end);
    Settled(env, s, c, end);
    FixesNamed(env, s, c, end, i);
    NoNameInside(run.table, p, run.fixes[i]);
  }

  lemma {:induction false} FixAhead(env: Env, s: seq<Byte>, c: Cursor, end: nat, i: nat)
    requires end + SLACK <= |s| && i < |Scan(env, s, c, end).fixes|
    ensures Scan(env, s, c, end).fixes[i].p >= c.p
  {
    FixesNamed(env, s, c, end, i);
  }

  lemma {:induction false} HighOfFix(env: Env, s: seq<Byte>, c: Cursor)
    requires c.p + SLACK <= |s|
    requires !ActionAt(env, s, c).Leaves()
    requires
      var first := FixOf(s, c.p, ActionAt(env, s, c));
      first != [] && WellSized(first[0])
    ensures
      var a := ActionAt(env, s, c);
      var t, d, high := Effect(s, c.p, a), Advance(env, s, c, a), High(FixOf(s, c.p, a)[0]);
      if a.Value? then
        high == c.p + 9 && d.p == c.p + 1 && (NameAt(t, c.p, DOMN) || NameAt(t, c.p, NCPU)) && NamedDword(t, c.p)
      else
        high == d.p + 5
  {
    EffectSettled(s, c.p, ActionAt(env, s, c));
  }

  /** The fixes behind one that the scan just made leave its bytes alone. */
  lemma {:induction false} NextBehind(env: Env, s: seq<Byte>, c: Cursor, end: nat, i: nat)
    requires end + SLACK <= |s| && c.p <= end && !ActionAt(env, s, c).Leaves()
    requires
      var a := ActionAt(env, s, c);
      var first := FixOf(s, c.p, a);
      && first != [] && WellSized(first[0])
      && i < |Scan(env, Effect(s, c.p, a), Advance(env, s, c, a), end).fixes|
    ensures
      var a := ActionAt(env, s, c);
      var next := Scan(env, Effect(s, c.p, a), Advance(env, s, c, a), end).fixes[i];
      Low(next) >= High(FixOf(s, c.p, a)[0])
  {
    var a := ActionAt(env, s, c);
    HighOfFix(env, s, c);
    if a.Value? {
      BehindDword(env, Effect(s, c.p, a), Advance(env, s, c, a), end, i, c.p);
    } else {
      FixAhead(env, Effect(s, c.p, a), Advance(env, s, c, a), end, i);
    }
  }

  /** Same bytes up to the end of the fix: it is in place there too. */
  lemma {:induction false} FixedInResult(r: seq<Byte>, t: seq<Byte>, s: seq<Byte>, f: Fix)
    requires |r| == |t| == |s| && High(f) <= |s| && Fixed(t, s, f) && Same(r, t, 0, High(f))
    ensures Fixed(r, s, f)
  {
    match f
    case Dword(p, v) =>
      assert r[p + 5..p + 9] == t[p + 5..p + 9];
    case Pss(p, _, count, states, npss) =>
      forall i: nat | i < |states|
        ensures PackageEntry(r, p, i) == PackageEntry(t, p, i)
      {
      }
  }

  lemma {:induction false} FixedForInput(r: seq<Byte>, t: seq<Byte>, s: seq<Byte>, f: Fix)
    requires |r| == |t| == |s| && High(f) <= |s| && Fixed(r, t, f) && Same(t, s, Low(f), High(f))
    ensures Fixed(r, s, f)
  {
    if f.Pss? {
      forall i: nat | i < |f.states|
        ensures PackageEntry(t, f.p, i) == PackageEntry(s, f.p, i)
      {
      }
    }
  }

  /** One fix is in place right after its turn, and nothing else changed. */
  lemma {:induction false} EffectFixed(env: Env, s: seq<Byte>, c: Cursor)
    requires c.p + SLACK <= |s|
    requires
      var first := FixOf(s, c.p, ActionAt(env, s, c));
      first != [] && WellSized(first[0])
    ensures
      var a := ActionAt(env, s, c);
      var t, f := Effect(s, c.p, a), FixOf(s, c.p, a)[0];
      && High(f) <= |s| && Fixed(t, s, f)
      && Same(t, s, 0, Low(f)) && Same(t, s, High(f), |s|)
  {
    var a := ActionAt(env, s, c);
    var t, f := Effect(s, c.p, a), FixOf(s, c.p, a)[0];
    EffectSettled(s, c.p, a);
    FixNamed(env, s, c, t);
    if a.Value? {
      DwordStored(s, c.p, a.v);
    } else if a.Clear? {
      DwordStored(s, c.p, 0);
    } else {
      PackagePatched(s, c.p, f.count, a.states, a.npss);
    }
  }

  lemma {:induction false} DwordStored(s: seq<Byte>, p: nat, v: nat)
    requires p + SLACK <= |s|
    ensures Field(Patch(s, p + 5, Le(4, v)), p + 5, 4) == v % 0x1_0000_0000
  {
    LoadWord(v);
    assert Patch(s, p + 5, Le(4, v))[p + 5..p + 9] == Le(4, v);
  }

  // ----- the result -----

  ghost predicate AllWellSized(fixes: seq<Fix>) {
    forall i :: 0 <= i < |fixes| ==> WellSized(fixes[i])
  }

  /** The stored bytes of different fixes do not overlap, and come in order. */
  ghost predicate Apart(fixes: seq<Fix>) {
    forall i, j :: 0 <= i < j < |fixes| ==> High(fixes[i]) <= Low(fixes[j])
  }

  ghost predicate InPlace(r: seq<Byte>, s: seq<Byte>, fixes: seq<Fix>) {
    forall i :: 0 <= i < |fixes| ==> High(fixes[i]) <= |s| && Fixed(r, s, fixes[i])
  }

  predicate Outside(fixes: seq<Fix>, k: nat) {
    forall i :: 0 <= i < |fixes| ==> !(Low(fixes[i]) <= k < High(fixes[i]))
  }

  ghost predicate Untouched(r: seq<Byte>, s: seq<Byte>, fixes: seq<Fix>) {
    |r| == |s| && forall k: nat :: k < |s| && Outside(fixes, k) ==> r[k] == s[k]
  }

  ghost predicate Result(run: Run, s: seq<Byte>) {
    Apart(run.fixes) && InPlace(run.table, s, run.fixes) && Untouched(run.table, s, run.fixes)
  }

  /** The rest of the scan, behind the first fix, extends to the whole. */
  lemma {:induction false} Joined(r: seq<Byte>, t: seq<Byte>, s: seq<Byte>, f: Fix, rest: seq<Fix>)
    requires |r| == |t| == |s| && High(f) <= |s|
    requires Fixed(t, s, f) && Same(t, s, 0, Low(f)) && Same(t, s, High(f), |s|)
    requires Apart(rest) && InPlace(r, t, rest) && Untouched(r, t, rest)
    requires forall i :: 0 <= i < |rest| ==> High(f) <= Low(rest[i])
    ensures Apart([f] + rest) && InPlace(r, s, [f] + rest) && Untouched(r, s, [f] + rest)
  {
    var all := [f] + rest;
    assert all[0] == f && forall i :: 1 <= i < |all| ==> all[i] == rest[i - 1];
    UntouchedJoined(r, t, s, f, rest);
    FixedInResult(r, t, s, f);
    forall i | 0 <= i < |rest|
      ensures Fixed(r, s, rest[i])
    {
      FixedForInput(r, t, s, rest[i]);
    }
  }

  lemma {:induction false} UntouchedJoined(r: seq<Byte>, t: seq<Byte>, s: seq<Byte>, f: Fix, rest: seq<Fix>)
    requires |r| == |t| == |s| && High(f) <= |s| && Same(t, s, 0, Low(f)) && Same(t, s, High(f), |s|)
    requires Untouched(r, t, rest) && forall i :: 0 <= i < |rest| ==> High(f) <= Low(rest[i])
    ensures Same(r, t, 0, High(f)) && Untouched(r, s, [f] + rest)
  {
    forall k | 0 <= k < High(f) ensures r[k] == t[k] {
      assert Outside(rest, k);
    }
    forall k: nat | k < |s| && Outside([f] + rest, k)
      ensures r[k] == s[k]
    {
      OutsideAll(f, rest, k);
    }
  }

  lemma {:induction false} OutsideAll(f: Fix, rest: seq<Fix>, k: nat)
    requires Outside([f] + rest, k)
    ensures Outside(rest, k) && !(Low(f) <= k < High(f))
  {
    var all := [f] + rest;
    assert all[0] == f;
    forall i | 0 <= i < |rest|
      ensures !(Low(rest[i]) <= k < High(rest[i]))
    {
      assert all[i + 1] == rest[i];
    }
  }

  lemma {:induction false} AllButFirst(f: Fix, rest: seq<Fix>)
    requires AllWellSized([f] + rest)
    ensures WellSized(f) && AllWellSized(rest)
  {
    assert ([f] + rest)[0] == f;
    forall i | 0 <= i < |rest| ensures WellSized(rest[i]) {
      assert ([f] + rest)[i + 1] == rest[i];
    }
  }

  /** One turn and the rest of the scan. */
  lemma {:induction false} TurnResult(env: Env, s: seq<Byte>, c: Cursor, rest: Run)
    requires c.p + SLACK <= |s|
    requires
      var a := ActionAt(env, s, c);
      var first := FixOf(s, c.p, a);
      && first != [] && WellSized(first[0]) && Result(rest, Effect(s, c.p, a))
      && forall i :: 0 <= i < |rest.fixes| ==> High(first[0]) <= Low(rest.fixes[i])
    ensures Result(Turned(s, c.p, ActionAt(env, s, c), rest), s)
  {
    var a := ActionAt(env, s, c);
    var f := FixOf(s, c.p, a)[0];
    EffectFixed(env, s, c);
    Joined(rest.table, Effect(s, c.p, a), s, f, rest.fixes);
    assert FixOf(s, c.p, a) == [f];
  }

  lemma {:induction false} StuckNotSized(env: Env, s: seq<Byte>, c: Cursor, end: nat)
    requires end + SLACK <= |s| && c.p <= end
    requires ActionAt(env, s, c).Package? && PackageSize(s, c.p) == 0
    ensures !AllWellSized(Scan(env, s, c, end).fixes)
  {
    assert !WellSized(Scan(env, s, c, end).fixes[0]);
  }

  lemma {:induction false} NothingFixed(env: Env, s: seq<Byte>, c: Cursor, end: nat)
    requires end + SLACK <= |s| && c.p <= end && !ActionAt(env, s, c).Leaves()
    requires FixOf(s, c.p, ActionAt(env, s, c)) == []
    ensures
      var run, rest := Scan(env, s, c, end), Scan(env, s, Advance(env, s, c, ActionAt(env, s, c)), end);
      run.outcome == rest.outcome && run.table == rest.table && run.fixes == rest.fixes
  {
    var rest := Scan(env, s, Advance(env, s, c, ActionAt(env, s, c)), end);
    assert [] + rest.fixes == rest.fixes;
  }

  /** If the packages the scan meets are well sized, then whatever else the bytes are, the
      fixes are disjoint, each one is in place at the end, and every other byte is as it was. */
  lemma {:induction false} ScanResult(env: Env, s: seq<Byte>, c: Cursor, end: nat)
    requires end + SLACK <= |s| && AllWellSized(Scan(env, s, c, end).fixes)
    ensures Result(Scan(env, s, c, end), s)
    decreases end + 1 - c.p, 1
  {
    if c.p <= end {
      var a := ActionAt(env, s, c);
      if a.Package? && PackageSize(s, c.p) == 0 {
        StuckNotSized(env, s, c, end);
      } else if a.Leaves() {
        LeftResult(env, s, c, end);
      } else if FixOf(s, c.p, a) == [] {
        NothingFixed(env, s, c, end);
        ScanResult(env, s, Advance(env, s, c, a), end);
      } else {
        FixResult(env, s, c, end);
      }
    }
  }

  /** A turn that leaves the bounds. */
  lemma {:induction false} LeftResult(env: Env, s: seq<Byte>, c: Cursor, end: nat)
    requires end + SLACK <= |s| && c.p <= end && ActionAt(env, s, c).Leaves()
    ensures Result(Scan(env, s, c, end), s)
  {
    var a := ActionAt(env, s, c);
    if a.Clear? {
      TurnResult(env, s, c, Run(OutOfBounds, Effect(s, c.p, a), [], []));
    }
  }

  /** A turn that stores something, with the rest of the scan. */
  lemma {:induction false} FixResult(env: Env, s: seq<Byte>, c: Cursor, end: nat)
    requires end + SLACK <= |s| && c.p <= end && AllWellSized(Scan(env, s, c, end).fixes)
    requires !ActionAt(env, s, c).Leaves() && FixOf(s, c.p, ActionAt(env, s, c)) != []
    requires ActionAt(env, s, c).Package? ==> PackageSize(s, c.p) > 0
    ensures Result(Scan(env, s, c, end), s)
    decreases end + 1 - c.p, 0
  {
    var a := ActionAt(env, s, c);
    var t, d, first := Effect(s, c.p, a), Advance(env, s, c, a), FixOf(s, c.p, a);
    var rest := Scan(env, t, d, end);
    assert first == [first[0]];
    AllButFirst(first[0], rest.fixes);
    ScanResult(env, t, d, end);
    forall i | 0 <= i < |rest.fixes|
      ensures High(first[0]) <= Low(rest.fixes[i])
    {
      NextBehind(env, s, c, end, i);
    }
    TurnResult(env, s, c, rest);
  }

  // ----- PatchGv3SsdtTable -----

  const START := Cursor(0, 0, Null)

  ghost function EnvOf(cpus: CpuIdMap, eists: seq<Eist>): Env
    reads cpus
  {
    Env(First(Dedup(cpus.appended)), eists)
  }

  /** A table with the signature has nothing to patch in its first four bytes, so the
      length is never stored to. */
  lemma {:induction false} HeaderKept(env: Env, s: seq<Byte>, c: Cursor)
    requires c.p + SLACK <= |s| && NameAt(s, 0, SSDT)
    ensures
      var t := Effect(s, c.p, ActionAt(env, s, c));
      NameAt(t, 0, SSDT) && Field(t, LENGTH_FIELD, 4) == Field(s, LENGTH_FIELD, 4)
  {
    var a := ActionAt(env, s, c);
    var t := Effect(s, c.p, a);
    if a.Value? || a.Clear? || a.Package? {
      assert c.p >= 4;
      EffectSettled(s, c.p, a);
      assert t[4..8] == s[4..8];
    }
  }

  /** LocateCpuEistProtocol. */
  method LocateCpuEistProtocol(cpus: CpuIdMap, eists: seq<Eist>, cpuIndex: nat) returns (prot: EistProt)
    requires cpus.Valid()
    ensures prot == EistOf(EnvOf(cpus, eists), cpuIndex)
    ensures LocatedFor(EnvOf(cpus, eists), cpuIndex, prot)
  {
    EistIsLocated(EnvOf(cpus, eists), cpuIndex);
    ghost var env := EnvOf(cpus, eists);
    var index := 0;
    prot := Null;
    while index < |eists|
      invariant index <= |eists| && prot == Null
      invariant index > 0 ==> ApicOf(env.cpus, cpuIndex + 1) != NO_APIC_ID
      invariant
        var apicId := ApicOf(env.cpus, cpuIndex + 1);
        FirstEist(eists, apicId) == FirstEist(eists[index..], apicId)
    {
      var apicId := cpus.ProcessorId2ApicId(cpuIndex + 1);
      if apicId == NO_APIC_ID {
        return;
      }
      if eists[index].procApicId == apicId {
        return Located(eists[index].states);
      }
      index := index + 1;
    }
  }

  /** The value of a DOMN or NCPU object. */
  method NumberToStore(cpus: CpuIdMap, eists: seq<Eist>, cpu: nat, domn: bool) returns (v: nat)
    requires cpus.Valid() && cpu < MAX_CPU_NUM
    ensures v == if domn then DomainOf(EnvOf(cpus, eists), cpu) else NumberOf(EnvOf(cpus, eists), cpu)
    ensures
      var kept := EnvOf(cpus, eists).cpus;
      cpu < |kept| ==>
        var package := kept[cpu].apicId / 0x10 % 2;
        v == if domn then package else |PackageMembers(kept, package)|
  {
    NumbersMean(EnvOf(cpus, eists), cpu);
    ghost var kept := First(Dedup(cpus.appended));
    assert cpu < |kept| ==> cpus.table[cpu] == CpuMap.EntryOf(kept[cpu]);
    v := 0;
    if cpus.table[cpu].flags != 0 {
      v := cpus.table[cpu].apicId / 0x10 % 2;
      if !domn {
        v := cpus.GetProcNumberInPackage(v);
      }
    }
  }

  /** How the loop goes on after one turn. */
  datatype Progress = Next(c: Cursor) | Stop(outcome: Outcome)

  /** What one turn must do. */
  ghost predicate Turns(env: Env, s: seq<Byte>, c: Cursor, r: Progress, t: seq<Byte>)
    requires c.p + SLACK <= |s|
  {
    var a := ActionAt(env, s, c);
    && t == Effect(s, c.p, a)
    && r == if a.Leaves() then Stop(OutOfBounds)
            else if a.Package? && PackageSize(s, c.p) == 0 then Stop(Stuck)
            else Next(Advance(env, s, c, a))
  }

  /** The NPSS and SPSS cases. */
  method PackageTurn(cpus: CpuIdMap, ghost eists: seq<Eist>, table: array<Byte>, c: Cursor) returns (r: Progress)
    requires c.p + SLACK <= table.Length && (NameAt(table[..], c.p, NPSS) || NameAt(table[..], c.p, SPSS))
    modifies table
    ensures Turns(EnvOf(cpus, eists), old(table[..]), c, r, table[..])
  {
    var p := c.p;
    if c.eist.Null? || p == 0 || table[p - 1] != AML_NAME_OP {
      return Next(c.(p := p + 1));
    }
    var states := c.eist.states;
    if !Contained(table[..], p, |states|) {
      return Stop(OutOfBounds);
    }
    var size := PackageSize(table[..], p);
    StorePackage(table, p, states, NameAt(table[..], p, NPSS));
    r := if size == 0 then Stop(Stuck) else Next(c.(p := p + size));
  }

  /** The DOMN and NCPU cases. */
  method DwordTurn(cpus: CpuIdMap, eists: seq<Eist>, table: array<Byte>, c: Cursor) returns (r: Progress)
    requires cpus.Valid()
    requires c.p + SLACK <= table.Length && (NameAt(table[..], c.p, DOMN) || NameAt(table[..], c.p, NCPU))
    modifies table
    ensures Turns(EnvOf(cpus, eists), old(table[..]), c, r, table[..])
  {
    var p := c.p;
    if p == 0 || table[p - 1] != AML_NAME_OP || table[p + 4] != AML_NAME_DWORD_SIZE {
      return Next(c.(p := p + 1));
    }
    if c.cpu >= MAX_CPU_NUM {
      StoreBytes(table, p + 5, Le(4, 0));
      return Stop(OutOfBounds);
    }
    var v := NumberToStore(cpus, eists, c.cpu, NameAt(table[..], p, DOMN));
    StoreBytes(table, p + 5, Le(4, v));
    r := Next(c.(p := p + 1));
  }

  method Turn(cpus: CpuIdMap, eists: seq<Eist>, table: array<Byte>, c: Cursor) returns (r: Progress)
    requires cpus.Valid() && c.p + SLACK <= table.Length
    modifies table
    ensures Turns(EnvOf(cpus, eists), old(table[..]), c, r, table[..])
  {
    var p := c.p;
    if NameAt(table[..], p, PR) {
      var cpu := CpuOf(table[p + 7]);
      var eist := LocateCpuEistProtocol(cpus, eists, cpu);
      r := Next(Cursor(p + 1, cpu, eist));
    } else if NameAt(table[..], p, DOMN) || NameAt(table[..], p, NCPU) {
      r := DwordTurn(cpus, eists, table, c);
    } else if NameAt(table[..], p, NPSS) || NameAt(table[..], p, SPSS) {
      r := PackageTurn(cpus, eists, table, c);
    } else {
      r := Next(c.(p := p + 1));
    }
  }

  /** The rest of the scan leads to the goal. */
  ghost predicate Ahead(env: Env, s: seq<Byte>, c: Cursor, end: nat, goal: Run) {
    && end + SLACK <= |s|
    && Scan(env, s, c, end).outcome == goal.outcome && Scan(env, s, c, end).table == goal.table
  }

  lemma {:induction false} TurnAhead(env: Env, s: seq<Byte>, c: Cursor, end: nat, goal: Run, r: Progress, t: seq<Byte>)
    requires Ahead(env, s, c, end, goal) && c.p <= end && Turns(env, s, c, r, t)
    ensures r.Next? ==> r.c.p > c.p && Ahead(env, t, r.c, end, goal)
    ensures r.Stop? ==> r.outcome == goal.outcome && t == goal.table
    ensures NameAt(s, 0, SSDT) ==> NameAt(t, 0, SSDT) && Field(t, LENGTH_FIELD, 4) == Field(s, LENGTH_FIELD, 4)
  {
    if !ActionAt(env, s, c).Leaves() {
      AdvancesUnlessEmpty(env, s, c);
    }
    if NameAt(s, 0, SSDT) {
      HeaderKept(env, s, c);
    }
  }

  /** The table and the outcome are those of the scan from the start; the length is read
      again in each turn. */
  method PatchGv3SsdtTable(cpus: CpuIdMap, eists: seq<Eist>, table: array<Byte>) returns (outcome: Outcome)
    requires cpus.Valid() && table.Length >= 8 && NameAt(table[..], 0, SSDT)
    requires Field(table[..], LENGTH_FIELD, 4) + SLACK <= table.Length
    modifies table
    ensures
      var run := Scan(EnvOf(cpus, eists), old(table[..]), START, Field(old(table[..]), LENGTH_FIELD, 4));
      outcome == run.outcome && table[..] == run.table
  {
    ghost var env, end := EnvOf(cpus, eists), Field(table[..], LENGTH_FIELD, 4);
    ghost var goal := Scan(env, table[..], START, end);
    var c := START;
    while c.p <= Field(table[..], LENGTH_FIELD, 4)
      invariant NameAt(table[..], 0, SSDT) && Field(table[..], LENGTH_FIELD, 4) == end
      invariant Ahead(env, table[..], c, end, goal)
      invariant cpus.Valid() && EnvOf(cpus, eists) == env
      decreases end + 1 - c.p
    {
      ghost var s := table[..];
      var r := Turn(cpus, eists, table, c);
      TurnAhead(env, s, c, end, goal, r, table[..]);
      if r.Stop? {
        return r.outcome;
      }
      c := r.c;
    }
    outcome := Done;
  }
}
