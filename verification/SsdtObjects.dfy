/** AcpiPlatform/AcpiPlatformHooks.c: which objects of the processor SSDT PatchGv3SsdtTable
    stores to, and with which values, told from the bytes of the input alone. */
module SsdtObjects {
  import opened Bytes
  import opened CpuMap
  import opened PssPackage
  import opened PatchGv3Ssdt

  predicate ObjectName(s: seq<Byte>, p: nat) {
    NameAt(s, p, DOMN) || NameAt(s, p, NCPU) || NameAt(s, p, NPSS) || NameAt(s, p, SPSS)
  }

  predicate AnyName(s: seq<Byte>, p: nat) {
    NameAt(s, p, PR) || ObjectName(s, p)
  }

  // ----- the objects of the input -----

  /** A named double word whose name operator is not in front of `free`. */
  predicate DwordAt(s: seq<Byte>, p: nat, free: nat) {
    (NameAt(s, p, DOMN) || NameAt(s, p, NCPU)) && free < p && NamedDword(s, p)
  }

  predicate PackageAt(s: seq<Byte>, p: nat, free: nat) {
    (NameAt(s, p, NPSS) || NameAt(s, p, SPSS)) && free < p && s[p - 1] == AML_NAME_OP
  }

  function NumberFor(env: Env, domn: bool, cpu: nat): nat {
    if domn then DomainOf(env, cpu) else NumberOf(env, cpu)
  }

  predicate ObjectAt(s: seq<Byte>, p: nat) {
    DwordAt(s, p, 0) || PackageAt(s, p, 0)
  }

  /** The scan selects or stores here, if the processor it holds has the protocol. */
  predicate Heard(s: seq<Byte>, p: nat) {
    NameAt(s, p, PR) || ObjectAt(s, p)
  }

  /** A package, and the processor has the protocol. */
  predicate Patches(s: seq<Byte>, c: Cursor, free: nat) {
    PackageAt(s, c.p, free) && c.eist.Located?
  }

  /** What one position of the input adds, and where to look next: behind an object that is
      stored to, and never at bytes of it. */
  datatype Step = Step(fixes: seq<Fix>, acts: seq<nat>, c: Cursor, free: nat)

  function StepAt(env: Env, s: seq<Byte>, c: Cursor, free: nat): (st: Step)
    requires c.p + SLACK <= |s|
    ensures st.c.p > c.p
  {
    if NameAt(s, c.p, PR) then
      var cpu := CpuOf(s[c.p + 7]);
      Step([], [c.p], Cursor(c.p + 1, cpu, EistOf(env, cpu)), free)
    else if DwordAt(s, c.p, free) then
      Step([Dword(c.p, NumberFor(env, NameAt(s, c.p, DOMN), c.cpu))], [c.p], c.(p := c.p + 9), c.p + 9)
    else if Patches(s, c, free) then
      var count := s[c.p + COUNT];
      var fix := Pss(c.p, PackageSize(s, c.p), count, c.eist.states, NameAt(s, c.p, NPSS));
      Step([fix], [c.p], c.(p := EntryAt(c.p, count)), EntryAt(c.p, count))
    else Step([], [], c.(p := c.p + 1), free)
  }

  function Objects(env: Env, s: seq<Byte>, c: Cursor, free: nat, end: nat): seq<Fix>
    requires end + SLACK <= |s|
    decreases end + 1 - c.p
  {
    if c.p > end then []
    else
      var st := StepAt(env, s, c, free);
      st.fixes + Objects(env, s, st.c, st.free, end)
  }

  // ----- where the scan comes to a halt -----

  /** A double word for a processor that the CPU map cannot have. */
  predicate OutOfMap(s: seq<Byte>, c: Cursor, free: nat) {
    DwordAt(s, c.p, free) && c.cpu >= MAX_CPU_NUM
  }

  /** A package with fewer entries than states, or a length that leads out of the buffer. */
  predicate OutOfTable(s: seq<Byte>, c: Cursor, free: nat) {
    Patches(s, c, free) && !Contained(s, c.p, |c.eist.states|)
  }

  /** A package whose length reads 0. */
  predicate EmptyHere(s: seq<Byte>, c: Cursor, free: nat)
    requires c.p + SLACK <= |s|
  {
    Patches(s, c, free) && Contained(s, c.p, |c.eist.states|) && PackageSize(s, c.p) == 0
  }

  predicate GoesOn(s: seq<Byte>, c: Cursor, free: nat)
    requires c.p + SLACK <= |s|
  {
    !OutOfMap(s, c, free) && !OutOfTable(s, c, free) && !EmptyHere(s, c, free)
  }

  /** How it ends, the fixes, and the positions of everything selected or stored. */
  datatype Reading = Reading(outcome: Outcome, fixes: seq<Fix>, acts: seq<nat>)

  /** The scan as it would be if it did not see its own stores. */
  function Read(env: Env, s: seq<Byte>, c: Cursor, free: nat, end: nat): Reading
    requires end + SLACK <= |s|
    decreases end + 1 - c.p
  {
    if c.p > end then Reading(Done, [], [])
    else if OutOfMap(s, c, free) then Reading(OutOfBounds, [Dword(c.p, 0)], [c.p])
    else if OutOfTable(s, c, free) then Reading(OutOfBounds, [], [c.p])
    else
      var st := StepAt(env, s, c, free);
      if EmptyHere(s, c, free) then Reading(Stuck, st.fixes, st.acts)
      else
        var rest := Read(env, s, st.c, st.free, end);
        Reading(rest.outcome, st.fixes + rest.fixes, st.acts + rest.acts)
  }

  // ----- well-formed packages and silent seams -----

  /** The bytes from the last two values of a package on, once states fill all of its entries. */
  function Seam(s: seq<Byte>, p: nat, states: seq<PssState>): (r: seq<Byte>)
    requires states != [] && EntryAt(p, |states|) <= |s|
    ensures |r| == |s|
  {
    var next := EntryAt(p, |states|);
    Patch(Patch(s, next - 9, Le(4, states[0].control % 0x1_0000_0000)), next - 4,
          Le(4, states[0].status % 0x1_0000_0000))
  }

  /** In the five bytes in front of an offset, where the scan goes on behind a package, there
      is nothing to select or to store to, and no object right at the offset. */
  predicate Silent(r: seq<Byte>, next: nat, end: nat) {
    && 6 <= next <= |r|
    && (forall k: nat :: next - 5 <= k < next && k <= end ==> !Heard(r, k))
    && (next <= end ==> !ObjectAt(r, next))
  }

  /** If states fill the package, their last values spell nothing. */
  predicate Quiet(s: seq<Byte>, p: nat, states: seq<PssState>, end: nat)
    requires p + ENTRIES <= |s|
  {
    0 < |states| == s[p + COUNT] && EntryAt(p, |states|) <= |s| ==>
      Silent(Seam(s, p, states), EntryAt(p, |states|), end)
  }

  /** A well-formed package with an entry for each state. */
  predicate Formed(s: seq<Byte>, p: nat, states: seq<PssState>) {
    p + ENTRIES <= |s| && WellFormed(s, p, s[p + COUNT]) && |states| <= s[p + COUNT]
  }

  /** All packages that the scan patches on its way are well formed. */
  predicate AllFormed(env: Env, s: seq<Byte>, c: Cursor, free: nat, end: nat)
    requires end + SLACK <= |s|
    decreases end + 1 - c.p
  {
    c.p > end || !GoesOn(s, c, free) ||
    ((Patches(s, c, free) ==> Formed(s, c.p, c.eist.states)) &&
     var st := StepAt(env, s, c, free);
     AllFormed(env, s, st.c, st.free, end))
  }

  /** None of them leaves anything to select or to store to behind it. */
  predicate AllQuiet(env: Env, s: seq<Byte>, c: Cursor, free: nat, end: nat)
    requires end + SLACK <= |s|
    decreases end + 1 - c.p
  {
    c.p > end || !GoesOn(s, c, free) ||
    ((Patches(s, c, free) ==> Quiet(s, c.p, c.eist.states, end)) &&
     var st := StepAt(env, s, c, free);
     AllQuiet(env, s, st.c, st.free, end))
  }

  /** Nothing on the way that would bring the scan to a halt. */
  predicate Sane(env: Env, s: seq<Byte>, end: nat)
    requires end + SLACK <= |s|
  {
    && AllFormed(env, s, START, 0, end) && AllQuiet(env, s, START, 0, end)
    && Read(env, s, START, 0, end).outcome == Done
  }

  // ----- the scan finds just these objects -----

  /** What the scan has stored lies in front of `free`, and no object starts right there. */
  ghost predicate Reached(s: seq<Byte>, t: seq<Byte>, p: nat, free: nat, end: nat) {
    && |t| == |s| && free <= p && free <= |s|
    && Same(t, s, free, |s|)
    && (0 < free == p <= end ==> !ObjectAt(t, free))
  }

  /** The double word at the position: its value is too small to spell anything. */
  lemma {:induction false} DwordNext(t: seq<Byte>, p: nat, v: nat)
    requires p + SLACK <= |t| && (NameAt(t, p, DOMN) || NameAt(t, p, NCPU)) && NamedDword(t, p) && v <= MAX_CPU_NUM
    ensures
      var r := Patch(t, p + 5, Le(4, v));
      r[p + 8] == 0 && forall k: nat :: p + 1 <= k < p + 9 ==> !AnyName(r, k)
  {
    assert Le(4, v) == [v, 0, 0, 0] by {
      assert v / 256 == 0 && Le(1, 0) == [0] && Le(2, 0) == [0, 0] && Le(3, 0) == [0, 0, 0];
    }
    var r := Patch(t, p + 5, [v, 0, 0, 0]);
    assert r[p + 5] == v && r[p + 6] == 0 && r[p + 7] == 0 && r[p + 8] == 0;
    forall k: nat | p + 1 <= k < p + 9
      ensures !AnyName(r, k)
    {
      assert r[p] == t[p] && r[p + 1] == t[p + 1] && r[p + 2] == t[p + 2];
      assert r[p + 3] == t[p + 3] && r[p + 4] == t[p + 4];
      NoNameStarts(r, p, k);
    }
  }

  lemma {:induction false} NoNameStarts(r: seq<Byte>, p: nat, k: nat)
    requires p + SLACK <= |r| && (NameAt(r, p, DOMN) || NameAt(r, p, NCPU)) && r[p + 4] == AML_NAME_DWORD_SIZE
    requires r[p + 5] <= MAX_CPU_NUM && r[p + 6] == 0 && r[p + 7] == 0 && r[p + 8] == 0 && p + 1 <= k < p + 9
    ensures !AnyName(r, k)
  {
  }

  lemma {:induction false} NumberSmall(env: Env, domn: bool, cpu: nat)
    requires |env.cpus| <= MAX_CPU_NUM
    ensures NumberFor(env, domn, cpu) <= MAX_CPU_NUM
  {
    if cpu < |env.cpus| {
      AtMostAll(env.cpus, env.cpus[cpu].apicId / 0x10 % 2);
    }
  }

  lemma {:induction false} AtMostAll(ls: seq<LocalApic>, package: Byte)
    ensures InPackage(ls, package) <= |ls|
  {
    if ls != [] {
      AtMostAll(ls[1..], package);
    }
  }

  /** The bytes behind a patched package tell whether it is silent: always, unless the states
      fill it, and then as the seam does. */
  lemma {:induction false} PackageNext(
      r: seq<Byte>, s: seq<Byte>, p: nat, states: seq<PssState>, npss: bool, end: nat)
    requires Formed(s, p, states)
    requires PackageHolds(r, s, p, s[p + COUNT], states, npss) && SameAround(r, s, p, s[p + COUNT])
    ensures Silent(r, EntryAt(p, s[p + COUNT]), end) <==> Quiet(s, p, states, end)
  {
    if |states| < s[p + COUNT] {
      NoopsSilent(r, EntryAt(p, s[p + COUNT]), end);
    } else if states == [] {
      EmptySilent(r, p, end);
    } else {
      FullSilent(r, s, p, states, npss, end);
    }
  }

  lemma {:induction false} NoopsSilent(r: seq<Byte>, next: nat, end: nat)
    requires 6 <= next <= |r| && forall k :: next - 5 <= k < next ==> r[k] == AML_NOOP_OP
    ensures Silent(r, next, end)
  {
  }

  lemma {:induction false} EmptySilent(r: seq<Byte>, p: nat, end: nat)
    requires WellFormed(r, p, 0)
    ensures Silent(r, p + ENTRIES, end)
  {
    var high: nat := r[p + SIZE + 1];
    assert PackageSize(r, p) == r[p + SIZE] % 16 + 16 * high;
    assert r[p + 6] == 0 && r[p + 7] == 0;
  }

  lemma {:induction false} SilentAgrees(r: seq<Byte>, u: seq<Byte>, next: nat, end: nat)
    requires |r| == |u| && 6 <= next && forall k :: next - 6 <= k < |r| ==> r[k] == u[k]
    ensures Silent(r, next, end) <==> Silent(u, next, end)
  {
    forall k: nat | k >= next - 5
      ensures Heard(r, k) == Heard(u, k) && ObjectAt(r, k) == ObjectAt(u, k)
    {
      HeardAgrees(r, u, k);
    }
  }

  lemma {:induction false} HeardAgrees(r: seq<Byte>, u: seq<Byte>, p: nat)
    requires |r| == |u| && p > 0 && forall k :: p - 1 <= k < |r| ==> r[k] == u[k]
    ensures Heard(r, p) == Heard(u, p) && ObjectAt(r, p) == ObjectAt(u, p)
  {
  }

  /** From the top of the last control value on, the package and what follows are the seam. */
  lemma {:induction false} FullSilent(
      r: seq<Byte>, s: seq<Byte>, p: nat, states: seq<PssState>, npss: bool, end: nat)
    requires Formed(s, p, states) && 0 < |states| == s[p + COUNT]
    requires PackageHolds(r, s, p, |states|, states, npss) && SameAround(r, s, p, |states|)
    ensures Silent(r, EntryAt(p, |states|), end) <==> Silent(Seam(s, p, states), EntryAt(p, |states|), end)
  {
    var u, next := Seam(s, p, states), EntryAt(p, |states|);
    LastEntry(r, s, p, states, npss);
    SeamBytes(s, p, states);
    forall k | next - 9 <= k < |s|
      ensures r[k] == u[k]
    {
      if k < next - 5 {
        assert r[next - 9..next - 5][k - (next - 9)] == u[next - 9..next - 5][k - (next - 9)];
      } else if next - 4 <= k < next {
        assert r[next - 4..next][k - (next - 4)] == u[next - 4..next][k - (next - 4)];
      }
    }
    SilentAgrees(r, u, next, end);
  }

  lemma {:induction false} SeamBytes(s: seq<Byte>, p: nat, states: seq<PssState>)
    requires states != [] && EntryAt(p, |states|) <= |s|
    ensures
      var u, next := Seam(s, p, states), EntryAt(p, |states|);
      && u[next - 4..next] == Le(4, states[0].status % 0x1_0000_0000)
      && u[next - 9..next - 5] == Le(4, states[0].control % 0x1_0000_0000)
      && u[next - 5] == s[next - 5] && forall k :: next <= k < |s| ==> u[k] == s[k]
  {
  }

  lemma {:induction false} LastEntry(r: seq<Byte>, s: seq<Byte>, p: nat, states: seq<PssState>, npss: bool)
    requires states != [] && PackageHolds(r, s, p, |states|, states, npss)
    ensures
      var next := EntryAt(p, |states|);
      && r[next - 4..next] == Le(4, states[0].status % 0x1_0000_0000)
      && r[next - 9..next - 5] == Le(4, states[0].control % 0x1_0000_0000)
      && r[next - 5] == s[next - 5]
  {
    var n := |states|;
    var i, next := n - 1, EntryAt(p, n);
    var e, was := PackageEntry(r, p, i), PackageEntry(s, p, i);
    assert EntryHolds(e, was, states[n - 1 - i], npss);
    assert r[next - 4..next] == e[29..33] && r[next - 9..next - 5] == e[24..28];
    StoreLoaded(e[29..33]);
    StoreLoaded(e[24..28]);
    assert r[next - 5] == e[28] && s[next - 5] == was[28];
  }

  // ----- one step of the scan -----

  /** The scan at a position where the input has nothing to store. */
  lemma {:induction false} PlainStep(env: Env, s: seq<Byte>, t: seq<Byte>, c: Cursor, free: nat, end: nat)
    requires c.p + SLACK <= |s| && c.p <= end && Reached(s, t, c.p, free, end)
    requires StepAt(env, s, c, free).fixes == []
    ensures
      var a, st := ActionAt(env, t, c), StepAt(env, s, c, free);
      && (a.Select? || a.Skip?) && Advance(env, t, c, a) == st.c && ActOf(c.p, a) == st.acts
      && Reached(s, t, st.c.p, free, end) && st.free == free
  {
  }

  /** The scan at a named double word: nothing is heard among the bytes it has then. */
  lemma {:induction false} DwordStep(env: Env, s: seq<Byte>, t: seq<Byte>, c: Cursor, free: nat, end: nat)
    returns (u: seq<Byte>)
    requires c.p + SLACK <= |s| && |env.cpus| <= MAX_CPU_NUM
    requires Reached(s, t, c.p, free, end) && DwordAt(s, c.p, free) && c.cpu < MAX_CPU_NUM
    ensures DwordTurns(env, s, t, c, free) && u == Effect(t, c.p, ActionAt(env, t, c))
    ensures Reached(s, u, c.p + 9, c.p + 9, end)
    ensures forall k: nat :: c.p + 1 <= k < c.p + 9 && k <= end ==> !Heard(u, k)
  {
    var v := NumberFor(env, NameAt(s, c.p, DOMN), c.cpu);
    u := Patch(t, c.p + 5, Le(4, v));
    NumberSmall(env, NameAt(s, c.p, DOMN), c.cpu);
    DwordNext(t, c.p, v);
    forall k: nat | c.p + 1 <= k < c.p + 9 && k <= end ensures !Heard(u, k) {
      assert !AnyName(u, k);
    }
  }

  predicate DwordTurns(env: Env, s: seq<Byte>, t: seq<Byte>, c: Cursor, free: nat)
    requires c.p + SLACK <= |s| && |t| == |s|
  {
    var a := ActionAt(env, t, c);
    && a.Value? && Advance(env, t, c, a) == c.(p := c.p + 1)
    && StepAt(env, s, c, free) == Step(FixOf(t, c.p, a), [c.p], c.(p := c.p + 9), c.p + 9)
  }

  /** A well-formed package, once it is patched. */
  lemma {:induction false} PackageBytes(t: seq<Byte>, p: nat, states: seq<PssState>, npss: bool, end: nat)
    requires Formed(t, p, states)
    ensures Contained(t, p, |states|)
    ensures
      var u, next := PatchPackage(t, p, states, npss), EntryAt(p, t[p + COUNT]);
      next <= |t| && Same(u, t, next, |t|) && (Silent(u, next, end) <==> Quiet(t, p, states, end))
  {
    PackagePatched(t, p, t[p + COUNT], states, npss);
    PackageNext(PatchPackage(t, p, states, npss), t, p, states, npss, end);
  }

  /** The scan at a package; what it leaves is silent if the package is quiet. */
  lemma {:induction false} PackageStep(env: Env, s: seq<Byte>, t: seq<Byte>, c: Cursor, free: nat, end: nat)
    returns (u: seq<Byte>, next: nat)
    requires c.p + SLACK <= |s| && Reached(s, t, c.p, free, end)
    requires Patches(s, c, free) && Formed(s, c.p, c.eist.states)
    ensures PackageTurns(env, s, t, c, free, next) && u == Effect(t, c.p, ActionAt(env, t, c))
    ensures next <= |u| == |s| && Same(u, s, next, |s|)
    ensures Silent(u, next, end) <==> Quiet(s, c.p, c.eist.states, end)
  {
    next := EntryAt(c.p, s[c.p + COUNT]);
    u := PackageEffect(env, s, t, c, free, end);
    PackageAction(env, s, t, c, free, end);
  }

  lemma {:induction false} PackageEffect(env: Env, s: seq<Byte>, t: seq<Byte>, c: Cursor, free: nat, end: nat)
    returns (u: seq<Byte>)
    requires c.p + SLACK <= |s| && Reached(s, t, c.p, free, end)
    requires Patches(s, c, free) && Formed(s, c.p, c.eist.states)
    ensures Contained(t, c.p, |c.eist.states|) && u == Effect(t, c.p, ActionAt(env, t, c))
    ensures
      var next := EntryAt(c.p, s[c.p + COUNT]);
      && next <= |u| == |s| && Same(u, s, next, |s|)
      && (Silent(u, next, end) <==> Quiet(s, c.p, c.eist.states, end))
  {
    u := PackageStored(s, t, c.p, free, c.eist.states, NameAt(s, c.p, NPSS), end);
    ActionIs(env, s, t, c, free);
  }

  lemma {:induction false} ActionIs(env: Env, s: seq<Byte>, t: seq<Byte>, c: Cursor, free: nat)
    requires c.p + SLACK <= |s| && |t| == |s| && free <= |s| && Same(t, s, free, |s|)
    requires Patches(s, c, free) && Contained(t, c.p, |c.eist.states|)
    ensures
      Effect(t, c.p, ActionAt(env, t, c)) == PatchPackage(t, c.p, c.eist.states, NameAt(s, c.p, NPSS))
  {
    SameHead(s, t, c.p, free);
    assert ActionAt(env, t, c) == Package(c.eist.states, NameAt(s, c.p, NPSS));
  }

  lemma {:induction false} PackageStored(
      s: seq<Byte>, t: seq<Byte>, p: nat, free: nat, states: seq<PssState>, npss: bool, end: nat)
    returns (u: seq<Byte>)
    requires p + SLACK <= |s| && free < p && Reached(s, t, p, free, end) && Formed(s, p, states)
    ensures Contained(t, p, |states|) && u == PatchPackage(t, p, states, npss)
    ensures
      var next := EntryAt(p, s[p + COUNT]);
      && next <= |u| == |s| && Same(u, s, next, |s|)
      && (Silent(u, next, end) <==> Quiet(s, p, states, end))
  {
    FormedThere(s, t, p, free, states, end);
    PackageBytes(t, p, states, npss, end);
    u := PatchPackage(t, p, states, npss);
  }

  /** What the turn at a package is like; the scan goes on in front of its last bytes. */
  predicate PackageTurns(env: Env, s: seq<Byte>, t: seq<Byte>, c: Cursor, free: nat, next: nat)
    requires c.p + SLACK <= |s| && |t| == |s|
  {
    var a := ActionAt(env, t, c);
    && a.Package? && PackageSize(t, c.p) > 0 && next > c.p + 5 && Advance(env, t, c, a) == c.(p := next - 5)
    && StepAt(env, s, c, free) == Step(FixOf(t, c.p, a), [c.p], c.(p := next), next)
  }

  lemma {:induction false} PackageAction(env: Env, s: seq<Byte>, t: seq<Byte>, c: Cursor, free: nat, end: nat)
    requires c.p + SLACK <= |s| && Reached(s, t, c.p, free, end)
    requires Patches(s, c, free) && Contained(t, c.p, |c.eist.states|)
    requires WellFormed(s, c.p, s[c.p + COUNT])
    ensures PackageTurns(env, s, t, c, free, EntryAt(c.p, s[c.p + COUNT]))
  {
    SameHead(s, t, c.p, free);
    assert ActionAt(env, t, c) == Package(c.eist.states, NameAt(s, c.p, NPSS));
  }

  lemma {:induction false} SameHead(s: seq<Byte>, t: seq<Byte>, p: nat, free: nat)
    requires |t| == |s| && free < p && p + ENTRIES <= |s| && Same(t, s, free, |s|)
    ensures t[p - 1] == s[p - 1] && t[p + COUNT] == s[p + COUNT] && PackageSize(t, p) == PackageSize(s, p)
    ensures NameAt(t, p, NPSS) == NameAt(s, p, NPSS) && NameAt(t, p, SPSS) == NameAt(s, p, SPSS)
    ensures forall n: nat :: Contained(t, p, n) == Contained(s, p, n)
  {
  }

  lemma {:induction false} FormedThere(
      s: seq<Byte>, t: seq<Byte>, p: nat, free: nat, states: seq<PssState>, end: nat)
    requires Formed(s, p, states) && |t| == |s| && free < p && Same(t, s, free, |s|)
    ensures Formed(t, p, states) && (Quiet(t, p, states, end) <==> Quiet(s, p, states, end))
  {
    if 0 < |states| == s[p + COUNT] {
      SeamsAgree(s, t, p, states);
      SilentAgrees(Seam(t, p, states), Seam(s, p, states), EntryAt(p, |states|), end);
    }
  }

  lemma {:induction false} SeamsAgree(s: seq<Byte>, t: seq<Byte>, p: nat, states: seq<PssState>)
    requires |t| == |s| && states != [] && EntryAt(p, |states|) <= |s| && Same(t, s, p, |s|)
    ensures forall k :: EntryAt(p, |states|) - 9 <= k < |s| ==> Seam(t, p, states)[k] == Seam(s, p, states)[k]
  {
  }

  // ----- the whole scan -----

  /** The scan from a position on gives the run. */
  ghost predicate Gives(env: Env, t: seq<Byte>, c: Cursor, end: nat, run: Run) {
    end + SLACK <= |t| && forall e: nat :: e == end ==> Scan(env, t, c, e) == run
  }

  /** A stretch where nothing is heard is passed over. */
  lemma {:induction false} GivesOver(env: Env, t: seq<Byte>, c: Cursor, next: nat, end: nat, run: Run)
    requires c.p <= next && Gives(env, t, c.(p := next), end, run)
    requires forall k: nat :: c.p <= k < next && k <= end ==> !Heard(t, k)
    ensures Gives(env, t, c, end, run)
    decreases next - c.p
  {
    if c.p < next {
      GivesOver(env, t, c.(p := c.p + 1), next, end, run);
      if c.p <= end {
        assert !Heard(t, c.p);
        GivesPlain(env, t, c, c.(p := c.p + 1), end, run);
      } else {
        assert Scan(env, t, c.(p := c.p + 1), end) == run;
      }
    }
  }

  function Prefixed(fixes: seq<Fix>, acts: seq<nat>, rest: Run): Run {
    Run(rest.outcome, rest.table, fixes + rest.fixes, acts + rest.acts)
  }

  /** One turn and the rest of the scan. */
  lemma {:induction false} GivesTurn(
      env: Env, t: seq<Byte>, c: Cursor, a: Action, u: seq<Byte>, d: Cursor, end: nat, rest: Run)
    requires end + SLACK <= |t| && c.p <= end && a == ActionAt(env, t, c) && !a.Leaves()
    requires a.Package? ==> PackageSize(t, c.p) > 0
    requires u == Effect(t, c.p, a) && d == Advance(env, t, c, a) && Gives(env, u, d, end, rest)
    ensures Gives(env, t, c, end, Prefixed(FixOf(t, c.p, a), ActOf(c.p, a), rest))
  {
  }

  lemma {:induction false} GivesPlain(env: Env, t: seq<Byte>, c: Cursor, d: Cursor, end: nat, run: Run)
    requires end + SLACK <= |t| && c.p <= end && ActionAt(env, t, c).Skip?
    requires d == Advance(env, t, c, ActionAt(env, t, c)) && Gives(env, t, d, end, run)
    ensures Gives(env, t, c, end, run)
  {
    GivesTurn(env, t, c, ActionAt(env, t, c), t, d, end, run);
    assert Prefixed([], [], run) == run;
  }

  /** What a step adds to the run from the next position. */
  ghost predicate Leads(env: Env, t: seq<Byte>, c: Cursor, u: seq<Byte>, st: Step, end: nat) {
    forall rest: Run :: Gives(env, u, st.c, end, rest) ==> Gives(env, t, c, end, Prefixed(st.fixes, st.acts, rest))
  }

  lemma {:induction false} PlainLeads(env: Env, s: seq<Byte>, t: seq<Byte>, c: Cursor, free: nat, end: nat)
    requires end + SLACK <= |s| && c.p <= end
    requires Reached(s, t, c.p, free, end) && StepAt(env, s, c, free).fixes == []
    ensures
      var st := StepAt(env, s, c, free);
      Reached(s, t, st.c.p, st.free, end) && Leads(env, t, c, t, st, end)
  {
    var st := StepAt(env, s, c, free);
    PlainStep(env, s, t, c, free, end);
    forall rest: Run | Gives(env, t, st.c, end, rest)
      ensures Gives(env, t, c, end, Prefixed(st.fixes, st.acts, rest))
    {
      GivesTurn(env, t, c, ActionAt(env, t, c), t, st.c, end, rest);
    }
  }

  lemma {:induction false} DwordLeads(env: Env, s: seq<Byte>, t: seq<Byte>, c: Cursor, free: nat, end: nat)
    returns (u: seq<Byte>)
    requires end + SLACK <= |s| && c.p <= end && |env.cpus| <= MAX_CPU_NUM
    requires Reached(s, t, c.p, free, end) && DwordAt(s, c.p, free) && c.cpu < MAX_CPU_NUM
    ensures
      var st := StepAt(env, s, c, free);
      Reached(s, u, st.c.p, st.free, end) && Leads(env, t, c, u, st, end)
  {
    u := DwordStep(env, s, t, c, free, end);
    var a := ActionAt(env, t, c);
    forall rest: Run | Gives(env, u, c.(p := c.p + 9), end, rest)
      ensures Gives(env, t, c, end, Prefixed(FixOf(t, c.p, a), [c.p], rest))
    {
      GivesOver(env, u, c.(p := c.p + 1), c.p + 9, end, rest);
      GivesTurn(env, t, c, a, u, c.(p := c.p + 1), end, rest);
    }
  }

  lemma {:induction false} PackageLeads(env: Env, s: seq<Byte>, t: seq<Byte>, c: Cursor, free: nat, end: nat)
    returns (u: seq<Byte>)
    requires end + SLACK <= |s| && c.p <= end && Reached(s, t, c.p, free, end) && Patches(s, c, free)
    requires Formed(s, c.p, c.eist.states) && Quiet(s, c.p, c.eist.states, end)
    ensures
      var st := StepAt(env, s, c, free);
      Reached(s, u, st.c.p, st.free, end) && Leads(env, t, c, u, st, end)
  {
    var next;
    u, next := PackageStep(env, s, t, c, free, end);
    var a := ActionAt(env, t, c);
    forall rest: Run | Gives(env, u, c.(p := next), end, rest)
      ensures Gives(env, t, c, end, Prefixed(FixOf(t, c.p, a), [c.p], rest))
    {
      GivesOver(env, u, c.(p := next - 5), next, end, rest);
      GivesTurn(env, t, c, a, u, c.(p := next - 5), end, rest);
    }
  }

  lemma {:induction false} StepLeads(env: Env, s: seq<Byte>, t: seq<Byte>, c: Cursor, free: nat, end: nat)
    returns (u: seq<Byte>)
    requires end + SLACK <= |s| && c.p <= end && |env.cpus| <= MAX_CPU_NUM
    requires Reached(s, t, c.p, free, end) && GoesOn(s, c, free)
    requires Patches(s, c, free) ==> Formed(s, c.p, c.eist.states) && Quiet(s, c.p, c.eist.states, end)
    ensures
      var st := StepAt(env, s, c, free);
      Reached(s, u, st.c.p, st.free, end) && Leads(env, t, c, u, st, end)
  {
    if StepAt(env, s, c, free).fixes == [] {
      u := t;
      PlainLeads(env, s, t, c, free, end);
    } else if DwordAt(s, c.p, free) {
      u := DwordLeads(env, s, t, c, free, end);
    } else {
      u := PackageLeads(env, s, t, c, free, end);
    }
  }

  /** At a halt the scan does what is read off the input. */
  lemma {:induction false} HaltGives(env: Env, s: seq<Byte>, t: seq<Byte>, c: Cursor, free: nat, end: nat)
    returns (run: Run)
    requires end + SLACK <= |s| && c.p <= end && Reached(s, t, c.p, free, end) && !GoesOn(s, c, free)
    ensures Gives(env, t, c, end, run) && Matches(run, Read(env, s, c, free, end))
  {
    HaltAction(env, s, t, c, free, end);
    run := Scan(env, t, c, end);
  }

  predicate Matches(run: Run, reading: Reading) {
    run.outcome == reading.outcome && run.fixes == reading.fixes && run.acts == reading.acts
  }

  lemma {:induction false} HaltAction(env: Env, s: seq<Byte>, t: seq<Byte>, c: Cursor, free: nat, end: nat)
    requires end + SLACK <= |s| && c.p <= end && Reached(s, t, c.p, free, end) && !GoesOn(s, c, free)
    ensures
      var a, r := ActionAt(env, t, c), Read(env, s, c, free, end);
      && (a.Leaves() ==> r.outcome == OutOfBounds)
      && (!a.Leaves() ==> a.Package? && PackageSize(t, c.p) == 0 && r.outcome == Stuck)
      && r.fixes == FixOf(t, c.p, a) && r.acts == ActOf(c.p, a)
  {
    SameHead(s, t, c.p, free);
  }

  /** The scan goes through its own stores, but where packages are well formed and quiet it
      does what is read off the input, and comes to the same end. */
  lemma {:induction false} ScanReads(env: Env, s: seq<Byte>, t: seq<Byte>, c: Cursor, free: nat, end: nat)
    returns (run: Run)
    requires end + SLACK <= |s| && |env.cpus| <= MAX_CPU_NUM && Reached(s, t, c.p, free, end)
    requires AllFormed(env, s, c, free, end) && AllQuiet(env, s, c, free, end)
    ensures Gives(env, t, c, end, run) && Matches(run, Read(env, s, c, free, end))
    decreases end + 1 - c.p
  {
    if c.p > end {
      run := Run(Done, t, [], []);
    } else if !GoesOn(s, c, free) {
      run := HaltGives(env, s, t, c, free, end);
    } else {
      var st := StepAt(env, s, c, free);
      var u := StepLeads(env, s, t, c, free, end);
      var rest := ScanReads(env, s, u, st.c, st.free, end);
      run := Prefixed(st.fixes, st.acts, rest);
    }
  }

  /** Unless the scan stands still at an empty one, the packages it fixes are well sized. */
  lemma {:induction false} ReadSized(env: Env, s: seq<Byte>, c: Cursor, free: nat, end: nat)
    requires end + SLACK <= |s| && AllFormed(env, s, c, free, end) && Read(env, s, c, free, end).outcome != Stuck
    ensures AllWellSized(Read(env, s, c, free, end).fixes)
    decreases end + 1 - c.p
  {
    if c.p <= end && GoesOn(s, c, free) {
      var st := StepAt(env, s, c, free);
      ReadSized(env, s, st.c, st.free, end);
    }
  }

  /** Where packages are well formed and quiet the scan does what is read off the input, and if
      it does not stand still, the fixes do not overlap, are in place, and nothing else changed. */
  lemma {:induction false} FormedScan(env: Env, s: seq<Byte>, end: nat)
    requires end + SLACK <= |s| && |env.cpus| <= MAX_CPU_NUM
    requires AllFormed(env, s, START, 0, end) && AllQuiet(env, s, START, 0, end)
    ensures
      var run, reading := Scan(env, s, START, end), Read(env, s, START, 0, end);
      Matches(run, reading) && (reading.outcome != Stuck ==> Result(run, s))
  {
    var run := ScanReads(env, s, s, START, 0, end);
    if Read(env, s, START, 0, end).outcome != Stuck {
      ReadSized(env, s, START, 0, end);
      ScanResult(env, s, START, end);
    }
  }

  /** Without a halt the reading has all objects. */
  lemma {:induction false} ReadObjects(env: Env, s: seq<Byte>, c: Cursor, free: nat, end: nat)
    requires end + SLACK <= |s| && Read(env, s, c, free, end).outcome == Done
    ensures Read(env, s, c, free, end).fixes == Objects(env, s, c, free, end)
    decreases end + 1 - c.p
  {
    if c.p <= end {
      var st := StepAt(env, s, c, free);
      ReadObjects(env, s, st.c, st.free, end);
    }
  }

  /** For sane input the scan comes to its end, stores to exactly the objects of the input,
      which do not overlap, leaves each of them as it should be, and nothing else changed. */
  lemma {:induction false} SaneScan(env: Env, s: seq<Byte>, end: nat)
    requires end + SLACK <= |s| && |env.cpus| <= MAX_CPU_NUM && Sane(env, s, end)
    ensures
      var run := Scan(env, s, START, end);
      run.outcome == Done && run.fixes == Objects(env, s, START, 0, end) && Result(run, s)
  {
    FormedScan(env, s, end);
    ReadObjects(env, s, START, 0, end);
  }

  /** The CPU map never holds more. */
  lemma {:induction false} MapSize(cpus: CpuIdMap, eists: seq<Eist>)
    ensures |EnvOf(cpus, eists).cpus| <= MAX_CPU_NUM
  {
  }

  // ----- sane input, position by position -----

  /** Every _PR_ letter is one of the first processors, and every package is well formed and
      quiet for the states of every instance of the protocol. */
  ghost predicate SaneBytes(env: Env, s: seq<Byte>, end: nat)
    requires end + SLACK <= |s|
  {
    && (forall p: nat :: p <= end && NameAt(s, p, PR) ==> CpuOf(s[p + 7]) < MAX_CPU_NUM)
    && (forall p: nat, i :: p <= end && PackageAt(s, p, 0) && 0 <= i < |env.eists| ==>
          Formed(s, p, env.eists[i].states) && Quiet(s, p, env.eists[i].states, end))
  }

  lemma {:induction false} SaneBytesAreSane(env: Env, s: seq<Byte>, end: nat)
    requires end + SLACK <= |s| && SaneBytes(env, s, end)
    ensures Sane(env, s, end)
  {
    SaneFrom(env, s, START, 0, end);
  }

  lemma {:induction false} SaneFrom(env: Env, s: seq<Byte>, c: Cursor, free: nat, end: nat)
    requires end + SLACK <= |s| && SaneBytes(env, s, end)
    requires c.cpu < MAX_CPU_NUM && (c.eist == Null || c.eist == EistOf(env, c.cpu))
    ensures AllFormed(env, s, c, free, end) && AllQuiet(env, s, c, free, end)
    ensures Read(env, s, c, free, end).outcome == Done
    decreases end + 1 - c.p
  {
    if c.p <= end {
      if Patches(s, c, free) {
        var i := EistInstance(env.eists, ApicOf(env.cpus, c.cpu + 1));
        assert PackageAt(s, c.p, 0);
        HeaderPatched(s, c.p, s[c.p + COUNT], |c.eist.states|);
      }
      var st := StepAt(env, s, c, free);
      SaneFrom(env, s, st.c, st.free, end);
    }
  }

  lemma {:induction false} EistInstance(eists: seq<Eist>, apicId: nat) returns (i: nat)
    requires FirstEist(eists, apicId).Located?
    ensures i < |eists| && eists[i].procApicId == apicId && FirstEist(eists, apicId) == Located(eists[i].states)
  {
    if eists[0].procApicId == apicId {
      i := 0;
    } else {
      i := EistInstance(eists[1..], apicId);
      i := i + 1;
    }
  }
}
