/** AcpiPlatform/AcpiPlatformHooks.c: PatchGv3SsdtTable goes on five bytes in front of the end
    of a package it has patched. When that makes a difference, and when the scan ends. */
module SsdtSeams {
  import opened Bytes
  import opened CpuMap
  import opened PssPackage
  import opened PatchGv3Ssdt
  import opened SsdtObjects

  // ----- a seam that is not silent -----

  /** With a protocol at hand the scan selects, stores or leaves its bounds where it hears
      something. */
  lemma {:induction false} ActsHere(env: Env, u: seq<Byte>, d: Cursor, end: nat) returns (run: Run)
    requires end + SLACK <= |u| && d.p <= end && d.eist.Located? && Heard(u, d.p)
    ensures Gives(env, u, d, end, run) && run.acts != [] && run.acts[0] == d.p
  {
    assert !ActionAt(env, u, d).Skip?;
    run := Scan(env, u, d, end);
  }

  ghost predicate HeardBefore(u: seq<Byte>, p: nat, next: nat, end: nat) {
    || (next <= end && ObjectAt(u, next))
    || exists k: nat :: p <= k < next && k <= end && Heard(u, k)
  }

  /** The first thing heard in the seam is the first thing done. */
  lemma {:induction false} ActsInSeam(env: Env, u: seq<Byte>, d: Cursor, next: nat, end: nat) returns (run: Run)
    requires end + SLACK <= |u| && d.p <= next && d.eist.Located? && HeardBefore(u, d.p, next, end)
    ensures Gives(env, u, d, end, run) && run.acts != []
    ensures run.acts[0] < next || (run.acts[0] == next && ObjectAt(u, next))
    decreases next - d.p
  {
    if Heard(u, d.p) && (d.p < next || ObjectAt(u, next)) {
      run := ActsHere(env, u, d, end);
    } else {
      assert HeardBefore(u, d.p + 1, next, end);
      run := ActsInSeam(env, u, d.(p := d.p + 1), next, end);
      GivesPlain(env, u, d, d.(p := d.p + 1), end, run);
    }
  }

  lemma {:induction false} NotSilent(u: seq<Byte>, next: nat, end: nat)
    requires 6 <= next <= |u| && !Silent(u, next, end)
    ensures HeardBefore(u, next - 5, next, end)
  {
  }

  // ----- what is read off the input lies ahead -----

  lemma {:induction false} ReadAhead(env: Env, s: seq<Byte>, c: Cursor, free: nat, end: nat, i: nat)
    requires end + SLACK <= |s| && i < |Read(env, s, c, free, end).acts|
    ensures Read(env, s, c, free, end).acts[i] >= c.p
    decreases end + 1 - c.p
  {
    if GoesOn(s, c, free) && i >= |StepAt(env, s, c, free).acts| {
      var st := StepAt(env, s, c, free);
      ReadAhead(env, s, st.c, st.free, end, i - |st.acts|);
    }
  }

  /** An object right behind the last one is none of the input. */
  lemma {:induction false} ReadPasses(env: Env, s: seq<Byte>, c: Cursor, end: nat)
    requires end + SLACK <= |s| && ObjectName(s, c.p) && Read(env, s, c, c.p, end).acts != []
    ensures Read(env, s, c, c.p, end).acts[0] > c.p
  {
    var st := StepAt(env, s, c, c.p);
    assert Read(env, s, c, c.p, end).acts == Read(env, s, st.c, st.free, end).acts;
    ReadAhead(env, s, st.c, st.free, end, 0);
  }

  /** So a seam that is not silent shows in what the scan does next. */
  lemma {:induction false} SeamShows(
      env: Env, s: seq<Byte>, u: seq<Byte>, d: Cursor, next: nat, end: nat, run: Run, c: Cursor)
    requires end + SLACK <= |s| && |u| == |s| && next <= |s| && Same(u, s, next, |s|) && c.p == next
    requires run.acts != [] && (run.acts[0] < next || (run.acts[0] == next && ObjectAt(u, next)))
    ensures run.acts != Read(env, s, c, next, end).acts
  {
    if Read(env, s, c, next, end).acts != [] {
      ReadAhead(env, s, c, next, end, 0);
      if ObjectAt(u, next) {
        assert ObjectName(s, next);
        ReadPasses(env, s, c, end);
      }
    }
  }

  // ----- exactly when the scan sees its own stores -----

  lemma {:induction false} LoudPackage(env: Env, s: seq<Byte>, t: seq<Byte>, c: Cursor, free: nat, end: nat)
    returns (run: Run)
    requires end + SLACK <= |s| && c.p <= end && Reached(s, t, c.p, free, end) && GoesOn(s, c, free)
    requires Patches(s, c, free) && Formed(s, c.p, c.eist.states) && !Quiet(s, c.p, c.eist.states, end)
    ensures Gives(env, t, c, end, run) && run.acts != Read(env, s, c, free, end).acts
  {
    var u, next := PackageStep(env, s, t, c, free, end);
    var d := c.(p := next - 5);
    NotSilent(u, next, end);
    var rest := ActsInSeam(env, u, d, next, end);
    GivesTurn(env, t, c, ActionAt(env, t, c), u, d, end, rest);
    SeamShows(env, s, u, d, next, end, rest, c.(p := next));
    run := Prefixed(FixOf(t, c.p, ActionAt(env, t, c)), [c.p], rest);
    SameFirst(c.p, rest.acts, Read(env, s, c.(p := next), next, end).acts);
  }

  lemma {:induction false} SameFirst(a: nat, x: seq<nat>, y: seq<nat>)
    ensures [a] + x == [a] + y <==> x == y
  {
    assert ([a] + x)[1..] == x && ([a] + y)[1..] == y;
  }

  lemma {:induction false} SamePrefix(a: seq<nat>, x: seq<nat>, y: seq<nat>)
    ensures a + x == a + y <==> x == y
  {
    assert (a + x)[|a|..] == x && (a + y)[|a|..] == y;
  }

  /** If some seam on the way is not silent, the scan does something else than the input says. */
  lemma {:induction false} LoudDiffers(env: Env, s: seq<Byte>, t: seq<Byte>, c: Cursor, free: nat, end: nat)
    returns (run: Run)
    requires end + SLACK <= |s| && |env.cpus| <= MAX_CPU_NUM && Reached(s, t, c.p, free, end)
    requires AllFormed(env, s, c, free, end) && !AllQuiet(env, s, c, free, end)
    ensures Gives(env, t, c, end, run) && run.acts != Read(env, s, c, free, end).acts
    decreases end + 1 - c.p
  {
    if Patches(s, c, free) && !Quiet(s, c.p, c.eist.states, end) {
      run := LoudPackage(env, s, t, c, free, end);
    } else {
      var st := StepAt(env, s, c, free);
      var u := StepLeads(env, s, t, c, free, end);
      var rest := LoudDiffers(env, s, u, st.c, st.free, end);
      run := Prefixed(st.fixes, st.acts, rest);
      SamePrefix(st.acts, rest.acts, Read(env, s, st.c, st.free, end).acts);
    }
  }

  /** In a table whose packages are well formed the scan selects and stores at exactly the
      positions that the input has for it if and only if every package on the way is quiet. */
  lemma {:induction false} SeamsDecide(env: Env, s: seq<Byte>, end: nat)
    requires end + SLACK <= |s| && |env.cpus| <= MAX_CPU_NUM && AllFormed(env, s, START, 0, end)
    ensures Scan(env, s, START, end).acts == Read(env, s, START, 0, end).acts <==> AllQuiet(env, s, START, 0, end)
    ensures AllQuiet(env, s, START, 0, end) ==> Matches(Scan(env, s, START, end), Read(env, s, START, 0, end))
  {
    if AllQuiet(env, s, START, 0, end) {
      FormedScan(env, s, end);
    } else {
      var run := LoudDiffers(env, s, s, START, 0, end);
    }
  }

  /** Enough for a quiet package: no byte of the last status starts a name or is the name
      operator, nor does the prefix in front of it start a name. */
  lemma {:induction false} QuietStatus(s: seq<Byte>, p: nat, states: seq<PssState>, end: nat)
    requires p + ENTRIES <= |s| && states != [] && EntryAt(p, |states|) <= |s|
    requires !Starts(s[EntryAt(p, |states|) - 5])
    requires
      forall b :: b in Le(4, states[0].status % 0x1_0000_0000) ==> !Starts(b) && b != AML_NAME_OP
    ensures Quiet(s, p, states, end)
  {
    var u, next := Seam(s, p, states), EntryAt(p, |states|);
    SeamBytes(s, p, states);
    forall k | next - 5 <= k < next
      ensures !Starts(u[k]) && (k == next - 1 ==> u[k] != AML_NAME_OP)
    {
      if k > next - 5 {
        assert u[next - 4..next][k - (next - 4)] == u[k];
        assert u[k] in Le(4, states[0].status % 0x1_0000_0000);
      }
    }
  }

  /** The first letters of the names. */
  predicate Starts(b: Byte) {
    b == PR[0] || b == DOMN[0] || b == NCPU[0] || b == SPSS[0]
  }

  // ----- exactly when the scan ends -----

  /** The way through the input leads to a package whose length reads 0. */
  predicate MeetsEmpty(env: Env, s: seq<Byte>, c: Cursor, free: nat, end: nat)
    requires end + SLACK <= |s|
    decreases end + 1 - c.p
  {
    c.p <= end &&
    (EmptyHere(s, c, free) ||
     (GoesOn(s, c, free) &&
      var st := StepAt(env, s, c, free);
      MeetsEmpty(env, s, st.c, st.free, end)))
  }

  lemma {:induction false} MeetsEmptyReads(env: Env, s: seq<Byte>, c: Cursor, free: nat, end: nat)
    requires end + SLACK <= |s|
    ensures MeetsEmpty(env, s, c, free, end) <==> Read(env, s, c, free, end).outcome == Stuck
    decreases end + 1 - c.p
  {
    if c.p <= end && GoesOn(s, c, free) {
      var st := StepAt(env, s, c, free);
      MeetsEmptyReads(env, s, st.c, st.free, end);
    }
  }

  /** Where packages are well formed and quiet, up to a halt: some number of turns ends the loop
      if and only if no package on the way has a length that reads 0. */
  lemma {:induction false} EndsUnlessEmpty(env: Env, s: seq<Byte>, end: nat)
    requires end + SLACK <= |s| && |env.cpus| <= MAX_CPU_NUM
    requires AllFormed(env, s, START, 0, end) && AllQuiet(env, s, START, 0, end)
    ensures (exists n: nat :: EndsAfter(n, env, s, START, end)) <==> !MeetsEmpty(env, s, START, 0, end)
  {
    SeamsDecide(env, s, end);
    MeetsEmptyReads(env, s, START, 0, end);
    ScanEndsIff(env, s, START, end);
  }

  /** Enough for that: no package of the input has a length that reads 0. */
  lemma {:induction false} NoEmptyPackage(env: Env, s: seq<Byte>, c: Cursor, free: nat, end: nat)
    requires end + SLACK <= |s|
    requires forall p: nat :: p <= end && PackageAt(s, p, 0) ==> PackageSize(s, p) > 0
    ensures !MeetsEmpty(env, s, c, free, end)
    decreases end + 1 - c.p
  {
    if c.p <= end {
      assert PackageAt(s, c.p, free) ==> PackageAt(s, c.p, 0);
      if GoesOn(s, c, free) {
        var st := StepAt(env, s, c, free);
        NoEmptyPackage(env, s, st.c, st.free, end);
      }
    }
  }
}
