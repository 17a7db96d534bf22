/** Two processor SSDTs on which PatchGv3SsdtTable goes wrong: one where its loop never ends,
    and one where it takes a value that it stored for a name. */
module SsdtTables {
  import opened Bytes
  import opened CpuMap
  import opened PssPackage
  import opened PatchGv3Ssdt
  import opened SsdtObjects
  import opened SsdtSeams

  // ----- tables with one package -----

  /** A header, then _PR_.CPU0 and an NPSS package of one entry with the given length bytes. */
  function PackageByte(k: nat, end: Byte, low: Byte, high: Byte): Byte {
    if k < 4 then SSDT[k]
    else if k == 4 then end
    else if 36 <= k < 40 then PR[k - 36]
    else if 40 <= k < 44 then [0x43, 0x50, 0x55, 0x30][k - 40]
    else if k == 44 then AML_NAME_OP
    else if 45 <= k < 49 then NPSS[k - 45]
    else if k == 49 then 0x12
    else if k == 50 then low
    else if k == 51 then high
    else if k == 52 then 1
    else 0
  }

  const ENDLESS_END: nat := 90
  const ENDLESS: seq<Byte> := seq(ENDLESS_END + SLACK, k requires 0 <= k => PackageByte(k, ENDLESS_END, 0x40, 0))

  const ONE_STATE: PssState := PssState(0, 0, 0, 0, 0, 0)
  const ONE_CPU: Env := Env([LocalApic(1, 0)], [Eist(0, [ONE_STATE])])

  lemma {:induction false} ReadOver(env: Env, s: seq<Byte>, c: Cursor, next: nat, free: nat, end: nat)
    requires end + SLACK <= |s| && c.p <= next && forall k: nat :: c.p <= k < next ==> !AnyName(s, k)
    ensures
      var d := c.(p := next);
      && (MeetsEmpty(env, s, c, free, end) <==> MeetsEmpty(env, s, d, free, end))
      && (AllFormed(env, s, c, free, end) <==> AllFormed(env, s, d, free, end))
      && (AllQuiet(env, s, c, free, end) <==> AllQuiet(env, s, d, free, end))
      && Read(env, s, c, free, end) == Read(env, s, d, free, end)
    decreases next - c.p
  {
    if c.p < next && c.p <= end {
      assert !AnyName(s, c.p);
      assert StepAt(env, s, c, free) == Step([], [], c.(p := c.p + 1), free);
    }
    if c.p < next {
      ReadOver(env, s, c.(p := c.p + 1), next, free, end);
    }
  }

  /** The table starts with a _PR_ name for processor 0 and an NPSS package behind it. */
  ghost predicate PackageThere(s: seq<Byte>) {
    && NameAt(s, 0, SSDT) && NameAt(s, 36, PR) && |s| > 52 && s[43] == 0x30
    && PackageAt(s, 45, 0) && NameAt(s, 45, NPSS)
    && forall k: nat :: k < 36 || 36 < k < 45 ==> !AnyName(s, k)
  }

  /** Where the way through the input stands when it comes to the package. */
  function AtPackage(states: seq<PssState>): Cursor {
    Cursor(45, 0, Located(states))
  }

  function ReadAfter(fixes: seq<Fix>, acts: seq<nat>, rest: Reading): Reading {
    Reading(rest.outcome, fixes + rest.fixes, acts + rest.acts)
  }

  lemma {:induction false} ReadToPackage(env: Env, s: seq<Byte>, states: seq<PssState>, end: nat)
    requires 45 <= end && end + SLACK <= |s| && PackageThere(s) && EistOf(env, 0) == Located(states)
    ensures
      var d := AtPackage(states);
      && (MeetsEmpty(env, s, START, 0, end) <==> MeetsEmpty(env, s, d, 0, end))
      && (AllFormed(env, s, START, 0, end) <==> AllFormed(env, s, d, 0, end))
      && (AllQuiet(env, s, START, 0, end) <==> AllQuiet(env, s, d, 0, end))
      && Read(env, s, START, 0, end) == ReadAfter([], [36], Read(env, s, d, 0, end))
  {
    ReadOver(env, s, START, 36, 0, end);
    SelectFirst(env, s, states, end);
    ReadOver(env, s, Cursor(37, 0, Located(states)), 45, 0, end);
  }

  lemma {:induction false} SelectFirst(env: Env, s: seq<Byte>, states: seq<PssState>, end: nat)
    requires 45 <= end && end + SLACK <= |s| && PackageThere(s) && EistOf(env, 0) == Located(states)
    ensures
      var c, d := START.(p := 36), Cursor(37, 0, Located(states));
      && (MeetsEmpty(env, s, c, 0, end) <==> MeetsEmpty(env, s, d, 0, end))
      && (AllFormed(env, s, c, 0, end) <==> AllFormed(env, s, d, 0, end))
      && (AllQuiet(env, s, c, 0, end) <==> AllQuiet(env, s, d, 0, end))
      && Read(env, s, c, 0, end) == ReadAfter([], [36], Read(env, s, d, 0, end))
  {
    assert StepAt(env, s, START.(p := 36), 0) == Step([], [36], Cursor(37, 0, Located(states)), 0);
  }

  // ----- a loop without end -----

  lemma {:induction false} EndlessBytes()
    ensures PackageThere(ENDLESS) && ENDLESS[45 + COUNT] == 1 && PackageSize(ENDLESS, 45) == 0
    ensures Field(ENDLESS, LENGTH_FIELD, 4) == ENDLESS_END
  {
    assert ENDLESS[4..8] == [ENDLESS_END, 0, 0, 0];
    SmallWord(ENDLESS_END);
  }

  lemma {:induction false} SmallWord(b: Byte)
    ensures FromLe([b, 0, 0, 0]) == b
  {
    assert FromLe([]) == 0;
    assert FromLe([0]) == 0 + 256 * FromLe([0][1..]);
    assert [0, 0][1..] == [0] && [0, 0, 0][1..] == [0, 0] && [b, 0, 0, 0][1..] == [0, 0, 0];
  }

  lemma {:induction false} OneCpu()
    ensures EistOf(ONE_CPU, 0) == Located([ONE_STATE])
  {
  }

  lemma {:induction false} EmptyThere(s: seq<Byte>, end: nat)
    requires 45 <= end && end + SLACK <= |s| && |s| >= 86 && PackageThere(s)
    requires s[45 + COUNT] == 1 && PackageSize(s, 45) == 0
    ensures EmptyHere(s, AtPackage([ONE_STATE]), 0)
  {
  }

  /** The empty package stands behind the name of its processor, and the loop never ends. */
  lemma {:induction false} EndlessTable()
    ensures NameAt(ENDLESS, 0, SSDT) && Field(ENDLESS, LENGTH_FIELD, 4) == ENDLESS_END
    ensures MeetsEmpty(ONE_CPU, ENDLESS, START, 0, ENDLESS_END)
    ensures forall n: nat :: !EndsAfter(n, ONE_CPU, ENDLESS, START, ENDLESS_END)
  {
    EndlessBytes();
    OneCpu();
    EmptyThere(ENDLESS, ENDLESS_END);
    ReadToPackage(ONE_CPU, ENDLESS, [ONE_STATE], ENDLESS_END);
    EndsUnlessEmpty(ONE_CPU, ENDLESS, ENDLESS_END);
  }

  // ----- a name out of a stored value -----

  /** Behind the package, a byte that reads '1' and a double word named DOMN. */
  function LoudByte(k: nat): Byte {
    if k == 89 then 0x31
    else if k == 90 then AML_NAME_OP
    else if 91 <= k < 95 then DOMN[k - 91]
    else if k == 95 then AML_NAME_DWORD_SIZE
    else PackageByte(k, LOUD_END, 0x44, 0x02)
  }

  const LOUD_END: nat := 100
  const LOUD: seq<Byte> := seq(LOUD_END + SLACK, k requires 0 <= k => LoudByte(k))

  /** The status reads _PR_. */
  const LOUD_STATE: PssState := PssState(0, 0, 0, 0, 0, 0x5F52_505F)
  const TWO_CPUS: Env := Env([LocalApic(1, 0), LocalApic(2, 0x10)], [Eist(0, [LOUD_STATE])])

  /** What matters of the table. */
  ghost predicate LoudThere(s: seq<Byte>) {
    && |s| == LOUD_END + SLACK && PackageThere(s) && s[45 + COUNT] == 1 && PackageSize(s, 45) == 36
    && s[80] == 0 && s[81] == 0 && LoudTail(s)
  }

  /** Behind the package. */
  ghost predicate LoudTail(s: seq<Byte>) {
    && |s| == LOUD_END + SLACK && s[89] == 0x31 && s[100] == 0 && NameAt(s, 91, DOMN) && NamedDword(s, 91)
    && s[86] == 0 && forall k: nat :: 86 <= k < 91 ==> !AnyName(s, k)
  }

  lemma {:induction false} LoudLength()
    ensures Field(LOUD, LENGTH_FIELD, 4) == LOUD_END
  {
    assert LOUD[4..8] == [LOUD_END, 0, 0, 0];
    SmallWord(LOUD_END);
  }

  lemma {:induction false} LoudHead()
    ensures PackageThere(LOUD) && LOUD[45 + COUNT] == 1 && LOUD[80] == 0 && LOUD[81] == 0
  {
  }

  lemma {:induction false} LoudSize()
    ensures PackageSize(LOUD, 45) == 36
  {
    assert LOUD[50] == 0x44 && LOUD[51] == 2;
  }

  lemma {:induction false} LoudEnd()
    ensures LoudTail(LOUD)
  {
  }

  const LOUD_FIX: Fix := Pss(45, 36, 1, [LOUD_STATE], true)

  lemma {:induction false} LoudEnv()
    ensures EistOf(TWO_CPUS, 0) == Located([LOUD_STATE]) && EistOf(TWO_CPUS, 1) == Null
    ensures DomainOf(TWO_CPUS, 0) == 0 && DomainOf(TWO_CPUS, 1) == 1
  {
    assert TWO_CPUS.cpus[1..] == [LocalApic(2, 0x10)];
    assert ApicOf(TWO_CPUS.cpus, 2) == ApicOf([LocalApic(2, 0x10)], 2) == 0x10;
    assert TWO_CPUS.eists[1..] == [];
    assert FirstEist(TWO_CPUS.eists, 0x10) == FirstEist([], 0x10);
  }

  // ----- what the input says -----

  lemma {:induction false} LoudReadTail(s: seq<Byte>)
    requires LoudTail(s)
    ensures
      var d := AtPackage([LOUD_STATE]).(p := 86);
      && AllFormed(TWO_CPUS, s, d, 86, LOUD_END)
      && Read(TWO_CPUS, s, d, 86, LOUD_END) == Reading(Done, [Dword(91, 0)], [91])
  {
    var d := AtPackage([LOUD_STATE]);
    LoudEnv();
    ReadOver(TWO_CPUS, s, d.(p := 86), 91, 86, LOUD_END);
    assert StepAt(TWO_CPUS, s, d.(p := 91), 86) == Step([Dword(91, 0)], [91], d.(p := 100), 100);
    ReadOver(TWO_CPUS, s, d.(p := 100), 101, 100, LOUD_END);
  }

  lemma {:induction false} LoudRead(s: seq<Byte>)
    requires LoudThere(s)
    ensures AllFormed(TWO_CPUS, s, START, 0, LOUD_END)
    ensures Read(TWO_CPUS, s, START, 0, LOUD_END) == Reading(Done, [LOUD_FIX, Dword(91, 0)], [36, 45, 91])
  {
    LoudEnv();
    ReadToPackage(TWO_CPUS, s, [LOUD_STATE], LOUD_END);
    LoudReadTail(s);
    LoudReadPackage(s);
  }

  lemma {:induction false} LoudReadPackage(s: seq<Byte>)
    requires LoudThere(s)
    ensures
      var d := AtPackage([LOUD_STATE]);
      && (AllFormed(TWO_CPUS, s, d, 0, LOUD_END) <==> AllFormed(TWO_CPUS, s, d.(p := 86), 86, LOUD_END))
      && Read(TWO_CPUS, s, d, 0, LOUD_END)
         == ReadAfter([LOUD_FIX], [45], Read(TWO_CPUS, s, d.(p := 86), 86, LOUD_END))
  {
    var d := AtPackage([LOUD_STATE]);
    assert StepAt(TWO_CPUS, s, d, 0) == Step([LOUD_FIX], [45], d.(p := 86), 86);
  }

  // ----- what the scan does -----

  lemma {:induction false} LoudStatus()
    ensures Le(4, LOUD_STATE.status % 0x1_0000_0000) == PR
  {
    assert Le(3, 0x5F_5250) == [0x50] + Le(2, 0x5F52) && Le(2, 0x5F52) == [0x52] + Le(1, 0x5F);
  }

  /** The patched package ends in _PR_. */
  lemma {:induction false} LoudPatched(s: seq<Byte>) returns (u: seq<Byte>)
    requires LoudThere(s)
    ensures Contained(s, 45, 1) && u == PatchPackage(s, 45, [LOUD_STATE], true)
    ensures LoudTail(u) && NameAt(u, 82, PR) && u[81] == 0
  {
    PackagePatched(s, 45, 1, [LOUD_STATE], true);
    u := PatchPackage(s, 45, [LOUD_STATE], true);
    LastEntry(u, s, 45, [LOUD_STATE], true);
    LoudStatus();
    LoudSpells(u);
    LoudTailKept(s, u);
  }

  lemma {:induction false} LoudSpells(u: seq<Byte>)
    requires |u| == LOUD_END + SLACK && u[82..86] == PR
    ensures NameAt(u, 82, PR)
  {
    assert u[82..86][0] == u[82] && u[82..86][1] == u[83] && u[82..86][2] == u[84] && u[82..86][3] == u[85];
  }

  lemma {:induction false} LoudTailKept(s: seq<Byte>, u: seq<Byte>)
    requires LoudTail(s) && |u| == |s| && Same(u, s, 86, |s|)
    ensures LoudTail(u)
  {
    forall k: nat | 86 <= k < 91 ensures !AnyName(u, k) {
      assert !AnyName(s, k);
    }
  }

  lemma {:induction false} GivesNameless(env: Env, t: seq<Byte>, c: Cursor, next: nat, end: nat, run: Run)
    requires c.p <= next && Gives(env, t, c.(p := next), end, run)
    requires forall k: nat :: c.p <= k < next && k <= end ==> !AnyName(t, k)
    ensures Gives(env, t, c, end, run)
  {
    forall k: nat | c.p <= k < next && k <= end ensures !Heard(t, k) {
      assert !AnyName(t, k);
    }
    GivesOver(env, t, c, next, end, run);
  }

  /** The scan behind the double word that it finds with the second processor. */
  lemma {:induction false} LoudDword(u: seq<Byte>) returns (run: Run)
    requires LoudTail(u)
    ensures Gives(TWO_CPUS, u, Cursor(91, 1, Null), LOUD_END, run)
    ensures run.outcome == Done && run.fixes == [Dword(91, 1)] && run.acts == [91]
  {
    var c, w := Cursor(91, 1, Null), Patch(u, 96, Le(4, 1));
    LoudEnv();
    assert ActionAt(TWO_CPUS, u, c) == Value(1);
    var rest := LoudOver(u, w);
    GivesTurn(TWO_CPUS, u, c, Value(1), w, c.(p := 92), LOUD_END, rest);
    run := Prefixed([Dword(91, 1)], [91], rest);
  }

  lemma {:induction false} LoudOver(u: seq<Byte>, w: seq<Byte>) returns (run: Run)
    requires LoudTail(u) && w == Patch(u, 96, Le(4, 1))
    ensures Gives(TWO_CPUS, w, Cursor(92, 1, Null), LOUD_END, run) && run == Run(Done, w, [], [])
  {
    DwordNext(u, 91, 1);
    run := Run(Done, w, [], []);
    forall k: nat | 92 <= k < 101 ensures !AnyName(w, k) {
      assert k == 100 ==> w[k] == 0;
    }
    assert Gives(TWO_CPUS, w, Cursor(101, 1, Null), LOUD_END, run);
    GivesNameless(TWO_CPUS, w, Cursor(92, 1, Null), 101, LOUD_END, run);
  }

  /** The scan behind the second _PR_. */
  lemma {:induction false} LoudTailScan(u: seq<Byte>) returns (run: Run)
    requires LoudTail(u) && NameAt(u, 82, PR)
    ensures Gives(TWO_CPUS, u, Cursor(83, 1, Null), LOUD_END, run)
    ensures run.outcome == Done && run.fixes == [Dword(91, 1)] && run.acts == [91]
  {
    run := LoudDword(u);
    forall k: nat | 83 <= k < 91 ensures !AnyName(u, k) {
    }
    GivesNameless(TWO_CPUS, u, Cursor(83, 1, Null), 91, LOUD_END, run);
  }

  /** The scan behind the package, which selects the second processor. */
  lemma {:induction false} LoudSeamScan(u: seq<Byte>) returns (run: Run)
    requires LoudTail(u) && NameAt(u, 82, PR) && u[81] == 0
    ensures Gives(TWO_CPUS, u, AtPackage([LOUD_STATE]).(p := 81), LOUD_END, run)
    ensures run.outcome == Done && run.fixes == [Dword(91, 1)] && run.acts == [82, 91]
  {
    var c := AtPackage([LOUD_STATE]);
    var rest := LoudTailScan(u);
    LoudEnv();
    GivesTurn(TWO_CPUS, u, c.(p := 82), Select(1), u, Cursor(83, 1, Null), LOUD_END, rest);
    run := Prefixed([], [82], rest);
    GivesNameless(TWO_CPUS, u, c.(p := 81), 82, LOUD_END, run);
  }

  /** The scan from the package on. */
  lemma {:induction false} LoudPackageScan(s: seq<Byte>) returns (run: Run)
    requires LoudThere(s)
    ensures Gives(TWO_CPUS, s, AtPackage([LOUD_STATE]), LOUD_END, run)
    ensures run.outcome == Done && run.fixes == [LOUD_FIX, Dword(91, 1)] && run.acts == [45, 82, 91]
  {
    var c := AtPackage([LOUD_STATE]);
    var u := LoudPatched(s);
    var rest := LoudSeamScan(u);
    assert ActionAt(TWO_CPUS, s, c) == Package([LOUD_STATE], true);
    GivesTurn(TWO_CPUS, s, c, Package([LOUD_STATE], true), u, c.(p := 81), LOUD_END, rest);
    run := Prefixed([LOUD_FIX], [45], rest);
  }

  lemma {:induction false} ScanToPackage(env: Env, s: seq<Byte>, states: seq<PssState>, end: nat, rest: Run)
    returns (run: Run)
    requires 45 <= end && end + SLACK <= |s| && PackageThere(s) && EistOf(env, 0) == Located(states)
    requires Gives(env, s, AtPackage(states), end, rest)
    ensures Gives(env, s, START, end, run) && run == Prefixed([], [36], rest)
  {
    var c, d := START.(p := 36), Cursor(37, 0, Located(states));
    GivesNameless(env, s, d, 45, end, rest);
    GivesTurn(env, s, c, Select(0), s, d, end, rest);
    run := Prefixed([], [36], rest);
    GivesNameless(env, s, START, 36, end, run);
  }

  /** The scan finds one thing more than the input has. */
  lemma {:induction false} LoudScan(s: seq<Byte>)
    requires LoudThere(s)
    ensures
      var run := Scan(TWO_CPUS, s, START, LOUD_END);
      run.outcome == Done && run.fixes == [LOUD_FIX, Dword(91, 1)] && run.acts == [36, 45, 82, 91]
  {
    LoudEnv();
    var rest := LoudPackageScan(s);
    var run := ScanToPackage(TWO_CPUS, s, [LOUD_STATE], LOUD_END, rest);
  }

  lemma {:induction false} LoudNotQuiet(s: seq<Byte>)
    requires LoudThere(s)
    ensures !AllQuiet(TWO_CPUS, s, START, 0, LOUD_END)
  {
    LoudRead(s);
    LoudScan(s);
    SeamsDecide(TWO_CPUS, s, LOUD_END);
  }

  /** The table is well formed, and its double word is for processor 0 in package 0; but the
      scan takes the status that it stored for a _PR_ name, reads processor 1 from the byte
      seven further, and stores that one's package. */
  lemma {:induction false} LoudTable()
    ensures NameAt(LOUD, 0, SSDT) && Field(LOUD, LENGTH_FIELD, 4) == LOUD_END
    ensures AllFormed(TWO_CPUS, LOUD, START, 0, LOUD_END) && !AllQuiet(TWO_CPUS, LOUD, START, 0, LOUD_END)
    ensures Read(TWO_CPUS, LOUD, START, 0, LOUD_END) == Reading(Done, [LOUD_FIX, Dword(91, 0)], [36, 45, 91])
    ensures
      var run := Scan(TWO_CPUS, LOUD, START, LOUD_END);
      run.outcome == Done && run.fixes == [LOUD_FIX, Dword(91, 1)] && run.acts == [36, 45, 82, 91]
  {
    LoudLength();
    LoudThereNow();
    LoudRead(LOUD);
    LoudScan(LOUD);
    LoudNotQuiet(LOUD);
  }

  lemma {:induction false} LoudThereNow()
    ensures LoudThere(LOUD)
  {
    LoudHead();
    LoudSize();
    LoudEnd();
  }
}
