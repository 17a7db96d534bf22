/** AcpiPlatform/AcpiPlatformHooks.c: which names of the processor SSDT are objects that
    PatchGv3SsdtTable stores to, and what it stores, position by position. */
module SsdtFixes {
  import opened Bytes
  import opened CpuMap
  import opened PssPackage
  import opened PatchGv3Ssdt
  import opened SsdtObjects

  predicate Covers(f: Fix, k: nat) {
    f.p <= k < High(f)
  }

  /** The byte belongs to an object that is stored to, from its name to its end. */
  ghost predicate Covered(fixes: seq<Fix>, k: nat) {
    exists i :: 0 <= i < |fixes| && Covers(fixes[i], k)
  }

  ghost predicate HasFix(fixes: seq<Fix>, p: nat) {
    exists i :: 0 <= i < |fixes| && fixes[i].p == p
  }

  /** The processor that the last _PR_ name in front of a position selects. */
  datatype Selected = Nobody | Cpu(index: nat)

  /** Names inside of objects that are stored to do not count. */
  ghost function SelectedAt(s: seq<Byte>, fixes: seq<Fix>, p: nat): Selected {
    if p == 0 then Nobody
    else if p - 1 + SLACK <= |s| && NameAt(s, p - 1, PR) && !Covered(fixes, p - 1) then Cpu(CpuOf(s[p - 1 + 7]))
    else SelectedAt(s, fixes, p - 1)
  }

  /** Before any _PR_ name the first processor is selected, and no protocol. */
  function CpuFor(x: Selected): nat {
    if x.Nobody? then 0 else x.index
  }

  function EistFor(env: Env, x: Selected): EistProt {
    if x.Nobody? then Null else EistOf(env, x.index)
  }

  /** The fix is for a name of the input, with the values of the processor selected there. */
  ghost predicate Meant(env: Env, s: seq<Byte>, fixes: seq<Fix>, f: Fix) {
    var x := SelectedAt(s, fixes, f.p);
    match f
    case Dword(p, v) =>
      && DwordAt(s, p, 0)
      && if CpuFor(x) >= |env.cpus| then v == 0
         else
           var package := env.cpus[CpuFor(x)].apicId / 0x10 % 2;
           v == if NameAt(s, p, DOMN) then package else |PackageMembers(env.cpus, package)|
    case Pss(p, size, count, states, npss) =>
      && PackageAt(s, p, 0) && (npss <==> NameAt(s, p, NPSS)) && EistFor(env, x) == Located(states)
      && p + ENTRIES <= |s| && size == PackageSize(s, p) && count == s[p + COUNT]
  }

  /** A named double word, or a package whose processor has the protocol. */
  ghost predicate IsObject(env: Env, s: seq<Byte>, fixes: seq<Fix>, p: nat) {
    DwordAt(s, p, 0) || (PackageAt(s, p, 0) && EistFor(env, SelectedAt(s, fixes, p)).Located?)
  }

  // ----- on the way -----

  lemma {:induction false} ObjectsAhead(env: Env, s: seq<Byte>, c: Cursor, free: nat, end: nat, i: nat)
    requires end + SLACK <= |s| && i < |Objects(env, s, c, free, end)|
    ensures c.p <= Objects(env, s, c, free, end)[i].p <= end
    decreases end + 1 - c.p
  {
    var st := StepAt(env, s, c, free);
    if i >= |st.fixes| {
      ObjectsAhead(env, s, st.c, st.free, end, i - |st.fixes|);
    }
  }

  /** The objects up to the position come before the rest, and the position knows the
      processor that is selected there. */
  ghost predicate Along(
      env: Env, s: seq<Byte>, all: seq<Fix>, before: seq<Fix>, c: Cursor, free: nat, end: nat)
    requires end + SLACK <= |s|
  {
    && all == before + Objects(env, s, c, free, end) && free <= c.p
    && (forall i :: 0 <= i < |before| ==> before[i].p < High(before[i]) <= free)
    && (free > 0 ==> Covered(all, free - 1))
    && c.cpu == CpuFor(SelectedAt(s, all, c.p)) && c.eist == EistFor(env, SelectedAt(s, all, c.p))
  }

  /** The fixes that are not yet made are at or behind the position. */
  lemma {:induction false} RestAhead(
      env: Env, s: seq<Byte>, all: seq<Fix>, before: seq<Fix>, c: Cursor, free: nat, end: nat)
    requires end + SLACK <= |s| && all == before + Objects(env, s, c, free, end)
    ensures forall i :: |before| <= i < |all| ==> c.p <= all[i].p
  {
    forall i | |before| <= i < |all|
      ensures c.p <= all[i].p
    {
      ObjectsAhead(env, s, c, free, end, i - |before|);
    }
  }

  lemma {:induction false} NotCovered(
      env: Env, s: seq<Byte>, all: seq<Fix>, before: seq<Fix>, c: Cursor, free: nat, end: nat, k: nat)
    requires end + SLACK <= |s| && all == before + Objects(env, s, c, free, end) && free <= k < c.p
    requires forall i :: 0 <= i < |before| ==> High(before[i]) <= free
    ensures !Covered(all, k)
  {
    RestAhead(env, s, all, before, c, free, end);
    forall i | 0 <= i < |all|
      ensures !Covers(all[i], k)
    {
      if i < |before| {
        assert all[i] == before[i];
      }
    }
  }

  lemma {:induction false} SelectedBehind(s: seq<Byte>, fixes: seq<Fix>, p: nat, q: nat)
    requires p <= q && forall k :: p <= k < q ==> Covered(fixes, k)
    ensures SelectedAt(s, fixes, q) == SelectedAt(s, fixes, p)
    decreases q
  {
    if p < q {
      SelectedBehind(s, fixes, p, q - 1);
    }
  }

  lemma {:induction false} PlainAlong(
      env: Env, s: seq<Byte>, all: seq<Fix>, before: seq<Fix>, c: Cursor, free: nat, end: nat)
    requires end + SLACK <= |s| && c.p <= end && Along(env, s, all, before, c, free, end)
    requires StepAt(env, s, c, free).fixes == []
    ensures
      var st := StepAt(env, s, c, free);
      Along(env, s, all, before, st.c, st.free, end)
  {
    var st := StepAt(env, s, c, free);
    assert [] + Objects(env, s, st.c, st.free, end) == Objects(env, s, st.c, st.free, end);
    NotCovered(env, s, all, before, st.c, free, end, c.p);
  }

  lemma {:induction false} FixAlong(
      env: Env, s: seq<Byte>, all: seq<Fix>, before: seq<Fix>, c: Cursor, free: nat, end: nat, f: Fix)
    requires end + SLACK <= |s| && c.p <= end && Along(env, s, all, before, c, free, end)
    requires StepAt(env, s, c, free).fixes == [f]
    ensures
      var st := StepAt(env, s, c, free);
      all[|before|..] != [] && all[|before|] == f && Along(env, s, all, before + [f], st.c, st.free, end)
  {
    var st := StepAt(env, s, c, free);
    var rest := Objects(env, s, st.c, st.free, end);
    assert before + ([f] + rest) == (before + [f]) + rest;
    assert all[|before|] == f && High(f) == st.free == st.c.p && f.p == c.p;
    forall k | c.p <= k < st.c.p ensures Covered(all, k) {
      assert Covers(all[|before|], k);
    }
    SelectedBehind(s, all, c.p, st.c.p);
  }

  lemma {:induction false} StepOne(env: Env, s: seq<Byte>, c: Cursor, free: nat) returns (f: Fix)
    requires c.p + SLACK <= |s| && StepAt(env, s, c, free).fixes != []
    ensures StepAt(env, s, c, free).fixes == [f] && f.p == c.p
    ensures High(f) == StepAt(env, s, c, free).free == StepAt(env, s, c, free).c.p > c.p
  {
    f := StepAt(env, s, c, free).fixes[0];
  }

  // ----- which names are fixed -----

  lemma {:induction false} NoFixBefore(
      env: Env, s: seq<Byte>, all: seq<Fix>, before: seq<Fix>, c: Cursor, free: nat, end: nat, p: nat)
    requires end + SLACK <= |s| && all == before + Objects(env, s, c, free, end) && p < c.p
    requires forall i :: 0 <= i < |before| ==> before[i].p != p
    ensures !HasFix(all, p)
  {
    RestAhead(env, s, all, before, c, free, end);
    forall i | 0 <= i < |all|
      ensures all[i].p != p
    {
      if i < |before| {
        assert all[i] == before[i];
      }
    }
  }

  /** At the position itself. */
  lemma {:induction false} ExactlyHere(
      env: Env, s: seq<Byte>, all: seq<Fix>, before: seq<Fix>, c: Cursor, free: nat, end: nat)
    requires end + SLACK <= |s| && c.p <= end && Along(env, s, all, before, c, free, end)
    ensures HasFix(all, c.p) <==> IsObject(env, s, all, c.p) && !Covered(all, c.p - 1)
  {
    var st := StepAt(env, s, c, free);
    if st.fixes == [] {
      PlainAlong(env, s, all, before, c, free, end);
      NoFixBefore(env, s, all, before, st.c, st.free, end, c.p);
    } else {
      var f := StepOne(env, s, c, free);
      FixAlong(env, s, all, before, c, free, end, f);
      assert HasFix(all, c.p);
      NotCovered(env, s, all, before, c, free, end, c.p - 1);
    }
  }

  /** Inside of an object that is stored to. */
  lemma {:induction false} ExactlyInside(
      env: Env, s: seq<Byte>, all: seq<Fix>, before: seq<Fix>, c: Cursor, free: nat, end: nat, f: Fix, p: nat)
    requires end + SLACK <= |s| && c.p <= end && Along(env, s, all, before, c, free, end)
    requires StepAt(env, s, c, free).fixes == [f] && c.p < p < StepAt(env, s, c, free).c.p
    requires f.p == c.p && High(f) == StepAt(env, s, c, free).c.p
    ensures !HasFix(all, p) && Covered(all, p - 1)
  {
    var st := StepAt(env, s, c, free);
    FixAlong(env, s, all, before, c, free, end, f);
    assert Covers(all[|before|], p - 1);
    NoFixBefore(env, s, all, before + [f], st.c, st.free, end, p);
  }

  lemma {:induction false} ExactlyFrom(
      env: Env, s: seq<Byte>, all: seq<Fix>, before: seq<Fix>, c: Cursor, free: nat, end: nat, p: nat)
    requires end + SLACK <= |s| && c.p <= p && Along(env, s, all, before, c, free, end)
    ensures HasFix(all, p) <==> p <= end && IsObject(env, s, all, p) && !Covered(all, p - 1)
    decreases end + 1 - c.p
  {
    if c.p > end {
      assert all == before;
    } else if p == c.p {
      ExactlyHere(env, s, all, before, c, free, end);
    } else if StepAt(env, s, c, free).fixes == [] {
      PlainAlong(env, s, all, before, c, free, end);
      ExactlyFrom(env, s, all, before, StepAt(env, s, c, free).c, StepAt(env, s, c, free).free, end, p);
    } else {
      var f := StepOne(env, s, c, free);
      FixAlong(env, s, all, before, c, free, end, f);
      if p < StepAt(env, s, c, free).c.p {
        ExactlyInside(env, s, all, before, c, free, end, f, p);
      } else {
        ExactlyFrom(env, s, all, before + [f], StepAt(env, s, c, free).c, StepAt(env, s, c, free).free, end, p);
      }
    }
  }

  lemma {:induction false} AlongStart(env: Env, s: seq<Byte>, end: nat)
    requires end + SLACK <= |s|
    ensures Along(env, s, Objects(env, s, START, 0, end), [], START, 0, end)
  {
  }

  /** A position gets a fix if and only if an object's name starts there whose operator is
      not part of an object in front of it. */
  lemma {:induction false} FixedExactly(env: Env, s: seq<Byte>, end: nat, p: nat)
    requires end + SLACK <= |s|
    ensures
      var all := Objects(env, s, START, 0, end);
      HasFix(all, p) <==> p <= end && IsObject(env, s, all, p) && !Covered(all, p - 1)
  {
    AlongStart(env, s, end);
    ExactlyFrom(env, s, Objects(env, s, START, 0, end), [], START, 0, end, p);
  }

  // ----- what is stored -----

  lemma {:induction false} MeantFrom(
      env: Env, s: seq<Byte>, all: seq<Fix>, before: seq<Fix>, c: Cursor, free: nat, end: nat, i: nat)
    requires end + SLACK <= |s| && Along(env, s, all, before, c, free, end) && |before| <= i < |all|
    ensures Meant(env, s, all, all[i])
    decreases end + 1 - c.p
  {
    var st := StepAt(env, s, c, free);
    if st.fixes == [] {
      PlainAlong(env, s, all, before, c, free, end);
      MeantFrom(env, s, all, before, st.c, st.free, end, i);
    } else {
      var f := StepOne(env, s, c, free);
      FixAlong(env, s, all, before, c, free, end, f);
      NumbersMean(env, c.cpu);
      if i > |before| {
        MeantFrom(env, s, all, before + [f], st.c, st.free, end, i);
      }
    }
  }

  /** Every double word gets the domain or number of the processor that the last _PR_ name
      selects, and every package the states of that processor's protocol. */
  lemma {:induction false} FixesMeant(env: Env, s: seq<Byte>, end: nat, i: nat)
    requires end + SLACK <= |s| && i < |Objects(env, s, START, 0, end)|
    ensures
      var all := Objects(env, s, START, 0, end);
      Meant(env, s, all, all[i])
  {
    AlongStart(env, s, end);
    MeantFrom(env, s, Objects(env, s, START, 0, end), [], START, 0, end, i);
  }

  // ----- the table afterwards -----

  /** r is s with the objects of s patched, each with the values meant for it, and nothing else. */
  ghost predicate TableAsMeant(env: Env, s: seq<Byte>, r: seq<Byte>, end: nat)
    requires end + SLACK <= |s|
  {
    var all := Objects(env, s, START, 0, end);
    && (forall p: nat :: HasFix(all, p) <==> p <= end && IsObject(env, s, all, p) && !Covered(all, p - 1))
    && (forall i :: 0 <= i < |all| ==> Meant(env, s, all, all[i]) && High(all[i]) <= |s| && Fixed(r, s, all[i]))
    && Apart(all) && Untouched(r, s, all)
  }

  /** The whole patch on sane input: it ends, and the table has exactly the objects' values. */
  lemma {:induction false} SaneTable(env: Env, s: seq<Byte>, end: nat)
    requires end + SLACK <= |s| && |env.cpus| <= MAX_CPU_NUM && Sane(env, s, end)
    ensures Scan(env, s, START, end).outcome == Done
    ensures TableAsMeant(env, s, Scan(env, s, START, end).table, end)
  {
    SaneScan(env, s, end);
    var all := Objects(env, s, START, 0, end);
    forall p: nat
      ensures HasFix(all, p) <==> p <= end && IsObject(env, s, all, p) && !Covered(all, p - 1)
    {
      FixedExactly(env, s, end, p);
    }
    forall i | 0 <= i < |all|
      ensures Meant(env, s, all, all[i])
    {
      FixesMeant(env, s, end, i);
    }
  }

  /** What PatchGv3SsdtTable leaves, whatever was appended to the CPU map. */
  lemma {:induction false} SanePatch(cpus: CpuIdMap, eists: seq<Eist>, s: seq<Byte>)
    requires |s| >= 8 && Field(s, LENGTH_FIELD, 4) + SLACK <= |s|
    requires Sane(EnvOf(cpus, eists), s, Field(s, LENGTH_FIELD, 4))
    ensures
      var env, end := EnvOf(cpus, eists), Field(s, LENGTH_FIELD, 4);
      Scan(env, s, START, end).outcome == Done && TableAsMeant(env, s, Scan(env, s, START, end).table, end)
  {
    MapSize(cpus, eists);
    SaneTable(EnvOf(cpus, eists), s, Field(s, LENGTH_FIELD, 4));
  }
}
