/** AcpiPlatform/AcpiPlatform.c, the MADT walk on tables whose structures have lengths of at
    least 2 that sum to the length of the table: when the walk visits exactly the structures
    and keeps their types and lengths, and what it leaves of them. */
module MadtStructure {
  import opened Bytes
  import opened CpuMap
  import opened Madt

  // ----- structures in a table -----

  /** From curr to end the bytes are structures: each has at least its type and length. */
  predicate Structured(s: seq<Byte>, curr: nat, end: nat)
    requires end + SLACK <= |s|
    decreases end - curr
  {
    curr == end || (curr + 2 <= end && s[curr + 1] >= 2 && Structured(s, curr + s[curr + 1], end))
  }

  lemma {:induction false} StructuredEnds(s: seq<Byte>, curr: nat, end: nat)
    requires end + SLACK <= |s| && Structured(s, curr, end)
    ensures curr <= end && (curr < end ==> curr + s[curr + 1] <= end)
    decreases end - curr
  {
    if curr < end {
      StructuredEnds(s, curr + s[curr + 1], end);
    }
  }

  /** Where the structures start. */
  function Boundaries(s: seq<Byte>, curr: nat, end: nat): (bs: seq<nat>)
    requires end + SLACK <= |s| && Structured(s, curr, end)
    decreases end - curr
  {
    if curr == end then [] else [curr] + Boundaries(s, curr + s[curr + 1], end)
  }

  /** All structures of s have the same type and length in t. */
  predicate SameHeaders(s: seq<Byte>, t: seq<Byte>, curr: nat, end: nat)
    requires end + SLACK <= |s| && |t| == |s| && Structured(s, curr, end)
    decreases end - curr
  {
    curr == end ||
    (t[curr] == s[curr] && t[curr + 1] == s[curr + 1] && SameHeaders(s, t, curr + s[curr + 1], end))
  }

  /** The same headers give the same structures. */
  lemma {:induction false} HeadersGiveStructure(s: seq<Byte>, t: seq<Byte>, curr: nat, end: nat)
    requires end + SLACK <= |s| && |t| == |s| && Structured(s, curr, end) && SameHeaders(s, t, curr, end)
    ensures Structured(t, curr, end) && Boundaries(t, curr, end) == Boundaries(s, curr, end)
    ensures SameHeaders(t, s, curr, end)
    decreases end - curr
  {
    if curr < end {
      HeadersGiveStructure(s, t, curr + s[curr + 1], end);
    }
  }

  lemma {:induction false} HeadersChain(s: seq<Byte>, t: seq<Byte>, u: seq<Byte>, curr: nat, end: nat)
    requires end + SLACK <= |s| && |t| == |s| == |u| && Structured(s, curr, end) && SameHeaders(s, t, curr, end)
    ensures Structured(t, curr, end) && (SameHeaders(t, u, curr, end) <==> SameHeaders(s, u, curr, end))
    decreases end - curr
  {
    if curr < end {
      HeadersChain(s, t, u, curr + s[curr + 1], end);
    }
  }

  /** Bytes that agree from curr on have the same headers there. */
  lemma {:induction false} AgreeingHeaders(s: seq<Byte>, t: seq<Byte>, curr: nat, end: nat)
    requires end + SLACK <= |s| && |t| == |s| && Structured(s, curr, end)
    requires forall k :: curr <= k < |s| ==> t[k] == s[k]
    ensures SameHeaders(s, t, curr, end)
    decreases end - curr
  {
    if curr < end {
      AgreeingHeaders(s, t, curr + s[curr + 1], end);
    }
  }

  // ----- when one patch keeps all headers -----

  /** The structure behind `next` lies behind the bytes a local APIC patch two bytes in front
      of `next` stores, or is of the type that is stored there anyway. */
  predicate ThirdSafe(s: seq<Byte>, next: nat, end: nat)
    requires end + SLACK <= |s| && next + 2 <= end && next + s[next + 1] <= end
  {
    var third := next + s[next + 1];
    third == end || s[next + 1] >= 6 || (s[next + 1] == 5 && s[third] == PROCESSOR_LOCAL_APIC)
  }

  /** The patch of the structure at curr leaves the headers of those behind it alone. It is
      the last one, or it has room for what is stored, or the bytes that fall on headers are
      there already. */
  predicate StepSafe(p: Platform, s: seq<Byte>, curr: nat, end: nat)
    requires end + SLACK <= |s| && Structured(s, curr, end) && curr < end
  {
    StructuredEnds(s, curr, end);
    var n, next := s[curr + 1], curr + s[curr + 1];
    next == end ||
    (StructuredEnds(s, next, end);
     if s[curr] == PROCESSOR_LOCAL_APIC then
       || n >= 8
       || (n == 7 && s[next] == PROCESSOR_LOCAL_APIC)
       || (n == 2 && s[next] <= |p.processors| && ThirdSafe(s, next, end))
     else if s[curr] == IO_APIC then
       n >= 3 || s[next] == IO_APIC_ID
     else true)
  }

  predicate Safe(p: Platform, s: seq<Byte>, curr: nat, end: nat)
    requires end + SLACK <= |s| && Structured(s, curr, end)
    decreases end - curr
  {
    curr == end || (StepSafe(p, s, curr, end) && Safe(p, s, curr + s[curr + 1], end))
  }

  lemma {:induction false} StepDependsOnHeaders(p: Platform, s: seq<Byte>, t: seq<Byte>, curr: nat, end: nat)
    requires end + SLACK <= |s| && |t| == |s| && Structured(s, curr, end) && SameHeaders(s, t, curr, end) && curr < end
    ensures Structured(t, curr, end) && (StepSafe(p, t, curr, end) <==> StepSafe(p, s, curr, end))
  {
    HeadersGiveStructure(s, t, curr, end);
    var next := curr + s[curr + 1];
    StructuredEnds(s, curr, end);
    if next < end {
      StructuredEnds(s, next, end);
      assert SameHeaders(s, t, next, end) && t[next] == s[next] && t[next + 1] == s[next + 1];
      var third := next + s[next + 1];
      if third < end {
        assert SameHeaders(s, t, third, end) && t[third] == s[third];
      }
    }
  }

  lemma {:induction false} SafeDependsOnHeaders(p: Platform, s: seq<Byte>, t: seq<Byte>, curr: nat, end: nat)
    requires end + SLACK <= |s| && |t| == |s| && Structured(s, curr, end) && SameHeaders(s, t, curr, end)
    ensures Structured(t, curr, end) && (Safe(p, t, curr, end) <==> Safe(p, s, curr, end))
    decreases end - curr
  {
    HeadersGiveStructure(s, t, curr, end);
    if curr < end {
      StructuredEnds(s, curr, end);
      StepDependsOnHeaders(p, s, t, curr, end);
      SafeDependsOnHeaders(p, s, t, curr + s[curr + 1], end);
    }
  }

  /** Headers survive changes in front of hi if those of the next two structures do, and hi
      is not behind the second one. */
  lemma {:induction false} HeadersSurvive(s: seq<Byte>, t: seq<Byte>, curr: nat, hi: nat, end: nat)
    requires end + SLACK <= |s| && |t| == |s| && Structured(s, curr, end) && curr < end
    requires t[curr] == s[curr] && t[curr + 1] == s[curr + 1] && forall k :: hi <= k < |s| ==> t[k] == s[k]
    requires
      var next := curr + s[curr + 1];
      next < end ==>
        && t[next] == s[next] && t[next + 1] == s[next + 1]
        && var third := next + s[next + 1];
           third < end ==> t[third] == s[third] && t[third + 1] == s[third + 1] && third + s[third + 1] >= hi
    ensures SameHeaders(s, t, curr, end)
  {
    var next := curr + s[curr + 1];
    assert Structured(s, next, end);
    if next < end {
      var third := next + s[next + 1];
      assert Structured(s, third, end);
      if third < end {
        AgreeingHeaders(s, t, third + s[third + 1], end);
        assert SameHeaders(s, t, third, end);
      }
      assert SameHeaders(s, t, next, end);
    }
  }

  /** A safe step keeps all headers. */
  lemma {:induction false} SafeStepKeeps(p: Platform, s: seq<Byte>, curr: nat, end: nat)
    requires end + SLACK <= |s| && Structured(s, curr, end) && curr < end && StepSafe(p, s, curr, end)
    ensures SameHeaders(s, PatchAt(p, s, curr), curr, end)
  {
    var t := PatchAt(p, s, curr);
    StructuredEnds(s, curr, end);
    var next := curr + s[curr + 1];
    if next < end {
      StructuredEnds(s, next, end);
      StructuredEnds(s, next + s[next + 1], end);
    }
    if s[curr] == PROCESSOR_LOCAL_APIC {
      forall k | 0 <= k < |s| && !(curr + 2 <= k < curr + LOCAL_APIC_SIZE) ensures t[k] == s[k] {
        PatchAtFrame(p, s, curr, k);
      }
      LocalApicPatched(p, s, curr);
      HeadersSurvive(s, t, curr, curr + LOCAL_APIC_SIZE, end);
    } else if s[curr] == IO_APIC {
      IoApicPatched(p, s, curr);
      HeadersSurvive(s, t, curr, curr + 3, end);
    } else {
      AgreeingHeaders(s, t, curr, end);
    }
  }

  // ----- the walk -----

  /** The walk ends, looked for structures exactly where they start, and left their types and
      lengths. */
  predicate Preserved(p: Platform, s: seq<Byte>, curr: nat, end: nat)
    requires end + SLACK <= |s| && Structured(s, curr, end)
  {
    Fits(Walk(p, s, curr, end), s, curr, end)
  }

  predicate Fits(run: Run, s: seq<Byte>, curr: nat, end: nat)
    requires end + SLACK <= |s| && Structured(s, curr, end) && |run.table| == |s|
  {
    run.outcome == Done && run.visited == Boundaries(s, curr, end) && SameHeaders(s, run.table, curr, end)
  }

  /** One turn and the rest of the walk. */
  lemma {:induction false} WalkStep(p: Platform, s: seq<Byte>, curr: nat, end: nat)
    requires end + SLACK <= |s| && curr < end && s[curr + 1] != 0
    ensures
      var rest := Walk(p, PatchAt(p, s, curr), curr + s[curr + 1], end);
      Walk(p, s, curr, end)
      == Run(rest.outcome, rest.table, [curr] + rest.visited, RecordedAt(p, s, curr) + rest.recorded)
  {
    PatchAtFrame(p, s, curr, curr + 1);
  }

  /** After a safe step the rest of the walk decides. */
  lemma {:induction false} PreservedNext(p: Platform, s: seq<Byte>, t: seq<Byte>, curr: nat, end: nat)
    requires end + SLACK <= |s| && Structured(s, curr, end) && curr < end
    requires t == PatchAt(p, s, curr) && SameHeaders(s, t, curr, end)
    ensures
      var next := curr + s[curr + 1];
      Structured(t, next, end) && (Preserved(p, s, curr, end) <==> Preserved(p, t, next, end))
  {
    var next := curr + s[curr + 1];
    HeadersGiveStructure(s, t, next, end);
    WalkStep(p, s, curr, end);
    Settled(p, t, next, end);
    FitsNext(Walk(p, t, next, end), RecordedAt(p, s, curr), s, t, curr, end);
  }

  lemma {:induction false} FitsNext(
      rest: Run, more: seq<LocalApic>, s: seq<Byte>, t: seq<Byte>, curr: nat, end: nat)
    requires end + SLACK <= |s| && Structured(s, curr, end) && curr < end && |t| == |s| == |rest.table|
    requires SameHeaders(s, t, curr, end) && rest.table[curr] == t[curr] && rest.table[curr + 1] == t[curr + 1]
    ensures
      var next := curr + s[curr + 1];
      var run := Run(rest.outcome, rest.table, [curr] + rest.visited, more + rest.recorded);
      Structured(t, next, end) && (Fits(run, s, curr, end) <==> Fits(rest, t, next, end))
  {
    var next := curr + s[curr + 1];
    HeadersGiveStructure(s, t, next, end);
    HeadersChain(s, t, rest.table, next, end);
    SameTail(curr, rest.visited, Boundaries(t, next, end));
  }

  lemma {:induction false} SameTail(b: nat, bs: seq<nat>, cs: seq<nat>)
    ensures [b] + bs == [b] + cs <==> bs == cs
  {
    if [b] + bs == [b] + cs {
      assert bs == ([b] + bs)[1..] == ([b] + cs)[1..] == cs;
    }
  }

  /** What the walk has passed, or is looking at, after n turns is in the final table. */
  lemma {:induction false} SettledAfter(n: nat, p: Platform, s: seq<Byte>, curr: nat, end: nat, r: seq<Byte>)
    requires end + SLACK <= |s| && EndsWith(p, s, curr, end, r)
    ensures
      var (t, at) := AfterTurns(n, p, s, curr, end);
      KeptBelow(t, r, at + 2)
    decreases n
  {
    if n == 0 || curr >= end {
      Settled(p, s, curr, end);
    } else {
      var t, next := PatchAt(p, s, curr), curr + s[curr + 1];
      EndsWithNext(n - 1, p, s, t, curr, end, r);
      SettledAfter(n - 1, p, t, next, end, r);
    }
  }

  /** The walk ends, and leaves r. */
  predicate EndsWith(p: Platform, s: seq<Byte>, curr: nat, end: nat, r: seq<Byte>)
    requires end + SLACK <= |s|
  {
    Walk(p, s, curr, end).outcome == Done && Walk(p, s, curr, end).table == r
  }

  lemma {:induction false} EndsWithNext(
      n: nat, p: Platform, s: seq<Byte>, t: seq<Byte>, curr: nat, end: nat, r: seq<Byte>)
    requires end + SLACK <= |s| && curr < end && t == PatchAt(p, s, curr) && EndsWith(p, s, curr, end, r)
    ensures EndsWith(p, t, curr + s[curr + 1], end, r)
    ensures AfterTurns(n + 1, p, s, curr, end) == AfterTurns(n, p, t, curr + s[curr + 1], end)
  {
    PatchAtFrame(p, s, curr, curr + 1);
    TurnFirst(n, p, s, curr, end);
  }

  predicate KeptBelow(s: seq<Byte>, t: seq<Byte>, to: nat) {
    |t| == |s| && forall k :: 0 <= k < |s| && k < to ==> t[k] == s[k]
  }

  /** The structure the walk is at after one turn, and after two. */
  lemma {:induction false} OneTurn(p: Platform, s: seq<Byte>, curr: nat, end: nat)
    requires end + SLACK <= |s| && curr < end
    ensures AfterTurns(1, p, s, curr, end) == (PatchAt(p, s, curr), curr + s[curr + 1])
  {
    PatchAtFrame(p, s, curr, curr + 1);
    TurnFirst(0, p, s, curr, end);
  }

  lemma {:induction false} TwoTurns(p: Platform, s: seq<Byte>, t: seq<Byte>, curr: nat, end: nat)
    requires end + SLACK <= |s| && curr < end && curr + s[curr + 1] < end && t == PatchAt(p, s, curr)
    ensures
      var next := curr + s[curr + 1];
      AfterTurns(2, p, s, curr, end) == (PatchAt(p, t, next), next + t[next + 1])
  {
    PatchAtFrame(p, s, curr, curr + 1);
    TurnFirst(1, p, s, curr, end);
    OneTurn(p, t, curr + s[curr + 1], end);
  }

  /** The headers of the next two structures are there when a walk that preserves the
      structure arrives. */
  predicate NextTwoThere(p: Platform, s: seq<Byte>, curr: nat, end: nat)
    requires end + SLACK <= |s| && curr < end
  {
    var t, next := PatchAt(p, s, curr), curr + s[curr + 1];
    next < end ==> next + 2 <= end && t[next] == s[next] && t[next + 1] == s[next + 1] && ThirdThere(p, s, t, next, end)
  }

  predicate ThirdThere(p: Platform, s: seq<Byte>, t: seq<Byte>, next: nat, end: nat)
    requires end + SLACK <= |s| && |t| == |s| && next + 2 <= end
  {
    var u, third := PatchAt(p, t, next), next + s[next + 1];
    third < end ==> third + 2 <= end && u[third] == s[third] && u[third + 1] == s[third + 1] && s[third + 1] >= 2
  }

  lemma {:induction false} PreservedTwice(p: Platform, s: seq<Byte>, curr: nat, end: nat)
    requires end + SLACK <= |s| && Structured(s, curr, end) && curr < end && Preserved(p, s, curr, end)
    ensures NextTwoThere(p, s, curr, end)
  {
    var r, t, next := Walk(p, s, curr, end).table, PatchAt(p, s, curr), curr + s[curr + 1];
    SettledAfter(1, p, s, curr, end, r);
    OneTurn(p, s, curr, end);
    if next < end {
      HeaderOf(s, t, r, next, end);
      SettledAfter(2, p, s, curr, end, r);
      TwoTurns(p, s, t, curr, end);
      PreservedThird(p, s, t, r, next, end);
    }
  }

  lemma {:induction false} HeaderOf(s: seq<Byte>, t: seq<Byte>, r: seq<Byte>, at: nat, end: nat)
    requires end + SLACK <= |s| && |t| == |s| == |r| && Structured(s, at, end) && at < end
    requires SameHeaders(s, r, at, end) && KeptBelow(t, r, at + 2)
    ensures at + 2 <= end && t[at] == s[at] && t[at + 1] == s[at + 1] && s[at + 1] >= 2
  {
  }

  lemma {:induction false} PreservedThird(
      p: Platform, s: seq<Byte>, t: seq<Byte>, r: seq<Byte>, next: nat, end: nat)
    requires end + SLACK <= |s| && |t| == |s| == |r| && Structured(s, next, end) && next + 2 <= end
    requires SameHeaders(s, r, next, end) && KeptBelow(PatchAt(p, t, next), r, next + s[next + 1] + 2)
    ensures ThirdThere(p, s, t, next, end)
  {
    var third := next + s[next + 1];
    if third < end {
      HeaderOf(s, PatchAt(p, t, next), r, third, end);
    }
  }

  /** A local APIC patch two bytes in front of `next` and the patch of `next` itself leave
      wrong headers behind, unless the third structure is safe. */
  lemma {:induction false} ThirdLost(p: Platform, s: seq<Byte>, curr: nat, end: nat)
    requires end + SLACK <= |s| && curr + 4 <= end && s[curr] == PROCESSOR_LOCAL_APIC && s[curr + 1] == 2
    requires 2 <= s[curr + 3] && curr + 2 + s[curr + 3] <= end && !ThirdSafe(s, curr + 2, end)
    ensures
      var u, third := PatchAt(p, PatchAt(p, s, curr), curr + 2), curr + 2 + s[curr + 3];
      third < end && (u[third] != s[third] || u[third + 1] < 2)
  {
    var t, next, m := PatchAt(p, s, curr), curr + 2, s[curr + 3];
    var u := PatchAt(p, t, next);
    LocalApicPatched(p, s, curr);
    if t[next] == PROCESSOR_LOCAL_APIC {
      LocalApicPatched(p, t, next);
    } else if t[next] == IO_APIC {
      IoApicPatched(p, t, next);
    }
    assert m == 2 || m == 3 || m == 4 || m == 5;
  }

  lemma {:induction false} PreservedStepSafe(p: Platform, s: seq<Byte>, curr: nat, end: nat)
    requires end + SLACK <= |s| && Structured(s, curr, end) && curr < end && Preserved(p, s, curr, end)
    ensures StepSafe(p, s, curr, end)
  {
    var next := curr + s[curr + 1];
    StructuredEnds(s, curr, end);
    PreservedTwice(p, s, curr, end);
    if next < end {
      StructuredEnds(s, next, end);
      if s[curr] == PROCESSOR_LOCAL_APIC {
        LocalApicRoom(p, s, curr, end);
      } else if s[curr] == IO_APIC {
        IoApicPatched(p, s, curr);
      }
    }
  }

  /** What a local APIC patch that keeps the next header and leads to the third one tells. */
  lemma {:induction false} LocalApicRoom(p: Platform, s: seq<Byte>, curr: nat, end: nat)
    requires end + SLACK <= |s| && curr + 2 <= end && s[curr] == PROCESSOR_LOCAL_APIC && s[curr + 1] >= 2
    requires NextTwoThere(p, s, curr, end)
    requires
      var next := curr + s[curr + 1];
      next + 2 <= end && s[next + 1] >= 2 && next + s[next + 1] <= end
    ensures
      var n, next := s[curr + 1], curr + s[curr + 1];
      || n >= 8
      || (n == 7 && s[next] == PROCESSOR_LOCAL_APIC)
      || (n == 2 && s[next] <= |p.processors| && ThirdSafe(s, next, end))
  {
    LocalApicPatched(p, s, curr);
    if s[curr + 1] == 2 && !ThirdSafe(s, curr + 2, end) {
      ThirdLost(p, s, curr, end);
    }
  }

  /** The walk visits exactly the structures and keeps all types and lengths if and only if
      the patch of each structure is safe for those behind it. */
  lemma {:induction false} PreservedIffSafe(p: Platform, s: seq<Byte>, curr: nat, end: nat)
    requires end + SLACK <= |s| && Structured(s, curr, end)
    ensures Preserved(p, s, curr, end) <==> Safe(p, s, curr, end)
    decreases end - curr
  {
    if curr < end {
      var t, next := PatchAt(p, s, curr), curr + s[curr + 1];
      StructuredEnds(s, curr, end);
      if Preserved(p, s, curr, end) {
        PreservedStepSafe(p, s, curr, end);
      }
      if StepSafe(p, s, curr, end) {
        SafeStepKeeps(p, s, curr, end);
        PreservedNext(p, s, t, curr, end);
        PreservedIffSafe(p, t, next, end);
        SafeDependsOnHeaders(p, s, t, next, end);
      }
    }
  }

  // ----- the enabled flags -----

  lemma {:induction false} FlagWord(flag: Byte)
    ensures FromLe([flag, 0, 0, 0]) == flag
  {
    assert FromLe([]) == 0;
    assert FromLe([0]) == 0 + 256 * FromLe([0][1..]);
    assert [0, 0][1..] == [0] && [0, 0, 0][1..] == [0, 0] && [flag, 0, 0, 0][1..] == [0, 0, 0];
  }

  /** The flag word of a structure the walk has just patched. */
  lemma {:induction false} FlagHere(p: Platform, s: seq<Byte>, b: nat, end: nat)
    requires end + SLACK <= |s| && b + LOCAL_APIC_SIZE <= end
    requires s[b] == PROCESSOR_LOCAL_APIC && s[b + 1] >= LOCAL_APIC_SIZE
    ensures FlagWritten(p, s, Walk(p, s, b, end).table, b)
  {
    FlagSettled(p, s, PatchAt(p, s, b), b, end);
    FlagKept(p, s, Walk(p, s, b, end).table, b);
  }

  lemma {:induction false} FlagSettled(p: Platform, s: seq<Byte>, t: seq<Byte>, b: nat, end: nat)
    requires end + SLACK <= |s| && b + LOCAL_APIC_SIZE <= end && t == PatchAt(p, s, b)
    requires s[b] == PROCESSOR_LOCAL_APIC && s[b + 1] >= LOCAL_APIC_SIZE
    ensures forall k :: 0 <= k < b + LOCAL_APIC_SIZE ==> Walk(p, s, b, end).table[k] == t[k]
  {
    WalkStep(p, s, b, end);
    Settled(p, t, b + s[b + 1], end);
  }

  lemma {:induction false} FlagKept(p: Platform, s: seq<Byte>, r: seq<Byte>, b: nat)
    requires |r| == |s| && b + LOCAL_APIC_SIZE <= |s| && s[b] == PROCESSOR_LOCAL_APIC
    requires forall k :: 0 <= k < b + LOCAL_APIC_SIZE ==> r[k] == PatchAt(p, s, b)[k]
    ensures FlagWritten(p, s, r, b)
  {
    LocalApicPatched(p, s, b);
    UsableMeans(p, s[b + 3]);
    PatchAtFrame(p, s, b, b);
    PatchAtFrame(p, s, b, b + 1);
    FlagBytes(r, b + 4);
  }

  lemma {:induction false} FlagBytes(r: seq<Byte>, at: nat)
    requires at + 4 <= |r| && r[at + 1] == 0 && r[at + 2] == 0 && r[at + 3] == 0
    ensures Field(r, at, 4) == r[at]
  {
    assert r[at..at + 4] == [r[at], 0, 0, 0];
    FlagWord(r[at]);
  }

  /** The structure at b kept its type and length, and its flag word is 1 if its processor is to
      be shown to the operating system, and 0 otherwise. */
  ghost predicate FlagWritten(p: Platform, s: seq<Byte>, r: seq<Byte>, b: nat)
    requires |r| == |s| && b + LOCAL_APIC_SIZE <= |s|
  {
    && r[b] == s[b] && r[b + 1] == s[b + 1]
    && (Shown(p, r[b + 3]) ==> Field(r, b + 4, 4) == 1) && (!Shown(p, r[b + 3]) ==> Field(r, b + 4, 4) == 0)
  }

  /** In a table the walk preserves, the flag word of each local APIC structure with room for
      it is 1 or 0, and 1 if and only if the first processor with the APIC id that the
      structure has is the boot processor or enabled, and is thread 0. */
  lemma {:induction false} FlagsSet(p: Platform, s: seq<Byte>, curr: nat, end: nat, b: nat, r: seq<Byte>)
    requires end + SLACK <= |s| && Structured(s, curr, end) && Safe(p, s, curr, end)
    requires r == Walk(p, s, curr, end).table
    requires b in Boundaries(s, curr, end) && b + LOCAL_APIC_SIZE <= end
    requires s[b] == PROCESSOR_LOCAL_APIC && s[b + 1] >= LOCAL_APIC_SIZE
    ensures |r| == |s| && FlagWritten(p, s, r, b)
    decreases end - curr
  {
    if b == curr {
      FlagHere(p, s, b, end);
    } else {
      var t, next := PatchAt(p, s, curr), curr + s[curr + 1];
      SafeNext(p, s, curr, end);
      HeaderAt(s, t, next, end, b);
      FlagsSet(p, t, next, end, b, r);
      SameFlag(p, s, t, r, b);
    }
  }

  lemma {:induction false} SameFlag(p: Platform, s: seq<Byte>, t: seq<Byte>, r: seq<Byte>, b: nat)
    requires |r| == |s| == |t| && b + LOCAL_APIC_SIZE <= |s| && t[b] == s[b] && t[b + 1] == s[b + 1]
    requires FlagWritten(p, t, r, b)
    ensures FlagWritten(p, s, r, b)
  {
  }

  /** What a safe step hands on. */
  lemma {:induction false} SafeNext(p: Platform, s: seq<Byte>, curr: nat, end: nat)
    requires end + SLACK <= |s| && Structured(s, curr, end) && Safe(p, s, curr, end) && curr < end
    ensures
      var t, next := PatchAt(p, s, curr), curr + s[curr + 1];
      && next <= end && SameHeaders(s, t, next, end)
      && Structured(t, next, end) && Safe(p, t, next, end) && Boundaries(t, next, end) == Boundaries(s, next, end)
      && Walk(p, s, curr, end).table == Walk(p, t, next, end).table
  {
    var t, next := PatchAt(p, s, curr), curr + s[curr + 1];
    StructuredEnds(s, curr, end);
    SafeStepKeeps(p, s, curr, end);
    HeadersGiveStructure(s, t, next, end);
    SafeDependsOnHeaders(p, s, t, next, end);
    WalkStep(p, s, curr, end);
  }

  lemma {:induction false} HeaderAt(s: seq<Byte>, t: seq<Byte>, curr: nat, end: nat, b: nat)
    requires end + SLACK <= |s| && |t| == |s| && Structured(s, curr, end) && SameHeaders(s, t, curr, end)
    requires b in Boundaries(s, curr, end)
    ensures b + 2 <= end && t[b] == s[b] && t[b + 1] == s[b + 1]
    decreases end - curr
  {
    if b != curr {
      HeaderAt(s, t, curr + s[curr + 1], end, b);
    }
  }

  // ----- what the walk does when it fails -----

  /** A local APIC structure of 4 to 6 bytes with another structure behind it leaves that one
      a length of 0, and the loop never gets past it. */
  lemma {:induction false} ShortStructureSticks(p: Platform, s: seq<Byte>, curr: nat, end: nat)
    requires end + SLACK <= |s| && curr + 2 <= end && s[curr] == PROCESSOR_LOCAL_APIC
    requires 4 <= s[curr + 1] <= 6 && curr + s[curr + 1] < end
    ensures Walk(p, s, curr, end).outcome == Stuck && Walk(p, s, curr, end).visited == [curr, curr + s[curr + 1]]
  {
    WalkStep(p, s, curr, end);
    ShortPatch(p, s, curr);
    NoLengthSticks(p, PatchAt(p, s, curr), curr + s[curr + 1], end);
  }

  lemma {:induction false} ShortPatch(p: Platform, s: seq<Byte>, curr: nat)
    requires curr + LOCAL_APIC_SIZE <= |s| && s[curr] == PROCESSOR_LOCAL_APIC && 4 <= s[curr + 1] <= 6
    ensures PatchAt(p, s, curr)[curr + s[curr + 1] + 1] == 0
  {
    LocalApicPatched(p, s, curr);
  }

  lemma {:induction false} NoLengthSticks(p: Platform, s: seq<Byte>, curr: nat, end: nat)
    requires end + SLACK <= |s| && curr < end && s[curr + 1] == 0
    ensures Walk(p, s, curr, end).outcome == Stuck && Walk(p, s, curr, end).visited == [curr]
  {
    PatchAtFrame(p, s, curr, curr + 1);
  }

  /** One of 3 bytes makes the next length 0 or 1: the loop stands still, or goes on one byte
      further, inside that structure. */
  lemma {:induction false} ThreeBytesStray(p: Platform, s: seq<Byte>, curr: nat, end: nat)
    requires end + SLACK <= |s| && curr + 4 < end && s[curr] == PROCESSOR_LOCAL_APIC && s[curr + 1] == 3
    ensures
      var run := Walk(p, s, curr, end);
      if Enabled(p, s[curr + 3]) then |run.visited| >= 3 && run.visited[1] == curr + 3 && run.visited[2] == curr + 4
      else run.outcome == Stuck && run.visited == [curr, curr + 3]
  {
    var t, next := PatchAt(p, s, curr), curr + 3;
    WalkStep(p, s, curr, end);
    LocalApicPatched(p, s, curr);
    if Enabled(p, s[curr + 3]) {
      WalkStep(p, t, next, end);
      StartsHere(p, PatchAt(p, t, next), next + 1, end);
    } else {
      NoLengthSticks(p, t, next, end);
    }
  }

  lemma {:induction false} StartsHere(p: Platform, s: seq<Byte>, curr: nat, end: nat)
    requires end + SLACK <= |s| && curr < end
    ensures |Walk(p, s, curr, end).visited| > 0 && Walk(p, s, curr, end).visited[0] == curr
  {
  }

  /** Otherwise only the type of the next structure is overwritten for good: with 0 behind 7
      bytes, with the clamped number behind a local APIC of 2, with 2 behind an I/O APIC of 2. */
  lemma {:induction false} NextRetyped(p: Platform, s: seq<Byte>, curr: nat, end: nat, r: seq<Byte>)
    requires end + SLACK <= |s| && curr + 2 <= end && curr + s[curr + 1] < end && r == Walk(p, s, curr, end).table
    requires
      || (s[curr] == PROCESSOR_LOCAL_APIC && (s[curr + 1] == 7 || s[curr + 1] == 2))
      || (s[curr] == IO_APIC && s[curr + 1] == 2)
    ensures
      var next := curr + s[curr + 1];
      && |r| == |s| && r[next + 1] == s[next + 1]
      && r[next] ==
         if s[curr] == IO_APIC then IO_APIC_ID else if s[curr + 1] == 7 then 0 else ClampedId(p, s[next])
  {
    var t := PatchAt(p, s, curr);
    WalkStep(p, s, curr, end);
    Settled(p, t, curr + s[curr + 1], end);
    if s[curr] == IO_APIC {
      IoApicPatched(p, s, curr);
    } else {
      LocalApicPatched(p, s, curr);
      PatchAtFrame(p, s, curr, curr + 8);
    }
  }

  /** All steps in front of structure b are safe. */
  predicate SafeUpTo(p: Platform, s: seq<Byte>, curr: nat, b: nat, end: nat)
    requires end + SLACK <= |s| && Structured(s, curr, end)
    decreases end - curr
  {
    curr == b || (curr < end && StepSafe(p, s, curr, end) && SafeUpTo(p, s, curr + s[curr + 1], b, end))
  }

  lemma {:induction false} UpToDependsOnHeaders(p: Platform, s: seq<Byte>, t: seq<Byte>, curr: nat, b: nat, end: nat)
    requires end + SLACK <= |s| && |t| == |s| && Structured(s, curr, end) && SameHeaders(s, t, curr, end)
    requires SafeUpTo(p, s, curr, b, end)
    ensures Structured(t, curr, end) && SafeUpTo(p, t, curr, b, end)
    decreases end - curr
  {
    HeadersGiveStructure(s, t, curr, end);
    if curr != b {
      StructuredEnds(s, curr, end);
      StepDependsOnHeaders(p, s, t, curr, end);
      UpToDependsOnHeaders(p, s, t, curr + s[curr + 1], b, end);
    }
  }

  /** So the whole walk never ends if the first unsafe structure is one of those. */
  lemma {:induction false} FirstShortSticks(p: Platform, s: seq<Byte>, curr: nat, b: nat, end: nat)
    requires end + SLACK <= |s| && Structured(s, curr, end) && SafeUpTo(p, s, curr, b, end)
    requires b in Boundaries(s, curr, end) && b + 2 <= end
    requires s[b] == PROCESSOR_LOCAL_APIC && 4 <= s[b + 1] <= 6 && b + s[b + 1] < end
    ensures Walk(p, s, curr, end).outcome == Stuck
    decreases end - curr
  {
    if curr == b {
      ShortStructureSticks(p, s, curr, end);
    } else {
      var t, next := PatchAt(p, s, curr), curr + s[curr + 1];
      StructuredEnds(s, curr, end);
      SafeStepKeeps(p, s, curr, end);
      HeadersGiveStructure(s, t, next, end);
      UpToDependsOnHeaders(p, s, t, next, b, end);
      HeaderAt(s, t, next, end, b);
      WalkStep(p, s, curr, end);
      FirstShortSticks(p, t, next, b, end);
    }
  }

  // ----- exactly when the walk ends -----

  /** The type that the structure behind curr has when the walk comes to it. */
  function NextKind(s: seq<Byte>, kind: Byte, curr: nat): Byte
    requires curr + 1 < |s| && curr + s[curr + 1] < |s|
  {
    if kind == PROCESSOR_LOCAL_APIC && s[curr + 1] == 7 then 0
    else if kind == IO_APIC && s[curr + 1] == 2 then IO_APIC_ID
    else s[curr + s[curr + 1]]
  }

  /** The walk ends, told from the headers: kind is the type that the structure at curr has when
      the walk comes to it, which the structure in front of it may have overwritten. */
  predicate EndsByHeaders(s: seq<Byte>, kind: Byte, curr: nat, end: nat)
    requires end + SLACK <= |s| && Structured(s, curr, end)
    decreases end - curr
  {
    curr == end ||
    (StructuredEnds(s, curr, end);
     var n, next := s[curr + 1], curr + s[curr + 1];
     next == end ||
     ((kind == PROCESSOR_LOCAL_APIC ==> n >= 7) && EndsByHeaders(s, NextKind(s, kind, curr), next, end)))
  }

  /** On the way no local APIC structure of 2 bytes, or of 3 bytes for a processor that is to be
      enabled, stands in front of another structure: what these spill depends on other bytes. */
  predicate NoTiny(p: Platform, s: seq<Byte>, kind: Byte, curr: nat, end: nat)
    requires end + SLACK <= |s| && Structured(s, curr, end)
    decreases end - curr
  {
    curr == end ||
    (StructuredEnds(s, curr, end);
     var n, next := s[curr + 1], curr + s[curr + 1];
     next == end ||
     (if kind == PROCESSOR_LOCAL_APIC && n <= 6 then n > 3 || (n == 3 && !Enabled(p, s[curr + 3]))
      else NoTiny(p, s, NextKind(s, kind, curr), next, end)))
  }

  /** Apart from its type, the rest of the table is still as it was. */
  predicate Retyped(s: seq<Byte>, t: seq<Byte>, kind: Byte, curr: nat, end: nat) {
    && |t| == |s| && curr <= end && end + SLACK <= |s| && (curr < end ==> t[curr] == kind)
    && forall k :: curr < k < |s| ==> t[k] == s[k]
  }

  lemma {:induction false} RetypedNext(p: Platform, s: seq<Byte>, t: seq<Byte>, kind: Byte, curr: nat, end: nat)
    requires Retyped(s, t, kind, curr, end) && curr < end && s[curr + 1] >= 2 && curr + s[curr + 1] <= end
    requires kind == PROCESSOR_LOCAL_APIC ==> s[curr + 1] >= 7
    ensures
      Retyped(s, PatchAt(p, t, curr), NextKind(s, kind, curr), curr + s[curr + 1], end)
  {
    if kind == PROCESSOR_LOCAL_APIC {
      LocalApicPatched(p, t, curr);
      forall k | 0 <= k < |s| && !(curr + 2 <= k < curr + LOCAL_APIC_SIZE) ensures PatchAt(p, t, curr)[k] == t[k] {
        PatchAtFrame(p, t, curr, k);
      }
    } else if kind == IO_APIC {
      IoApicPatched(p, t, curr);
    }
  }

  lemma {:induction false} LastEnds(p: Platform, t: seq<Byte>, curr: nat, end: nat)
    requires end + SLACK <= |t| && curr < end && t[curr + 1] > 0 && curr + t[curr + 1] == end
    ensures Walk(p, t, curr, end).outcome == Done
  {
    WalkStep(p, t, curr, end);
  }

  /** A local APIC structure of 3 to 6 bytes in front of another leaves that one no length, if
      3 bytes are not for a processor that is to be enabled. */
  lemma {:induction false} ShortEndsNever(p: Platform, t: seq<Byte>, curr: nat, end: nat)
    requires end + SLACK <= |t| && curr + 4 <= end && t[curr] == PROCESSOR_LOCAL_APIC && 3 <= t[curr + 1] <= 6
    requires curr + t[curr + 1] < end && (t[curr + 1] == 3 ==> !Enabled(p, t[curr + 3]))
    ensures Walk(p, t, curr, end).outcome == Stuck
  {
    if t[curr + 1] == 3 {
      WalkStep(p, t, curr, end);
      LocalApicPatched(p, t, curr);
      NoLengthSticks(p, PatchAt(p, t, curr), curr + 3, end);
    } else {
      ShortStructureSticks(p, t, curr, end);
    }
  }

  lemma {:induction false} EndsFrom(p: Platform, s: seq<Byte>, t: seq<Byte>, kind: Byte, curr: nat, end: nat)
    requires end + SLACK <= |s| && Structured(s, curr, end) && Retyped(s, t, kind, curr, end)
    requires NoTiny(p, s, kind, curr, end)
    ensures Walk(p, t, curr, end).outcome == Done <==> EndsByHeaders(s, kind, curr, end)
    decreases end - curr
  {
    if curr < end {
      StructuredEnds(s, curr, end);
      var n, next := s[curr + 1], curr + s[curr + 1];
      if next == end {
        LastEnds(p, t, curr, end);
      } else if kind == PROCESSOR_LOCAL_APIC && n <= 6 {
        ShortEndsNever(p, t, curr, end);
      } else {
        StructuredEnds(s, next, end);
        RetypedNext(p, s, t, kind, curr, end);
        WalkStep(p, t, curr, end);
        EndsFrom(p, s, PatchAt(p, t, curr), PatchAt(p, t, curr)[next], next, end);
      }
    }
  }

  /** On a table of structures without such tiny ones, some number of turns ends the loop if and
      only if no local APIC structure of 3 to 6 bytes stands in front of another structure,
      counting those that the one in front of them makes a local APIC. */
  lemma {:induction false} EndsByHeadersIff(p: Platform, s: seq<Byte>, curr: nat, end: nat)
    requires end + SLACK <= |s| && curr < end && Structured(s, curr, end) && NoTiny(p, s, s[curr], curr, end)
    ensures (exists n: nat :: EndsAfter(n, p, s, curr, end)) <==> EndsByHeaders(s, s[curr], curr, end)
  {
    StructuredEnds(s, curr, end);
    EndsFrom(p, s, s, s[curr], curr, end);
    WalkEndsIff(p, s, curr, end);
  }

  // ----- tables with room -----

  /** Every structure has room for what is stored in it. */
  predicate Roomy(s: seq<Byte>, curr: nat, end: nat)
    requires end + SLACK <= |s| && Structured(s, curr, end)
    decreases end - curr
  {
    curr == end ||
    (&& (s[curr] == PROCESSOR_LOCAL_APIC ==> s[curr + 1] >= LOCAL_APIC_SIZE)
     && (s[curr] == IO_APIC ==> s[curr + 1] >= 3)
     && Roomy(s, curr + s[curr + 1], end))
  }

  lemma {:induction false} RoomyIsSafe(p: Platform, s: seq<Byte>, curr: nat, end: nat)
    requires end + SLACK <= |s| && Structured(s, curr, end) && Roomy(s, curr, end)
    ensures Safe(p, s, curr, end)
    decreases end - curr
  {
    if curr < end {
      StructuredEnds(s, curr, end);
      RoomyIsSafe(p, s, curr + s[curr + 1], end);
    }
  }

  /** With room everywhere, the flag word of every local APIC structure is right. */
  lemma {:induction false} RoomyFlags(p: Platform, s: seq<Byte>, curr: nat, end: nat, b: nat, r: seq<Byte>)
    requires end + SLACK <= |s| && Structured(s, curr, end) && Roomy(s, curr, end)
    requires r == Walk(p, s, curr, end).table
    requires b in Boundaries(s, curr, end) && b + LOCAL_APIC_SIZE <= end && s[b] == PROCESSOR_LOCAL_APIC
    ensures |r| == |s| && FlagWritten(p, s, r, b)
  {
    RoomyIsSafe(p, s, curr, end);
    RoomAt(s, curr, end, b);
    FlagsSet(p, s, curr, end, b, r);
  }

  lemma {:induction false} RoomAt(s: seq<Byte>, curr: nat, end: nat, b: nat)
    requires end + SLACK <= |s| && Structured(s, curr, end) && Roomy(s, curr, end)
    requires b in Boundaries(s, curr, end) && b + 2 <= end
    ensures s[b] == PROCESSOR_LOCAL_APIC ==> s[b + 1] >= LOCAL_APIC_SIZE
    decreases end - curr
  {
    if b != curr {
      RoomAt(s, curr + s[curr + 1], end, b);
    }
  }

  /** What the structures add to the CPU map. */
  function AllRecorded(p: Platform, s: seq<Byte>, curr: nat, end: nat): seq<LocalApic>
    requires end + SLACK <= |s| && Structured(s, curr, end)
    decreases end - curr
  {
    if curr == end then [] else RecordedAt(p, s, curr) + AllRecorded(p, s, curr + s[curr + 1], end)
  }

  /** Structures that agree from curr on. */
  lemma {:induction false} RoomyAgree(p: Platform, s: seq<Byte>, t: seq<Byte>, curr: nat, end: nat)
    requires end + SLACK <= |s| && |t| == |s| && Structured(s, curr, end) && Roomy(s, curr, end)
    requires forall k :: curr <= k < end ==> t[k] == s[k]
    ensures Structured(t, curr, end) && Roomy(t, curr, end) && Boundaries(t, curr, end) == Boundaries(s, curr, end)
    ensures AllRecorded(p, t, curr, end) == AllRecorded(p, s, curr, end)
    decreases end - curr
  {
    if curr < end {
      StructuredEnds(s, curr, end);
      RoomyAgree(p, s, t, curr + s[curr + 1], end);
    }
  }

  /** Patching a structure with room stays inside it. */
  lemma {:induction false} RoomyPatch(p: Platform, s: seq<Byte>, curr: nat, end: nat, k: nat)
    requires end + SLACK <= |s| && Structured(s, curr, end) && Roomy(s, curr, end) && curr < end
    requires k < |s| && !(curr <= k < curr + s[curr + 1])
    ensures PatchAt(p, s, curr)[k] == s[k]
  {
    if s[curr] == IO_APIC {
      IoApicPatched(p, s, curr);
    } else if s[curr] == PROCESSOR_LOCAL_APIC {
      PatchAtFrame(p, s, curr, k);
    }
  }

  /** With room, nothing outside of the structures changes, and the CPU map gets what each
      structure adds on its own. */
  lemma {:induction false} RoomyFrame(p: Platform, s: seq<Byte>, curr: nat, end: nat)
    requires end + SLACK <= |s| && Structured(s, curr, end) && Roomy(s, curr, end)
    ensures Walk(p, s, curr, end).recorded == AllRecorded(p, s, curr, end)
    ensures KeptOutside(s, Walk(p, s, curr, end).table, curr, end)
    decreases end - curr
  {
    if curr < end {
      var t, next := PatchAt(p, s, curr), curr + s[curr + 1];
      RoomyTurn(p, s, t, curr, end);
      RoomyFrame(p, t, next, end);
      KeptOutsideBoth(s, t, Walk(p, t, next, end).table, curr, next, end);
    }
  }

  predicate KeptOutside(s: seq<Byte>, t: seq<Byte>, from: nat, to: nat) {
    |t| == |s| && forall k :: 0 <= k < |s| && !(from <= k < to) ==> t[k] == s[k]
  }

  lemma {:induction false} KeptOutsideBoth(s: seq<Byte>, t: seq<Byte>, u: seq<Byte>, from: nat, mid: nat, to: nat)
    requires from <= mid <= to && KeptOutside(s, t, from, mid) && KeptOutside(t, u, mid, to)
    ensures KeptOutside(s, u, from, to)
  {
  }

  /** One turn leaves the rest as it is, and the rest of the walk leaves what was patched. */
  lemma {:induction false} RoomyTurn(p: Platform, s: seq<Byte>, t: seq<Byte>, curr: nat, end: nat)
    requires end + SLACK <= |s| && Structured(s, curr, end) && Roomy(s, curr, end) && curr < end
    requires t == PatchAt(p, s, curr)
    ensures
      var next := curr + s[curr + 1];
      && next <= end && Structured(t, next, end) && Roomy(t, next, end)
      && AllRecorded(p, t, next, end) == AllRecorded(p, s, next, end)
      && Boundaries(t, next, end) == Boundaries(s, next, end)
      && Walk(p, s, curr, end).table == Walk(p, t, next, end).table
      && Walk(p, s, curr, end).recorded == RecordedAt(p, s, curr) + Walk(p, t, next, end).recorded
      && KeptOutside(s, t, curr, next)
  {
    var next := curr + s[curr + 1];
    StructuredEnds(s, curr, end);
    forall k | 0 <= k < |s| && !(curr <= k < next) ensures t[k] == s[k] {
      RoomyPatch(p, s, curr, end, k);
    }
    RoomyAgree(p, s, t, next, end);
    WalkStep(p, s, curr, end);
  }

  /** With room, each structure ends up as its own patch leaves it. */
  lemma {:induction false} RoomyResult(
      p: Platform, s: seq<Byte>, curr: nat, end: nat, b: nat, k: nat, r: seq<Byte>)
    requires end + SLACK <= |s| && Structured(s, curr, end) && Roomy(s, curr, end)
    requires InStructure(s, curr, end, b, k) && r == Walk(p, s, curr, end).table
    ensures |r| == |s| && r[k] == PatchAt(p, s, b)[k]
    decreases end - curr
  {
    if b == curr {
      RoomyHere(p, s, curr, end, r);
    } else {
      RoomyOn(p, s, PatchAt(p, s, curr), curr, end, b, k, r);
      RoomyResult(p, PatchAt(p, s, curr), curr + s[curr + 1], end, b, k, r);
    }
  }

  lemma {:induction false} RoomyOn(
      p: Platform, s: seq<Byte>, t: seq<Byte>, curr: nat, end: nat, b: nat, k: nat, r: seq<Byte>)
    requires end + SLACK <= |s| && Structured(s, curr, end) && Roomy(s, curr, end)
    requires curr < end && t == PatchAt(p, s, curr)
    requires InStructure(s, curr, end, b, k) && b != curr && r == Walk(p, s, curr, end).table
    ensures
      var next := curr + s[curr + 1];
      && next <= end && Structured(t, next, end) && Roomy(t, next, end) && InStructure(t, next, end, b, k)
      && r == Walk(p, t, next, end).table && PatchAt(p, t, b)[k] == PatchAt(p, s, b)[k]
  {
    RoomyTurn(p, s, t, curr, end);
    InLaterStructure(p, s, t, curr, end, b, k);
  }

  lemma {:induction false} RoomyHere(p: Platform, s: seq<Byte>, curr: nat, end: nat, r: seq<Byte>)
    requires end + SLACK <= |s| && Structured(s, curr, end) && Roomy(s, curr, end) && curr < end
    requires r == Walk(p, s, curr, end).table
    ensures |r| == |s| && forall k :: curr <= k < curr + s[curr + 1] && k < |s| ==> r[k] == PatchAt(p, s, curr)[k]
  {
    RoomyTurn(p, s, PatchAt(p, s, curr), curr, end);
    RoomyFrame(p, PatchAt(p, s, curr), curr + s[curr + 1], end);
  }

  lemma {:induction false} InLaterStructure(
      p: Platform, s: seq<Byte>, t: seq<Byte>, curr: nat, end: nat, b: nat, k: nat)
    requires end + SLACK <= |s| && |t| == |s| && Structured(s, curr, end)
    requires InStructure(s, curr, end, b, k) && b != curr
    requires
      var next := curr + s[curr + 1];
      Structured(t, next, end) && Boundaries(t, next, end) == Boundaries(s, next, end) && KeptOutside(s, t, curr, next)
    ensures InStructure(t, curr + s[curr + 1], end, b, k) && PatchAt(p, t, b)[k] == PatchAt(p, s, b)[k]
  {
    BoundaryInside(s, curr + s[curr + 1], end, b);
    SamePatch(p, s, t, b, k, curr + s[curr + 1]);
  }

  /** Byte k belongs to the structure that starts at b. */
  ghost predicate InStructure(s: seq<Byte>, curr: nat, end: nat, b: nat, k: nat)
    requires end + SLACK <= |s| && Structured(s, curr, end)
  {
    b in Boundaries(s, curr, end) && b + LOCAL_APIC_SIZE <= |s| && b <= k < b + s[b + 1] && k < |s|
  }

  lemma {:induction false} BoundaryInside(s: seq<Byte>, curr: nat, end: nat, b: nat)
    requires end + SLACK <= |s| && Structured(s, curr, end) && b in Boundaries(s, curr, end)
    ensures curr <= b < end && b + s[b + 1] <= end
    decreases end - curr
  {
    StructuredEnds(s, curr, end);
    if b != curr {
      BoundaryInside(s, curr + s[curr + 1], end, b);
    }
  }

  lemma {:induction false} SamePatch(p: Platform, s: seq<Byte>, t: seq<Byte>, b: nat, k: nat, from: nat)
    requires |t| == |s| && from <= b && b + LOCAL_APIC_SIZE <= |s| && b <= k < |s|
    requires forall j :: from <= j < |s| ==> t[j] == s[j]
    ensures PatchAt(p, t, b)[k] == PatchAt(p, s, b)[k]
  {
  }
}
