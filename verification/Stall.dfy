/** PlatformInitPei/Stall.c and PlatformPei/Stall.c: waiting on the 24-bit ACPI power
    management timer (ACPI 5.0 section 4.8.3.3). */
module Stall {

  /** V_PCH_ACPI_PM1_TMR_MAX_VAL: the timer overflows after 24 bits. */
  const WRAP: nat := 0x100_0000

  /** The timer as the firmware sees it: an unbounded tick count of which a reading
      shows the low 24 bits. Time passes between two readings, but less than one
      turn of the timer. */
  class PmTimer {
    ghost var now: nat
    ghost var polls: seq<nat>
    var counter: nat

    ghost predicate Valid()
      reads this
    {
      && counter == now % WRAP
      && polls != [] && polls[|polls| - 1] == now
      && forall k :: 0 < k < |polls| ==> polls[k - 1] < polls[k] < polls[k - 1] + WRAP
    }

    constructor (start: nat)
      ensures Valid() && polls == [now] && now == start
    {
      now, polls, counter := start, [start], start % WRAP;
    }

    /** A reading of the register, some ticks after the previous one. */
    method Poll() returns (reading: nat)
      requires Valid()
      modifies this
      ensures Valid() && polls == old(polls) + [now] && old(now) < now < old(now) + WRAP
      ensures reading == now % WRAP
    {
      assert 0 < 1 < WRAP;
      var passed: nat :| 0 < passed < WRAP;
      AddWrapped(now, passed);
      now := now + passed;
      polls := polls + [now];
      counter := (counter + passed) % WRAP;
      reading := counter;
    }
  }

  /** Ticks that have to pass, in UINTN arithmetic of the given modulus: the product
      is the only step that can exceed it. */
  function WaitTicks(microseconds: nat, word: nat): nat
    requires word > 0
  {
    (microseconds * 358) % word / 100 + 1
  }

  /** The wait is long enough for the requested time exactly when the product fits. */
  lemma {:induction false} LongEnough(microseconds: nat, word: nat)
    requires word > 100
    ensures 100 * WaitTicks(microseconds, word) > 358 * microseconds <==> 358 * microseconds < word
  {
    var product := microseconds * 358;
    if product >= word {
      WrappedProduct(product, word);
      Hundreds(product % word);
    } else {
      SmallRemainder(product, word);
      Hundreds(product);
    }
  }

  lemma {:induction false} WrappedProduct(product: nat, word: nat)
    requires product >= word > 0
    ensures product % word <= product - word
  {
    var q := product / word;
    assert product == q * word + product % word;
    assert q >= 1;
    assert q * word >= word;
  }

  lemma {:induction false} SmallRemainder(product: nat, word: nat)
    requires product < word
    ensures product % word == product
  {
  }

  lemma {:induction false} Hundreds(x: nat)
    ensures x < 100 * (x / 100 + 1) <= x + 100
  {
  }

  /** A reading advances like the tick count. */
  lemma {:induction false} AddWrapped(x: nat, y: nat)
    ensures (x % WRAP + y) % WRAP == (x + y) % WRAP
  {
  }

  /** Given that it fits, the wait is the requested time plus less than two ticks. */
  lemma {:induction false} NotTooLong(microseconds: nat, word: nat)
    requires 358 * microseconds < word
    ensures 100 * WaitTicks(microseconds, word) <= 358 * microseconds + 100
  {
    SmallRemainder(microseconds * 358, word);
    Hundreds(microseconds * 358);
  }

  ghost predicate AllEarly(polls: seq<nat>, from: nat, to: nat, target: nat)
    requires to <= |polls|
  {
    forall k :: from <= k < to ==> polls[k] < target
  }

  /** The last poll is the first one at or after the target. */
  ghost predicate StopsAtFirst(polls: seq<nat>, from: nat, target: nat) {
    && 0 < from < |polls|
    && polls[|polls| - 1] >= target
    && AllEarly(polls, from, |polls| - 1, target)
  }

  lemma {:induction false} StopsJoin(p: seq<nat>, q: seq<nat>, r: seq<nat>, target: nat)
    requires p <= q <= r && 0 < |p| < |r|
    requires AllEarly(q, |p|, |q| - 1, target) && AllEarly(r, |q|, |r| - 1, target)
    requires |q| < |r| ==> q[|q| - 1] < target
    requires r[|r| - 1] >= target
    ensures StopsAtFirst(r, |p|, target)
  {
    forall k | |p| <= k < |r| - 1
      ensures r[k] < target
    {
      if k < |q| {
        assert r[k] == q[k];
      }
    }
  }

  /** The first loop: waits for `counts` turns of the timer to begin. `turn` is the
      start of the turn of the last reading. */
  method WaitTurns(timer: PmTimer, turns: nat, tick: nat, ghost turn: nat, ghost target: nat)
    returns (currentTick: nat)
    requires timer.Valid() && tick == timer.now % WRAP && turn + tick == timer.now
    requires turn + turns * WRAP <= target && (turns > 0 ==> timer.now < target)
    modifies timer
    ensures timer.Valid() && old(timer.polls) <= timer.polls
    ensures currentTick == timer.now % WRAP && turn + turns * WRAP + currentTick == timer.now
    ensures turns == 0 ==> timer.polls == old(timer.polls)
    ensures turns > 0 ==> |timer.polls| > |old(timer.polls)|
    ensures AllEarly(timer.polls, |old(timer.polls)|, |timer.polls| - 1, target)
  {
    var counts: nat, originalTick := turns, tick;
    currentTick := tick;
    ghost var t := turn;
    ghost var first := |timer.polls|;
    while counts != 0
      invariant timer.Valid() && old(timer.polls) <= timer.polls && counts <= turns
      invariant originalTick == currentTick == timer.now % WRAP && t + currentTick == timer.now
      invariant t + counts * WRAP == turn + turns * WRAP
      invariant |timer.polls| == first ==> timer.polls == old(timer.polls) && counts == turns
      invariant turns == 0 ==> timer.polls == old(timer.polls)
      invariant counts != 0 ==> timer.now < target
      invariant AllEarly(timer.polls, first, |timer.polls| - 1, target)
      decreases counts, WRAP - originalTick
    {
      ghost var before := timer.now;
      currentTick := timer.Poll();
      TurnOf(t, before, timer.now);
      if currentTick <= originalTick {
        counts := counts - 1;
        t := t + WRAP;
      }
      originalTick := currentTick;
    }
  }

  /** The second loop: waits for the remaining ticks of the last turn. */
  method WaitRemainder(timer: PmTimer, remainingTick: nat, tick: nat, ghost turn: nat, ghost target: nat)
    requires timer.Valid() && tick == timer.now % WRAP && turn + tick == timer.now
    requires turn + remainingTick == target && remainingTick < WRAP
    modifies timer
    ensures timer.Valid() && old(timer.polls) <= timer.polls && timer.now >= target
    ensures old(timer.now) >= target ==> timer.polls == old(timer.polls)
    ensures old(timer.now) < target ==> |timer.polls| > |old(timer.polls)|
    ensures AllEarly(timer.polls, |old(timer.polls)|, |timer.polls| - 1, target)
  {
    var originalTick, currentTick := tick, tick;
    ghost var first := |timer.polls|;
    while remainingTick > currentTick && originalTick <= currentTick
      invariant timer.Valid() && old(timer.polls) <= timer.polls
      invariant currentTick == timer.now % WRAP
      invariant if originalTick <= currentTick then turn + currentTick == timer.now else timer.now >= turn + WRAP
      invariant
        |timer.polls| == first ==>
          timer.polls == old(timer.polls) && timer.now == old(timer.now) && originalTick == currentTick
      invariant |timer.polls| > first ==> old(timer.now) < target
      invariant AllEarly(timer.polls, first, |timer.polls| - 1, target)
      decreases if originalTick <= currentTick then WRAP - currentTick else 0
    {
      ghost var before := timer.now;
      originalTick := currentTick;
      currentTick := timer.Poll();
      TurnOf(turn, before, timer.now);
    }
  }

  /** The turns of the timer and the ticks beyond them up to the target, counted from
      the start of the turn of the first reading. */
  method TurnsAndRest(microseconds: nat, word: nat, tick: nat) returns (counts: nat, remainingTick: nat)
    requires (word == 0x1_0000_0000 || word == 0x1_0000_0000_0000_0000) && tick < WRAP
    ensures counts * WRAP + remainingTick == tick + WaitTicks(microseconds, word) && remainingTick < WRAP
  {
    TicksFit(microseconds, word, tick);
    var ticks := ((microseconds * 358) % word / 100 + tick + 1) % word;
    counts := ticks / WRAP;
    remainingTick := ticks % WRAP;
  }

  /** Both loops, from a reading on until `wait` ticks after it. */
  method WaitTurnsAndRest(timer: PmTimer, counts: nat, remainingTick: nat, tick: nat, ghost wait: nat)
    requires timer.Valid() && tick == timer.now % WRAP && wait > 0
    requires counts * WRAP + remainingTick == tick + wait && remainingTick < WRAP
    modifies timer
    ensures timer.Valid() && old(timer.polls) <= timer.polls
    ensures StopsAtFirst(timer.polls, |old(timer.polls)|, old(timer.now) + wait)
  {
    ghost var turn, target := timer.now - tick, timer.now + wait;
    ghost var first := timer.polls;
    var currentTick := WaitTurns(timer, counts, tick, turn, target);
    ghost var second := timer.polls;
    WaitRemainder(timer, remainingTick, currentTick, turn + counts * WRAP, target);
    StopsJoin(first, second, timer.polls, target);
  }

  /** Waits at least the given number of microseconds. The first reading is polls[from - 1],
      the return follows the last one. */
  method Stall(timer: PmTimer, microseconds: nat, word: nat) returns (ghost from: nat)
    requires timer.Valid() && (word == 0x1_0000_0000 || word == 0x1_0000_0000_0000_0000) && microseconds < word
    modifies timer
    ensures timer.Valid()
    ensures microseconds == 0 ==> timer.polls == old(timer.polls)
    ensures microseconds > 0 ==>
              && old(timer.polls) < timer.polls && from == |old(timer.polls)| + 1
              && StopsAtFirst(timer.polls, from, timer.polls[from - 1] + WaitTicks(microseconds, word))
    ensures microseconds > 0 ==>
              timer.polls[|timer.polls| - 2] < timer.polls[from - 1] + WaitTicks(microseconds, word)
    ensures microseconds > 0 && 358 * microseconds < word ==>
              100 * (timer.now - timer.polls[from - 1]) > 358 * microseconds
  {
    from := 0;
    if microseconds == 0 {
      return;
    }
    var originalTick := timer.Poll();
    from := |timer.polls|;
    ghost var wait := WaitTicks(microseconds, word);
    var counts, remainingTick := TurnsAndRest(microseconds, word, originalTick);
    WaitTurnsAndRest(timer, counts, remainingTick, originalTick, wait);
    LongEnough(microseconds, word);
  }

  /** The sum with the reading cannot exceed the word, only the product can. */
  lemma {:induction false} TicksFit(microseconds: nat, word: nat, tick: nat)
    requires (word == 0x1_0000_0000 || word == 0x1_0000_0000_0000_0000) && tick < WRAP
    ensures ((microseconds * 358) % word / 100 + tick + 1) % word == (microseconds * 358) % word / 100 + tick + 1
  {
    assert (microseconds * 358) % word < word;
  }

  /** Less than a turn after a moment in the turn that starts at `turn`, the reading
      went down exactly when the next turn has begun. */
  lemma {:induction false} TurnOf(turn: nat, before: nat, now: nat)
    requires turn + before % WRAP == before < now < before + WRAP
    ensures now % WRAP <= before % WRAP <==> now >= turn + WRAP
    ensures now % WRAP == if now >= turn + WRAP then now - turn - WRAP else now - turn
  {
    var q := before / WRAP;
    assert turn == WRAP * q;
  }
}
