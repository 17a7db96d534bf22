/** The flash device library the block services call (Library/FlashDeviceLib.h): reads,
    writes, block erases and block locks over memory-mapped flash. Every call but a read may
    fail; a failed write or erase leaves its own range in an unknown state, a failed lock
    call leaves the locks as they are. */
module FlashDevice {
  import opened FvbSpec

  /** One call of the library, and whether it succeeded. */
  datatype Event =
    | LockSet(address: nat, length: nat, lock: bool, ok: bool)
    | Wrote(address: nat, count: nat, ok: bool)
    | Erased(address: nat, length: nat, ok: bool)

  predicate InRange(a: nat, address: nat, length: nat) {
    address <= a < address + length
  }

  function Addresses(address: nat, length: nat): set<nat> {
    set a: nat | address <= a < address + length && InRange(a, address, length)
  }

  /** The unlocked bytes after one call. */
  function Effect(unlocked: set<nat>, e: Event): set<nat> {
    match e
    case LockSet(address, length, lock, ok) =>
      if !ok then unlocked
      else if lock then unlocked - Addresses(address, length)
      else unlocked + Addresses(address, length)
    case _ => unlocked
  }

  /** The unlocked bytes after a sequence of calls. */
  function After(unlocked: set<nat>, events: seq<Event>): set<nat> {
    if events == [] then unlocked
    else Effect(After(unlocked, events[..|events| - 1]), events[|events| - 1])
  }

  lemma {:induction false} AfterNext(unlocked: set<nat>, events: seq<Event>, e: Event)
    ensures After(unlocked, events + [e]) == Effect(After(unlocked, events), e)
  {
    assert (events + [e])[..|events|] == events;
  }

  lemma {:induction false} AfterConcat(unlocked: set<nat>, p: seq<Event>, q: seq<Event>)
    ensures After(unlocked, p + q) == After(After(unlocked, p), q)
    decreases |q|
  {
    if q == [] {
      assert p + q == p;
    } else {
      var init, last := q[..|q| - 1], q[|q| - 1];
      assert p + q == (p + init) + [last] && q == init + [last];
      AfterNext(unlocked, p + init, last);
      AfterConcat(unlocked, p, init);
    }
  }

  class Device {
    const memory: array<Byte>
    var unlocked: set<nat>
    ghost var events: seq<Event>

    constructor (memory: array<Byte>)
      ensures this.memory == memory && unlocked == {} && events == []
    {
      this.memory := memory;
      unlocked, events := {}, [];
    }

    method Read(address: nat, count: nat, buffer: array<Byte>)
      requires address + count <= memory.Length && count <= buffer.Length && buffer != memory
      modifies buffer
      ensures buffer[..] == memory[address..address + count] + old(buffer[count..])
    {
      forall k | 0 <= k < count {
        buffer[k] := memory[address + k];
      }
    }

    method BlockLock(address: nat, length: nat, lock: bool) returns (status: Status)
      modifies `unlocked, `events
      ensures status == Success || status == DeviceError
      ensures events == old(events) + [LockSet(address, length, lock, status == Success)]
      ensures unlocked == Effect(old(unlocked), LockSet(address, length, lock, status == Success))
    {
      var fails: bool :| true;
      status := if fails then DeviceError else Success;
      if status == Success {
        if lock {
          unlocked := unlocked - Addresses(address, length);
        } else {
          unlocked := unlocked + Addresses(address, length);
        }
      }
      events := events + [LockSet(address, length, lock, status == Success)];
    }

    method Write(address: nat, count: nat, buffer: seq<Byte>) returns (status: Status)
      requires address + count <= memory.Length && count <= |buffer|
      modifies memory, `events
      ensures status == Success || status == DeviceError
      ensures status == Success ==> memory[..] == Spliced(old(memory[..]), address, buffer[..count])
      ensures SameOutside(old(memory[..]), memory[..], address, address + count)
      ensures events == old(events) + [Wrote(address, count, status == Success)]
    {
      var programmed: nat :| true;
      if programmed > count {
        programmed := count;
      }
      forall k | 0 <= k < programmed {
        memory[address + k] := buffer[k];
      }
      status := if programmed == count then Success else DeviceError;
      events := events + [Wrote(address, count, status == Success)];
    }

    method BlockErase(address: nat, length: nat) returns (status: Status)
      requires address + length <= memory.Length
      modifies memory, `events
      ensures status == Success || status == DeviceError
      ensures status == Success ==> forall a :: address <= a < address + length ==> memory[a] == ERASED
      ensures SameOutside(old(memory[..]), memory[..], address, address + length)
      ensures events == old(events) + [Erased(address, length, status == Success)]
    {
      var erased: nat :| true;
      if erased > length {
        erased := length;
      }
      forall k | 0 <= k < erased {
        memory[address + k] := ERASED;
      }
      status := if erased == length then Success else DeviceError;
      events := events + [Erased(address, length, status == Success)];
    }
  }
}
