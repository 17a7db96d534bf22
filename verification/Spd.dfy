/** PlatformInitPei/Dimm.c: ReadSpd, which reads a range of the serial presence detect data
    of a memory module over the SMBus, some bytes first and the rest in words. */
module Spd {
  import opened Bytes

  /** An error of the bus is passed on as it is. */
  datatype Status = Success | InvalidParameter | BusError(code: nat)

  datatype Request = Request(slave: nat, command: nat, length: nat)

  datatype Reply = Reply(request: Request, ok: bool)

  /** The bus with the modules' data. Any request may fail, and then what it leaves in its
      part of the buffer is arbitrary. */
  class SmBus {
    const data: (nat, nat) -> Byte
    ghost var replies: seq<Reply>

    constructor (data: (nat, nat) -> Byte)
      ensures this.data == data && replies == []
    {
      this.data := data;
      replies := [];
    }

    method Execute(r: Request, buffer: array<Byte>, at: nat) returns (status: Status)
      requires at + r.length <= buffer.Length
      modifies this`replies, buffer
      ensures status.Success? || status.BusError?
      ensures replies == old(replies) + [Reply(r, status.Success?)]
      ensures forall k :: 0 <= k < buffer.Length && !(at <= k < at + r.length) ==> buffer[k] == old(buffer[k])
      ensures status.Success? ==>
        forall k :: at <= k < at + r.length ==> buffer[k] == data(r.slave, r.command + (k - at))
    {
      var fails: bool, code: nat :| true;
      replies := replies + [Reply(r, !fails)];
      if fails {
        for k := 0 to r.length
          invariant forall j :: 0 <= j < buffer.Length && !(at <= j < at + r.length) ==> buffer[j] == old(buffer[j])
          invariant replies == old(replies) + [Reply(r, false)]
        {
          var garbage: Byte :| true;
          buffer[at + k] := garbage;
        }
        return BusError(code);
      }
      forall k | at <= k < at + r.length {
        buffer[k] := data(r.slave, r.command + (k - at));
      }
      status := Success;
    }
  }

  // ----- the requests -----

  /** The module's address on the bus. */
  function SlaveOf(dimm: Byte): (slave: nat)
    requires dimm < 4
    ensures dimm == 0 ==> slave == 0x50
    ensures dimm == 1 ==> slave == 0x51
    ensures dimm == 2 ==> slave == 0x52
    ensures dimm == 3 ==> slave == 0x53
  {
    0x50 + dimm
  }

  /** The requests left when the bytes below `from` are there. */
  function Plan(slave: nat, offset: nat, from: nat, count: nat): (rs: seq<Request>)
    decreases count - from
  {
    if from >= count then []
    else if from < count % 4 then [Request(slave, offset + from, 1)] + Plan(slave, offset, from + 1, count)
    else [Request(slave, offset + from, 2)] + Plan(slave, offset, from + 2, count)
  }

  /** The bytes a list of requests asks for, in order. */
  function Asked(rs: seq<Request>): seq<nat> {
    if rs == [] then [] else Range(rs[0].command, rs[0].length) + Asked(rs[1..])
  }

  function Range(from: nat, n: nat): (s: seq<nat>)
    ensures |s| == n && forall i :: 0 <= i < n ==> s[i] == from + i
  {
    seq(n, i => from + i)
  }

  /** The plan asks for every byte of the range exactly once, in order. */
  lemma {:induction false} PlanAsksOnce(slave: nat, offset: nat, from: nat, count: nat)
    requires from <= count && (from <= count % 4 || (count - from) % 2 == 0)
    ensures Asked(Plan(slave, offset, from, count)) == Range(offset + from, count - from)
    decreases count - from
  {
    if from < count {
      var step := if from < count % 4 then 1 else 2;
      var plan, rest := Plan(slave, offset, from, count), Plan(slave, offset, from + step, count);
      if from >= count % 4 {
        EvenRest(from, count);
      }
      PlanAsksOnce(slave, offset, from + step, count);
      assert plan == [Request(slave, offset + from, step)] + rest && plan[1..] == rest;
      assert Range(offset + from, step) + Range(offset + from + step, count - from - step)
          == Range(offset + from, count - from);
    }
  }

  /** The bytes that make up no block of four are asked for one by one, the rest in words. */
  lemma {:induction false} PlanLengths(slave: nat, offset: nat, from: nat, count: nat, i: nat)
    requires i < |Plan(slave, offset, from, count)|
    ensures
      var r := Plan(slave, offset, from, count)[i];
      && r.slave == slave && offset + from <= r.command
      && r.length == if r.command < offset + count % 4 then 1 else 2
    decreases count - from
  {
    if i > 0 {
      PlanLengths(slave, offset, from + (if from < count % 4 then 1 else 2), count, i - 1);
    }
  }

  lemma {:induction false} EvenRest(from: nat, count: nat)
    requires count % 4 <= from < count && (from == count % 4 || (count - from) % 2 == 0)
    ensures from + 2 <= count && (count - (from + 2)) % 2 == 0
  {
    assert count - count % 4 == 4 * (count / 4);
  }

  function Answered(rs: seq<Request>): (replies: seq<Reply>)
    ensures |replies| == |rs|
  {
    seq(|rs|, i requires 0 <= i < |rs| => Reply(rs[i], true))
  }

  /** The replies to a plan: all of it succeeded, or the first failure ended it. */
  ghost predicate Ran(plan: seq<Request>, replies: seq<Reply>, ok: bool) {
    if ok then replies == Answered(plan)
    else exists n: nat :: FailedAt(plan, replies, n)
  }

  ghost predicate FailedAt(plan: seq<Request>, replies: seq<Reply>, n: nat) {
    n < |plan| && replies == Answered(plan[..n]) + [Reply(plan[n], false)]
  }

  // ----- ReadSpd -----

  /** All requests so far succeeded and filled the buffer; the rest of the plan is ahead. */
  ghost predicate Going(
      bus: SmBus, was: seq<Reply>, buffer: seq<Byte>, before: seq<Byte>, done: seq<Request>,
      slave: nat, offset: nat, index: nat, count: nat)
    reads bus
  {
    && |buffer| == |before| && count <= |buffer|
    && bus.replies == was + Answered(done)
    && done + Plan(slave, offset, index, count) == Plan(slave, offset, 0, count)
    && (forall k: nat :: k < index && k < |buffer| ==> buffer[k] == bus.data(slave, offset + k))
    && (forall k :: count <= k < |buffer| ==> buffer[k] == before[k])
  }

  /** A request failed, and its error is what is left to return. */
  ghost predicate Failed(
      bus: SmBus, was: seq<Reply>, buffer: seq<Byte>, before: seq<Byte>,
      slave: nat, offset: nat, count: nat, status: Status)
    reads bus
  {
    && |buffer| == |before| && status.BusError?
    && (exists replies :: bus.replies == was + replies && Ran(Plan(slave, offset, 0, count), replies, false))
    && (forall k :: count <= k < |buffer| ==> buffer[k] == before[k])
  }

  /** One request at the index; the plan goes on behind it, or this failure ended it. */
  method Fetch(
      bus: SmBus, slave: nat, offset: nat, index: nat, length: nat, count: nat, buffer: array<Byte>,
      ghost was: seq<Reply>, ghost before: seq<Byte>, ghost done: seq<Request>)
    returns (status: Status, ghost done': seq<Request>)
    requires Going(bus, was, buffer[..], before, done, slave, offset, index, count)
    requires index + length <= count && length == (if index < count % 4 then 1 else 2)
    modifies bus`replies, buffer
    ensures status.Success? || Failed(bus, was, buffer[..], before, slave, offset, count, status)
    ensures status.Success? ==> Going(bus, was, buffer[..], before, done', slave, offset, index + length, count)
  {
    var r := Request(slave, offset + index, length);
    ghost var rest := Plan(slave, offset, index, count);
    assert rest[0] == r && rest[1..] == Plan(slave, offset, index + length, count);
    ghost var bytes := buffer[..];
    status := bus.Execute(r, buffer, index);
    done' := done + [r];
    ghost var plan := Plan(slave, offset, 0, count);
    assert plan == done' + rest[1..];
    if status.Success? {
      assert Answered(done') == Answered(done) + [Reply(r, true)];
      forall k: nat | k < index + length && k < buffer.Length
        ensures buffer[k] == bus.data(slave, offset + k)
      {
        if k < index {
          assert buffer[k] == bytes[k] == bus.data(slave, offset + k);
        }
      }
    } else {
      assert plan[..|done|] == done && plan[|done|] == r;
      ghost var replies := Answered(done) + [Reply(r, false)];
      assert FailedAt(plan, replies, |done|);
      assert bus.replies == was + replies;
    }
  }

  /** The bytes that do not make up a block of four. */
  method FetchBytes(
      bus: SmBus, slave: nat, offset: nat, count: nat, buffer: array<Byte>,
      ghost was: seq<Reply>, ghost before: seq<Byte>)
    returns (status: Status, ghost done: seq<Request>)
    requires Going(bus, was, buffer[..], before, [], slave, offset, 0, count)
    modifies bus`replies, buffer
    ensures status.Success? || Failed(bus, was, buffer[..], before, slave, offset, count, status)
    ensures status.Success? ==> Going(bus, was, buffer[..], before, done, slave, offset, count % 4, count)
  {
    var index := 0;
    done := [];
    while index < count % 4
      invariant index <= count % 4
      invariant Going(bus, was, buffer[..], before, done, slave, offset, index, count)
    {
      status, done := Fetch(bus, slave, offset, index, 1, count, buffer, was, before, done);
      if status != Success {
        return;
      }
      index := index + 1;
    }
    status := Success;
  }

  /** All the remaining bytes, two words at a time. */
  method FetchWords(
      bus: SmBus, slave: nat, offset: nat, count: nat, buffer: array<Byte>,
      ghost was: seq<Reply>, ghost before: seq<Byte>, ghost first: seq<Request>)
    returns (status: Status, ghost done: seq<Request>)
    requires Going(bus, was, buffer[..], before, first, slave, offset, count % 4, count)
    modifies bus`replies, buffer
    ensures status.Success? || Failed(bus, was, buffer[..], before, slave, offset, count, status)
    ensures status.Success? ==> Going(bus, was, buffer[..], before, done, slave, offset, count, count)
  {
    var index := count % 4;
    done := first;
    while index < count
      invariant count % 4 <= index <= count && (count - index) % 4 == 0
      invariant Going(bus, was, buffer[..], before, done, slave, offset, index, count)
    {
      status, done := Fetch(bus, slave, offset, index, 2, count, buffer, was, before, done);
      if status != Success {
        return;
      }
      index := index + 2;
      status, done := Fetch(bus, slave, offset, index, 2, count, buffer, was, before, done);
      if status != Success {
        return;
      }
      index := index + 2;
    }
    status := Success;
  }

  /** Success fills the buffer with the range and nothing else; the requests are the plan's,
      up to the first one that fails, whose error is returned. */
  method ReadSpd(bus: SmBus, dimm: Byte, offset: Byte, count: nat, buffer: array<Byte>) returns (status: Status)
    requires count <= buffer.Length
    modifies bus`replies, buffer
    ensures status == InvalidParameter <==> dimm >= 4
    ensures dimm >= 4 ==> buffer[..] == old(buffer[..]) && bus.replies == old(bus.replies)
    ensures dimm < 4 ==>
      exists replies ::
        && bus.replies == old(bus.replies) + replies
        && Ran(Plan(SlaveOf(dimm), offset, 0, count), replies, status.Success?)
    ensures status.Success? ==> forall k: nat :: k < count ==> buffer[k] == bus.data(0x50 + dimm, offset + k)
    ensures forall k :: count <= k < buffer.Length ==> buffer[k] == old(buffer[k])
  {
    var slave: nat;
    match dimm {
      case 0 => slave := 0x50;
      case 1 => slave := 0x51;
      case 2 => slave := 0x52;
      case 3 => slave := 0x53;
      case _ => return InvalidParameter;
    }
    ghost var was, before := bus.replies, buffer[..];
    GoingAtStart(bus, before, slave, offset, count);
    ghost var done;
    status, done := FetchBytes(bus, slave, offset, count, buffer, was, before);
    if status == Success {
      status, done := FetchWords(bus, slave, offset, count, buffer, was, before, done);
    }
    if status == Success {
      GoingAtEnd(bus, was, buffer[..], before, done, slave, offset, count);
    }
  }

  lemma {:induction false} GoingAtStart(bus: SmBus, before: seq<Byte>, slave: nat, offset: nat, count: nat)
    requires count <= |before|
    ensures Going(bus, bus.replies, before, before, [], slave, offset, 0, count)
  {
    assert bus.replies == bus.replies + Answered([]);
    assert [] + Plan(slave, offset, 0, count) == Plan(slave, offset, 0, count);
  }

  lemma {:induction false} GoingAtEnd(
      bus: SmBus, was: seq<Reply>, buffer: seq<Byte>, before: seq<Byte>, done: seq<Request>,
      slave: nat, offset: nat, count: nat)
    requires Going(bus, was, buffer, before, done, slave, offset, count, count)
    ensures bus.replies == was + Answered(done) && Ran(Plan(slave, offset, 0, count), Answered(done), true)
  {
    assert done + [] == done;
  }
}
