/** PlatformDxe/Platform.c: EfiOrMem, which ORs one range of memory into another one. The
    ranges may overlap. */
module OrMem {

  /** Every destination byte becomes the OR of itself and the source byte as they were
      before the call. */
  function Ored(m: seq<bv8>, destination: nat, source: nat, length: nat): (r: seq<bv8>)
    requires destination + length <= |m| && source + length <= |m|
    ensures |r| == |m|
  {
    seq(|m|, k requires 0 <= k < |m| =>
      if destination <= k < destination + length then m[k] | m[k - destination + source] else m[k])
  }

  method EfiOrMem(memory: array<bv8>, destination: nat, source: nat, length: nat)
    requires destination + length <= memory.Length && source + length <= memory.Length
    modifies memory
    ensures memory[..] == Ored(old(memory[..]), destination, source, length)
    ensures
      forall k :: destination <= k < destination + length ==>
        memory[k] == old(memory[k]) | old(memory[k - destination + source])
    ensures
      forall k :: 0 <= k < memory.Length && !(destination <= k < destination + length) ==> memory[k] == old(memory[k])
  {
    ghost var was := memory[..];
    var left: nat := length;
    if source < destination {
      var d, s := destination + length, source + length;
      while left > 0
        invariant left <= length && d == destination + left && s == source + left
        invariant forall k :: d <= k < destination + length ==> memory[k] == was[k] | was[k - destination + source]
        invariant forall k :: 0 <= k < memory.Length && !(d <= k < destination + length) ==> memory[k] == was[k]
      {
        left, d, s := left - 1, d - 1, s - 1;
        memory[d] := memory[d] | memory[s];
      }
    } else {
      var d, s := destination, source;
      while left > 0
        invariant left <= length && d == destination + (length - left) && s == source + (length - left)
        invariant forall k :: destination <= k < d ==> memory[k] == was[k] | was[k - destination + source]
        invariant forall k :: 0 <= k < memory.Length && !(destination <= k < d) ==> memory[k] == was[k]
      {
        memory[d] := memory[d] | memory[s];
        left, d, s := left - 1, d + 1, s + 1;
      }
    }
  }

  /** What a loop that always counts upwards leaves. */
  function Upwards(m: seq<bv8>, destination: nat, source: nat, length: nat): (r: seq<bv8>)
    requires destination + length <= |m| && source + length <= |m|
    ensures |r| == |m|
    decreases length
  {
    if length == 0 then m
    else Upwards(m[destination := m[destination] | m[source]], destination + 1, source + 1, length - 1)
  }

  /** Counting upwards is right if the source is not below the destination or the ranges
      are apart. */
  lemma {:induction false} UpwardsIsRight(m: seq<bv8>, destination: nat, source: nat, length: nat)
    requires destination + length <= |m| && source + length <= |m|
    requires destination <= source || source + length <= destination
    ensures Upwards(m, destination, source, length) == Ored(m, destination, source, length)
    decreases length
  {
    if length > 0 {
      var next := m[destination := m[destination] | m[source]];
      UpwardsIsRight(next, destination + 1, source + 1, length - 1);
      forall k | 0 <= k < |m|
        ensures Ored(next, destination + 1, source + 1, length - 1)[k] == Ored(m, destination, source, length)[k]
      {
        assert k != destination ==> next[k] == m[k];
      }
    }
  }

  predicate LowBit(b: bv8) {
    b & 1 == 1
  }

  lemma {:induction false} LowBitOr(a: bv8, b: bv8)
    ensures LowBit(a | b) <==> LowBit(a) || LowBit(b)
  {
  }

  /** Counting upwards never clears a bit, and carries the bits a source byte had at first. */
  lemma {:induction false} UpwardsCarries(m: seq<bv8>, destination: nat, source: nat, length: nat, i: nat)
    requires destination + length <= |m| && source + length <= |m|
    ensures i < |m| && LowBit(m[i]) ==> LowBit(Upwards(m, destination, source, length)[i])
    ensures i < length && LowBit(m[source + i]) ==> LowBit(Upwards(m, destination, source, length)[destination + i])
    decreases length
  {
    if length > 0 {
      var next := m[destination := m[destination] | m[source]];
      LowBitOr(m[destination], m[source]);
      UpwardsCarries(next, destination + 1, source + 1, length - 1, i);
      UpwardsCarries(next, destination + 1, source + 1, length - 1, destination);
      if i > 0 {
        UpwardsCarries(next, destination + 1, source + 1, length - 1, i - 1);
      }
    }
  }

  /** One set bit at the source of a range just above it spreads. */
  lemma {:induction false} UpwardsSpreads(m: seq<bv8>, destination: nat, source: nat, length: nat)
    requires source < destination < source + length && destination + length <= |m|
    requires m[source] == 1 && forall k :: 0 <= k < |m| && k != source ==> m[k] == 0
    ensures Upwards(m, destination, source, length) != Ored(m, destination, source, length)
  {
    var d := destination - source;
    var next := m[destination := m[destination] | m[source]];
    LowBitOr(m[destination], m[source]);
    UpwardsCarries(next, destination + 1, source + 1, length - 1, d - 1);
    assert LowBit(Upwards(m, destination, source, length)[destination + d]);
    assert Ored(m, destination, source, length)[destination + d] == m[destination + d] | m[destination] == 0;
  }

  /** Why the direction depends on the order of the ranges: counting upwards is right for all
      contents of a memory if and only if the source is not just below the destination. */
  lemma {:induction false} UpwardsIff(size: nat, destination: nat, source: nat, length: nat)
    requires destination + length <= size && source + length <= size
    ensures
      (forall m: seq<bv8> :: |m| == size ==>
        Upwards(m, destination, source, length) == Ored(m, destination, source, length))
      <==> destination <= source || source + length <= destination
  {
    if destination <= source || source + length <= destination {
      forall m: seq<bv8> | |m| == size
        ensures Upwards(m, destination, source, length) == Ored(m, destination, source, length)
      {
        UpwardsIsRight(m, destination, source, length);
      }
    } else {
      var m: seq<bv8> := seq(size, k => if k == source then 1 else 0);
      UpwardsSpreads(m, destination, source, length);
    }
  }
}
