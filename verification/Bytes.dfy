/** Bytes and little-endian fields inside byte sequences. */
module Bytes {
  import Division

  type Byte = x: nat | x < 256

  /** The first number that does not fit in n bytes. */
  function Limit(n: nat): (r: nat)
    ensures r > 0
  {
    if n == 0 then 1 else 256 * Limit(n - 1)
  }

  /** The low n bytes of v, least significant first. */
  function Le(n: nat, v: nat): (s: seq<Byte>)
    ensures |s| == n
  {
    if n == 0 then [] else [v % 256] + Le(n - 1, v / 256)
  }

  function FromLe(s: seq<Byte>): (v: nat)
    ensures v < Limit(|s|)
  {
    if s == [] then 0 else s[0] + 256 * FromLe(s[1..])
  }

  /** Storing a number that fits and loading it again gives the number. */
  lemma {:induction false} LoadStored(n: nat, v: nat)
    requires v < Limit(n)
    ensures FromLe(Le(n, v)) == v
  {
    if n > 0 {
      LoadStored(n - 1, v / 256);
      assert Le(n, v)[1..] == Le(n - 1, v / 256);
    }
  }

  /** Only the low bytes of a number are stored. */
  lemma {:induction false} LoadLow(n: nat, v: nat)
    ensures FromLe(Le(n, v)) == v % Limit(n)
  {
    if n > 0 {
      LoadLow(n - 1, v / 256);
      assert Le(n, v)[1..] == Le(n - 1, v / 256);
      LowAndHigh(v, Limit(n - 1));
    }
  }

  lemma {:induction false} LowAndHigh(v: nat, m: nat)
    requires m > 0
    ensures v % 256 + 256 * (v / 256 % m) == v % (256 * m)
  {
    var q, r := v / 256 / m, v / 256 % m;
    assert v / 256 == q * m + r;
    var low := v % 256 + 256 * r;
    assert v == q * (256 * m) + low by {
      assert 256 * (q * m) == q * (256 * m);
    }
    Division.DivModUnique(v, 256 * m, q, low);
  }

  /** Loading bytes and storing them again gives the bytes. */
  lemma {:induction false} StoreLoaded(s: seq<Byte>)
    ensures Le(|s|, FromLe(s)) == s
  {
    if s != [] {
      StoreLoaded(s[1..]);
      assert FromLe(s) % 256 == s[0] && FromLe(s) / 256 == FromLe(s[1..]);
    }
  }

  lemma {:induction false} Limits()
    ensures Limit(1) == 0x100 && Limit(2) == 0x1_0000 && Limit(3) == 0x100_0000
    ensures Limit(4) == 0x1_0000_0000 && Limit(8) == 0x1_0000_0000_0000_0000
  {
  }

  /** The n-byte field at offset p. */
  function Field(s: seq<Byte>, p: nat, n: nat): (v: nat)
    requires p + n <= |s|
    ensures v < Limit(n)
  {
    FromLe(s[p..p + n])
  }

  /** A field of a part is a field of the whole. */
  lemma {:induction false} FieldOfPart(s: seq<Byte>, at: nat, part: seq<Byte>, p: nat, n: nat)
    requires at + |part| <= |s| && s[at..at + |part|] == part && p + n <= |part|
    ensures Field(s, at + p, n) == Field(part, p, n)
  {
    var whole, field := s[at + p..at + p + n], part[p..p + n];
    forall i | 0 <= i < n
      ensures whole[i] == field[i]
    {
      assert s[at..at + |part|][p + i] == s[at + (p + i)];
    }
    assert whole == field;
  }

  /** The same bytes with n of them, from p on, replaced. */
  function Patch(s: seq<Byte>, p: nat, bytes: seq<Byte>): (r: seq<Byte>)
    requires p + |bytes| <= |s|
    ensures |r| == |s|
  {
    seq(|s|, k requires 0 <= k < |s| => if p <= k < p + |bytes| then bytes[k - p] else s[k])
  }

  /** The four letters of a name, at p. */
  predicate NameAt(s: seq<Byte>, p: nat, name: seq<Byte>)
    requires |name| == 4
  {
    p + 4 <= |s| && s[p] == name[0] && s[p + 1] == name[1] && s[p + 2] == name[2] && s[p + 3] == name[3]
  }

  /** A multi-byte store. */
  method StoreBytes(table: array<Byte>, p: nat, bytes: seq<Byte>)
    requires p + |bytes| <= table.Length
    modifies table
    ensures table[..] == Patch(old(table[..]), p, bytes)
  {
    forall k | 0 <= k < |bytes| {
      table[p + k] := bytes[k];
    }
  }
}
