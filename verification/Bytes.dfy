/** Bytes, fixed-width integers and the XOR algebra the codec rests on. */
module Bytes {

  type byte = bv8
  type u16 = n: nat | n < 0x1_0000
  type u32 = n: nat | n < 0x1_0000_0000
  type u64 = n: nat | n < 0x1_0000_0000_0000_0000

  datatype Option<+T> = None | Some(value: T)
  datatype Result<+T, +E> = Ok(value: T) | Err(error: E)

  /** Byte-wise XOR of two slices of equal length. */
  function Xor(a: seq<byte>, b: seq<byte>): (r: seq<byte>)
    requires |a| == |b|
    ensures |r| == |a|
    ensures forall i :: 0 <= i < |a| ==> r[i] == a[i] ^ b[i]
  {
    seq(|a|, i requires 0 <= i < |a| => a[i] ^ b[i])
  }

  lemma XorSlice(a: seq<byte>, b: seq<byte>, m: nat, n: nat)
    requires |a| == |b| && m <= n <= |a|
    ensures Xor(a, b)[m..n] == Xor(a[m..n], b[m..n])
  {}

  function Zeros(n: nat): (r: seq<byte>)
    ensures |r| == n && forall i :: 0 <= i < n ==> r[i] == 0
  {
    seq(n, _ => 0)
  }

  /** `Vec::resize(n, 0)`: truncate, or pad with zero bytes. */
  function Resize(s: seq<byte>, n: nat): (r: seq<byte>)
    ensures |r| == n
    ensures |s| == n ==> r == s
  {
    if |s| >= n then s[..n] else s + Zeros(n - |s|)
  }

  lemma AppendAssoc<T>(a: seq<T>, b: seq<T>, c: seq<T>)
    ensures a + (b + c) == (a + b) + c
  {}

  lemma AppendTail<T>(a: T, s: seq<T>)
    ensures ([a] + s)[0] == a && ([a] + s)[1..] == s
  {}

  lemma AppendEmpty<T>(a: seq<T>)
    ensures a + [] == a && [] + a == a
  {}

  lemma XorCancels(a: byte, b: byte)
    ensures a ^ (a ^ b) == b && (a ^ b) ^ b == a
  {}

  /** The first `k` parts, joined. */
  function Join(parts: seq<seq<byte>>, k: nat): seq<byte>
    requires k <= |parts|
  {
    if k == 0 then [] else Join(parts, k - 1) + parts[k - 1]
  }

  // ----- Little-endian integers -----

  lemma {:induction false} ByteExists(n: nat) returns (b: byte)
    requires n < 256
    ensures b as nat == n
  {
    if n == 0 {
      b := 0;
    } else {
      var half := ByteExists(n / 2);
      DoubleByte(half);
      b := if n % 2 == 0 then 2 * half else 2 * half + 1;
    }
  }

  lemma ByteValue(n: nat)
    requires n < 256
    ensures (n as byte) as nat == n
  {
    var b := ByteExists(n);
    assert (b as nat) as byte == b;
  }

  lemma DoubleByte(b: byte)
    requires b < 128
    ensures (2 * b) as nat == 2 * (b as nat) && (2 * b + 1) as nat == 2 * (b as nat) + 1
  {}

  function ToByte(n: nat): (b: byte)
    requires n < 256
    ensures b as nat == n
  {
    ByteValue(n);
    n as byte
  }

  lemma ByteOfValue(b: byte)
    ensures ToByte(b as nat) == b
  {}

  function ToLE(n: nat, width: nat): (r: seq<byte>)
    ensures |r| == width
  {
    if width == 0 then [] else [ToByte(n % 256)] + ToLE(n / 256, width - 1)
  }

  function FromLE(s: seq<byte>): nat
  {
    if s == [] then 0 else s[0] as nat + 256 * FromLE(s[1..])
  }

  function Pow256(k: nat): (r: nat)
    ensures r > 0
  {
    if k == 0 then 1 else 256 * Pow256(k - 1)
  }

  lemma {:induction false} FromToLE(n: nat, width: nat)
    requires n < Pow256(width)
    ensures FromLE(ToLE(n, width)) == n
  {
    if width > 0 {
      FromToLE(n / 256, width - 1);
      assert ToLE(n, width)[1..] == ToLE(n / 256, width - 1);
    }
  }

  lemma {:induction false} ToFromLE(s: seq<byte>)
    ensures FromLE(s) < Pow256(|s|)
    ensures ToLE(FromLE(s), |s|) == s
  {
    if s != [] {
      ToFromLE(s[1..]);
      var n := FromLE(s);
      assert n % 256 == s[0] as nat && n / 256 == FromLE(s[1..]);
      ByteOfValue(s[0]);
      assert s == [s[0]] + s[1..];
    }
  }

  lemma Pow256Widths()
    ensures Pow256(2) == 0x1_0000
    ensures Pow256(4) == 0x1_0000_0000
    ensures Pow256(8) == 0x1_0000_0000_0000_0000
  {
    assert Pow256(4) == 256 * (256 * Pow256(2));
    assert Pow256(8) == 256 * (256 * (256 * (256 * Pow256(4))));
  }

  // ----- Integers by place value -----

  function U16At(b: seq<byte>, i: nat): nat
    requires i + 2 <= |b|
  {
    b[i] as nat + 0x100 * b[i + 1] as nat
  }

  function U32At(b: seq<byte>, i: nat): nat
    requires i + 4 <= |b|
  {
    b[i] as nat + 0x100 * b[i + 1] as nat + 0x1_0000 * b[i + 2] as nat + 0x100_0000 * b[i + 3] as nat
  }

  function U64At(b: seq<byte>, i: nat): nat
    requires i + 8 <= |b|
  {
    U32At(b, i) + 0x1_0000_0000 * U32At(b, i + 4)
  }

  lemma FromLEStep(b: seq<byte>, i: nat, j: nat)
    requires i < j <= |b|
    ensures FromLE(b[i..j]) == b[i] as nat + 0x100 * FromLE(b[i + 1..j])
  {
    assert b[i..j][1..] == b[i + 1..j];
  }

  lemma FromLEAtEnd(b: seq<byte>, i: nat)
    requires i <= |b|
    ensures FromLE(b[i..i]) == 0
  {}

  /** Little-endian reading is the sum of the bytes, each with the weight of its place. */
  lemma FromLE16(b: seq<byte>, i: nat)
    requires i + 2 <= |b|
    ensures FromLE(b[i..i + 2]) == U16At(b, i)
  {
    FromLEStep(b, i, i + 2); FromLEStep(b, i + 1, i + 2); FromLEAtEnd(b, i + 2);
  }

  lemma FromLE32(b: seq<byte>, i: nat)
    requires i + 4 <= |b|
    ensures FromLE(b[i..i + 4]) == U32At(b, i)
  {
    FromLEStep(b, i, i + 4); FromLEStep(b, i + 1, i + 4); FromLEStep(b, i + 2, i + 4); FromLEStep(b, i + 3, i + 4);
    FromLEAtEnd(b, i + 4);
  }

  lemma FromLE64(b: seq<byte>, i: nat)
    requires i + 8 <= |b|
    ensures FromLE(b[i..i + 8]) == U64At(b, i)
  {
    hide FromLE;
    FromLEStep(b, i, i + 8); FromLEStep(b, i + 1, i + 8); FromLEStep(b, i + 2, i + 8); FromLEStep(b, i + 3, i + 8);
    FromLEStep(b, i + 4, i + 8); FromLEStep(b, i + 5, i + 8); FromLEStep(b, i + 6, i + 8);
    FromLEStep(b, i + 7, i + 8);
    FromLEAtEnd(b, i + 8);
  }
}
