/** Byte strings and the integers they encode. */
module Bytes {
  type byte = x: int | 0 <= x < 256

  type Bytes32 = s: seq<byte> | |s| == 32 witness seq(32, i => 0)

  type Bytes64 = s: seq<byte> | |s| == 64 witness seq(64, i => 0)

  const ZERO32: Bytes32 :=
    [0, 0, 0, 0, 0, 0, 0, 0, 0, 0, 0, 0, 0, 0, 0, 0, 0, 0, 0, 0, 0, 0, 0, 0, 0, 0, 0, 0, 0, 0, 0, 0]

  function Pow256(n: nat): (r: nat)
    ensures r > 0
  {
    if n == 0 then 1 else 256 * Pow256(n - 1)
  }

  /** Little-endian value (`BigUint::from_bytes_le`). */
  function LeVal(s: seq<byte>): nat {
    if s == [] then 0 else s[0] + 256 * LeVal(s[1..])
  }

  /** Big-endian value (`BigUint::from_bytes_be`). */
  function BeVal(s: seq<byte>): nat {
    if s == [] then 0 else 256 * BeVal(s[..|s| - 1]) + s[|s| - 1]
  }

  /** The n low-order bytes of v, big-endian. */
  function ToBe(v: nat, n: nat): (s: seq<byte>)
    ensures |s| == n
  {
    if n == 0 then [] else ToBe(v / 256, n - 1) + [v % 256]
  }

  /** The n low-order bytes of v, little-endian. */
  function ToLe(v: nat, n: nat): (s: seq<byte>)
    ensures |s| == n
  {
    if n == 0 then [] else [v % 256] + ToLe(v / 256, n - 1)
  }

  /** `BigUint::to_bytes_be`: no leading zero byte, except [0] for zero. */
  function MinimalBe(v: nat): (s: seq<byte>)
    ensures |s| > 0
  {
    if v < 256 then [v] else MinimalBe(v / 256) + [v % 256]
  }

  lemma {:induction false} BeValBound(s: seq<byte>)
    ensures BeVal(s) < Pow256(|s|)
  {
    if s != [] { BeValBound(s[..|s| - 1]); }
  }

  /** Reading back the n-byte encoding loses nothing below 256^n. */
  lemma {:induction false} BeRoundTrip(v: nat, n: nat)
    requires v < Pow256(n)
    ensures BeVal(ToBe(v, n)) == v
  {
    if n > 0 {
      BeRoundTrip(v / 256, n - 1);
      assert ToBe(v, n)[..n - 1] == ToBe(v / 256, n - 1);
    }
  }

  lemma {:induction false} BeInverse(s: seq<byte>)
    ensures ToBe(BeVal(s), |s|) == s
  {
    if s != [] {
      var n := |s| - 1;
      BeInverse(s[..n]);
      assert BeVal(s) / 256 == BeVal(s[..n]) && BeVal(s) % 256 == s[n];
      assert s == s[..n] + [s[n]];
    }
  }

  function ZeroBytes(n: nat): (s: seq<byte>)
    ensures |s| == n && forall i :: 0 <= i < n ==> s[i] == 0
  {
    seq(n, i => 0)
  }

  lemma {:induction false} ToBeZero(n: nat)
    ensures ToBe(0, n) == ZeroBytes(n)
  {
    if n > 0 { ToBeZero(n - 1); }
  }

  /** The last n bytes of s, or all of s when it is shorter. */
  function LastBytes(s: seq<byte>, n: nat): (r: seq<byte>)
    ensures |r| <= n
  {
    if |s| < n then s else s[|s| - n..]
  }

  lemma LastBytesSnoc(s: seq<byte>, b: byte, n: nat)
    requires n > 0
    ensures LastBytes(s + [b], n) == LastBytes(s, n - 1) + [b]
  {
  }

  lemma AppendByte(z: seq<byte>, s: seq<byte>, b: byte)
    ensures (z + s) + [b] == z + (s + [b])
  {
  }

  /** Right-aligning the minimal encoding in n bytes, cut or zero-padded on the left, is ToBe. */
  lemma {:induction false} AlignMinimal(v: nat, n: nat)
    ensures var s := LastBytes(MinimalBe(v), n);
      ToBe(v, n) == ZeroBytes(n - |s|) + s
    decreases n
  {
    if n > 0 && v < 256 {
      ToBeZero(n - 1);
      assert LastBytes([v], n) == [v];
    } else if n > 0 {
      AlignMinimal(v / 256, n - 1);
      var t, b := MinimalBe(v / 256), v % 256;
      LastBytesSnoc(t, b, n);
      assert MinimalBe(v) == t + [b];
      AppendByte(ZeroBytes(n - 1 - |LastBytes(t, n - 1)|), LastBytes(t, n - 1), b);
    }
  }

  /** Fill a zeroed buffer from the right with the low-order bytes of the minimal encoding. */
  method RightAligned(v: nat, len: nat) returns (r: seq<byte>)
    ensures r == ToBe(v, len)
  {
    var be := MinimalBe(v);
    var out := new byte[len](i => 0);
    var n := if |be| < len then |be| else len;
    var i := 0;
    while i < n
      invariant 0 <= i <= n
      invariant forall j :: 0 <= j < len - n ==> out[j] == 0
      invariant forall j :: len - n <= j < len - n + i ==> out[j] == be[j - len + |be|]
    {
      out[len - n + i] := be[|be| - n + i];
      i := i + 1;
    }
    AlignMinimal(v, len);
    r := out[..];
    assert LastBytes(be, len) == be[|be| - n..];
    assert r == ZeroBytes(len - n) + be[|be| - n..];
  }

  /** `biguint_to_be32` (eddsa.rs and zk.rs) and `felt_to_bytes32`: lossless below 2^256. */
  method BiguintToBe32(v: nat) returns (r: Bytes32)
    ensures r == ToBe(v, 32)
    ensures BeVal(r) == v <==> v < Pow256(32)
  {
    r := RightAligned(v, 32);
    BeValBound(r);
    if v < Pow256(32) { BeRoundTrip(v, 32); }
  }

  lemma {:induction false} LeLast(s: seq<byte>)
    requires s != []
    ensures LeVal(s) == LeVal(s[..|s| - 1]) + s[|s| - 1] * Pow256(|s| - 1)
  {
    if |s| > 1 {
      var t := s[1..];
      LeLast(t);
      assert t[..|t| - 1] == s[..|s| - 1][1..];
      Shift(t[|t| - 1], Pow256(|t| - 1));
    }
  }

  lemma Shift(x: int, h: int)
    ensures 256 * (x * h) == x * (256 * h)
  {
  }

  lemma {:induction false} LeValBound(s: seq<byte>)
    ensures LeVal(s) < Pow256(|s|)
  {
    if s != [] { LeValBound(s[1..]); }
  }

  lemma {:induction false} LeRoundTrip(v: nat, n: nat)
    requires v < Pow256(n)
    ensures LeVal(ToLe(v, n)) == v
  {
    if n > 0 {
      LeRoundTrip(v / 256, n - 1);
      assert ToLe(v, n)[1..] == ToLe(v / 256, n - 1);
    }
  }

  lemma {:induction false} BeSplit(a: seq<byte>, b: seq<byte>)
    ensures BeVal(a + b) == BeVal(a) * Pow256(|b|) + BeVal(b)
  {
    if b == [] {
      assert a + b == a;
    } else {
      var n := |b| - 1;
      BeSplit(a, b[..n]);
      assert (a + b)[..|a + b| - 1] == a + b[..n];
      Shift(BeVal(a), Pow256(n));
    }
  }

  lemma {:induction false} BeZeros(n: nat)
    ensures BeVal(ZeroBytes(n)) == 0
  {
    if n > 0 {
      BeZeros(n - 1);
      assert ZeroBytes(n)[..n - 1] == ZeroBytes(n - 1);
    }
  }
}
