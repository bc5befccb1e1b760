/** The padding of `blake512` against section 2.2.3 of the BLAKE SHA-3 proposal, bit by bit. */
module BlakePadding {
  import opened Bytes
  import opened Blake512
  import PrimeField

  function ByteBits(b: byte): seq<int> {
    [b / 128, b / 64 % 2, b / 32 % 2, b / 16 % 2, b / 8 % 2, b / 4 % 2, b / 2 % 2, b % 2]
  }

  function FlatMap(f: byte -> seq<int>, s: seq<byte>): seq<int> {
    if s == [] then [] else f(s[0]) + FlatMap(f, s[1..])
  }

  function Bits(s: seq<byte>): seq<int> { FlatMap(ByteBits, s) }

  function ZeroBits(n: nat): (s: seq<int>)
    ensures |s| == n && forall i :: 0 <= i < n ==> s[i] == 0
  {
    seq(n, i => 0)
  }

  /** Section 2.2.3 of the BLAKE proposal, on bits: a 1, the fewest 0s that bring the length to 895 modulo
      1024, a 1, and the bit length as a 128-bit big-endian number. */
  function ProposalPadding(n: nat): seq<int> {
    [1] + ZeroBits((894 - 8 * n) % 1024) + [1] + Bits(ToBe((8 * n) % Pow256(16), 16))
  }

  lemma {:induction false} FlatMapConcat(f: byte -> seq<int>, a: seq<byte>, b: seq<byte>)
    ensures FlatMap(f, a + b) == FlatMap(f, a) + FlatMap(f, b)
  {
    if a == [] {
      assert a + b == b;
    } else {
      FlatMapConcat(f, a[1..], b);
      assert (a + b)[1..] == a[1..] + b && (a + b)[0] == a[0];
      var x, y, z := f(a[0]), FlatMap(f, a[1..]), FlatMap(f, b);
      assert x + (y + z) == (x + y) + z;
    }
  }

  lemma FlatMapOne(f: byte -> seq<int>, b: byte)
    ensures FlatMap(f, [b]) == f(b)
  {
    assert FlatMap(f, [b][1..]) == [];
  }

  lemma {:induction false} FlatMapZeros(f: byte -> seq<int>, n: nat)
    requires f(0) == ZeroBits(8)
    ensures FlatMap(f, ZeroBytes(n)) == ZeroBits(8 * n)
  {
    if n > 0 {
      FlatMapZeros(f, n - 1);
      assert ZeroBytes(n)[1..] == ZeroBytes(n - 1);
    }
  }

  lemma FlatMapPadding(f: byte -> seq<int>, z: nat, len: seq<byte>)
    requires f(0) == ZeroBits(8)
    ensures FlatMap(f, [0x80] + ZeroBytes(z) + [0x01] + len) == f(0x80) + ZeroBits(8 * z) + f(0x01) + FlatMap(f, len)
  {
    FlatMapConcat(f, [0x80] + ZeroBytes(z) + [0x01], len);
    FlatMapConcat(f, [0x80] + ZeroBytes(z), [0x01]);
    FlatMapConcat(f, [0x80], ZeroBytes(z));
    FlatMapOne(f, 0x80);
    FlatMapOne(f, 0x01);
    FlatMapZeros(f, z);
  }

  lemma OnesAndZeros(a: nat, b: nat, c: nat, len: seq<int>)
    ensures ([1] + ZeroBits(a)) + ZeroBits(b) + (ZeroBits(c) + [1]) + len == [1] + ZeroBits(a + b + c) + [1] + len
  {
    assert ZeroBits(a) + ZeroBits(b) + ZeroBits(c) == ZeroBits(a + b + c);
  }

  /** The bits of the code's padding: always at least fourteen zeros between the ones. */
  lemma PaddingBits(n: nat)
    ensures Bits(Padding(n)) == [1] + ZeroBits(14 + 8 * ZeroFill(n)) + [1] + Bits(LengthField(n))
  {
    assert ByteBits(0) == ZeroBits(8);
    assert ByteBits(0x80) == [1] + ZeroBits(7);
    assert ByteBits(0x01) == ZeroBits(7) + [1];
    FlatMapPadding(ByteBits, ZeroFill(n), LengthField(n));
    OnesAndZeros(7, 8 * ZeroFill(n), 7, Bits(LengthField(n)));
  }

  lemma {:induction false} BitsLength(s: seq<byte>)
    ensures |Bits(s)| == 8 * |s|
  {
    if s != [] { BitsLength(s[1..]); }
  }

  lemma ByteBitsInjective(a: byte, b: byte)
    requires ByteBits(a) == ByteBits(b)
    ensures a == b
  {
    ByteFromBits(a);
    ByteFromBits(b);
  }

  lemma ByteFromBits(b: byte)
    ensures var s := ByteBits(b);
      b == 128 * s[0] + 64 * s[1] + 32 * s[2] + 16 * s[3] + 8 * s[4] + 4 * s[5] + 2 * s[6] + s[7]
  {
    Halve(b, 1);
    Halve(b, 2);
    Halve(b, 4);
    Halve(b, 8);
    Halve(b, 16);
    Halve(b, 32);
    Halve(b, 64);
  }

  lemma Halve(b: nat, k: nat)
    requires k > 0
    ensures b / k == 2 * (b / (2 * k)) + b / k % 2
  {
    var q := b / k;
    assert b == q * k + b % k;
    assert q == 2 * (q / 2) + q % 2;
    assert b == (q / 2) * (2 * k) + ((q % 2) * k + b % k);
    assert 0 <= (q % 2) * k <= k;
    PrimeField.DivMod(2 * k, b, q / 2, (q % 2) * k + b % k);
  }

  lemma {:induction false} BitsInjective(a: seq<byte>, b: seq<byte>)
    requires |a| == |b| && Bits(a) == Bits(b)
    ensures a == b
  {
    if a != [] {
      assert Bits(a)[..8] == ByteBits(a[0]) && Bits(b)[..8] == ByteBits(b[0]);
      assert Bits(a)[8..] == Bits(a[1..]) && Bits(b)[8..] == Bits(b[1..]);
      ByteBitsInjective(a[0], b[0]);
      BitsInjective(a[1..], b[1..]);
      assert a == [a[0]] + a[1..] && b == [b[0]] + b[1..];
    }
  }

  lemma SamePadding(a: nat, b: nat, s: seq<int>, t: seq<int>)
    requires |s| == |t|
    ensures [1] + ZeroBits(a) + [1] + s == [1] + ZeroBits(b) + [1] + t <==> a == b && s == t
  {
    var x, y := [1] + ZeroBits(a) + [1] + s, [1] + ZeroBits(b) + [1] + t;
    assert |x| == a + 2 + |s| && |y| == b + 2 + |t|;
    if x == y { assert x[a + 2..] == s && y[b + 2..] == t; }
  }

  /** A zero high word beside a low word is worth the low word. */
  lemma HighZerosValue(w: nat, high: nat, low: nat)
    requires w < Pow256(low)
    ensures BeVal(ZeroBytes(high) + ToBe(w, low)) == w
  {
    BeSplit(ZeroBytes(high), ToBe(w, low));
    BeZeros(high);
    BeRoundTrip(w, low);
  }

  /** It is the whole number exactly when that fits the low word. */
  lemma HighZeros(v: nat, w: nat, high: nat, low: nat)
    requires v < Pow256(high + low) && w == v % Pow256(low)
    ensures ZeroBytes(high) + ToBe(w, low) == ToBe(v, high + low) <==> v < Pow256(low)
  {
    HighZerosValue(w, high, low);
    BeRoundTrip(v, high + low);
    if v < Pow256(low) {
      PrimeField.DivMod(Pow256(low), v, 0, v);
      BeInverse(ZeroBytes(high) + ToBe(w, low));
    }
  }

  lemma {:induction false} Pow256Sum(a: nat, b: nat)
    ensures Pow256(a + b) == Pow256(a) * Pow256(b)
  {
    if a > 0 {
      Pow256Sum(a - 1, b);
      Associates(Pow256(a - 1), Pow256(b));
    }
  }

  lemma Associates(x: int, y: int)
    ensures 256 * (x * y) == (256 * x) * y
  {
  }

  lemma RemainderOfRemainder(x: nat, a: nat, b: nat)
    requires a > 0 && b > 0
    ensures (x % (a * b)) % b == x % b
  {
    var q, r := x / (a * b), x % (a * b);
    assert x == q * (a * b) + r;
    assert q * (a * b) == (q * a) * b;
    var k, m := r / b, r % b;
    PrimeField.DivMod(b, x, q * a + k, m) by {
      assert (q * a + k) * b == (q * a) * b + k * b;
    }
  }

  /** The length field is the 128-bit length exactly when the upper 64 bits of that are 0. */
  lemma LengthFieldIff(n: nat)
    ensures LengthField(n) == ToBe((8 * n) % Pow256(16), 16) <==> (8 * n) % Pow256(16) < Pow256(8)
  {
    Pow256Sum(8, 8);
    RemainderOfRemainder(8 * n, Pow256(8), Pow256(8));
    HighZeros((8 * n) % Pow256(16), (8 * n) % Pow256(8), 8, 8);
  }

  lemma FillsAgree(n: nat)
    ensures 14 + 8 * ZeroFill(n) == (894 - 8 * n) % 1024 <==> n % BLOCK != 111
  {
    var q, r := n / 128, n % 128;
    assert n == 128 * q + r;
    if r <= 110 { PrimeField.DivMod(128, 110 - n, -q, 110 - r); } else { PrimeField.DivMod(128, 110 - n, -q - 1, 238 - r); }
    if r <= 111 {
      PrimeField.DivMod(1024, 894 - 8 * n, -q, 894 - 8 * r);
    } else {
      PrimeField.DivMod(1024, 894 - 8 * n, -q - 1, 1918 - 8 * r);
    }
  }

  /** The code pads as the proposal does, except for messages of 111 bytes modulo 128, where the proposal
      joins the two ones in the byte 0x81 and the code spends a further block, and for messages whose length
      in bits does not fit 64 bits. */
  lemma PaddingAgreesIff(n: nat)
    ensures Bits(Padding(n)) == ProposalPadding(n) <==> n % BLOCK != 111 && (8 * n) % Pow256(16) < Pow256(8)
  {
    var len := ToBe((8 * n) % Pow256(16), 16);
    PaddingBits(n);
    BitsLength(LengthField(n));
    BitsLength(len);
    SamePadding(14 + 8 * ZeroFill(n), (894 - 8 * n) % 1024, Bits(LengthField(n)), Bits(len));
    FillsAgree(n);
    LengthFieldIff(n);
    if Bits(LengthField(n)) == Bits(len) { BitsInjective(LengthField(n), len); }
  }
}
