/** BLAKE-512 framing (`blake512.rs`): how a message becomes 128-byte blocks with their bit counters.  The
    compression function stays uninterpreted. */
module Blake512 {
  import opened Bytes

  /** One call of `compress`: the block and the counter it is given. */
  datatype Call = Call(block: seq<byte>, counter: nat)

  const BLOCK := 128

  /** The chaining value after a list of calls. */
  function Feed<T>(compress: (T, seq<byte>, nat) -> T, h: T, calls: seq<Call>): T {
    if calls == [] then h
    else
      var c := calls[|calls| - 1];
      compress(Feed(compress, h, calls[..|calls| - 1]), c.block, c.counter)
  }

  /** Zero bytes between the 0x80 and the 0x01, for a message of n bytes. */
  function ZeroFill(n: nat): (z: nat)
    ensures z < BLOCK && (n + 1 + z) % BLOCK == 111
  {
    (110 - n) % BLOCK
  }

  /** The 16-byte big-endian bit length, of which the code fills only the low 8 bytes. */
  function LengthField(n: nat): (s: seq<byte>)
    ensures |s| == 16
  {
    ZeroBytes(8) + ToBe((8 * n) % Pow256(8), 8)
  }

  /** Everything appended to a message of n bytes. */
  function Padding(n: nat): seq<byte> {
    [0x80] + ZeroBytes(ZeroFill(n)) + [0x01] + LengthField(n)
  }

  function Framed(data: seq<byte>): seq<byte> { data + Padding(|data|) }

  function BlockCount(n: nat): nat { n / BLOCK + (if n % BLOCK >= 111 then 2 else 1) }

  lemma FramedLength(data: seq<byte>)
    ensures |Framed(data)| == BLOCK * BlockCount(|data|)
  {
    var n := |data|;
    var r := n % BLOCK;
    assert n == BLOCK * (n / BLOCK) + r;
    assert ZeroFill(n) == if r <= 110 then 110 - r else 238 - r;
  }

  /** 8 bits per message byte up to the end of block i, or 0 for a block that holds none. */
  function CounterOf(n: nat, i: nat): nat {
    if BLOCK * i >= n then 0 else if BLOCK * (i + 1) <= n then 8 * (BLOCK * (i + 1)) else 8 * n
  }

  /** The calls the framing promises: the framed message cut into blocks, each with its counter. */
  function Calls(data: seq<byte>): (cs: seq<Call>)
    ensures |cs| == BlockCount(|data|)
    ensures forall i :: 0 <= i < |cs| ==> |cs[i].block| == BLOCK && cs[i].counter == CounterOf(|data|, i)
  {
    FramedLength(data);
    seq(BlockCount(|data|), i requires 0 <= i < BlockCount(|data|) =>
      Call(Framed(data)[BLOCK * i..BLOCK * i + BLOCK], CounterOf(|data|, i)))
  }

  lemma FeedSnoc<T>(compress: (T, seq<byte>, nat) -> T, h: T, calls: seq<Call>, c: Call)
    ensures Feed(compress, h, calls + [c]) == compress(Feed(compress, h, calls), c.block, c.counter)
  {
    assert (calls + [c])[..|calls|] == calls;
  }

  /** A block that lies inside the message is a slice of the message. */
  lemma FullBlock(data: seq<byte>, i: nat)
    requires BLOCK * (i + 1) <= |data|
    ensures i < BlockCount(|data|)
    ensures Calls(data)[i] == Call(data[BLOCK * i..BLOCK * i + BLOCK], 8 * (BLOCK * (i + 1)))
  {
    FramedLength(data);
    assert Framed(data)[BLOCK * i..BLOCK * i + BLOCK] == data[BLOCK * i..BLOCK * i + BLOCK];
  }

  /** The blocks after the last full one are the padded remainder. */
  lemma LastBlocks(data: seq<byte>, k: nat)
    requires k == |data| / BLOCK
    ensures var pad := data[BLOCK * k..] + Padding(|data|);
      && |pad| == (if |data| % BLOCK >= 111 then 2 * BLOCK else BLOCK)
      && Calls(data)[k] == Call(pad[..BLOCK], if |data| % BLOCK == 0 then 0 else 8 * |data|)
      && (|pad| > BLOCK ==> |Calls(data)| == k + 2 && Calls(data)[k + 1] == Call(pad[BLOCK..], 0))
      && (|pad| == BLOCK ==> |Calls(data)| == k + 1)
  {
    var pad := data[BLOCK * k..] + Padding(|data|);
    FramedLength(data);
    var f := Framed(data);
    assert pad == f[BLOCK * k..];
    assert f[BLOCK * k..BLOCK * k + BLOCK] == pad[..BLOCK];
    if |pad| > BLOCK {
      assert f[BLOCK * (k + 1)..BLOCK * (k + 1) + BLOCK] == pad[BLOCK..];
    }
  }

  /** The padding loop: 0x80, zeros up to 111 modulo 128, 0x01, the length field. */
  method PadRemainder(rem: seq<byte>, offset: nat) returns (pad: seq<byte>)
    requires offset % BLOCK == 0
    ensures pad == rem + Padding(offset + |rem|)
  {
    ghost var n := offset + |rem|;
    pad := rem + [0x80];
    ghost var z := 0;
    while |pad| % BLOCK != 111
      invariant 0 <= z <= ZeroFill(n) && pad == rem + [0x80] + ZeroBytes(z)
      decreases ZeroFill(n) - z
    {
      FillSoFar(n, |rem|, offset, z);
      assert ZeroBytes(z) + [0] == ZeroBytes(z + 1);
      pad := pad + [0x00];
      z := z + 1;
    }
    FillSoFar(n, |rem|, offset, z);
    pad := pad + [0x01];
    var totalBits := |rem| * 8 + offset * 8;
    pad := pad + ZeroBytes(8);
    pad := pad + ToBe(totalBits % Pow256(8), 8);
  }

  /** The loop stops at exactly ZeroFill zeros. */
  lemma FillSoFar(n: nat, r: nat, offset: nat, z: nat)
    requires n == offset + r && offset % BLOCK == 0 && z <= ZeroFill(n)
    ensures (r + 1 + z) % BLOCK == 111 <==> z == ZeroFill(n)
  {
    var w := ZeroFill(n);
    SameRemainder(r + 1 + z, offset / 128);
    assert n + 1 + z == r + 1 + z + 128 * (offset / 128);
    if (n + 1 + z) % 128 == 111 {
      assert n + 1 + z == 128 * ((n + 1 + z) / 128) + 111;
      assert n + 1 + w == 128 * ((n + 1 + w) / 128) + 111;
    }
  }

  lemma SameRemainder(x: nat, q: nat)
    ensures (x + 128 * q) % 128 == x % 128
  {
  }

  lemma FeedNext<T>(compress: (T, seq<byte>, nat) -> T, h: T, all: seq<Call>, k: nat)
    requires k < |all|
    ensures Feed(compress, h, all[..k + 1]) == compress(Feed(compress, h, all[..k]), all[k].block, all[k].counter)
  {
    assert all[..k + 1] == all[..k] + [all[k]];
    FeedSnoc(compress, h, all[..k], all[k]);
  }

  /** A full block is the next call, and not the last one. */
  lemma OneBlock<T>(compress: (T, seq<byte>, nat) -> T, iv: T, data: seq<byte>, k: nat)
    requires BLOCK * k + BLOCK <= |data|
    ensures k + 1 < |Calls(data)|
    ensures Feed(compress, iv, Calls(data)[..k + 1])
         == compress(Feed(compress, iv, Calls(data)[..k]), data[BLOCK * k..BLOCK * k + BLOCK], 8 * (BLOCK * k) + 1024)
  {
    FullBlock(data, k);
    FeedNext(compress, iv, Calls(data), k);
  }

  /** The loop over the full 128-byte blocks. */
  method AbsorbFull<T>(compress: (T, seq<byte>, nat) -> T, iv: T, data: seq<byte>)
    returns (h: T, offset: nat, t: nat, ghost k: nat)
    ensures k == |data| / BLOCK && offset == BLOCK * k && t == 8 * offset && k < |Calls(data)|
    ensures offset <= |data| && offset % BLOCK == 0
    ensures h == Feed(compress, iv, Calls(data)[..k])
  {
    ghost var all := Calls(data);
    h, offset, t, k := iv, 0, 0, 0;
    while |data| - offset >= BLOCK
      invariant offset == BLOCK * k <= |data| && t == 8 * offset && k < |all|
      invariant h == Feed(compress, iv, all[..k])
    {
      OneBlock(compress, iv, data, k);
      t := t + 1024;
      h := compress(h, data[offset..offset + BLOCK], t);
      offset := offset + BLOCK;
      k := k + 1;
    }
    WholeBlocks(|data|, k);
  }

  lemma WholeBlocks(n: nat, k: nat)
    requires BLOCK * k <= n < BLOCK * k + BLOCK
    ensures k == n / BLOCK && (BLOCK * k) % BLOCK == 0
  {
  }

  /** What the last one or two calls add. */
  lemma FeedTail<T>(compress: (T, seq<byte>, nat) -> T, iv: T, data: seq<byte>, k: nat, pad: seq<byte>)
    requires k == |data| / BLOCK && pad == data[BLOCK * k..] + Padding(|data|)
    ensures |pad| == BLOCK || |pad| == 2 * BLOCK
    ensures var h := compress(Feed(compress, iv, Calls(data)[..k]), pad[..BLOCK], if |data| % BLOCK == 0 then 0 else 8 * |data|);
      Feed(compress, iv, Calls(data)) == if |pad| == BLOCK then h else compress(h, pad[BLOCK..], 0)
  {
    var all := Calls(data);
    LastBlocks(data, k);
    FeedNext(compress, iv, all, k);
    if |pad| == BLOCK {
      assert all[..k + 1] == all;
    } else {
      FeedNext(compress, iv, all, k + 1);
      assert all[..k + 2] == all;
    }
  }

  lemma RemainderBits(data: seq<byte>, offset: nat, k: nat)
    requires k == |data| / BLOCK && offset == BLOCK * k
    ensures |data[offset..]| == |data| % BLOCK && 8 * offset + |data[offset..]| * 8 == 8 * |data|
  {
  }

  function Tail<T>(compress: (T, seq<byte>, nat) -> T, h0: T, pad: seq<byte>, counter: nat): T
    requires |pad| >= BLOCK
  {
    var h := compress(h0, pad[..BLOCK], counter);
    if |pad| == BLOCK then h else compress(h, pad[BLOCK..], 0)
  }

  /** The padded blocks finish what the full blocks began. */
  lemma DigestTail<T>(compress: (T, seq<byte>, nat) -> T, iv: T, data: seq<byte>, k: nat, offset: nat, h0: T, t: nat,
                      rem: seq<byte>, pad: seq<byte>)
    requires k == |data| / BLOCK && offset == BLOCK * k && t == 8 * offset && k <= |Calls(data)|
    requires h0 == Feed(compress, iv, Calls(data)[..k]) && rem == data[offset..] && pad == rem + Padding(offset + |rem|)
    ensures |pad| == BLOCK || |pad| == 2 * BLOCK
    ensures Feed(compress, iv, Calls(data)) == Tail(compress, h0, pad, if |rem| * 8 == 0 then 0 else t + |rem| * 8)
  {
    FeedTail(compress, iv, data, k, pad);
    RemainderBits(data, offset, k);
  }

  /** `blake512` up to the serialisation of the chaining value. */
  method Digest<T>(compress: (T, seq<byte>, nat) -> T, iv: T, data: seq<byte>) returns (h: T)
    ensures h == Feed(compress, iv, Calls(data))
  {
    var offset, t;
    ghost var k;
    h, offset, t, k := AbsorbFull(compress, iv, data);
    var rem := data[offset..];
    var pad := PadRemainder(rem, offset);
    DigestTail(compress, iv, data, k, offset, h, t, rem, pad);
    h := FinalBlocks(compress, h, pad, t, |rem| * 8);
  }

  /** The one or two padded blocks: the first has counter 0 when it holds no message bits, the second always. */
  method FinalBlocks<T>(compress: (T, seq<byte>, nat) -> T, h0: T, pad: seq<byte>, t: nat, remBits: nat) returns (h: T)
    requires |pad| == BLOCK || |pad| == 2 * BLOCK
    ensures h == Tail(compress, h0, pad, if remBits == 0 then 0 else t + remBits)
  {
    if remBits == 0 {
      h := compress(h0, pad[..BLOCK], 0);
    } else {
      h := compress(h0, pad[..BLOCK], t + remBits);
    }
    if |pad| != BLOCK {
      h := compress(h, pad[BLOCK..], 0);
    }
  }

  // ----- the message can be recovered -----

  function Join(cs: seq<Call>): seq<byte> {
    if cs == [] then [] else cs[0].block + Join(cs[1..])
  }

  lemma {:induction false} JoinSlices(cs: seq<Call>, f: seq<byte>, start: nat)
    requires start + BLOCK * |cs| == |f|
    requires forall i :: 0 <= i < |cs| ==> cs[i].block == f[start + BLOCK * i..start + BLOCK * i + BLOCK]
    ensures Join(cs) == f[start..]
    decreases |cs|
  {
    if cs != [] {
      assert forall i :: 0 <= i < |cs[1..]| ==> cs[1..][i] == cs[i + 1];
      JoinSlices(cs[1..], f, start + BLOCK);
      assert f[start..] == f[start..start + BLOCK] + f[start + BLOCK..];
    }
  }

  /** The blocks, put together, are the message and its padding. */
  lemma BlocksAreFramed(data: seq<byte>)
    ensures Join(Calls(data)) == Framed(data)
  {
    FramedLength(data);
    JoinSlices(Calls(data), Framed(data), 0);
  }

  /** Read the bit length from the last eight bytes and cut the message off. */
  function Recover(cs: seq<Call>): seq<byte> {
    var f := Join(cs);
    if |f| < 8 then [] else
      var n := BeVal(f[|f| - 8..]) / 8;
      if n <= |f| then f[..n] else []
  }

  lemma FramedTail(data: seq<byte>)
    ensures |Framed(data)| >= 8 && Framed(data)[|Framed(data)| - 8..] == ToBe((8 * |data|) % Pow256(8), 8)
  {
    var w := ToBe((8 * |data|) % Pow256(8), 8);
    var front := data + ([0x80] + ZeroBytes(ZeroFill(|data|)) + [0x01] + ZeroBytes(8));
    assert Framed(data) == front + w;
  }

  lemma LengthReadsBack(bits: nat)
    requires bits < Pow256(8)
    ensures BeVal(ToBe(bits % Pow256(8), 8)) == bits
  {
    assert bits % Pow256(8) == bits;
    BeRoundTrip(bits, 8);
  }

  /** From the blocks of any message below 2^61 bytes the message can be read back, so the framing is
      injective. */
  lemma FramingRecovers(data: seq<byte>)
    requires 8 * |data| < Pow256(8)
    ensures Recover(Calls(data)) == data
  {
    BlocksAreFramed(data);
    FramedTail(data);
    LengthReadsBack(8 * |data|);
    assert Framed(data)[..|data|] == data;
  }
}
