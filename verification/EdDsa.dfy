/** EdDSA over BabyJubjub with a Poseidon challenge (`eddsa.rs`). */
module EdDsa {
  import opened Wrappers
  import opened Bytes
  import opened PrimeField
  import opened BabyJubjub
  import opened ScalarMul

  /** The group with its base point and full order over the coordinate field of `p` elements, with
      BLAKE-512 and Poseidon left uninterpreted.  `Kanon` below is the instance the code fixes. */
  datatype Scheme = Scheme(p: int, group: Group<Point>, base8: Point, order: nat,
                           blake512: seq<byte> -> Bytes64, poseidon: seq<int> -> nat)

  datatype Signature = Signature(r8x: nat, r8y: nat, s: nat)

  datatype IssuerKey = IssuerKey(ax: nat, ay: nat)

  /** `order() >> 3`. */
  function SubOrder(sc: Scheme): nat { sc.order / 8 }

  function Multiple(sc: Scheme, q: Point, k: nat): Point {
    Times(sc.group, q, k)
  }

  /** The facts about the parameters the scheme rests on. */
  ghost predicate Sound(sc: Scheme) {
    && Laws(sc.group) && sc.group.zero == NEUTRAL
    && (forall q :: sc.group.on(q) ==> IsFelt(sc.p, q.x) && IsFelt(sc.p, q.y))
    && sc.group.on(sc.base8)
    && sc.order > 0 && sc.order % 8 == 0
    && Multiple(sc, sc.base8, SubOrder(sc)) == NEUTRAL
    && 0 < sc.p <= Pow256(32) && SubOrder(sc) <= Pow256(32)
  }

  // ----- keys -----

  /** Clamping: the low three bits of the first byte and the top bit of the last cleared, bit 254 set. */
  function Pruned(buf: Bytes32): Bytes32 {
    buf[0 := buf[0] - buf[0] % 8][31 := 64 + buf[31] % 64]
  }

  method Prune(buf32: Bytes32) returns (r: Bytes32)
    ensures r == Pruned(buf32)
  {
    var b := new byte[32];
    forall i | 0 <= i < 32 { b[i] := buf32[i]; }
    b[0] := b[0] - b[0] % 8;
    b[31] := b[31] % 128;
    if b[31] < 64 { b[31] := b[31] + 64; }
    r := b[..];
  }

  /** What clamping does to the number: bit 254 and, of the rest, the bits 3 to 253. */
  lemma PrunedValue(buf: Bytes32)
    ensures LeVal(Pruned(buf)) == 64 * Pow256(31) + 8 * ((LeVal(buf) / 8) % (8 * Pow256(31)))
  {
    var low := ClampedParts(buf, Pruned(buf), 31, Pow256(31));
    var r := WordMultiple(31);
    ClampedWord(LeVal(buf), LeVal(Pruned(buf)), low, buf[0] % 8, buf[31], Pow256(31), r);
  }

  /** Both values by their last byte and the rest. */
  lemma ClampedParts(buf: seq<byte>, b: seq<byte>, n: nat, p: int) returns (low: nat)
    requires |buf| == n + 1 && n > 0 && p == Pow256(n)
    requires b == buf[0 := buf[0] - buf[0] % 8][n := 64 + buf[n] % 64]
    ensures low < p && low % 8 == buf[0] % 8
    ensures LeVal(buf) == low + buf[n] * p && LeVal(b) == low - buf[0] % 8 + (64 + buf[n] % 64) * p
  {
    low := LeVal(buf[..n]);
    TopByte(buf, n, p);
    TopByte(b, n, p);
    assert b[..n] == buf[..n][0 := buf[0] - buf[0] % 8];
    FirstByte(buf[..n], buf[0] - buf[0] % 8);
  }

  lemma TopByte(s: seq<byte>, n: nat, p: int)
    requires |s| == n + 1 && p == Pow256(n)
    ensures LeVal(s) == LeVal(s[..n]) + s[n] * p && LeVal(s[..n]) < p
  {
    LeLast(s);
    LeValBound(s[..n]);
  }

  lemma WordMultiple(n: nat) returns (r: nat)
    requires n > 0
    ensures Pow256(n) == 8 * r
  {
    r := 32 * Pow256(n - 1);
  }

  lemma FirstByte(s: seq<byte>, x: byte)
    requires s != []
    ensures LeVal(s[0 := x]) == LeVal(s) - s[0] + x && LeVal(s) % 8 == s[0] % 8
  {
    assert s[0 := x][1..] == s[1..];
  }

  /** The same on numbers: low is the value of all bytes but the last, top the last byte. */
  lemma ClampedNumber(low: nat, cut: nat, top: byte, r: nat)
    requires low < 8 * r && cut < 8 && low % 8 == cut
    ensures low - cut + (64 + top % 64) * (8 * r) == 64 * (8 * r) + 8 * (((low + top * (8 * r)) / 8) % (8 * (8 * r)))
  {
    var q, t, u := low / 8, top / 64, top % 64;
    Scale(top, r);
    PrimeField.DivMod(8, low + top * (8 * r), q + top * r, cut);
    MulBounds(u, 0, 63, r);
    Distribute64(t, u, r);
    PrimeField.DivMod(64 * r, q + top * r, t, q + u * r);
    Scale(u, r);
    ClampedTop(u, r);
  }

  lemma ClampedWord(v: int, w: int, low: nat, cut: nat, top: byte, p: nat, r: nat)
    requires p == 8 * r && low < p && cut < 8 && low % 8 == cut
    requires v == low + top * p && w == low - cut + (64 + top % 64) * p
    ensures w == 64 * p + 8 * ((v / 8) % (8 * p))
  {
    ClampedNumber(low, cut, top, r);
  }

  lemma ClampedTop(u: int, r: int)
    ensures (64 + u) * (8 * r) == 64 * (8 * r) + u * (8 * r)
  {
  }

  lemma Scale(t: int, r: int)
    ensures t * (8 * r) == 8 * (t * r)
  {
  }

  lemma Distribute64(a: int, b: int, r: int)
    ensures (a * 64 + b) * r == a * (64 * r) + b * r
  {
  }

  /** The clamped scalar is a multiple of 8 with 254 as its highest set bit. */
  lemma PrunedScalar(buf: Bytes32)
    ensures LeVal(Pruned(buf)) % 8 == 0
    ensures 64 * Pow256(31) <= LeVal(Pruned(buf)) < 128 * Pow256(31)
  {
    PrunedValue(buf);
    ScalarRange(LeVal(Pruned(buf)), LeVal(buf) / 8, Pow256(31), 32 * Pow256(30));
  }

  lemma ScalarRange(w: int, x: int, p: nat, r: nat)
    requires p == 8 * r && p > 0 && w == 64 * p + 8 * (x % (8 * p))
    ensures w % 8 == 0 && 64 * p <= w < 128 * p
  {
    PrimeField.DivMod(8, w, 8 * p + x % (8 * p), 0);
  }

  lemma MulBounds(x: int, lo: int, hi: int, h: nat)
    requires lo <= x <= hi
    ensures lo * h <= x * h <= hi * h
  {
    assert (x - lo) * h >= 0 && (hi - x) * h >= 0;
  }

  function SecretScalar(sc: Scheme, key: Bytes32): nat {
    LeVal(Pruned(sc.blake512(key)[..32]))
  }

  lemma SecretMultipleOfEight(sc: Scheme, key: Bytes32)
    ensures SecretScalar(sc, key) % 8 == 0
  {
    PrunedScalar(sc.blake512(key)[..32]);
  }

  /** The secret is the clamped first half of the digest. */
  lemma SecretFromDigest(sc: Scheme, key: Bytes32)
    ensures SecretScalar(sc, key)
         == 64 * Pow256(31) + 8 * ((LeVal(sc.blake512(key)[..32]) / 8) % (8 * Pow256(31)))
  {
    PrunedValue(sc.blake512(key)[..32]);
  }

  function PublicPoint(sc: Scheme, key: Bytes32): Point {
    Multiple(sc, sc.base8, SecretScalar(sc, key) / 8)
  }

  /** `fr_to_biguint` of a coordinate: the canonical representative itself. */
  function Coord(x: int): nat { if x < 0 then 0 else x }

  function RestoreIssuerKey(sc: Scheme, key: Bytes32): IssuerKey {
    var a := PublicPoint(sc, key);
    IssuerKey(Coord(a.x), Coord(a.y))
  }

  // ----- signing -----

  function Nonce(sc: Scheme, key: Bytes32, leaf: nat): nat
    requires SubOrder(sc) > 0
  {
    LeVal(sc.blake512(sc.blake512(key)[32..64] + ToLe(leaf, 32))) % SubOrder(sc)
  }

  function NoncePoint(sc: Scheme, key: Bytes32, leaf: nat): Point
    requires SubOrder(sc) > 0
  {
    Multiple(sc, sc.base8, Nonce(sc, key, leaf))
  }

  function Challenge(sc: Scheme, r8: Point, a: Point, leaf: nat): nat {
    sc.poseidon([r8.x, r8.y, a.x, a.y, leaf])
  }

  /** `sign_poseidon` on a parsed key. */
  function Sign(sc: Scheme, key: Bytes32, leaf: nat): Signature
    requires SubOrder(sc) > 0
  {
    var s := SecretScalar(sc, key);
    var r8 := NoncePoint(sc, key, leaf);
    var c := Challenge(sc, r8, PublicPoint(sc, key), leaf);
    Signature(Coord(r8.x), Coord(r8.y), (Nonce(sc, key, leaf) + c * s) % SubOrder(sc))
  }

  // ----- verifying -----

  function PointFrom(sc: Scheme, x: nat, y: nat): Point
    requires sc.p > 0
  {
    Point(x % sc.p, y % sc.p)
  }

  /** S*BASE8 == R8 + ((8*c) mod order)*A. */
  predicate Equation(sc: Scheme, a: Point, leaf: nat, r8: Point, s: nat)
    requires sc.order > 0
  {
    var coeff := (Challenge(sc, r8, a, leaf) * 8) % sc.order;
    Multiple(sc, sc.base8, s) == sc.group.add(r8, Multiple(sc, a, coeff))
  }

  /** `verify_poseidon`, with its rejections in order. */
  predicate Verify(sc: Scheme, key: IssuerKey, leaf: nat, sig: Signature)
    requires sc.p > 0 && sc.order > 0
  {
    if sig.s >= SubOrder(sc) || sig.s == 0 then false
    else
      var r8 := PointFrom(sc, sig.r8x, sig.r8y);
      var a := PointFrom(sc, key.ax, key.ay);
      if r8 == NEUTRAL || a == NEUTRAL then false
      else if !sc.group.on(r8) || !sc.group.on(a) then false
      else Equation(sc, a, leaf, r8, sig.s)
  }

  // ----- wire form -----

  /** The 96 bytes R8x || R8y || S, each 32 bytes big-endian. */
  function Encode(sig: Signature): seq<byte> {
    ToBe(sig.r8x, 32) + ToBe(sig.r8y, 32) + ToBe(sig.s, 32)
  }

  function Decode(buf: seq<byte>): Option<Signature> {
    if |buf| != 96 then None
    else Some(Signature(BeVal(buf[0..32]), BeVal(buf[32..64]), BeVal(buf[64..96])))
  }

  /** `encode_zk_signature` up to base64: three buffers appended in a loop. */
  method EncodeZkSignature(sig: Signature) returns (buf: seq<byte>)
    ensures buf == Encode(sig)
  {
    buf := [];
    var vs := [sig.r8x, sig.r8y, sig.s];
    var i := 0;
    while i < 3
      invariant 0 <= i <= 3
      invariant buf == (if i > 0 then ToBe(sig.r8x, 32) else []) + (if i > 1 then ToBe(sig.r8y, 32) else [])
                     + (if i > 2 then ToBe(sig.s, 32) else [])
    {
      var word := BiguintToBe32(vs[i]);
      buf := buf + word;
      i := i + 1;
    }
  }

  /** The wire form is lossless exactly for the signatures whose numbers fit 32 bytes. */
  lemma DecodeEncode(sig: Signature)
    ensures Decode(Encode(sig)) == Some(sig)
       <==> sig.r8x < Pow256(32) && sig.r8y < Pow256(32) && sig.s < Pow256(32)
  {
    var buf := Encode(sig);
    assert buf[0..32] == ToBe(sig.r8x, 32) && buf[32..64] == ToBe(sig.r8y, 32) && buf[64..96] == ToBe(sig.s, 32);
    BeValBound(buf[0..32]);
    BeValBound(buf[32..64]);
    BeValBound(buf[64..96]);
    if sig.r8x < Pow256(32) { BeRoundTrip(sig.r8x, 32); }
    if sig.r8y < Pow256(32) { BeRoundTrip(sig.r8y, 32); }
    if sig.s < Pow256(32) { BeRoundTrip(sig.s, 32); }
  }

  /** R8x, R8y and S stand in this order, each as a big-endian number. */
  lemma WireOrder(sig: Signature)
    requires sig.r8x < Pow256(32) && sig.r8y < Pow256(32) && sig.s < Pow256(32)
    ensures BeVal(Encode(sig)[..32]) == sig.r8x && BeVal(Encode(sig)[32..64]) == sig.r8y && BeVal(Encode(sig)[64..]) == sig.s
  {
    var buf := Encode(sig);
    assert buf[..32] == ToBe(sig.r8x, 32) && buf[32..64] == ToBe(sig.r8y, 32) && buf[64..] == ToBe(sig.s, 32);
    BeRoundTrip(sig.r8x, 32);
    BeRoundTrip(sig.r8y, 32);
    BeRoundTrip(sig.s, 32);
  }

  /** Every 96-byte string is the encoding of what it decodes to. */
  lemma EncodeDecode(buf: seq<byte>)
    requires |buf| == 96
    ensures Decode(buf).Some? && Encode(Decode(buf).value) == buf
  {
    BeInverse(buf[0..32]);
    BeInverse(buf[32..64]);
    BeInverse(buf[64..96]);
    assert buf == buf[0..32] + buf[32..64] + buf[64..96];
  }

  // ----- correctness -----

  lemma PointFromCoords(sc: Scheme, q: Point)
    requires IsFelt(sc.p, q.x) && IsFelt(sc.p, q.y)
    ensures PointFrom(sc, Coord(q.x), Coord(q.y)) == q
  {
    DivMod(sc.p, q.x, 0, q.x);
    DivMod(sc.p, q.y, 0, q.y);
  }

  /** The signer's S satisfies the verifier's equation: the clamped scalar is a multiple of 8, so the
      reductions modulo the subgroup order and modulo the full order cancel. */
  lemma SignedEquation(sc: Scheme, r: nat, c: nat, s: nat)
    requires Sound(sc) && s % 8 == 0
    ensures Multiple(sc, sc.base8, (r + c * s) % SubOrder(sc))
         == sc.group.add(Multiple(sc, sc.base8, r), Multiple(sc, Multiple(sc, sc.base8, s / 8), (c * 8) % sc.order))
  {
    assert s == 8 * (s / 8) && sc.order == 8 * SubOrder(sc);
    ReductionsCancel(sc.group, sc.base8, SubOrder(sc), r, c, s / 8);
  }

  /** For points on the curve that satisfy the equation, what is left of the checks. */
  lemma VerifyOnCurve(sc: Scheme, a: Point, leaf: nat, r8: Point, s: nat)
    requires Sound(sc) && sc.group.on(a) && sc.group.on(r8)
    requires s < SubOrder(sc) && Equation(sc, a, leaf, r8, s)
    ensures Verify(sc, IssuerKey(Coord(a.x), Coord(a.y)), leaf, Signature(Coord(r8.x), Coord(r8.y), s))
       <==> s != 0 && r8 != NEUTRAL && a != NEUTRAL
  {
    PointFromCoords(sc, a);
    PointFromCoords(sc, r8);
  }

  lemma SignedAccepted(sc: Scheme, leaf: nat, r: nat, s: nat)
    requires Sound(sc) && s % 8 == 0
    ensures var a, r8 := Multiple(sc, sc.base8, s / 8), Multiple(sc, sc.base8, r);
      var t := (r + Challenge(sc, r8, a, leaf) * s) % SubOrder(sc);
      && sc.group.on(r8)
      && (Verify(sc, IssuerKey(Coord(a.x), Coord(a.y)), leaf, Signature(Coord(r8.x), Coord(r8.y), t))
          <==> t != 0 && r8 != NEUTRAL && a != NEUTRAL)
  {
    var a, r8 := Multiple(sc, sc.base8, s / 8), Multiple(sc, sc.base8, r);
    var c := Challenge(sc, r8, a, leaf);
    TimesOn(sc.group, sc.base8, s / 8);
    TimesOn(sc.group, sc.base8, r);
    SignedEquation(sc, r, c, s);
    VerifyOnCurve(sc, a, leaf, r8, (r + c * s) % SubOrder(sc));
  }

  lemma WireLossless(sc: Scheme, r8: Point, s: nat)
    requires Sound(sc) && sc.group.on(r8) && s < SubOrder(sc)
    ensures var sig := Signature(Coord(r8.x), Coord(r8.y), s);
      Decode(Encode(sig)) == Some(sig)
  {
    DecodeEncode(Signature(Coord(r8.x), Coord(r8.y), s));
  }

  lemma HonestAccepted(sc: Scheme, key: Bytes32, leaf: nat)
    requires Sound(sc)
    ensures Verify(sc, RestoreIssuerKey(sc, key), leaf, Sign(sc, key, leaf))
       <==> Sign(sc, key, leaf).s != 0 && NoncePoint(sc, key, leaf) != NEUTRAL && PublicPoint(sc, key) != NEUTRAL
  {
    SecretMultipleOfEight(sc, key);
    SignedAccepted(sc, leaf, Nonce(sc, key, leaf), SecretScalar(sc, key));
  }

  lemma HonestWire(sc: Scheme, key: Bytes32, leaf: nat)
    requires Sound(sc)
    ensures Decode(Encode(Sign(sc, key, leaf))) == Some(Sign(sc, key, leaf))
  {
    TimesOn(sc.group, sc.base8, Nonce(sc, key, leaf));
    WireLossless(sc, NoncePoint(sc, key, leaf), Sign(sc, key, leaf).s);
  }

  /** A signature survives the wire, and is accepted under the signer's restored key exactly when S is
      not 0 and neither R8 nor the public key is the neutral point. */
  lemma SignThenVerify(sc: Scheme, key: Bytes32, leaf: nat)
    requires Sound(sc)
    ensures var sig := Sign(sc, key, leaf);
      && Decode(Encode(sig)) == Some(sig)
      && (Verify(sc, RestoreIssuerKey(sc, key), leaf, sig)
          <==> sig.s != 0 && NoncePoint(sc, key, leaf) != NEUTRAL && PublicPoint(sc, key) != NEUTRAL)
  {
    HonestAccepted(sc, key, leaf);
    HonestWire(sc, key, leaf);
  }

  /** A multiple of a point is neutral exactly when the scalar is a multiple of its order. */
  lemma MultipleNeutralIff(sc: Scheme, k: nat)
    requires Sound(sc) && IsOrder(sc.group, sc.base8, SubOrder(sc))
    ensures Multiple(sc, sc.base8, k) == NEUTRAL <==> k % SubOrder(sc) == 0
  {
    TimesMod(sc.group, sc.base8, SubOrder(sc), k);
    assert Times(sc.group, sc.base8, 0) == NEUTRAL;
  }

  /** With the exact order of the base point, acceptance is arithmetic on the secret numbers: it fails only
      for a secret that the subgroup order divides, a zero nonce or a zero S. */
  lemma SignThenVerifyIff(sc: Scheme, key: Bytes32, leaf: nat)
    requires Sound(sc) && IsOrder(sc.group, sc.base8, SubOrder(sc))
    ensures Verify(sc, RestoreIssuerKey(sc, key), leaf, Sign(sc, key, leaf)) <==>
      && (SecretScalar(sc, key) / 8) % SubOrder(sc) != 0
      && Nonce(sc, key, leaf) != 0
      && Sign(sc, key, leaf).s != 0
  {
    SignThenVerify(sc, key, leaf);
    MultipleNeutralIff(sc, SecretScalar(sc, key) / 8);
    MultipleNeutralIff(sc, Nonce(sc, key, leaf));
    DivMod(SubOrder(sc), Nonce(sc, key, leaf), 0, Nonce(sc, key, leaf));
  }

  // ----- what a signature covers -----

  /** In a group, r + a is determined by a when n undoes both sums. */
  lemma CancelBoth(g: Group<Point>, n: Point, r: Point, a: Point, b: Point)
    requires Laws(g) && g.on(n) && g.on(r) && g.on(a) && g.on(b)
    requires g.add(n, g.add(r, a)) == g.zero && g.add(n, g.add(r, b)) == g.zero
    ensures a == b
  {
    var m := g.add(n, r);
    assert ClosedAt(g, n, r);
    assert AssociatesAt(g, n, r, a) && AssociatesAt(g, n, r, b);
    assert AssociatesAt(g, a, m, b) && CommutesAt(g, m, a);
    assert ZeroAt(g, a) && ZeroAt(g, b) && CommutesAt(g, a, g.zero);
  }

  /** An accepted signature is accepted for another leaf exactly when the two challenges, over R8, the public
      key and the leaf, take the public key to one point. */
  lemma AcceptedForIff(sc: Scheme, key: IssuerKey, leaf: nat, leaf': nat, sig: Signature)
    requires Sound(sc) && Verify(sc, key, leaf, sig)
    ensures var r8, a := PointFrom(sc, sig.r8x, sig.r8y), PointFrom(sc, key.ax, key.ay);
      Verify(sc, key, leaf', sig) <==>
        Multiple(sc, a, (sc.poseidon([r8.x, r8.y, a.x, a.y, leaf]) * 8) % sc.order)
          == Multiple(sc, a, (sc.poseidon([r8.x, r8.y, a.x, a.y, leaf']) * 8) % sc.order)
  {
    var g, l := sc.group, SubOrder(sc);
    var r8, a := PointFrom(sc, sig.r8x, sig.r8y), PointFrom(sc, key.ax, key.ay);
    var k := (sc.poseidon([r8.x, r8.y, a.x, a.y, leaf]) * 8) % sc.order;
    var k' := (sc.poseidon([r8.x, r8.y, a.x, a.y, leaf']) * 8) % sc.order;
    if Verify(sc, key, leaf', sig) {
      TimesAdd(g, sc.base8, l - sig.s, sig.s);
      TimesOn(g, sc.base8, l - sig.s);
      TimesOn(g, a, k);
      TimesOn(g, a, k');
      CancelBoth(g, Multiple(sc, sc.base8, l - sig.s), r8, Multiple(sc, a, k), Multiple(sc, a, k'));
    }
  }

  /** Eight times c, times the public point, is c times the secret, times the base point. */
  lemma PublicMultiple(sc: Scheme, s: nat, c: nat)
    requires Sound(sc) && s % 8 == 0
    ensures Multiple(sc, Multiple(sc, sc.base8, s / 8), (c * 8) % sc.order) == Multiple(sc, sc.base8, (c * s) % SubOrder(sc))
  {
    SignedEquation(sc, 0, c, s);
    TimesOn(sc.group, sc.base8, s / 8);
    TimesOn(sc.group, Multiple(sc, sc.base8, s / 8), (c * 8) % sc.order);
    assert ZeroAt(sc.group, Multiple(sc, Multiple(sc, sc.base8, s / 8), (c * 8) % sc.order));
  }

  /** An honest signature covers its own leaf and no other, unless the challenges for the two leaves agree
      modulo the subgroup order once multiplied with the secret. */
  lemma SignatureCovers(sc: Scheme, key: Bytes32, leaf: nat, leaf': nat)
    requires Sound(sc) && IsOrder(sc.group, sc.base8, SubOrder(sc))
    requires Verify(sc, RestoreIssuerKey(sc, key), leaf, Sign(sc, key, leaf))
    ensures var r8, a, s := NoncePoint(sc, key, leaf), PublicPoint(sc, key), SecretScalar(sc, key);
      Verify(sc, RestoreIssuerKey(sc, key), leaf', Sign(sc, key, leaf)) <==>
        (sc.poseidon([r8.x, r8.y, a.x, a.y, leaf]) * s) % SubOrder(sc)
          == (sc.poseidon([r8.x, r8.y, a.x, a.y, leaf']) * s) % SubOrder(sc)
  {
    var r8, a, s := NoncePoint(sc, key, leaf), PublicPoint(sc, key), SecretScalar(sc, key);
    var c := sc.poseidon([r8.x, r8.y, a.x, a.y, leaf]);
    var c' := sc.poseidon([r8.x, r8.y, a.x, a.y, leaf']);
    SecretMultipleOfEight(sc, key);
    TimesOn(sc.group, sc.base8, s / 8);
    TimesOn(sc.group, sc.base8, Nonce(sc, key, leaf));
    PointFromCoords(sc, a);
    PointFromCoords(sc, r8);
    AcceptedForIff(sc, RestoreIssuerKey(sc, key), leaf, leaf', Sign(sc, key, leaf));
    PublicMultiple(sc, s, c);
    PublicMultiple(sc, s, c');
    EqualMultiples(sc, (c * s) % SubOrder(sc), (c' * s) % SubOrder(sc));
  }

  lemma EqualMultiples(sc: Scheme, k: nat, l: nat)
    requires Sound(sc) && IsOrder(sc.group, sc.base8, SubOrder(sc)) && k < SubOrder(sc) && l < SubOrder(sc)
    ensures Multiple(sc, sc.base8, k) == Multiple(sc, sc.base8, l) <==> k == l
  {
    if Multiple(sc, sc.base8, k) == Multiple(sc, sc.base8, l) {
      if k <= l { TimesInjective(sc.group, sc.base8, SubOrder(sc), k, l); }
      else { TimesInjective(sc.group, sc.base8, SubOrder(sc), l, k); }
    }
  }

  /** The signer's S: over one nonce, two leaves get the same S exactly under that same condition. */
  lemma SignerCovers(sc: Scheme, key: Bytes32, leaf: nat, leaf': nat)
    requires SubOrder(sc) > 0 && Nonce(sc, key, leaf) == Nonce(sc, key, leaf')
    ensures var r8, a, s := NoncePoint(sc, key, leaf), PublicPoint(sc, key), SecretScalar(sc, key);
      Sign(sc, key, leaf).s == Sign(sc, key, leaf').s <==>
        (sc.poseidon([r8.x, r8.y, a.x, a.y, leaf]) * s) % SubOrder(sc)
          == (sc.poseidon([r8.x, r8.y, a.x, a.y, leaf']) * s) % SubOrder(sc)
  {
    var r8, a, s := NoncePoint(sc, key, leaf), PublicPoint(sc, key), SecretScalar(sc, key);
    SameShift(SubOrder(sc), Nonce(sc, key, leaf),
              sc.poseidon([r8.x, r8.y, a.x, a.y, leaf]) * s, sc.poseidon([r8.x, r8.y, a.x, a.y, leaf']) * s);
  }

  lemma SameShift(l: int, r: int, x: int, y: int)
    requires l > 0
    ensures (r + x) % l == (r + y) % l <==> x % l == y % l
  {
    if (r + x) % l == (r + y) % l { ModToCong(l, r + x, r + y); CongToMod(l, x, y); }
    if x % l == y % l { ModToCong(l, x, y); CongToMod(l, r + x, r + y); }
  }

  lemma AppendedLeaf(h: seq<byte>, leaf: nat, leaf': nat, n: nat)
    requires leaf < Pow256(n) && leaf' < Pow256(n)
    ensures h + ToLe(leaf, n) == h + ToLe(leaf', n) <==> leaf == leaf'
  {
    LeRoundTrip(leaf, n);
    LeRoundTrip(leaf', n);
    assert (h + ToLe(leaf, n))[|h|..] == ToLe(leaf, n) && (h + ToLe(leaf', n))[|h|..] == ToLe(leaf', n);
  }

  /** The nonce hashes the second half of the digest and the leaf, and different leaves of 32 bytes give it
      different texts: equal nonces are equal hash values modulo the subgroup order. */
  lemma NonceCovers(sc: Scheme, key: Bytes32, leaf: nat, leaf': nat)
    requires SubOrder(sc) > 0 && leaf < Pow256(32) && leaf' < Pow256(32)
    ensures var x, y := sc.blake512(key)[32..64] + ToLe(leaf, 32), sc.blake512(key)[32..64] + ToLe(leaf', 32);
      && (x == y <==> leaf == leaf')
      && (Nonce(sc, key, leaf) == Nonce(sc, key, leaf')
          <==> LeVal(sc.blake512(x)) % SubOrder(sc) == LeVal(sc.blake512(y)) % SubOrder(sc))
  {
    AppendedLeaf(sc.blake512(key)[32..64], leaf, leaf', 32);
  }

  /** At most one S is accepted for a key, leaf and R8: any change to S alone is rejected. */
  lemma AcceptedSIsUnique(sc: Scheme, key: IssuerKey, leaf: nat, sig: Signature, s': nat)
    requires Sound(sc) && IsOrder(sc.group, sc.base8, SubOrder(sc))
    requires Verify(sc, key, leaf, sig) && Verify(sc, key, leaf, sig.(s := s'))
    ensures s' == sig.s
  {
    if s' <= sig.s {
      TimesInjective(sc.group, sc.base8, SubOrder(sc), s', sig.s);
    } else {
      TimesInjective(sc.group, sc.base8, SubOrder(sc), sig.s, s');
    }
  }

  // ----- the published parameters -----

  const BN254: int := 21888242871839275222246405745257275088548364400416034343698204186575808495617
  const ORDER: nat := 21888242871839275222246405745257275088614511777268538073601725287587578984328
  const BASE8 := Point(5299619240641551281634865583518297030282874472190772894086521144482721001553,
                       16950150798460657717958625567821834550301663161624707787222815936182638968203)
  const BABYJUB := Curve(BN254, 168700, 168696)

  lemma BasePointOnCurve()
    ensures OnCurve(BABYJUB, BASE8)
  {
    var x2 := 607742042888016619569620746324513481149123972252924884615094806956300595521;
    var y2 := 11976306643719063753190278949402960726252923955722022258665135291130529546895;
    var dxy := 13529330156957644146045673109750715822928191475445190942770658897954000469566;
    assert BASE8.x * BASE8.x % BN254 == x2;
    assert BASE8.y * BASE8.y % BN254 == y2;
    assert 168696 * x2 % BN254 == 21010298213525789136823316920306976260627136031127503489343348565574077036205;
    assert 21010298213525789136823316920306976260627136031127503489343348565574077036205 * y2 % BN254 == dxy;
    assert (168700 * x2 % BN254 + y2) % BN254 == (1 + dxy) % BN254;
  }

  lemma WordHoldsFelt()
    ensures BN254 < Pow256(32)
  {
    assert Pow256(8) == 0x1_0000_0000_0000_0000;
    assert Pow256(16) == 0x1_0000_0000_0000_0000_0000_0000_0000_0000;
    assert Pow256(24) == 0x1_0000_0000_0000_0000_0000_0000_0000_0000_0000_0000_0000_0000;
  }

  /** The constants of babyjub.rs meet the computable part of the conditions: BASE8 is on the curve, 8
      divides the order, and a has a square root. */
  lemma PublishedParameters()
    ensures OnCurve(BABYJUB, BASE8)
    ensures ORDER > 0 && ORDER % 8 == 0 && ORDER / 8 < BN254 < Pow256(32)
    ensures exists s :: IsRoot(BN254, s, BABYJUB.a)
    ensures !Cong(BN254, BABYJUB.a, 0)
  {
    BasePointOnCurve();
    WordHoldsFelt();
    assert IsRoot(BN254, 7214280148105020021932206872019688659210616427216992810330019057549499971851, BABYJUB.a);
  }

  function Kanon(blake512: seq<byte> -> Bytes64, poseidon: seq<int> -> nat): Scheme {
    Scheme(BN254, CurveGroup(BABYJUB), BASE8, ORDER, blake512, poseidon)
  }

  /** What remains to be granted of the curve for the results above to hold of the code's own scheme. */
  lemma KanonIsSound(blake512: seq<byte> -> Bytes64, poseidon: seq<int> -> nat)
    requires IsPrime(BN254) && (forall s :: !IsRoot(BN254, s, BABYJUB.d)) && Associative(BABYJUB)
    requires Times(CurveGroup(BABYJUB), BASE8, ORDER / 8) == NEUTRAL
    ensures Sound(Kanon(blake512, poseidon))
  {
    PublishedParameters();
    CurveIsGroup(BABYJUB);
  }
}
