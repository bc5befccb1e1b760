/** The Mode B leaf of a credential (`leaf.rs`), the field-element encodings (`poseidon.rs`), and what
    `prepare_mode_b` signs (`zk.rs`). */
module CredentialLeaf {
  import opened Wrappers
  import opened Bytes
  import opened NameOrder
  import opened Sequences
  import Hex
  import PrimeField

  /** The scalar field and the hashes, uninterpreted; `utf8` encodes a string. */
  datatype Crypto = Crypto(p: int, keccak: seq<byte> -> Bytes32, poseidon: seq<int> -> nat, utf8: string -> seq<byte>)

  /** The modulus fits a word and Poseidon returns field elements. */
  ghost predicate Proper(cx: Crypto) {
    0 < cx.p <= Pow256(32) && forall xs :: cx.poseidon(xs) < cx.p
  }

  type Attribute = Entry<string>

  const CRED_ID := "kanonCredId"
  const ZK_SIG := "kanonZkSig"
  const ZK_PROOF := "kanonZkProof"

  predicate Reserved(name: string) {
    name == CRED_ID || name == ZK_SIG || name == ZK_PROOF
  }

  // ----- field elements -----

  /** `felt_from_be_bytes`. */
  function FeltFromBe(cx: Crypto, b: seq<byte>): int
    requires cx.p > 0
  {
    BeVal(b) % cx.p
  }

  /** `felt_to_bytes32` (computed by Bytes.BiguintToBe32). */
  function FeltToBytes32(f: nat): Bytes32 {
    ToBe(f, 32)
  }

  lemma FeltRoundTrip(cx: Crypto, f: nat)
    requires f < cx.p <= Pow256(32)
    ensures FeltFromBe(cx, FeltToBytes32(f)) == f
  {
    BeRoundTrip(f, 32);
    PrimeField.DivMod(cx.p, f, 0, f);
  }

  /** And the word survives the hex text of the checkpoint. */
  lemma FeltThroughHex(cx: Crypto, f: nat)
    requires f < cx.p <= Pow256(32)
    ensures Hex.ParseBytes32(Hex.Encode(FeltToBytes32(f))) == Ok(FeltToBytes32(f))
    ensures FeltFromBe(cx, FeltToBytes32(f)) == f
  {
    Hex.ParseEncoded(FeltToBytes32(f));
    FeltRoundTrip(cx, f);
  }

  function AttrValueToFelt(cx: Crypto, value: string): int
    requires cx.p > 0
  {
    FeltFromBe(cx, cx.keccak(cx.utf8(value)))
  }

  // ----- canonical attribute order -----

  /** The attributes that are not reserved, in the order given, with their felts. */
  function Kept(cx: Crypto, attrs: seq<Attribute>): seq<Entry<int>>
    requires cx.p > 0
  {
    if attrs == [] then []
    else
      var rest := Kept(cx, attrs[1..]);
      if Reserved(attrs[0].name) then rest
      else [Entry(attrs[0].name, AttrValueToFelt(cx, attrs[0].value))] + rest
  }

  function Felts(s: seq<Entry<int>>): (r: seq<int>)
    ensures |r| == |s| && forall i :: 0 <= i < |s| ==> r[i] == s[i].value
  {
    seq(|s|, i requires 0 <= i < |s| => s[i].value)
  }

  /** `encode_attributes_canonical`: drop the reserved names, sort by name, encode the values. */
  function EncodeAttributes(cx: Crypto, attrs: seq<Attribute>): seq<int>
    requires cx.p > 0
  {
    Felts(Sort(Kept(cx, attrs)))
  }

  const CIRCUIT_ATTRS := 16

  /** `pad_attrs_to_circuit`. */
  function PadAttrs(felts: seq<int>): (r: Result<seq<int>>)
    ensures r.Err? <==> |felts| > CIRCUIT_ATTRS
    ensures r.Ok? ==> |r.value| == CIRCUIT_ATTRS && felts <= r.value
    ensures r.Ok? ==> forall i :: |felts| <= i < CIRCUIT_ATTRS ==> r.value[i] == 0
  {
    if |felts| > CIRCUIT_ATTRS then Err else Ok(felts + seq(CIRCUIT_ATTRS - |felts|, i => 0))
  }

  const LEAF_TAG := 1

  /** `compute_zk_leaf`. */
  function ZkLeaf(cx: Crypto, credDef: Bytes32, credId: Bytes32, attrs: seq<int>): Result<nat>
    requires cx.p > 0
  {
    if |attrs| != CIRCUIT_ATTRS then Err
    else Ok(cx.poseidon([LEAF_TAG, FeltFromBe(cx, credDef), FeltFromBe(cx, credId), cx.poseidon(attrs)]))
  }

  /** The leaf of a credential, as `prepare_mode_b` and `compute_poseidon_leaf` both form it. */
  function LeafOf(cx: Crypto, credDef: Bytes32, credId: string, attrs: seq<Attribute>): Result<nat>
    requires cx.p > 0
  {
    match PadAttrs(EncodeAttributes(cx, attrs))
    case Ok(padded) => ZkLeaf(cx, credDef, cx.keccak(cx.utf8(credId)), padded)
    case Err => Err
  }

  /** `compute_poseidon_leaf`. */
  function PoseidonLeaf(cx: Crypto, credDef: Bytes32, credId: string, attrs: seq<Attribute>): Result<Bytes32>
    requires cx.p > 0
  {
    match LeafOf(cx, credDef, credId, attrs)
    case Ok(f) => Ok(FeltToBytes32(f))
    case Err => Err
  }

  /** `prepare_mode_b` up to signing: refuse reserved names, otherwise the leaf that is signed and the
      attribute list handed on, with the reserved names at the tail. */
  datatype Prepared = Prepared(leaf: nat, attributes: seq<Attribute>)

  function PrepareModeB(cx: Crypto, credDef: Bytes32, credId: string, domain: seq<Attribute>, sig: string): Result<Prepared>
    requires cx.p > 0
  {
    if exists i :: 0 <= i < |domain| && Reserved(domain[i].name) then Err
    else
      match LeafOf(cx, credDef, credId, domain)
      case Ok(f) => Ok(Prepared(f, domain + ReservedTail(credId, sig)))
      case Err => Err
  }

  // ----- order independence -----

  lemma {:induction false} KeptConcat(cx: Crypto, a: seq<Attribute>, b: seq<Attribute>)
    requires cx.p > 0
    ensures Kept(cx, a + b) == Kept(cx, a) + Kept(cx, b)
  {
    if a == [] {
      assert a + b == b;
    } else {
      KeptConcat(cx, a[1..], b);
      assert (a + b)[1..] == a[1..] + b;
    }
  }

  lemma {:induction false} KeptOfReserved(cx: Crypto, tail: seq<Attribute>)
    requires cx.p > 0 && forall i :: 0 <= i < |tail| ==> Reserved(tail[i].name)
    ensures Kept(cx, tail) == []
  {
    if tail != [] { KeptOfReserved(cx, tail[1..]); }
  }

  lemma KeptWithout(cx: Crypto, s: seq<Attribute>, k: nat)
    requires cx.p > 0 && k < |s|
    ensures multiset(Kept(cx, s)) == multiset(Kept(cx, Without(s, k))) + multiset(Kept(cx, [s[k]]))
  {
    assert s == s[..k] + ([s[k]] + s[k + 1..]);
    KeptConcat(cx, s[..k], [s[k]] + s[k + 1..]);
    KeptConcat(cx, [s[k]], s[k + 1..]);
    KeptConcat(cx, s[..k], s[k + 1..]);
  }

  /** Kept commutes with permutation: remove the head of one list from the middle of the other. */
  lemma {:induction false} KeptPermutes(cx: Crypto, a: seq<Attribute>, b: seq<Attribute>)
    requires cx.p > 0 && multiset(a) == multiset(b)
    ensures multiset(Kept(cx, a)) == multiset(Kept(cx, b))
    decreases |a|
  {
    assert |a| == |multiset(a)| == |multiset(b)| == |b|;
    if a != [] {
      assert a[0] in multiset(b);
      var k :| 0 <= k < |b| && b[k] == a[0];
      WithoutMultiset(a, 0);
      WithoutMultiset(b, k);
      assert multiset(Without(a, 0)) == multiset(a) - multiset{a[0]};
      assert multiset(Without(b, k)) == multiset(b) - multiset{a[0]};
      KeptPermutes(cx, Without(a, 0), Without(b, k));
      KeptWithout(cx, a, 0);
      KeptWithout(cx, b, k);
    }
  }

  /** The encoding of a list is the same for every permutation of it, with or without reserved attributes
      at the tail, when equally named attributes have equal felts. */
  lemma EncodingForgetsOrder(cx: Crypto, a: seq<Attribute>, b: seq<Attribute>, tail: seq<Attribute>)
    requires cx.p > 0 && multiset(a + tail) == multiset(b) && Consistent(Kept(cx, a))
    requires forall i :: 0 <= i < |tail| ==> Reserved(tail[i].name)
    ensures EncodeAttributes(cx, a) == EncodeAttributes(cx, b)
  {
    KeptPermutes(cx, a + tail, b);
    KeptConcat(cx, a, tail);
    KeptOfReserved(cx, tail);
    assert Kept(cx, a) + [] == Kept(cx, a);
    SortForgetsOrder(Kept(cx, a), Kept(cx, b));
  }

  lemma LeafForgetsOrder(cx: Crypto, credDef: Bytes32, credId: string, domain: seq<Attribute>,
                         issued: seq<Attribute>, tail: seq<Attribute>)
    requires cx.p > 0 && Consistent(Kept(cx, domain)) && multiset(domain + tail) == multiset(issued)
    requires forall i :: 0 <= i < |tail| ==> Reserved(tail[i].name)
    ensures LeafOf(cx, credDef, credId, domain) == LeafOf(cx, credDef, credId, issued)
  {
    EncodingForgetsOrder(cx, domain, issued, tail);
  }

  function ReservedTail(credId: string, sig: string): seq<Attribute> {
    [Entry(CRED_ID, credId), Entry(ZK_SIG, sig)]
  }

  /** The leaf published for any permutation of the issued attributes, with or without the reserved tail,
      is the word encoding of the leaf that was signed, and reads back from the checkpoint's hex text as
      that field element. */
  lemma PublishedLeafIsSigned(cx: Crypto, credDef: Bytes32, credId: string, domain: seq<Attribute>, sig: string,
                              issued: seq<Attribute>, signed: nat)
    requires Proper(cx) && Consistent(Kept(cx, domain))
    requires PrepareModeB(cx, credDef, credId, domain, sig) == Ok(Prepared(signed, domain + ReservedTail(credId, sig)))
    requires multiset(issued) == multiset(domain) || multiset(issued) == multiset(domain + ReservedTail(credId, sig))
    ensures signed < cx.p
    ensures PoseidonLeaf(cx, credDef, credId, issued) == Ok(FeltToBytes32(signed))
    ensures Hex.ParseBytes32(Hex.Encode(FeltToBytes32(signed))) == Ok(FeltToBytes32(signed))
    ensures FeltFromBe(cx, FeltToBytes32(signed)) == signed
  {
    var tail := if multiset(issued) == multiset(domain) then [] else ReservedTail(credId, sig);
    assert domain + [] == domain;
    LeafForgetsOrder(cx, credDef, credId, domain, issued, tail);
    LeafWord(cx, credDef, credId, issued, signed);
  }

  lemma LeafWord(cx: Crypto, credDef: Bytes32, credId: string, attrs: seq<Attribute>, leaf: nat)
    requires Proper(cx) && LeafOf(cx, credDef, credId, attrs) == Ok(leaf)
    ensures leaf < cx.p && PoseidonLeaf(cx, credDef, credId, attrs) == Ok(FeltToBytes32(leaf))
    ensures Hex.ParseBytes32(Hex.Encode(FeltToBytes32(leaf))) == Ok(FeltToBytes32(leaf))
    ensures FeltFromBe(cx, FeltToBytes32(leaf)) == leaf
  {
    FeltThroughHex(cx, leaf);
  }

  // ----- exactly when the order is forgotten -----

  lemma {:induction false} KeptOrigin(cx: Crypto, a: seq<Attribute>, k: nat) returns (i: nat)
    requires cx.p > 0 && k < |Kept(cx, a)|
    ensures i < |a| && !Reserved(a[i].name)
    ensures Kept(cx, a)[k] == Entry(a[i].name, AttrValueToFelt(cx, a[i].value))
  {
    if Reserved(a[0].name) {
      i := KeptOrigin(cx, a[1..], k);
      i := i + 1;
    } else if k == 0 {
      i := 0;
    } else {
      i := KeptOrigin(cx, a[1..], k - 1);
      i := i + 1;
    }
  }

  lemma {:induction false} KeptSorted(cx: Crypto, a: seq<Attribute>)
    requires cx.p > 0 && Sorted(a)
    ensures Sorted(Kept(cx, a))
  {
    if a != [] {
      KeptSorted(cx, a[1..]);
      var rest := Kept(cx, a[1..]);
      forall x | x in rest ensures NameLe(a[0].name, x.name) {
        var k :| 0 <= k < |rest| && rest[k] == x;
        var i := KeptOrigin(cx, a[1..], k);
        assert a[1..][i] == a[i + 1];
      }
      SortedCons(Entry(a[0].name, AttrValueToFelt(cx, a[0].value)), rest);
    }
  }

  /** Two attributes of one name whose felts differ. */
  predicate Clash(cx: Crypto, x: Attribute, y: Attribute)
    requires cx.p > 0
  {
    x.name == y.name && !Reserved(x.name) && AttrValueToFelt(cx, x.value) != AttrValueToFelt(cx, y.value)
  }

  lemma {:induction false} ClashingNeighbours(cx: Crypto, s: seq<Attribute>, i: nat, j: nat) returns (k: nat)
    requires cx.p > 0 && Sorted(s) && i < j < |s| && Clash(cx, s[i], s[j])
    ensures k + 1 < |s| && Clash(cx, s[k], s[k + 1])
    decreases j - i
  {
    NameTotal(s[i].name, s[i + 1].name);
    if i + 1 < j { NameTotal(s[i + 1].name, s[j].name); }
    if Clash(cx, s[i], s[i + 1]) {
      k := i;
    } else {
      k := ClashingNeighbours(cx, s, i + 1, j);
    }
  }

  /** Between the same two lists, clashing neighbours in either order are sorted and encode differently. */
  lemma NeighboursMatter(cx: Crypto, l: seq<Attribute>, x: Attribute, y: Attribute, r: seq<Attribute>)
    requires cx.p > 0 && Clash(cx, x, y) && Sorted(l + [x, y] + r) && Sorted(l + [y, x] + r)
    ensures EncodeAttributes(cx, l + [x, y] + r) != EncodeAttributes(cx, l + [y, x] + r)
  {
    var s, t := l + [x, y] + r, l + [y, x] + r;
    KeptSorted(cx, s);
    KeptSorted(cx, t);
    SortFixesSorted(Kept(cx, s));
    SortFixesSorted(Kept(cx, t));
    KeptTwo(cx, l, x, y, r);
    KeptTwo(cx, l, y, x, r);
    var k := |Kept(cx, l)|;
    assert Felts(Kept(cx, s))[k] == AttrValueToFelt(cx, x.value);
    assert Felts(Kept(cx, t))[k] == AttrValueToFelt(cx, y.value);
  }

  lemma KeptTwo(cx: Crypto, l: seq<Attribute>, x: Attribute, y: Attribute, r: seq<Attribute>)
    requires cx.p > 0 && !Reserved(x.name) && !Reserved(y.name)
    ensures Kept(cx, l + [x, y] + r) == Kept(cx, l)
      + [Entry(x.name, AttrValueToFelt(cx, x.value)), Entry(y.name, AttrValueToFelt(cx, y.value))] + Kept(cx, r)
  {
    KeptConcat(cx, l + [x, y], r);
    KeptConcat(cx, l, [x, y]);
    assert [x, y] == [x] + [y];
    KeptConcat(cx, [x], [y]);
    KeptOne(cx, x);
    KeptOne(cx, y);
  }

  lemma KeptOne(cx: Crypto, x: Attribute)
    requires cx.p > 0 && !Reserved(x.name)
    ensures Kept(cx, [x]) == [Entry(x.name, AttrValueToFelt(cx, x.value))]
  {
    assert Kept(cx, [x][1..]) == [];
  }

  lemma SwapSorted(l: seq<Attribute>, x: Attribute, y: Attribute, r: seq<Attribute>)
    requires Sorted(l + [x, y] + r) && x.name == y.name
    ensures Sorted(l + [y, x] + r)
    ensures multiset(l + [y, x] + r) == multiset(l + [x, y] + r)
  {
    var s, t := l + [x, y] + r, l + [y, x] + r;
    assert forall i :: 0 <= i < |s| ==> s[i].name == t[i].name;
  }

  lemma ClashingPair(cx: Crypto, a: seq<Attribute>) returns (i: nat, j: nat)
    requires cx.p > 0 && !Consistent(Kept(cx, a))
    ensures i < |a| && j < |a| && Clash(cx, a[i], a[j])
  {
    var kept := Kept(cx, a);
    var g, h :| 0 <= g < |kept| && 0 <= h < |kept| && kept[g].name == kept[h].name && kept[g] != kept[h];
    i := KeptOrigin(cx, a, g);
    j := KeptOrigin(cx, a, h);
  }

  lemma SwapMatters(cx: Crypto, s: seq<Attribute>, k: nat) returns (t: seq<Attribute>)
    requires cx.p > 0 && Sorted(s) && k + 1 < |s| && Clash(cx, s[k], s[k + 1])
    ensures multiset(t) == multiset(s) && EncodeAttributes(cx, t) != EncodeAttributes(cx, s)
  {
    var l, x, y, r := s[..k], s[k], s[k + 1], s[k + 2..];
    assert s == l + [x, y] + r;
    t := l + [y, x] + r;
    SwapSorted(l, x, y, r);
    NeighboursMatter(cx, l, x, y, r);
  }

  /** Where two kept attributes of one name have different felts the order does matter: two permutations
      of the list encode differently. */
  lemma InconsistentOrderMatters(cx: Crypto, a: seq<Attribute>) returns (s: seq<Attribute>, t: seq<Attribute>)
    requires cx.p > 0 && !Consistent(Kept(cx, a))
    ensures multiset(s) == multiset(t) == multiset(a)
    ensures EncodeAttributes(cx, s) != EncodeAttributes(cx, t)
  {
    s := Sort(a);
    SortPermutes(a);
    SortSorted(a);
    var g, h := ClashingPair(cx, a);
    var i, j := ClashMoves(cx, a, s, g, h);
    var k := ClashingNeighbours(cx, s, i, j);
    t := SwapMatters(cx, s, k);
  }

  lemma ClashMoves(cx: Crypto, a: seq<Attribute>, s: seq<Attribute>, g: nat, h: nat) returns (i: nat, j: nat)
    requires cx.p > 0 && multiset(s) == multiset(a) && g < |a| && h < |a| && Clash(cx, a[g], a[h])
    ensures i < j < |s| && Clash(cx, s[i], s[j])
  {
    InSame(a, s, a[g]);
    InSame(a, s, a[h]);
    i :| 0 <= i < |s| && s[i] == a[g];
    j :| 0 <= j < |s| && s[j] == a[h];
    if j < i { i, j := j, i; }
  }

  /** The encoding depends on the attributes alone, not on their order, exactly when equally named kept
      attributes have equal felts. */
  lemma OrderForgottenIff(cx: Crypto, a: seq<Attribute>)
    requires cx.p > 0
    ensures (forall b :: multiset(b) == multiset(a) ==> EncodeAttributes(cx, b) == EncodeAttributes(cx, a))
       <==> Consistent(Kept(cx, a))
  {
    if Consistent(Kept(cx, a)) {
      forall b | multiset(b) == multiset(a) ensures EncodeAttributes(cx, b) == EncodeAttributes(cx, a) {
        assert a + [] == a;
        EncodingForgetsOrder(cx, a, b, []);
      }
    } else {
      var s, t := InconsistentOrderMatters(cx, a);
    }
  }

  // ----- what the leaf covers -----

  /** Equal leaves come from equal cred-def, credential id and padded values, or show where Poseidon maps two
      different lists, both written out here, to one value. */
  lemma LeafBinds(cx: Crypto, cd: Bytes32, id: string, a: seq<Attribute>, cd': Bytes32, id': string, b: seq<Attribute>)
    requires cx.p > 0 && LeafOf(cx, cd, id, a).Ok? && LeafOf(cx, cd, id, a) == LeafOf(cx, cd', id', b)
    ensures |EncodeAttributes(cx, a)| <= 16 && |EncodeAttributes(cx, b)| <= 16
    ensures var v, w := EncodeAttributes(cx, a), EncodeAttributes(cx, b);
      var p, q := v + seq(16 - |v|, i => 0), w + seq(16 - |w|, i => 0);
      var x := [1, BeVal(cd) % cx.p, BeVal(cx.keccak(cx.utf8(id))) % cx.p, cx.poseidon(p)];
      var y := [1, BeVal(cd') % cx.p, BeVal(cx.keccak(cx.utf8(id'))) % cx.p, cx.poseidon(q)];
      || (p == q && x == y)
      || (p != q && cx.poseidon(p) == cx.poseidon(q))
      || (x != y && cx.poseidon(x) == cx.poseidon(y))
  {
    var v, w := EncodeAttributes(cx, a), EncodeAttributes(cx, b);
    assert PadAttrs(v) == Ok(v + seq(16 - |v|, i => 0));
    assert PadAttrs(w) == Ok(w + seq(16 - |w|, i => 0));
  }

  lemma {:induction false} KeptAll(cx: Crypto, s: seq<Attribute>)
    requires cx.p > 0 && forall i :: 0 <= i < |s| ==> !Reserved(s[i].name)
    ensures |Kept(cx, s)| == |s|
    ensures forall i :: 0 <= i < |s| ==> Kept(cx, s)[i] == Entry(s[i].name, BeVal(cx.keccak(cx.utf8(s[i].value))) % cx.p)
  {
    if s != [] { KeptAll(cx, s[1..]); }
  }

  /** Attributes in name order are encoded one by one, each by the hash of its value. */
  lemma SortedEncoding(cx: Crypto, s: seq<Attribute>)
    requires cx.p > 0 && Sorted(s) && forall i :: 0 <= i < |s| ==> !Reserved(s[i].name)
    ensures |EncodeAttributes(cx, s)| == |s|
    ensures forall i :: 0 <= i < |s| ==> EncodeAttributes(cx, s)[i] == BeVal(cx.keccak(cx.utf8(s[i].value))) % cx.p
  {
    KeptAll(cx, s);
    KeptSorted(cx, s);
    SortFixesSorted(Kept(cx, s));
  }

  /** The leaf covers the values in name order and not the names: renaming attributes without changing their
      order gives the same leaf. */
  lemma RenamingKeepsLeaf(cx: Crypto, cd: Bytes32, id: string, s: seq<Attribute>, t: seq<Attribute>)
    requires cx.p > 0 && Sorted(s) && Sorted(t) && |s| == |t|
    requires forall i :: 0 <= i < |s| ==> !Reserved(s[i].name) && !Reserved(t[i].name) && s[i].value == t[i].value
    ensures LeafOf(cx, cd, id, s) == LeafOf(cx, cd, id, t)
  {
    SortedEncoding(cx, s);
    SortedEncoding(cx, t);
    assert EncodeAttributes(cx, s) == EncodeAttributes(cx, t);
  }

  /** Preparation refuses exactly the three reserved names and more than 16 attributes, and hands on the
      attributes with the id and the signature at the end. */
  lemma PrepareModeBIff(cx: Crypto, credDef: Bytes32, credId: string, domain: seq<Attribute>, sig: string)
    requires cx.p > 0
    ensures PrepareModeB(cx, credDef, credId, domain, sig).Err? <==>
      || (exists i :: 0 <= i < |domain| && domain[i].name in ["kanonCredId", "kanonZkSig", "kanonZkProof"])
      || |domain| > 16
    ensures PrepareModeB(cx, credDef, credId, domain, sig).Ok? ==>
      PrepareModeB(cx, credDef, credId, domain, sig).value.attributes
        == domain + [Entry("kanonCredId", credId), Entry("kanonZkSig", sig)]
  {
    assert forall i :: 0 <= i < |domain| ==>
      (Reserved(domain[i].name) <==> domain[i].name in ["kanonCredId", "kanonZkSig", "kanonZkProof"]);
    if forall i :: 0 <= i < |domain| ==> !Reserved(domain[i].name) {
      KeptAll(cx, domain);
      SortPermutes(Kept(cx, domain));
      assert |multiset(Sort(Kept(cx, domain)))| == |multiset(Kept(cx, domain))|;
    }
  }
}
