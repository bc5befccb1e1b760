/** Onion wrapping of a packed response into Forward messages, one layer per routing key, and what the
    mediators along the route see of it. */
module ForwardWrap {
  import opened Wrappers

  /** Anonymous encryption as a sealed envelope: only the key it was sealed for opens it.  Inside is a
      Forward message. */
  datatype Envelope = Packed(text: string) | Sealed(key: string, forward: Forward)

  datatype Forward = Forward(to: string, msg: Envelope)

  /** `toVerkey` turns a did:key into its base58 key, if it is well formed; `canSeal` tells whether packing
      for a key succeeds. */
  datatype Keys = Keys(toVerkey: string -> Option<string>, canSeal: string -> bool)

  const DID_KEY := "did:key:"

  /** A malformed did:key passes through unchanged. */
  function Verkey(ks: Keys, key: string): string {
    if DID_KEY <= key && ks.toVerkey(key).Some? then ks.toVerkey(key).value else key
  }

  /** Everything before the first '#'. */
  function NoFragment(key: string): (r: string)
    ensures r <= key && '#' !in r
    ensures r == key || key[|r|] == '#'
  {
    if |key| == 0 || key[0] == '#' then [] else [key[0]] + NoFragment(key[1..])
  }

  /** The form in which a mediator's keylist holds a routing key. */
  function Normalise(ks: Keys, key: string): string {
    Verkey(ks, NoFragment(key))
  }

  /** The addressee of the innermost layer: the first recipient key that is not a reference, else the peer's
      authentication key, else the key id the response was packed for. */
  function ForwardTo(ks: Keys, recipientKeys: seq<string>, authKey: Option<string>, kid: string): string {
    if |recipientKeys| == 0 then
      if authKey.Some? then authKey.value else kid
    else if "#" <= recipientKeys[0] then ForwardTo(ks, recipientKeys[1..], authKey, kid)
    else Verkey(ks, recipientKeys[0])
  }

  /** The address of hop j of the route, the recipient after the last key. */
  function Address(ks: Keys, routing: seq<string>, to: string, j: nat): string
    requires j <= |routing|
  {
    if j == |routing| then to else Normalise(ks, routing[j])
  }

  /** The onion from the outside in, from hop j on. */
  function Onion(ks: Keys, payload: string, routing: seq<string>, to: string, j: nat): Envelope
    requires j <= |routing|
    decreases |routing| - j
  {
    if j == |routing| then Packed(payload)
    else Sealed(routing[j], Forward(Address(ks, routing, to, j + 1), Onion(ks, payload, routing, to, j + 1)))
  }

  lemma OnionLayer(ks: Keys, payload: string, routing: seq<string>, to: string, j: nat, next: string, inner: Envelope)
    requires j < |routing| && inner == Onion(ks, payload, routing, to, j + 1)
    requires next == if j + 1 == |routing| then to else Normalise(ks, routing[j + 1])
    ensures Onion(ks, payload, routing, to, j) == Sealed(routing[j], Forward(next, inner))
  {
  }

  /** The loop goes from the last routing key to the first and builds the onion from the inside.  It fails
      exactly when a key cannot be sealed for. */
  method Wrap(ks: Keys, payload: string, recipientKeys: seq<string>, authKey: Option<string>, kid: string,
              routing: seq<string>)
    returns (r: Option<Envelope>)
    ensures r.Some? <==> forall j :: 0 <= j < |routing| ==> ks.canSeal(routing[j])
    ensures r.Some? ==> r.value == Onion(ks, payload, routing, ForwardTo(ks, recipientKeys, authKey, kid), 0)
    ensures |routing| == 0 ==> r == Some(Packed(payload))
  {
    if |routing| == 0 {
      return Some(Packed(payload));
    }
    var to := ForwardTo(ks, recipientKeys, authKey, kid);
    var wrapped := Packed(payload);
    for i := 0 to |routing|
      invariant to == ForwardTo(ks, recipientKeys, authKey, kid)
      invariant wrapped == Onion(ks, payload, routing, to, |routing| - i)
      invariant forall j :: |routing| - i <= j < |routing| ==> ks.canSeal(routing[j])
    {
      var toField := to;
      if i != 0 {
        toField := Normalise(ks, routing[|routing| - i]);
      }
      var key := routing[|routing| - 1 - i];
      if !ks.canSeal(key) {
        return None;
      }
      OnionLayer(ks, payload, routing, to, |routing| - 1 - i, toField, wrapped);
      wrapped := Sealed(key, Forward(toField, wrapped));
    }
    r := Some(wrapped);
  }

  // ----- the mediators' side -----

  function Open(env: Envelope, key: string): Option<Forward> {
    if env.Sealed? && env.key == key then Some(env.forward) else None
  }

  /** What is read off by opening with one key after the other: the addresses named and what is left. */
  datatype Peeled = Stuck | Peeled(hops: seq<string>, rest: Envelope)

  function Peel(env: Envelope, keys: seq<string>): Peeled {
    if |keys| == 0 then Peeled([], env)
    else
      var o := Open(env, keys[0]);
      if o.None? then Stuck
      else
        var p := Peel(o.value.msg, keys[1..]);
        if p.Stuck? then Stuck else Peeled([o.value.to] + p.hops, p.rest)
  }

  lemma {:induction false} PeelOnion(ks: Keys, payload: string, routing: seq<string>, to: string, j: nat)
    requires j <= |routing|
    ensures var p := Peel(Onion(ks, payload, routing, to, j), routing[j..]);
            && p.Peeled? && p.rest == Packed(payload)
            && |p.hops| == |routing| - j
            && (forall i :: 0 <= i < |p.hops| ==> p.hops[i] == Address(ks, routing, to, j + 1 + i))
    decreases |routing| - j
  {
    if j < |routing| {
      PeelOnion(ks, payload, routing, to, j + 1);
      assert routing[j..][0] == routing[j] && routing[j..][1..] == routing[j + 1..];
    }
  }

  /** Opening with the routing keys in order always succeeds, layer j names the normalised key j + 1, the
      last layer names the recipient, and the payload comes out as it went in. */
  lemma PeelsToPayload(ks: Keys, payload: string, routing: seq<string>, to: string)
    requires |routing| > 0
    ensures var p := Peel(Onion(ks, payload, routing, to, 0), routing);
            && p.Peeled? && p.rest == Packed(payload)
            && |p.hops| == |routing|
            && (forall j :: 0 <= j < |routing| - 1 ==> p.hops[j] == Normalise(ks, routing[j + 1]))
            && p.hops[|routing| - 1] == to
  {
    PeelOnion(ks, payload, routing, to, 0);
    assert routing[0..] == routing;
  }

  /** No other list of keys gets to the payload: no hop can be skipped, swapped or added. */
  lemma {:induction false} OnlyTheRoute(ks: Keys, payload: string, routing: seq<string>, to: string, j: nat, keys: seq<string>)
    requires j <= |routing|
    ensures var p := Peel(Onion(ks, payload, routing, to, j), keys);
            p.Peeled? && p.rest.Packed? <==> keys == routing[j..]
    decreases |keys|
  {
    if |keys| > 0 && j < |routing| {
      assert routing[j..] == [routing[j]] + routing[j + 1..];
      assert keys == [keys[0]] + keys[1..];
      OnlyTheRoute(ks, payload, routing, to, j + 1, keys[1..]);
    }
  }

  // ----- travelling -----

  /** One mediator is registered under each address; it opens what reaches it with its own key and hands the
      content to the address named inside. */
  function Travel(holds: string -> string, env: Envelope, at: string, hops: nat): Option<(Envelope, string)> {
    if hops == 0 then Some((env, at))
    else
      var o := Open(env, holds(at));
      if o.None? then None else Travel(holds, o.value.msg, o.value.to, hops - 1)
  }

  lemma {:induction false} TravelsFrom(ks: Keys, holds: string -> string, payload: string, routing: seq<string>, to: string, j: nat)
    requires j <= |routing|
    requires forall i :: 0 <= i < |routing| ==> holds(Normalise(ks, routing[i])) == routing[i]
    ensures Travel(holds, Onion(ks, payload, routing, to, j), Address(ks, routing, to, j), |routing| - j)
            == Some((Packed(payload), to))
    decreases |routing| - j
  {
    if j < |routing| {
      TravelsFrom(ks, holds, payload, routing, to, j + 1);
    }
  }

  /** When every mediator is registered under its normalised key, a message sent to the first one reaches
      the recipient after as many hops as there are routing keys, with the original payload. */
  lemma Arrives(ks: Keys, holds: string -> string, payload: string, routing: seq<string>, to: string)
    requires |routing| > 0
    requires forall i :: 0 <= i < |routing| ==> holds(Normalise(ks, routing[i])) == routing[i]
    ensures Travel(holds, Onion(ks, payload, routing, to, 0), Normalise(ks, routing[0]), |routing|)
            == Some((Packed(payload), to))
  {
    TravelsFrom(ks, holds, payload, routing, to, 0);
  }

  // ----- the recipient's address -----

  /** The recipient is named by the first key that is not a reference; the two fall-backs are used only when
      there is none. */
  lemma {:induction false} ForwardToMeaning(ks: Keys, recipientKeys: seq<string>, authKey: Option<string>, kid: string, i: nat)
    requires i <= |recipientKeys|
    requires forall j :: 0 <= j < i ==> "#" <= recipientKeys[j]
    requires i < |recipientKeys| ==> !("#" <= recipientKeys[i])
    ensures ForwardTo(ks, recipientKeys, authKey, kid) ==
            if i < |recipientKeys| then Verkey(ks, recipientKeys[i])
            else if authKey.Some? then authKey.value else kid
  {
    if i > 0 {
      ForwardToMeaning(ks, recipientKeys[1..], authKey, kid, i - 1);
    }
  }

  // ----- the form of an address -----

  /** A fragment is dropped; a did:key is converted when it is well formed; any other key stays as it is. */
  lemma NormaliseForms(ks: Keys, base: string, frag: string, verkey: string)
    requires '#' !in base
    ensures Normalise(ks, base + "#" + frag) == Normalise(ks, base)
    ensures "did:key:" <= base && ks.toVerkey(base) == Some(verkey) ==> Normalise(ks, base) == verkey
    ensures !("did:key:" <= base) || ks.toVerkey(base) == None ==> Normalise(ks, base) == base
  {
    BeforeFragment(base, "#" + frag);
    BeforeFragment(base, "");
    assert base + ("#" + frag) == base + "#" + frag && base + "" == base;
  }

  lemma {:induction false} BeforeFragment(base: string, rest: string)
    requires '#' !in base && (rest == "" || rest[0] == '#')
    ensures NoFragment(base + rest) == base
  {
    if |base| > 0 {
      assert base[0] in base;
      BeforeFragment(base[1..], rest);
      assert (base + rest)[1..] == base[1..] + rest;
    } else {
      assert base + rest == rest;
    }
  }

  /** The recipient's own key is converted without dropping a fragment. */
  lemma RecipientForms(ks: Keys, key: string, rest: seq<string>, authKey: Option<string>, kid: string, verkey: string)
    requires !("#" <= key)
    ensures "did:key:" <= key && ks.toVerkey(key) == Some(verkey) ==> ForwardTo(ks, [key] + rest, authKey, kid) == verkey
    ensures !("did:key:" <= key) || ks.toVerkey(key) == None ==> ForwardTo(ks, [key] + rest, authKey, kid) == key
  {
  }
}
