/**
  The hub's identity and token in persistent storage: src/persist.rs and `provision_hub` of
  src/main.rs, over any sequence of boots, each of which may lose power before any of its writes.
 */
module HubIdentity {
  import opened Wrappers

  /** What the build put into a firmware image. */
  datatype Image = Image(deviceId: string, hubSecret: string, hubToken: Option<string>)

  /** A token obtained from the backend with a device's identifier and secret. */
  datatype Claim = Claim(deviceId: string, hubSecret: string, token: string)

  /** The stored keys, the writes this boot has left before power is lost, and the claims made so far. */
  datatype Nvs = Nvs(
    deviceId: Option<string>, hubSecret: Option<string>, jwt: Option<string>, writesLeft: nat, claims: seq<Claim>)

  const BLANK := Nvs(None, None, None, 0, [])

  datatype Boot = Boot(image: Image, writes: nat, claimed: Option<string>)

  // ---------- The code ----------

  class Storage {
    var deviceId: Option<string>
    var hubSecret: Option<string>
    var jwt: Option<string>
    var writesLeft: nat
    var claims: seq<Claim>

    function View(): Nvs
      reads this
    {
      Nvs(deviceId, hubSecret, jwt, writesLeft, claims)
    }

    constructor ()
      ensures View() == BLANK
    {
      deviceId, hubSecret, jwt := None, None, None;
      writesLeft, claims := 0, [];
    }

    /** Whether the next write still happens; `set_str` replaces one key at a time, and is atomic by itself. */
    method Spend() returns (powered: bool)
      modifies this`writesLeft
      ensures powered == (old(writesLeft) > 0)
      ensures writesLeft == if powered then old(writesLeft) - 1 else 0
    {
      powered := writesLeft > 0;
      if powered {
        writesLeft := writesLeft - 1;
      }
    }

    /** `load_or_generate_creds`; no result when the boot was interrupted. */
    method LoadOrGenerateCreds(image: Image) returns (creds: Option<(string, string)>)
      modifies this
      ensures (View(), creds) == LoadOrSeed(old(View()), image)
    {
      if deviceId.Some? && hubSecret.Some? {
        return Some((deviceId.value, hubSecret.value));
      }
      var powered := Spend();
      if !powered {
        return None;
      }
      deviceId := Some(image.deviceId);
      powered := Spend();
      if !powered {
        return None;
      }
      hubSecret := Some(image.hubSecret);
      return Some((image.deviceId, image.hubSecret));
    }

    method WriteHubJwt(token: string) returns (done: bool)
      modifies this
      ensures (View(), done) == StoreJwt(old(View()), token)
    {
      done := Spend();
      if done {
        jwt := Some(token);
      }
    }

    /**
      `provision_hub`, with `claimed` the backend's answer if it is asked; returns the identifier and the
      token in use.
     */
    method ProvisionHub(image: Image, claimed: Option<string>) returns (session: Option<(string, string)>)
      modifies this
      ensures (View(), session) == Provision(old(View()), image, claimed)
    {
      var creds := LoadOrGenerateCreds(image);
      if creds.None? {
        return None;
      }
      var (id, secret) := creds.value;
      if image.hubToken.Some? {
        var override := image.hubToken.value;
        if jwt != Some(override) {
          var done := WriteHubJwt(override);
          if !done {
            return None;
          }
        }
        return Some((id, override));
      }
      if jwt.Some? {
        return Some((id, jwt.value));
      }
      if claimed.None? {
        return None;
      }
      claims := claims + [Claim(id, secret, claimed.value)];
      var done := WriteHubJwt(claimed.value);
      if !done {
        return None;
      }
      return Some((id, claimed.value));
    }
  }

  // ---------- What it computes ----------

  function LoadOrSeed(n: Nvs, image: Image): (Nvs, Option<(string, string)>) {
    if n.deviceId.Some? && n.hubSecret.Some? then (n, Some((n.deviceId.value, n.hubSecret.value)))
    else if n.writesLeft == 0 then (n, None)
    else if n.writesLeft == 1 then (n.(deviceId := Some(image.deviceId), writesLeft := 0), None)
    else
      (n.(deviceId := Some(image.deviceId), hubSecret := Some(image.hubSecret), writesLeft := n.writesLeft - 2),
       Some((image.deviceId, image.hubSecret)))
  }

  function StoreJwt(n: Nvs, token: string): (Nvs, bool) {
    if n.writesLeft == 0 then (n, false) else (n.(jwt := Some(token), writesLeft := n.writesLeft - 1), true)
  }

  function Provision(n: Nvs, image: Image, claimed: Option<string>): (Nvs, Option<(string, string)>) {
    var (m, creds) := LoadOrSeed(n, image);
    if creds.None? then (m, None)
    else
      var (id, secret) := creds.value;
      if image.hubToken.Some? then
        if m.jwt == image.hubToken then (m, Some((id, image.hubToken.value)))
        else
          var (t, done) := StoreJwt(m, image.hubToken.value);
          (t, if done then Some((id, image.hubToken.value)) else None)
      else if m.jwt.Some? then (m, Some((id, m.jwt.value)))
      else if claimed.None? then (m, None)
      else
        var (t, done) := StoreJwt(m.(claims := m.claims + [Claim(id, secret, claimed.value)]), claimed.value);
        (t, if done then Some((id, claimed.value)) else None)
  }

  /** One boot, with as many writes as it gets before power is lost. */
  function BootOnce(n: Nvs, b: Boot): Nvs {
    Provision(n.(writesLeft := b.writes), b.image, b.claimed).0
  }

  function BootAll(n: Nvs, boots: seq<Boot>): Nvs {
    if boots == [] then n else BootOnce(BootAll(n, boots[..|boots| - 1]), boots[|boots| - 1])
  }

  // ---------- Crash consistency ----------

  predicate Complete(n: Nvs) {
    n.deviceId.Some? && n.hubSecret.Some?
  }

  /** Some image among the boots has this pair. */
  ghost predicate FromOneImage(n: Nvs, boots: seq<Boot>) {
    exists i :: 0 <= i < |boots| && n.deviceId == Some(boots[i].image.deviceId) &&
      n.hubSecret == Some(boots[i].image.hubSecret)
  }

  /** The stored token was claimed for the stored identity, or came with an image. */
  ghost predicate TokenAccounted(n: Nvs, boots: seq<Boot>) {
    || (Complete(n) && n.jwt.Some? && Claim(n.deviceId.value, n.hubSecret.value, n.jwt.value) in n.claims)
    || (exists i :: 0 <= i < |boots| && boots[i].image.hubToken == n.jwt)
  }

  ghost predicate Consistent(n: Nvs, boots: seq<Boot>) {
    && (n.hubSecret.Some? ==> n.deviceId.Some? && FromOneImage(n, boots))
    && (n.jwt.Some? ==> Complete(n) && TokenAccounted(n, boots))
  }

  /** A boot changes a complete pair never, and an incomplete one only to its own image's. */
  lemma BootKeepsPair(n: Nvs, b: Boot)
    ensures var t := BootOnce(n, b);
      && (Complete(n) ==> t.deviceId == n.deviceId && t.hubSecret == n.hubSecret)
      && (!Complete(n) && t.hubSecret != n.hubSecret ==>
            t.deviceId == Some(b.image.deviceId) && t.hubSecret == Some(b.image.hubSecret))
      && (!Complete(n) && t.deviceId != n.deviceId ==> t.deviceId == Some(b.image.deviceId))
  {
  }

  lemma {:induction false} BootsStayConsistent(boots: seq<Boot>)
    ensures Consistent(BootAll(BLANK, boots), boots)
  {
    if boots != [] {
      var last := |boots| - 1;
      var earlier, b := boots[..last], boots[last];
      BootsStayConsistent(earlier);
      var n, t := BootAll(BLANK, earlier), BootAll(BLANK, boots);
      BootKeepsPair(n, b);
      if n.hubSecret.Some? {
        var i :| 0 <= i < last && n.deviceId == Some(earlier[i].image.deviceId) &&
          n.hubSecret == Some(earlier[i].image.hubSecret);
        assert boots[i] == earlier[i];
      }
      if n.jwt.Some? && !(Claim(n.deviceId.value, n.hubSecret.value, n.jwt.value) in n.claims) {
        var i :| 0 <= i < last && earlier[i].image.hubToken == n.jwt;
        assert boots[i] == earlier[i];
      }
      if t.hubSecret.Some? && !n.hubSecret.Some? {
        assert boots[last].image == b.image;
      }
    }
  }

  /** A complete pair always comes from one image. */
  lemma {:induction false} StoredPairFromOneImage(boots: seq<Boot>)
    requires Complete(BootAll(BLANK, boots))
    ensures FromOneImage(BootAll(BLANK, boots), boots)
  {
    BootsStayConsistent(boots);
  }

  /** Once complete, it never changes. */
  lemma {:induction false} StoredPairNeverChanges(n: Nvs, boots: seq<Boot>)
    requires Complete(n)
    ensures BootAll(n, boots).deviceId == n.deviceId && BootAll(n, boots).hubSecret == n.hubSecret
  {
    if boots != [] {
      StoredPairNeverChanges(n, boots[..|boots| - 1]);
      BootKeepsPair(BootAll(n, boots[..|boots| - 1]), boots[|boots| - 1]);
    }
  }

  /** A stored token implies a complete pair; if no image brought a token, it was claimed for that identity. */
  lemma {:induction false} StoredTokenWasClaimed(boots: seq<Boot>)
    requires BootAll(BLANK, boots).jwt.Some?
    requires forall i :: 0 <= i < |boots| ==> boots[i].image.hubToken.None?
    ensures var n := BootAll(BLANK, boots);
      Complete(n) && Claim(n.deviceId.value, n.hubSecret.value, n.jwt.value) in n.claims
  {
    BootsStayConsistent(boots);
  }

  /**
    Once a token is stored beside a complete pair, no later boot claims again, and without overrides none
    replaces it.
   */
  lemma {:induction false} NoClaimAfterToken(n: Nvs, boots: seq<Boot>)
    requires Complete(n) && n.jwt.Some?
    ensures BootAll(n, boots).claims == n.claims && BootAll(n, boots).jwt.Some?
    ensures (forall i :: 0 <= i < |boots| ==> boots[i].image.hubToken.None?) ==> BootAll(n, boots).jwt == n.jwt
  {
    if boots != [] {
      StoredPairNeverChanges(n, boots[..|boots| - 1]);
      NoClaimAfterToken(n, boots[..|boots| - 1]);
    }
  }

  // ---------- What a boot hands to the rest of the firmware ----------

  /**
    The credentials are those stored afterwards, and there are some exactly if a pair is stored or power lasts
    to seed it.
   */
  lemma CredentialsExactly(n: Nvs, image: Image)
    ensures var (t, creds) := LoadOrSeed(n, image);
      && (creds.Some? <==> Complete(n) || n.writesLeft >= 2)
      && (creds.Some? ==> t.deviceId == Some(creds.value.0) && t.hubSecret == Some(creds.value.1))
      && (creds.Some? ==> creds.value == if Complete(n) then (n.deviceId.value, n.hubSecret.value)
                                         else (image.deviceId, image.hubSecret))
      && (creds.None? ==> t.hubSecret == n.hubSecret
                          && t.deviceId == if n.writesLeft == 1 then Some(image.deviceId) else n.deviceId)
  {
  }

  /** Power lasts for the writes of the pair and for one more. */
  predicate CanStoreToken(n: Nvs) {
    n.writesLeft > PairWrites(n)
  }

  /**
    For every storage, image and answer: a boot succeeds if and only if it gets its pair, and the override is
    stored or can be, or without one a token is stored or is granted and can be stored.
   */
  lemma BootSucceedsExactlyWhen(n: Nvs, image: Image, claimed: Option<string>)
    ensures Provision(n, image, claimed).1.Some? <==>
      && (Complete(n) || n.writesLeft >= 2)
      && if image.hubToken.Some? then n.jwt == image.hubToken || CanStoreToken(n)
         else n.jwt.Some? || (claimed.Some? && CanStoreToken(n))
  {
  }

  /**
    It then hands out the identifier and the token stored afterwards, which is the override if the image has
    one. From a storage whose secret was not stored before its identifier, that is if and only if it ends
    with the pair and with the override, or any token if the image has none.
   */
  lemma BootHandsOutWhatIsStored(n: Nvs, image: Image, claimed: Option<string>)
    ensures var (t, session) := Provision(n, image, claimed);
      && (session.Some? ==>
            && Complete(t) && t.jwt.Some? && session.value == (t.deviceId.value, t.jwt.value)
            && (image.hubToken.Some? ==> t.jwt == image.hubToken)
            && (image.hubToken.None? && n.jwt.Some? ==> t.jwt == n.jwt)
            && (image.hubToken.None? && n.jwt.None? ==> t.jwt == claimed))
      && ((n.hubSecret.Some? ==> n.deviceId.Some?) ==>
            (session.Some? <==> Complete(t) && (if image.hubToken.Some? then t.jwt == image.hubToken else t.jwt.Some?)))
  {
  }

  // ---------- Exactly when a boot claims, loses a claim, or stores an override ----------

  /** The boot asks for a token and gets one: no override, no token stored, and a pair stored or seeded in time. */
  predicate Claiming(n: Nvs, b: Boot) {
    b.image.hubToken.None? && n.jwt.None? && b.claimed.Some? && (Complete(n) || b.writes >= 2)
  }

  /** The writes that come before the one of the token: none, or those of the pair. */
  function PairWrites(n: Nvs): nat {
    if Complete(n) then 0 else 2
  }

  /** A boot makes a claim exactly then, and the claim is for the pair that is stored afterwards. */
  lemma ClaimsExactlyWhen(n: Nvs, b: Boot)
    ensures var t := BootOnce(n, b);
      && (t.claims != n.claims <==> Claiming(n, b))
      && (Claiming(n, b) ==>
            Complete(t) && t.claims == n.claims + [Claim(t.deviceId.value, t.hubSecret.value, b.claimed.value)])
  {
    assert |BootOnce(n, b).claims| == |n.claims| + if Claiming(n, b) then 1 else 0;
  }

  /** A claimed token is lost exactly when power is lost just before it is written. */
  lemma ClaimLostExactlyWhen(n: Nvs, b: Boot)
    requires Claiming(n, b)
    ensures var t := BootOnce(n, b);
      && (t.jwt.None? <==> b.writes == PairWrites(n))
      && (t.jwt.Some? ==> t.jwt == b.claimed)
  {
  }

  predicate StoresOverride(n: Nvs, b: Boot) {
    b.image.hubToken.Some? && b.image.hubToken != n.jwt && b.writes > PairWrites(n)
  }

  /** A boot stores a new token without a claim exactly for a new override that power lasts to write. */
  lemma UnclaimedTokenExactlyWhen(n: Nvs, b: Boot)
    ensures var t := BootOnce(n, b);
      && (t.jwt != n.jwt && t.claims == n.claims <==> StoresOverride(n, b))
      && (StoresOverride(n, b) ==> t.jwt == b.image.hubToken)
  {
    ClaimsExactlyWhen(n, b);
  }

  /** The stored token, if there is one, was claimed for the stored pair. */
  predicate TokenClaimed(n: Nvs) {
    n.jwt.Some? ==> Complete(n) && Claim(n.deviceId.value, n.hubSecret.value, n.jwt.value) in n.claims
  }

  /** The boot stores an override that no boot has claimed for the pair stored then. */
  predicate StoresUnclaimedOverride(n: Nvs, b: Boot) {
    && StoresOverride(n, b)
    && var id := if Complete(n) then n.deviceId.value else b.image.deviceId;
       var secret := if Complete(n) then n.hubSecret.value else b.image.hubSecret;
       Claim(id, secret, b.image.hubToken.value) !in n.claims
  }

  /** A boot ends that exactly by storing such an override. */
  lemma TokenStaysClaimedExactlyUnless(n: Nvs, b: Boot)
    requires TokenClaimed(n)
    ensures !TokenClaimed(BootOnce(n, b)) <==> StoresUnclaimedOverride(n, b)
  {
    var t := BootOnce(n, b);
    ClaimsExactlyWhen(n, b);
    if Claiming(n, b) {
      assert t.claims[|n.claims|] == Claim(t.deviceId.value, t.hubSecret.value, b.claimed.value);
    }
  }

  /** The storage after the first `n` boots of a new hub. */
  function StorageAt(boots: seq<Boot>, n: nat): Nvs
    requires n <= |boots|
  {
    BootAll(BLANK, boots[..n])
  }

  lemma StorageAtNext(boots: seq<Boot>, n: nat)
    requires n < |boots|
    ensures StorageAt(boots, n + 1) == BootOnce(StorageAt(boots, n), boots[n])
  {
    assert boots[..n + 1][..n] == boots[..n];
  }

  /**
    Over any boots of a new hub, the stored token was always a claimed one if and only if none stored
    such an override.
   */
  lemma {:induction false} TokensAlwaysClaimedExactlyWhen(boots: seq<Boot>, n: nat)
    requires n <= |boots|
    ensures (forall i :: 0 <= i <= n ==> TokenClaimed(StorageAt(boots, i)))
       <==> (forall i :: 0 <= i < n ==> !StoresUnclaimedOverride(StorageAt(boots, i), boots[i]))
  {
    if n > 0 {
      TokensAlwaysClaimedExactlyWhen(boots, n - 1);
      StorageAtNext(boots, n - 1);
      if TokenClaimed(StorageAt(boots, n - 1)) {
        TokenStaysClaimedExactlyUnless(StorageAt(boots, n - 1), boots[n - 1]);
      }
    }
  }

  /** While no token is stored, the boots without an override claim as soon as one is answered, and not before. */
  lemma {:induction false} ClaimOnceAnswered(n: Nvs, boots: seq<Boot>)
    requires Complete(n) && n.jwt.None?
    requires forall i :: 0 <= i < |boots| ==> boots[i].image.hubToken.None?
    ensures (BootAll(n, boots).claims == n.claims <==> forall i :: 0 <= i < |boots| ==> boots[i].claimed.None?)
    ensures n.claims <= BootAll(n, boots).claims
    ensures BootAll(n, boots).claims == n.claims ==> BootAll(n, boots).jwt.None?
  {
    if boots != [] {
      var earlier, b := boots[..|boots| - 1], boots[|boots| - 1];
      ClaimOnceAnswered(n, earlier);
      StoredPairNeverChanges(n, earlier);
      ClaimsExactlyWhen(BootAll(n, earlier), b);
      assert forall i :: 0 <= i < |earlier| ==> earlier[i] == boots[i];
    }
  }

  /** A hub whose claims are no longer answered, as after a lost token, stays without one. */
  lemma NoTokenWithoutAnswer(n: Nvs, boots: seq<Boot>)
    requires Complete(n) && n.jwt.None?
    requires forall i :: 0 <= i < |boots| ==> boots[i].image.hubToken.None? && boots[i].claimed.None?
    ensures BootAll(n, boots).jwt.None? && BootAll(n, boots).claims == n.claims
  {
    ClaimOnceAnswered(n, boots);
  }

  /**
    After a boot that claimed, later boots without an override, of which one is answered, claim again
    exactly when the token was lost.
   */
  lemma ClaimRepeatedExactlyWhen(n: Nvs, b: Boot, later: seq<Boot>)
    requires Claiming(n, b)
    requires forall i :: 0 <= i < |later| ==> later[i].image.hubToken.None?
    requires exists i :: 0 <= i < |later| && later[i].claimed.Some?
    ensures var t := BootOnce(n, b);
      BootAll(t, later).claims != t.claims <==> b.writes == PairWrites(n)
  {
    var t := BootOnce(n, b);
    ClaimsExactlyWhen(n, b);
    ClaimLostExactlyWhen(n, b);
    if t.jwt.None? {
      ClaimOnceAnswered(t, later);
    } else {
      NoClaimAfterToken(t, later);
    }
  }

  /** An override is stored without any claim, so the provenance of a token needs the hypothesis on images. */
  lemma OverrideIsNotClaimed(image: Image, writes: nat)
    requires image.hubToken.Some? && writes >= 3
    ensures var n := BootAll(BLANK, [Boot(image, writes, None)]);
      n.jwt == image.hubToken && n.claims == []
  {
    var boots := [Boot(image, writes, None)];
    assert boots[..0] == [];
    assert BootAll(BLANK, boots[..0]) == BLANK;
  }

  /**
    A claim whose token is not written before power is lost is made again. The backend grants a claim once,
    so the second answer here presupposes that the hub was revoked in between.
   */
  lemma InterruptedClaimIsRepeated(image: Image, first: string, second: string)
    requires image.hubToken.None?
    ensures var n := BootAll(BLANK, [Boot(image, 2, Some(first)), Boot(image, 1, Some(second))]);
      n.jwt == Some(second) && n.claims
      == [Claim(image.deviceId, image.hubSecret, first), Claim(image.deviceId, image.hubSecret, second)]
  {
    var a, b := Boot(image, 2, Some(first)), Boot(image, 1, Some(second));
    assert [a, b][..1] == [a] && [a][..0] == [];
    assert BootAll(BLANK, []) == BLANK;
    var n := BootAll(BLANK, [a]);
    assert n == BootOnce(BLANK, a);
    assert BootAll(BLANK, [a, b]) == BootOnce(n, b);
  }
}
