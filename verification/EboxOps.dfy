/** An ebox in memory and the operations on it (ebox.c). */
module EboxOps {
  import opened Bits
  import opened Buffers
  import opened EboxFormat
  import opened Ebox
  import EboxFile

  /** What is known of a part's secret: from a challenge-response, or from its unsealed box. */
  datatype Held = Held(share: Option<Bytes>, plain: Option<Bytes>)

  datatype Live = Live(config: Config, held: seq<Held>)

  function Configs(live: seq<Live>): seq<Config> {
    seq(|live|, i requires 0 <= i < |live| => live[i].config)
  }

  /** Aborted stands for a failed assertion, which ends the program. */
  datatype Outcome = Ok | AlreadyUnlocked | InsufficientParts | RecoveryFailed | Aborted

  // ---- what creation produces ----

  function PartFor(c: Crypto, p: TplPart, d: Bytes): Part {
    Part(p.guid, p.name, p.cak, p.slot, c.seal(p, c.ephemeral(p.curve), d))
  }

  /** The secret of each part: a share of the masked recovery key, or the key itself. */
  function Secrets(c: Crypto, call: nat, tc: TplConfig, key: Bytes, rk: Bytes): seq<Bytes>
    requires |rk| == |c.random(2 + call)|
  {
    if tc.kind == EBOX_RECOVERY then c.split(call, Masked(c.random(2 + call), rk), |tc.parts|, tc.n)
    else seq(|tc.parts|, _ => key)
  }

  ghost predicate ConfigMade(c: Crypto, call: nat, tc: TplConfig, key: Bytes, rk: Bytes, r: Config)
    requires |rk| == |c.random(2 + call)|
  {
    var secrets := Secrets(c, call, tc, key, rk);
    && |tc.parts| < 256 && |secrets| == |tc.parts| == |r.parts|
    && r.kind == tc.kind && r.n == tc.n && r.m == |tc.parts|
    && r.nonce == (if tc.kind == EBOX_RECOVERY then c.random(2 + call) else [])
    && forall j :: 0 <= j < |tc.parts| ==> r.parts[j] == PartFor(c, tc.parts[j], secrets[j])
  }

  ghost predicate ConfigOk(keys: Keys, tc: TplConfig) {
    && 1 <= |tc.parts| < 256
    && (tc.kind == EBOX_RECOVERY || tc.kind == EBOX_PRIMARY)
    && (tc.kind == EBOX_RECOVERY ==> 1 <= tc.n <= |tc.parts|)
    && forall j :: 0 <= j < |tc.parts| ==> PartOk(keys, tc.parts[j])
  }

  /** A template that ebox_create accepts. */
  ghost predicate TemplateOk(keys: Keys, tpl: seq<TplConfig>) {
    1 <= |tpl| < 256 && forall i :: 0 <= i < |tpl| ==> ConfigOk(keys, tpl[i])
  }

  /** One ephemeral key per curve. */
  ghost predicate EphemeralsMade(c: Crypto, keys: Keys, es: seq<Ephemeral>) {
    && (forall i :: 0 <= i < |es| ==>
          es[i].pub == c.ephemeral(es[i].curve) && keys.curve(es[i].curve) && |es[i].curve| < 256 && 0 !in es[i].curve)
    && (forall i, j :: 0 <= i < j < |es| ==> es[i].curve != es[j].curve)
  }

  /** The ephemeral key of every part can be looked up. */
  ghost predicate CurvesKnown(c: Crypto, es: seq<Ephemeral>, parts: seq<TplPart>) {
    forall j :: 0 <= j < |parts| ==> Lookup(es, parts[j].curve) == Some(c.ephemeral(parts[j].curve))
  }

  ghost predicate CurvesKept(es: seq<Ephemeral>, es': seq<Ephemeral>) {
    forall x :: Lookup(es, x).Some? ==> Lookup(es', x) == Lookup(es, x)
  }

  class EboxObject {
    var version: byte
    var kind: byte
    var cipher: Bytes
    var iv: Bytes
    var enc: Bytes
    var ephemerals: seq<Ephemeral>
    var configs: seq<Live>
    var key: Option<Bytes>
    var token: Option<Bytes>
    var rcvKey: Option<Bytes>

    constructor ()
      ensures key == None && token == None && rcvKey == None && ephemerals == [] && configs == []
      ensures version == EBOX_V3 && kind == EBOX_KEY && cipher == AES256_GCM
    {
      version, kind, cipher, iv, enc := EBOX_V3, EBOX_KEY, AES256_GCM, [], [];
      ephemerals, configs := [], [];
      key, token, rcvKey := None, None, None;
    }

    /** The part that is written out. */
    function ToStored(): Stored
      reads this
    {
      Stored(version, kind, cipher, iv, enc, ephemerals, Configs(configs))
    }

    /** ebox_encrypt_recovery. */
    method EncryptRecovery(c: Crypto, plain: Bytes)
      requires forall k :: |c.random(k)| == KEYLEN
      modifies this`iv, this`enc, this`rcvKey
      ensures rcvKey == Some(c.random(1)) && iv == c.random(0)[..IVLEN] && enc == c.encrypt(c.random(1), iv, Padded(plain))
    {
      var padding := BLOCK - |plain| % BLOCK;
      var padded := plain;
      for i := 0 to padding
        invariant padded == plain + seq(i, _ => padding)
      {
        padded := padded + [padding];
      }
      iv := c.random(0)[..IVLEN];
      var k := c.random(1);
      rcvKey := Some(k);
      enc := c.encrypt(k, iv, padded);
    }

    /** ebox_decrypt_recovery. */
    method DecryptRecovery(c: Crypto) returns (plain: Option<Bytes>)
      requires rcvKey.Some?
      ensures plain == DecryptedRecovery(c, rcvKey.value, iv, enc)
    {
      if |iv| < IVLEN || |rcvKey.value| < KEYLEN || |enc| < BLOCK + AUTHLEN {
        return None;
      }
      var p := c.decrypt(rcvKey.value[..KEYLEN], iv[..IVLEN], enc);
      if p.None? || p.value == [] {
        return None;
      }
      var q := p.value;
      var padding := q[|q| - 1];
      if padding > BLOCK || padding == 0 || padding > |q| {
        return None;
      }
      for i := |q| - padding to |q|
        invariant forall k :: |q| - padding <= k < i ==> q[k] == padding
      {
        if q[i] != padding {
          return None;
        }
      }
      plain := Some(q[..|q| - padding]);
    }

    /** ebox_make_ephem_for_nid: the key for a curve, generated on first use. */
    method MakeEphemeral(c: Crypto, curve: Bytes, ghost keys: Keys) returns (pub: Bytes)
      requires EphemeralsMade(c, keys, ephemerals) && keys.curve(curve) && |curve| < 256 && 0 !in curve
      modifies this`ephemerals
      ensures EphemeralsMade(c, keys, ephemerals) && pub == c.ephemeral(curve) && Lookup(ephemerals, curve) == Some(pub)
      ensures CurvesKept(old(ephemerals), ephemerals)
    {
      for i := 0 to |ephemerals|
        invariant Lookup(ephemerals, curve) == Lookup(ephemerals[i..], curve)
      {
        assert ephemerals[i..][1..] == ephemerals[i + 1..];
        if ephemerals[i].curve == curve {
          return ephemerals[i].pub;
        }
      }
      EboxFile.LookupFinds(ephemerals, curve);
      pub := c.ephemeral(curve);
      ghost var before := ephemerals;
      ephemerals := [Ephemeral(curve, pub)] + ephemerals;
      assert ephemerals[1..] == before;
    }

    /** The parts of one configuration: each is sealed with its share if there are shares, and with the
        key otherwise. */
    method MakeParts(c: Crypto, tc: TplConfig, shares: Option<seq<Bytes>>, data: Bytes, ghost keys: Keys) returns (parts: seq<Part>)
      requires ConfigOk(keys, tc) && (shares.Some? ==> |shares.value| == |tc.parts|) && EphemeralsMade(c, keys, ephemerals)
      modifies this`ephemerals
      ensures EphemeralsMade(c, keys, ephemerals) && |parts| == |tc.parts|
      ensures forall j :: 0 <= j < |parts| ==> parts[j] == PartFor(c, tc.parts[j], if shares.Some? then shares.value[j] else data)
      ensures CurvesKnown(c, ephemerals, tc.parts) && CurvesKept(old(ephemerals), ephemerals)
    {
      parts := [];
      for k := 0 to |tc.parts|
        invariant EphemeralsMade(c, keys, ephemerals) && |parts| == k
        invariant forall j :: 0 <= j < k ==> parts[j] == PartFor(c, tc.parts[j], if shares.Some? then shares.value[j] else data)
        invariant forall j :: 0 <= j < k ==> Lookup(ephemerals, tc.parts[j].curve) == Some(c.ephemeral(tc.parts[j].curve))
        invariant CurvesKept(old(ephemerals), ephemerals)
      {
        var p := tc.parts[k];
        assert PartOk(keys, p);
        var pub := MakeEphemeral(c, p.curve, keys);
        var secret := if shares.Some? then shares.value[k] else data;
        parts := parts + [Part(p.guid, p.name, p.cak, p.slot, c.seal(p, pub, secret))];
      }
    }

    /** The shares at hand, in the order of the parts; not ok if one has the wrong size. */
    method CollectShares(held: seq<Held>) returns (ok: bool, shares: seq<Bytes>)
      ensures ok == ShareSizes(held) && (ok ==> shares == Available(held))
    {
      shares := [];
      for k := 0 to |held|
        invariant shares == Available(held[..k]) && forall i :: 0 <= i < k ==> ShareSize(held[i])
      {
        assert held[..k + 1][..k] == held[..k];
        if !ShareSize(held[k]) {
          return false, [];
        }
        if held[k].share.Some? && |held[k].share.value| >= 1 {
          shares := shares + [held[k].share.value];
        } else if held[k].plain.Some? {
          shares := shares + [held[k].plain.value];
        }
      }
      assert held[..|held|] == held;
      ok := true;
    }

    /** ebox_recover: n shares give the masked key, the mask comes off, the recovery data is read. */
    method Recover(c: Crypto, ci: nat) returns (r: Outcome)
      requires ci < |configs| && Combines(c)
      modifies this
      ensures old(key.Some? || token.Some? || rcvKey.Some?) ==> r == AlreadyUnlocked && key == old(key) && token == old(token)
      ensures !old(key.Some? || token.Some? || rcvKey.Some?) ==>
        var live := old(configs[ci]);
        var got := Recovered(c, live, old(iv), old(enc));
        && r == (if !ShareSizes(live.held) then Aborted
                 else if |Available(live.held)| < live.config.n then InsufficientParts
                 else if |live.config.nonce| > KEYLEN then Aborted
                 else if got.None? then RecoveryFailed else Ok)
        && (r == InsufficientParts ==> key == None && token == None && configs == old(configs))
        && (r == Ok ==> token == got.value.0 && key == Some(got.value.1))
      ensures r == Ok ==> configs == old(configs)[ci := Live(old(configs[ci].config), [])]
    {
      if key.Some? || token.Some? || rcvKey.Some? {
        return AlreadyUnlocked;
      }
      var live := configs[ci];
      var sized, shares := CollectShares(live.held);
      if !sized {
        return Aborted;
      }
      if |shares| < live.config.n {
        return InsufficientParts;
      }
      var configKey := c.combine(shares[..live.config.n]);
      if |live.config.nonce| > 0 {
        if |live.config.nonce| < KEYLEN {
          rcvKey := Some([]);
          return RecoveryFailed;
        }
        if |live.config.nonce| != KEYLEN {
          return Aborted;
        }
        rcvKey := Some(Masked(configKey, live.config.nonce));
      } else {
        rcvKey := Some(configKey);
      }
      var plain := DecryptRecovery(c);
      if plain.None? {
        return RecoveryFailed;
      }
      var data := ParseRecovery(plain.value);
      if data.None? {
        return RecoveryFailed;
      }
      token, key := data.value.0, Some(data.value.1);
      configs := configs[ci := Live(live.config, [])];
      r := Ok;
    }

    /** ebox_unlock: the first part with data gives the key. */
    method Unlock(ci: nat) returns (r: Outcome, ghost part: nat)
      requires ci < |configs|
      modifies this`key
      ensures r == Ok || r == InsufficientParts
      ensures r == Ok ==> part < |configs[ci].held| && HasData(configs[ci].held[part]) && key == configs[ci].held[part].plain
      ensures r != Ok ==> key == old(key) && forall k :: 0 <= k < |configs[ci].held| ==> !HasData(configs[ci].held[k])
    {
      var held := configs[ci].held;
      for k := 0 to |held|
        invariant forall i :: 0 <= i < k ==> !HasData(held[i])
        invariant key == old(key)
      {
        if HasData(held[k]) {
          key := held[k].plain;
          return Ok, k;
        }
      }
      r, part := InsufficientParts, 0;
    }
  }

  /** The recovery data under a key: decrypted, its padding checked and removed. */
  function DecryptedRecovery(c: Crypto, k: Bytes, iv: Bytes, enc: Bytes): Option<Bytes> {
    if |iv| < IVLEN || |k| < KEYLEN || |enc| < BLOCK + AUTHLEN then None
    else
      var p := c.decrypt(k[..KEYLEN], iv[..IVLEN], enc);
      if p.None? then None else Unpadded(p.value)
  }

  /** What creation leaves: the recovery data under a fresh key, and every configuration as its
      template asks, in order. */
  ghost predicate Created(e: EboxObject, c: Crypto, keys: Keys, tpl: seq<TplConfig>, data: Bytes, tok: Option<Bytes>)
    requires Generates(c, keys) && |data| < 256 && (tok.Some? ==> |tok.value| < 256)
    reads e
  {
    && e.version == EBOX_V3 && e.kind == EBOX_KEY && e.cipher == AES256_GCM && e.iv == c.random(0)[..IVLEN]
    && e.enc == c.encrypt(c.random(1), e.iv, Padded(RecoveryData(data, tok)))
    && EphemeralsMade(c, keys, e.ephemerals) && |e.configs| == |tpl|
    && ConfigsMade(c, tpl, data, c.random(1), e.configs, e.ephemerals)
  }

  /** The configurations made so far. */
  ghost predicate ConfigsMade(c: Crypto, tpl: seq<TplConfig>, data: Bytes, rk: Bytes, configs: seq<Live>, es: seq<Ephemeral>)
    requires |configs| <= |tpl| && forall k :: |c.random(k)| == |rk|
  {
    forall i :: 0 <= i < |configs| ==> ConfigMade(c, i, tpl[i], data, rk, configs[i].config) && CurvesKnown(c, es, tpl[i].parts)
  }

  lemma ConfigsMore(c: Crypto, tpl: seq<TplConfig>, data: Bytes, rk: Bytes,
                    configs: seq<Live>, es: seq<Ephemeral>, r: Config, es': seq<Ephemeral>)
    requires |configs| < |tpl| && forall k :: |c.random(k)| == |rk|
    requires ConfigsMade(c, tpl, data, rk, configs, es) && CurvesKept(es, es')
    requires ConfigMade(c, |configs|, tpl[|configs|], data, rk, r) && CurvesKnown(c, es', tpl[|configs|].parts)
    ensures ConfigsMade(c, tpl, data, rk, configs + [Live(r, [])], es')
  {
    forall i | 0 <= i < |configs|
      ensures CurvesKnown(c, es', tpl[i].parts)
    {
      assert ConfigMade(c, i, tpl[i], data, rk, configs[i].config) && CurvesKnown(c, es, tpl[i].parts);
    }
  }

  /** ebox_create.  One variable holds the shares for all configurations: a recovery configuration sets
      it, its parts use it up, and it is cleared before the next configuration. */
  method Create(c: Crypto, tpl: seq<TplConfig>, data: Bytes, tok: Option<Bytes>, ghost keys: Keys) returns (e: EboxObject)
    requires Sound(c, keys) && TemplateOk(keys, tpl) && |data| < 256 && (tok.Some? ==> |tok.value| < 256)
    ensures fresh(e) && Created(e, c, keys, tpl, data, tok)
  {
    e := new EboxObject();
    e.EncryptRecovery(c, RecoveryData(data, tok));
    var shares: Option<seq<Bytes>> := None;
    for k := 0 to |tpl|
      invariant shares.None?
      invariant fresh(e) && e.rcvKey == Some(c.random(1)) && e.iv == c.random(0)[..IVLEN]
      invariant e.version == EBOX_V3 && e.kind == EBOX_KEY && e.cipher == AES256_GCM
      invariant e.enc == c.encrypt(c.random(1), e.iv, Padded(RecoveryData(data, tok)))
      invariant EphemeralsMade(c, keys, e.ephemerals) && |e.configs| == k
      invariant ConfigsMade(c, tpl, data, c.random(1), e.configs, e.ephemerals)
    {
      var tc := tpl[k];
      assert ConfigOk(keys, tc);
      var nonce: Bytes := [];
      if tc.kind == EBOX_RECOVERY {
        nonce := c.random(2 + k);
        var configKey := Masked(nonce, e.rcvKey.value);
        shares := Some(c.split(k, configKey, |tc.parts|, tc.n));
        assert Splits(c, k, configKey, |tc.parts|, tc.n);
      }
      ghost var es := e.ephemerals;
      var parts := e.MakeParts(c, tc, shares, data, keys);
      var r := Config(tc.kind, tc.n, |tc.parts|, nonce, parts);
      if shares.Some? {
        shares := None;
      }
      assert ConfigMade(c, k, tc, data, c.random(1), r);
      ConfigsMore(c, tpl, data, c.random(1), e.configs, es, r, e.ephemerals);
      e.configs := e.configs + [Live(r, [])];
    }
  }

  predicate HasData(h: Held) {
    h.plain.Some? && |h.plain.value| >= 1
  }

  /** A part's share: from the challenge-response if there was one, else from its box. */
  function ShareOf(h: Held): Option<Bytes> {
    if h.share.Some? && |h.share.value| >= 1 then h.share else h.plain
  }

  /** sizeof (sss_Keyshare), as the code asserts. */
  predicate ShareSize(h: Held) {
    ShareOf(h).Some? ==> |ShareOf(h).value| == SHARELEN
  }

  predicate ShareSizes(held: seq<Held>) {
    forall i :: 0 <= i < |held| ==> ShareSize(held[i])
  }

  function Available(held: seq<Held>): seq<Bytes> {
    if held == [] then []
    else
      var h := ShareOf(held[|held| - 1]);
      Available(held[..|held| - 1]) + if h.Some? then [h.value] else []
  }

  /** Token and key as recovered from the shares at hand. */
  function Recovered(c: Crypto, live: Live, iv: Bytes, enc: Bytes): Option<(Option<Bytes>, Bytes)>
    requires Combines(c)
  {
    if |Available(live.held)| < live.config.n then None
    else
      var configKey := c.combine(Available(live.held)[..live.config.n]);
      var nonce := live.config.nonce;
      if 0 < |nonce| && |nonce| != KEYLEN then None
      else
        var rk := if |nonce| > 0 then Masked(configKey, nonce) else configKey;
        var plain := DecryptedRecovery(c, rk, iv, enc);
        if plain.None? then None else ParseRecovery(plain.value)
  }
}
