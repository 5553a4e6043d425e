/** An ebox that is created, written, read back and recovered yields its key and token. */
module EboxRoundTrip {
  import opened Buffers
  import opened EboxFormat
  import opened Ebox
  import opened EboxOps
  import EboxFile
  import EboxTemplate

  /** The number of curves fits the byte that counts ephemeral keys. */
  ghost predicate FewCurves(keys: Keys) {
    forall es {:trigger Different(keys, es)} :: Different(keys, es) ==> |es| < 256
  }

  ghost predicate Different(keys: Keys, es: seq<Ephemeral>) {
    && (forall i :: 0 <= i < |es| ==> keys.curve(es[i].curve))
    && (forall i, j :: 0 <= i < j < |es| ==> es[i].curve != es[j].curve)
  }

  /** No primary configuration of the template asks for more than one part. */
  predicate Unsplit(tpl: seq<TplConfig>) {
    forall i :: 0 <= i < |tpl| ==> !EboxFile.SplitPrimary(tpl[i].kind, tpl[i].n)
  }

  /** The recovery data is short enough for its one-byte length. */
  lemma ShortEnough(p: Bytes)
    ensures |Padded(p)| + AUTHLEN < 256 <==> |p| < 224
  {
  }

  /** sshbuf_put_ebox, which fails on a string too long for its field. */
  method Write(e: EboxObject) returns (r: Option<Bytes>)
    requires |e.configs| < 256 && |e.ephemerals| < 256
    ensures r == if EboxFile.Fits(e.ToStored()) then Some(EboxFile.Put(e.ToStored())) else None
  {
    if !EboxFile.Fits(e.ToStored()) {
      return None;
    }
    r := Some(EboxFile.Put(e.ToStored()));
  }

  /** sshbuf_get_ebox: a locked ebox of which no part is unsealed. */
  method Read(keys: Keys, s: Bytes) returns (e: EboxObject?)
    ensures e == null <==> EboxFile.Get(keys, s).None?
    ensures e != null ==> fresh(e) && e.ToStored() == EboxFile.Get(keys, s).value.0
    ensures e != null ==> e.key == None && e.token == None && e.rcvKey == None
  {
    var got := EboxFile.Get(keys, s);
    if got.None? {
      return null;
    }
    e := FromStored(got.value.0);
  }

  method FromStored(st: Stored) returns (e: EboxObject)
    ensures fresh(e) && e.ToStored() == st && e.key == None && e.token == None && e.rcvKey == None
  {
    e := new EboxObject();
    e.version, e.kind, e.cipher, e.iv, e.enc := st.version, st.kind, st.cipher, st.iv, st.enc;
    e.ephemerals := st.ephemerals;
    e.configs := seq(|st.configs|, i requires 0 <= i < |st.configs| => Live(st.configs[i], []));
    assert Configs(e.configs) == st.configs;
  }

  // ---- what was created can be read ----

  lemma PartIsReadable(c: Crypto, keys: Keys, p: TplPart, d: Bytes, es: seq<Ephemeral>)
    requires Seals(c, keys) && PartOk(keys, p) && |d| < 256 && Lookup(es, p.curve) == Some(c.ephemeral(p.curve))
    ensures PartFits(PartFor(c, p, d)) && PartReadable(keys, es, PartFor(c, p, d)) && c.open(PartFor(c, p, d).box) == Some(d)
  {
    assert SealedFor(c, p, c.ephemeral(p.curve), d, c.seal(p, c.ephemeral(p.curve), d));
  }

  /** The secrets are short enough to seal. */
  lemma SecretsFit(c: Crypto, keys: Keys, call: nat, tc: TplConfig, data: Bytes)
    requires Sound(c, keys) && ConfigOk(keys, tc) && |data| < 256
    ensures var secrets := Secrets(c, call, tc, data, c.random(1));
      |secrets| == |tc.parts| && forall j :: 0 <= j < |secrets| ==> |secrets[j]| < 256
  {
    if tc.kind == EBOX_RECOVERY {
      assert Splits(c, call, Masked(c.random(2 + call), c.random(1)), |tc.parts|, tc.n);
    }
  }

  lemma ConfigIsSound(c: Crypto, keys: Keys, call: nat, tc: TplConfig, data: Bytes, r: Config, es: seq<Ephemeral>)
    requires Sound(c, keys) && ConfigOk(keys, tc) && |data| < 256 && CurvesKnown(c, es, tc.parts)
    requires ConfigMade(c, call, tc, data, c.random(1), r)
    ensures EboxFile.ConfigFits(r) && EboxFile.ConfigSound(keys, es, r)
  {
    var secrets := Secrets(c, call, tc, data, c.random(1));
    SecretsFit(c, keys, call, tc, data);
    forall j | 0 <= j < |r.parts|
      ensures PartFits(r.parts[j]) && PartReadable(keys, es, r.parts[j])
    {
      assert PartOk(keys, tc.parts[j]);
      PartIsReadable(c, keys, tc.parts[j], secrets[j], es);
    }
  }

  /** What was created can be written exactly if the recovery data is short, and then all of it but
      split primaries can be read. */
  lemma CreatedIsWritten(e: EboxObject, c: Crypto, keys: Keys, tpl: seq<TplConfig>, data: Bytes, tok: Option<Bytes>)
    requires Sound(c, keys) && FewCurves(keys) && TemplateOk(keys, tpl) && |data| < 256 && (tok.Some? ==> |tok.value| < 256)
    requires Created(e, c, keys, tpl, data, tok)
    ensures |e.ephemerals| < 256 && (EboxFile.Fits(e.ToStored()) <==> |RecoveryData(data, tok)| < 224)
    ensures EboxFile.Fits(e.ToStored()) ==> EboxFile.Written(keys, e.ToStored())
    ensures EboxFile.NoneSplit(e.ToStored().configs) <==> Unsplit(tpl)
  {
    var st := e.ToStored();
    ShortEnough(RecoveryData(data, tok));
    assert Different(keys, e.ephemerals);
    forall i | 0 <= i < |st.ephemerals|
      ensures EboxFile.EphemeralFits(st.ephemerals[i]) && EboxFile.EphemeralReadable(keys, st.ephemerals[i])
    {
    }
    forall i | 0 <= i < |st.configs|
      ensures EboxFile.ConfigFits(st.configs[i]) && EboxFile.ConfigSound(keys, st.ephemerals, st.configs[i])
      ensures st.configs[i].kind == tpl[i].kind && st.configs[i].n == tpl[i].n
    {
      assert ConfigOk(keys, tpl[i]) && ConfigMade(c, i, tpl[i], data, c.random(1), e.configs[i].config);
      ConfigIsSound(c, keys, i, tpl[i], data, st.configs[i], st.ephemerals);
    }
  }

  // ---- which shares are at hand ----

  /** The parts whose boxes have been opened. */
  ghost function Unsealed(secrets: seq<Bytes>, chosen: seq<bool>): seq<Held>
    requires |secrets| == |chosen|
  {
    seq(|chosen|, j requires 0 <= j < |chosen| => Held(None, if chosen[j] then Some(secrets[j]) else None))
  }

  ghost function Count(chosen: seq<bool>): nat {
    if chosen == [] then 0 else Count(chosen[..|chosen| - 1]) + if chosen[|chosen| - 1] then 1 else 0
  }

  ghost function Indices(chosen: seq<bool>): seq<nat> {
    if chosen == [] then []
    else Indices(chosen[..|chosen| - 1]) + if chosen[|chosen| - 1] then [|chosen| - 1] else []
  }

  lemma {:induction false} IndicesChoose(chosen: seq<bool>)
    ensures |Indices(chosen)| == Count(chosen) && Choice(Indices(chosen), Count(chosen), |chosen|)
  {
    if chosen != [] {
      IndicesChoose(chosen[..|chosen| - 1]);
    }
  }

  lemma {:induction false} AvailableIsPicked(secrets: seq<Bytes>, chosen: seq<bool>)
    requires |secrets| == |chosen|
    ensures Choice(Indices(chosen), Count(chosen), |secrets|) && Available(Unsealed(secrets, chosen)) == Pick(secrets, Indices(chosen))
    decreases |chosen|
  {
    IndicesChoose(chosen);
    if chosen != [] {
      var n := |chosen| - 1;
      var held := Unsealed(secrets, chosen);
      AvailableIsPicked(secrets[..n], chosen[..n]);
      IndicesChoose(chosen[..n]);
      assert held[..n] == Unsealed(secrets[..n], chosen[..n]);
      assert Pick(secrets[..n], Indices(chosen[..n])) == Pick(secrets, Indices(chosen[..n]));
    }
  }

  /** Enough opened parts give back the recovery key. */
  lemma SharesRestore(c: Crypto, call: nat, s: Bytes, m: nat, n: nat, chosen: seq<bool>)
    requires Splits(c, call, s, m, n) && |chosen| == m && n <= Count(chosen)
    ensures var got := Available(Unsealed(c.split(call, s, m, n), chosen)); |got| == Count(chosen) && c.combine(got[..n]) == s
  {
    var shares := c.split(call, s, m, n);
    AvailableIsPicked(shares, chosen);
    var idx := Indices(chosen)[..n];
    assert Choice(idx, n, m);
    assert Available(Unsealed(shares, chosen))[..n] == Pick(shares, idx);
  }

  /** Opening the chosen boxes of a configuration, as their cards would. */
  method OpenParts(e: EboxObject, c: Crypto, ci: nat, chosen: seq<bool>, ghost secrets: seq<Bytes>)
    requires ci < |e.configs| && |chosen| == |secrets| == |e.configs[ci].config.parts|
    requires forall j :: 0 <= j < |secrets| ==> c.open(e.configs[ci].config.parts[j].box) == Some(secrets[j])
    modifies e`configs
    ensures e.configs == old(e.configs)[ci := Live(old(e.configs[ci].config), Unsealed(secrets, chosen))]
  {
    var live := e.configs[ci];
    var held := [];
    for j := 0 to |chosen|
      invariant |held| == j && forall k :: 0 <= k < j ==> held[k] == Held(None, if chosen[k] then Some(secrets[k]) else None)
    {
      held := held + [Held(None, if chosen[j] then c.open(live.config.parts[j].box) else None)];
    }
    assert held == Unsealed(secrets, chosen);
    e.configs := e.configs[ci := Live(live.config, held)];
  }

  /** Create, write, read back.  Writing succeeds exactly if token and key are short enough, reading
      exactly if no primary configuration is split, and then every configuration arrives as it was
      made. */
  method CreateAndStore(c: Crypto, keys: Keys, tpl: seq<TplConfig>, data: Bytes, tok: Option<Bytes>)
    returns (s: Option<Bytes>, e: EboxObject?)
    requires Sound(c, keys) && FewCurves(keys) && TemplateOk(keys, tpl) && |data| < 256 && (tok.Some? ==> |tok.value| < 256)
    ensures s.Some? <==> |RecoveryData(data, tok)| < 224
    ensures e != null <==> s.Some? && Unsplit(tpl)
    ensures e != null ==> fresh(e) && e.key == None && e.token == None && e.rcvKey == None && |e.configs| == |tpl|
    ensures e != null ==> e.iv == c.random(0)[..IVLEN] && e.enc == c.encrypt(c.random(1), e.iv, Padded(RecoveryData(data, tok)))
    ensures e != null ==> forall i :: 0 <= i < |tpl| ==> ConfigMade(c, i, tpl[i], data, c.random(1), e.configs[i].config)
  {
    var made := Create(c, tpl, data, tok, keys);
    ghost var st := made.ToStored();
    CreatedIsWritten(made, c, keys, tpl, data, tok);
    s := Write(made);
    if s.None? {
      return None, null;
    }
    EboxFile.Reads(keys, st, []);
    assert EboxFile.Put(st) + [] == EboxFile.Put(st);
    e := Read(keys, s.value);
    if e != null {
      SameConfigs(c, tpl, data, made, e);
    }
  }

  /** A template made by the calls or the parser of ebox.c has no split primary, so that what can be
      written can be read. */
  method StoreBuilt(c: Crypto, keys: Keys, tpl: seq<TplConfig>, data: Bytes, tok: Option<Bytes>)
    returns (s: Option<Bytes>, e: EboxObject?)
    requires Sound(c, keys) && FewCurves(keys) && TemplateOk(keys, tpl) && |data| < 256 && (tok.Some? ==> |tok.value| < 256)
    requires forall i :: 0 <= i < |tpl| ==> EboxTemplate.Built(tpl[i])
    ensures Unsplit(tpl) && (e != null <==> |RecoveryData(data, tok)| < 224)
    ensures e != null ==> |e.configs| == |tpl|
    ensures e != null ==> forall i :: 0 <= i < |tpl| ==> ConfigMade(c, i, tpl[i], data, c.random(1), e.configs[i].config)
  {
    forall i | 0 <= i < |tpl|
      ensures !EboxFile.SplitPrimary(tpl[i].kind, tpl[i].n)
    {
      EboxTemplate.BuiltIsUnsplit(tpl[i]);
    }
    s, e := CreateAndStore(c, keys, tpl, data, tok);
  }

  lemma SameConfigs(c: Crypto, tpl: seq<TplConfig>, data: Bytes, made: EboxObject, e: EboxObject)
    requires (forall k :: |c.random(k)| == KEYLEN) && |made.configs| == |tpl|
    requires ConfigsMade(c, tpl, data, c.random(1), made.configs, made.ephemerals)
    requires Configs(e.configs) == Configs(made.configs)
    ensures |e.configs| == |tpl| && forall i :: 0 <= i < |tpl| ==> ConfigMade(c, i, tpl[i], data, c.random(1), e.configs[i].config)
  {
    assert |Configs(e.configs)| == |Configs(made.configs)|;
    forall i | 0 <= i < |tpl|
      ensures ConfigMade(c, i, tpl[i], data, c.random(1), e.configs[i].config)
    {
      assert e.configs[i].config == Configs(e.configs)[i] == Configs(made.configs)[i] == made.configs[i].config;
    }
  }

  /** The parts of a configuration open to their secrets. */
  lemma PartsOpen(c: Crypto, keys: Keys, call: nat, tc: TplConfig, data: Bytes, r: Config)
    requires Sound(c, keys) && ConfigOk(keys, tc) && |data| < 256 && ConfigMade(c, call, tc, data, c.random(1), r)
    ensures var secrets := Secrets(c, call, tc, data, c.random(1));
      |secrets| == |r.parts| && forall j :: 0 <= j < |secrets| ==> c.open(r.parts[j].box) == Some(secrets[j])
  {
    var secrets := Secrets(c, call, tc, data, c.random(1));
    SecretsFit(c, keys, call, tc, data);
    forall j | 0 <= j < |secrets|
      ensures c.open(r.parts[j].box) == Some(secrets[j])
    {
      var p := tc.parts[j];
      assert PartOk(keys, p) && SealedFor(c, p, c.ephemeral(p.curve), secrets[j], c.seal(p, c.ephemeral(p.curve), secrets[j]));
    }
  }

  /** With the right key the recovery data comes out. */
  lemma DataComesOut(c: Crypto, rk: Bytes, iv: Bytes, data: Bytes, tok: Option<Bytes>)
    requires Ciphers(c) && |rk| == KEYLEN && |iv| == IVLEN && |data| < 256 && (tok.Some? ==> |tok.value| < 256)
    ensures var plain := DecryptedRecovery(c, rk, iv, c.encrypt(rk, iv, Padded(RecoveryData(data, tok))));
      plain.Some? && ParseRecovery(plain.value) == Some((tok, data))
  {
    var p := RecoveryData(data, tok);
    assert rk[..KEYLEN] == rk && iv[..IVLEN] == iv;
    PaddingComesOff(p);
    RecoveryDataReads(data, tok);
  }

  /** The recovery configuration restores exactly when enough parts were opened. */
  lemma ConfigRecovers(c: Crypto, keys: Keys, call: nat, tc: TplConfig, data: Bytes, tok: Option<Bytes>,
                       r: Config, chosen: seq<bool>, iv: Bytes)
    requires Sound(c, keys) && ConfigOk(keys, tc) && tc.kind == EBOX_RECOVERY && |data| < 256 && (tok.Some? ==> |tok.value| < 256)
    requires ConfigMade(c, call, tc, data, c.random(1), r) && |chosen| == |tc.parts| && |iv| == IVLEN
    ensures var secrets := Secrets(c, call, tc, data, c.random(1));
      var live := Live(r, Unsealed(secrets, chosen));
      && ShareSizes(live.held) && |r.nonce| == KEYLEN && |Available(live.held)| == Count(chosen)
      && (Count(chosen) >= tc.n ==>
            Recovered(c, live, iv, c.encrypt(c.random(1), iv, Padded(RecoveryData(data, tok)))) == Some((tok, data)))
  {
    var rk, nonce := c.random(1), c.random(2 + call);
    var secrets := Secrets(c, call, tc, data, rk);
    assert Splits(c, call, Masked(nonce, rk), |tc.parts|, tc.n);
    AvailableIsPicked(secrets, chosen);
    if Count(chosen) >= tc.n {
      SharesRestore(c, call, Masked(nonce, rk), |tc.parts|, tc.n, chosen);
      MaskedTwice(rk, nonce);
      DataComesOut(c, rk, iv, data, tok);
    }
  }

  /** What becomes of an ebox that is created, stored and opened again. */
  datatype Fate = TooLong | Refused | Opened(outcome: Outcome)

  /** N of M: any n parts of a recovery configuration, opened after storage, restore key and token;
      fewer do not. */
  method RecoverAfterStorage(c: Crypto, keys: Keys, tpl: seq<TplConfig>, data: Bytes, tok: Option<Bytes>, ci: nat, chosen: seq<bool>)
    returns (r: Fate, e: EboxObject?)
    requires Sound(c, keys) && FewCurves(keys) && TemplateOk(keys, tpl) && |data| < 256 && (tok.Some? ==> |tok.value| < 256)
    requires ci < |tpl| && tpl[ci].kind == EBOX_RECOVERY && |chosen| == |tpl[ci].parts|
    ensures r == if |RecoveryData(data, tok)| >= 224 then TooLong else if !Unsplit(tpl) then Refused
                 else Opened(if Count(chosen) >= tpl[ci].n then Ok else InsufficientParts)
    ensures r == Opened(Ok) ==> e != null && e.key == Some(data) && e.token == tok
    ensures r == Opened(InsufficientParts) ==> e != null && e.key == None && e.token == None
  {
    var s;
    s, e := CreateAndStore(c, keys, tpl, data, tok);
    if e == null {
      return if s.None? then TooLong else Refused, null;
    }
    ghost var config := e.configs[ci].config;
    assert ConfigOk(keys, tpl[ci]) && ConfigMade(c, ci, tpl[ci], data, c.random(1), config);
    PartsOpen(c, keys, ci, tpl[ci], data, config);
    ConfigRecovers(c, keys, ci, tpl[ci], data, tok, config, chosen, e.iv);
    OpenParts(e, c, ci, chosen, Secrets(c, ci, tpl[ci], data, c.random(1)));
    var outcome := e.Recover(c, ci);
    r := Opened(outcome);
  }

  /** Any part of a primary configuration, wherever the configuration stands, gives the key. */
  method UnlockAfterStorage(c: Crypto, keys: Keys, tpl: seq<TplConfig>, data: Bytes, tok: Option<Bytes>, ci: nat, chosen: seq<bool>)
    returns (r: Fate, e: EboxObject?)
    requires Sound(c, keys) && FewCurves(keys) && TemplateOk(keys, tpl) && |data| < 256 && (tok.Some? ==> |tok.value| < 256)
    requires ci < |tpl| && tpl[ci].kind == EBOX_PRIMARY && |chosen| == |tpl[ci].parts|
    ensures r == if |RecoveryData(data, tok)| >= 224 then TooLong else if !Unsplit(tpl) then Refused
                 else Opened(if true in chosen && data != [] then Ok else InsufficientParts)
    ensures r == Opened(Ok) ==> e != null && e.key == Some(data)
  {
    var s;
    s, e := CreateAndStore(c, keys, tpl, data, tok);
    if e == null {
      return if s.None? then TooLong else Refused, null;
    }
    ghost var config := e.configs[ci].config;
    assert ConfigOk(keys, tpl[ci]) && ConfigMade(c, ci, tpl[ci], data, c.random(1), config);
    PartsOpen(c, keys, ci, tpl[ci], data, config);
    OpenParts(e, c, ci, chosen, Secrets(c, ci, tpl[ci], data, c.random(1)));
    AnyPart(Secrets(c, ci, tpl[ci], data, c.random(1)), chosen, data);
    assert e.configs[ci].held == Unsealed(Secrets(c, ci, tpl[ci], data, c.random(1)), chosen);
    var outcome;
    ghost var part;
    outcome, part := e.Unlock(ci);
    if outcome == Ok {
      assert chosen[part];
    } else {
      forall k | 0 <= k < |chosen|
        ensures data == [] || !chosen[k]
      {
        assert !HasData(e.configs[ci].held[k]);
      }
    }
    r := Opened(outcome);
  }

  lemma AnyPart(secrets: seq<Bytes>, chosen: seq<bool>, data: Bytes)
    requires |secrets| == |chosen| && (forall j :: 0 <= j < |secrets| ==> secrets[j] == data)
    ensures forall k :: 0 <= k < |chosen| ==> (HasData(Unsealed(secrets, chosen)[k]) <==> chosen[k] && data != [])
    ensures forall k :: 0 <= k < |chosen| && chosen[k] ==> Unsealed(secrets, chosen)[k].plain == Some(data)
  {
  }
}
