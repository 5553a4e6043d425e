/** Whole eboxes: configurations, ephemeral keys and the file around them (ebox.c). */
module EboxFile {
  import opened Bits
  import opened Buffers
  import opened EboxFormat

  // ---- lists ----

  function PutParts(ps: seq<Part>): Bytes
    requires forall i {:trigger ps[i]} :: 0 <= i < |ps| ==> PartFits(ps[i])
  {
    if ps == [] then [] else PartBytes(ps[0], 4) + PutParts(ps[1..])
  }

  function GetParts(keys: Keys, es: seq<Ephemeral>, k: nat, s: Bytes): (r: Option<(seq<Part>, Bytes)>)
    ensures r.Some? ==> |r.value.1| <= |s| && |r.value.0| == k
    decreases k
  {
    if k == 0 then Some(([], s))
    else
      var p := PartOf(keys, es, s, 4);
      if p.None? then None
      else
        var ps := GetParts(keys, es, k - 1, p.value.1);
        if ps.None? then None else Some(([p.value.0] + ps.value.0, ps.value.1))
  }

  lemma {:induction false} PartsRead(keys: Keys, es: seq<Ephemeral>, ps: seq<Part>, rest: Bytes)
    requires forall i {:trigger ps[i]} :: 0 <= i < |ps| ==> PartFits(ps[i]) && PartReadable(keys, es, ps[i])
    ensures GetParts(keys, es, |ps|, PutParts(ps) + rest) == Some((ps, rest))
    decreases |ps|
  {
    if ps == [] {
      assert PutParts(ps) + rest == rest;
    } else {
      AppendAssoc(PartBytes(ps[0], 4), PutParts(ps[1..]), rest);
      FoldedPartReads(keys, es, ps[0], PutParts(ps[1..]) + rest);
      PartsRead(keys, es, ps[1..], rest);
      assert [ps[0]] + ps[1..] == ps;
    }
  }

  // ---- configurations ----

  predicate ConfigFits(c: Config) {
    |c.nonce| < 256 && forall i {:trigger c.parts[i]} :: 0 <= i < |c.parts| ==> PartFits(c.parts[i])
  }

  /** sshbuf_put_ebox_config; an absent nonce is the empty string. */
  function PutConfig(c: Config): Bytes
    requires ConfigFits(c)
  {
    [c.kind, c.n, c.m] + (String8(c.nonce) + PutParts(c.parts))
  }

  /** At least one is read, whatever the count says. */
  function AtLeastOne(k: nat): nat {
    if k == 0 then 1 else k
  }

  /** sshbuf_get_ebox_config. */
  function GetConfig(keys: Keys, version: byte, es: seq<Ephemeral>, s: Bytes): (r: Option<(Config, Bytes)>)
    ensures r.Some? ==> |r.value.1| < |s|
  {
    if |s| < 3 || (s[0] != EBOX_PRIMARY && s[0] != EBOX_RECOVERY) then None
    else
      var nonce := if version >= EBOX_V3 then GetString8(s[3..]) else Some(([], s[3..]));
      if nonce.None? || (s[0] == EBOX_PRIMARY && (|nonce.value.0| > 0 || s[1] > 1)) then None
      else
        var parts := GetParts(keys, es, AtLeastOne(s[2]), nonce.value.1);
        if parts.None? then None
        else Some((Config(s[0], s[1], s[2], nonce.value.0, parts.value.0), parts.value.1))
  }

  /** As many parts as it says, each readable, and a nonce only where it belongs. */
  ghost predicate ConfigSound(keys: Keys, es: seq<Ephemeral>, c: Config) {
    && ConfigFits(c) && c.m == |c.parts| >= 1
    && (c.kind == EBOX_RECOVERY || (c.kind == EBOX_PRIMARY && c.nonce == []))
    && forall i {:trigger c.parts[i]} :: 0 <= i < |c.parts| ==> PartReadable(keys, es, c.parts[i])
  }

  /** A primary configuration with a threshold above one: written, but refused by the reader. */
  predicate SplitPrimary(kind: byte, n: byte) {
    kind == EBOX_PRIMARY && n > 1
  }

  ghost predicate ConfigReadable(keys: Keys, es: seq<Ephemeral>, c: Config) {
    ConfigSound(keys, es, c) && !SplitPrimary(c.kind, c.n)
  }

  lemma ConfigReads(keys: Keys, es: seq<Ephemeral>, c: Config, rest: Bytes)
    requires ConfigReadable(keys, es, c)
    ensures GetConfig(keys, EBOX_V3, es, PutConfig(c) + rest) == Some((c, rest))
  {
    var s := PutConfig(c) + rest;
    var body := String8(c.nonce) + PutParts(c.parts);
    assert s[3..] == body + rest && s[0] == c.kind && s[1] == c.n && s[2] == c.m;
    Front(c.nonce, PutParts(c.parts), rest);
    PartsRead(keys, es, c.parts, rest);
  }

  lemma SplitPrimaryIsRefused(keys: Keys, es: seq<Ephemeral>, c: Config, rest: Bytes)
    requires ConfigFits(c) && SplitPrimary(c.kind, c.n)
    ensures GetConfig(keys, EBOX_V3, es, PutConfig(c) + rest) == None
  {
    var s := PutConfig(c) + rest;
    assert s[0] == c.kind && s[1] == c.n;
  }

  // Folded for the proofs about lists.

  function ConfigBytes(c: Config, depth: nat): Bytes
    requires ConfigFits(c)
    decreases depth, c
  {
    if depth > 0 then ConfigBytes(c, depth - 1) else PutConfig(c)
  }

  function ConfigOf(keys: Keys, version: byte, es: seq<Ephemeral>, s: Bytes, depth: nat): (r: Option<(Config, Bytes)>)
    ensures r.Some? ==> |r.value.1| < |s|
    decreases depth, |s|
  {
    if depth > 0 then ConfigOf(keys, version, es, s, depth - 1) else GetConfig(keys, version, es, s)
  }

  lemma FoldedConfig(keys: Keys, es: seq<Ephemeral>, c: Config, rest: Bytes)
    requires ConfigFits(c)
    ensures ConfigOf(keys, EBOX_V3, es, ConfigBytes(c, 4) + rest, 4) == GetConfig(keys, EBOX_V3, es, PutConfig(c) + rest)
  {
    assert ConfigBytes(c, 4) == ConfigBytes(c, 3) == ConfigBytes(c, 2) == ConfigBytes(c, 1) == ConfigBytes(c, 0);
    var s := PutConfig(c) + rest;
    assert ConfigOf(keys, EBOX_V3, es, s, 4) == ConfigOf(keys, EBOX_V3, es, s, 3) == ConfigOf(keys, EBOX_V3, es, s, 2);
    assert ConfigOf(keys, EBOX_V3, es, s, 2) == ConfigOf(keys, EBOX_V3, es, s, 1) == ConfigOf(keys, EBOX_V3, es, s, 0);
  }

  function PutConfigs(cs: seq<Config>): Bytes
    requires forall i {:trigger cs[i]} :: 0 <= i < |cs| ==> ConfigFits(cs[i])
  {
    if cs == [] then [] else ConfigBytes(cs[0], 4) + PutConfigs(cs[1..])
  }

  function GetConfigs(keys: Keys, version: byte, es: seq<Ephemeral>, k: nat, s: Bytes): (r: Option<(seq<Config>, Bytes)>)
    ensures r.Some? ==> |r.value.0| == k
    decreases k
  {
    if k == 0 then Some(([], s))
    else
      var c := ConfigOf(keys, version, es, s, 4);
      if c.None? then None
      else
        var cs := GetConfigs(keys, version, es, k - 1, c.value.1);
        if cs.None? then None else Some(([c.value.0] + cs.value.0, cs.value.1))
  }

  /** No configuration is a split primary. */
  predicate NoneSplit(cs: seq<Config>) {
    forall i {:trigger cs[i]} :: 0 <= i < |cs| ==> !SplitPrimary(cs[i].kind, cs[i].n)
  }

  /** All configurations are read back, or, if there is a split primary among them, none. */
  lemma {:induction false} ConfigsRead(keys: Keys, es: seq<Ephemeral>, cs: seq<Config>, rest: Bytes)
    requires forall i {:trigger cs[i]} :: 0 <= i < |cs| ==> ConfigFits(cs[i]) && ConfigSound(keys, es, cs[i])
    ensures GetConfigs(keys, EBOX_V3, es, |cs|, PutConfigs(cs) + rest) == if NoneSplit(cs) then Some((cs, rest)) else None
    decreases |cs|
  {
    if cs == [] {
      assert PutConfigs(cs) + rest == rest;
    } else {
      var more := PutConfigs(cs[1..]) + rest;
      AppendAssoc(ConfigBytes(cs[0], 4), PutConfigs(cs[1..]), rest);
      FoldedConfig(keys, es, cs[0], more);
      ConfigsRead(keys, es, cs[1..], rest);
      FirstAndRest(cs);
      if SplitPrimary(cs[0].kind, cs[0].n) {
        SplitPrimaryIsRefused(keys, es, cs[0], more);
      } else {
        assert ConfigReadable(keys, es, cs[0]);
        ConfigReads(keys, es, cs[0], more);
        assert [cs[0]] + cs[1..] == cs;
      }
    }
  }

  lemma FirstAndRest(cs: seq<Config>)
    requires cs != []
    ensures NoneSplit(cs) <==> !SplitPrimary(cs[0].kind, cs[0].n) && NoneSplit(cs[1..])
  {
    if NoneSplit(cs) {
      assert forall i :: 0 <= i < |cs| - 1 ==> cs[1..][i] == cs[i + 1];
    }
    assert forall i :: 1 <= i < |cs| ==> cs[i] == cs[1..][i - 1];
  }

  // ---- ephemeral keys ----

  predicate EphemeralFits(e: Ephemeral) {
    |e.curve| < 256 && |e.pub| < 256
  }

  function PutEphemerals(es: seq<Ephemeral>): Bytes
    requires forall i {:trigger es[i]} :: 0 <= i < |es| ==> EphemeralFits(es[i])
  {
    if es == [] then []
    else
      assert EphemeralFits(es[0]);
      (String8(es[0].curve) + String8(es[0].pub)) + PutEphemerals(es[1..])
  }

  /** Each key read goes to the front of the list, so that the list ends up reversed. */
  function GetEphemerals(keys: Keys, k: nat, acc: seq<Ephemeral>, s: Bytes): Option<(seq<Ephemeral>, Bytes)>
    decreases k
  {
    if k == 0 then Some((acc, s))
    else
      var p := PointOf(keys, s, 4);
      if p.None? then None
      else GetEphemerals(keys, k - 1, [Ephemeral(p.value.0.0, p.value.0.1)] + acc, p.value.1)
  }

  /** GetPoint, folded for the proof about lists. */
  function PointOf(keys: Keys, s: Bytes, depth: nat): Option<((Bytes, Bytes), Bytes)>
    decreases depth, |s|
  {
    if depth > 0 then PointOf(keys, s, depth - 1) else GetPoint(keys, s)
  }

  function Reversed(es: seq<Ephemeral>): seq<Ephemeral> {
    if es == [] then [] else Reversed(es[1..]) + [es[0]]
  }

  ghost predicate EphemeralReadable(keys: Keys, e: Ephemeral) {
    EphemeralFits(e) && 0 !in e.curve && keys.curve(e.curve) && keys.point(e.curve, e.pub)
  }

  lemma {:induction false} EphemeralsRead(keys: Keys, es: seq<Ephemeral>, acc: seq<Ephemeral>, rest: Bytes)
    requires forall i {:trigger es[i]} :: 0 <= i < |es| ==> EphemeralFits(es[i]) && EphemeralReadable(keys, es[i])
    ensures GetEphemerals(keys, |es|, acc, PutEphemerals(es) + rest) == Some((Reversed(es) + acc, rest))
    decreases |es|
  {
    if es == [] {
      assert PutEphemerals(es) + rest == rest && Reversed(es) + acc == acc;
    } else {
      var more := PutEphemerals(es[1..]);
      PointReads(keys, es[0], more + rest);
      AppendAssoc(String8(es[0].curve) + String8(es[0].pub), more, rest);
      EphemeralsRead(keys, es[1..], [es[0]] + acc, rest);
      assert Reversed(es[1..]) + ([es[0]] + acc) == Reversed(es) + acc;
    }
  }

  lemma PointReads(keys: Keys, e: Ephemeral, rest: Bytes)
    requires EphemeralReadable(keys, e)
    ensures PointOf(keys, (String8(e.curve) + String8(e.pub)) + rest, 4) == Some(((e.curve, e.pub), rest))
  {
    var s := (String8(e.curve) + String8(e.pub)) + rest;
    assert PointOf(keys, s, 4) == PointOf(keys, s, 3) == PointOf(keys, s, 2) == PointOf(keys, s, 1) == PointOf(keys, s, 0);
    Front(e.curve, String8(e.pub), rest);
    String8Reads(e.pub, rest);
  }

  /** One key per curve. */
  ghost predicate Distinct(es: seq<Ephemeral>) {
    forall i, j :: 0 <= i < j < |es| ==> es[i].curve != es[j].curve
  }

  lemma {:induction false} LookupFinds(es: seq<Ephemeral>, curve: Bytes)
    ensures Lookup(es, curve).Some? <==> exists i :: 0 <= i < |es| && es[i].curve == curve
  {
    if es != [] {
      LookupFinds(es[1..], curve);
      if es[0].curve != curve && Lookup(es[1..], curve).Some? {
        var i :| 0 <= i < |es[1..]| && es[1..][i].curve == curve;
        assert es[i + 1].curve == curve;
      }
      assert forall i :: 1 <= i < |es| ==> es[i] == es[1..][i - 1];
    }
  }

  lemma {:induction false} LookupAppend(a: seq<Ephemeral>, b: seq<Ephemeral>, curve: Bytes)
    ensures Lookup(a + b, curve) == if Lookup(a, curve).Some? then Lookup(a, curve) else Lookup(b, curve)
  {
    if a == [] {
      assert a + b == b;
    } else {
      assert (a + b)[1..] == a[1..] + b;
      LookupAppend(a[1..], b, curve);
    }
  }

  /** With one key per curve, the order of the list does not matter to the boxes. */
  lemma {:induction false} LookupReversed(es: seq<Ephemeral>, curve: Bytes)
    requires Distinct(es)
    ensures Lookup(Reversed(es), curve) == Lookup(es, curve)
  {
    if es != [] {
      assert forall i :: 0 <= i < |es| - 1 ==> es[1..][i] == es[i + 1];
      LookupReversed(es[1..], curve);
      LookupAppend(Reversed(es[1..]), [es[0]], curve);
      assert Lookup([es[0]], curve) == if es[0].curve == curve then Some(es[0].pub) else None by { assert [es[0]][1..] == []; }
      LookupFinds(es[1..], curve);
    }
  }

  // ---- the file ----

  /** Everything has a length that its field can express. */
  predicate Fits(e: Stored) {
    && |e.cipher| < 256 && |e.iv| < 256 && |e.enc| < 256 && |e.ephemerals| < 256 && |e.configs| < 256
    && (forall i {:trigger e.ephemerals[i]} :: 0 <= i < |e.ephemerals| ==> EphemeralFits(e.ephemerals[i]))
    && (forall i {:trigger e.configs[i]} :: 0 <= i < |e.configs| ==> ConfigFits(e.configs[i]))
  }

  function PutTail(e: Stored): Bytes
    requires Fits(e)
  {
    [|e.ephemerals|] + (PutEphemerals(e.ephemerals) + ([|e.configs|] + PutConfigs(e.configs)))
  }

  /** sshbuf_put_ebox. */
  function Put(e: Stored): Bytes
    requires Fits(e)
  {
    [0xEB, 0x0C, e.version, e.kind] + (String8(e.cipher) + (String8(e.iv) + (String8(e.enc) + PutTail(e))))
  }

  /** Ephemeral keys and configurations. */
  function GetTail(keys: Keys, version: byte, s: Bytes): Option<((seq<Ephemeral>, seq<Config>), Bytes)> {
    var neeks := GetU8(s);
    if neeks.None? then None
    else
      var es := GetEphemerals(keys, neeks.value.0, [], neeks.value.1);
      if es.None? then None
      else
        var n := GetU8(es.value.1);
        if n.None? then None
        else
          var cs := GetConfigs(keys, version, es.value.0, AtLeastOne(n.value.0), n.value.1);
          if cs.None? then None else Some(((es.value.0, cs.value.0), cs.value.1))
  }

  /** sshbuf_get_ebox for versions 2 and 3; the magic number is wrong only if both bytes are. */
  function Get(keys: Keys, s: Bytes): Option<(Stored, Bytes)> {
    if |s| < 4 || (s[0] != 0xEB && s[1] != 0x0C) || s[2] < EBOX_V2 || s[2] > EBOX_V3 then None
    else if s[3] != EBOX_KEY && s[3] != EBOX_STREAM then None
    else
      var head := GetHead(s[4..]);
      if head.None? then None
      else
        var tail := GetTail(keys, s[2], head.value.1);
        if tail.None? then None
        else
          var (cipher, iv, enc) := head.value.0;
          Some((Stored(s[2], s[3], cipher, iv, enc, tail.value.0.0, tail.value.0.1), tail.value.1))
  }

  /** Cipher name, initialisation vector and recovery data. */
  function GetHead(s: Bytes): Option<((Bytes, Bytes, Bytes), Bytes)> {
    var cipher := GetCString8(s);
    if cipher.None? then None
    else
      var iv := GetString8(cipher.value.1);
      if iv.None? then None
      else
        var enc := GetString8(iv.value.1);
        if enc.None? then None else Some(((cipher.value.0, iv.value.0, enc.value.0), enc.value.1))
  }

  /** Whatever was written can be read, but for split primaries. */
  ghost predicate Written(keys: Keys, e: Stored) {
    && Fits(e) && e.version == EBOX_V3 && (e.kind == EBOX_KEY || e.kind == EBOX_STREAM) && 0 !in e.cipher && |e.configs| >= 1
    && Distinct(e.ephemerals)
    && (forall i {:trigger e.ephemerals[i]} :: 0 <= i < |e.ephemerals| ==> EphemeralReadable(keys, e.ephemerals[i]))
    && (forall i {:trigger e.configs[i]} :: 0 <= i < |e.configs| ==> ConfigSound(keys, e.ephemerals, e.configs[i]))
  }

  /** Reading back what was written: the same ebox, its ephemeral keys in reverse order, and nothing
      at all exactly if some primary configuration is split. */
  lemma Reads(keys: Keys, e: Stored, rest: Bytes)
    requires Written(keys, e)
    ensures Get(keys, Put(e) + rest) == if NoneSplit(e.configs) then Some((e.(ephemerals := Reversed(e.ephemerals)), rest)) else None
  {
    var t3 := String8(e.enc) + PutTail(e);
    var t2 := String8(e.iv) + t3;
    var t1 := String8(e.cipher) + t2;
    var s := Put(e) + rest;
    assert s[4..] == t1 + rest && s[0] == 0xEB && s[1] == 0x0C && s[2] == e.version && s[3] == e.kind;
    assert GetHead(t1 + rest) == Some(((e.cipher, e.iv, e.enc), PutTail(e) + rest)) by {
      Front(e.cipher, t2, rest);
      Front(e.iv, t3, rest);
      Front(e.enc, PutTail(e), rest);
    }
    TailReads(keys, e, rest);
  }

  lemma TailReads(keys: Keys, e: Stored, rest: Bytes)
    requires Written(keys, e)
    ensures GetTail(keys, EBOX_V3, PutTail(e) + rest)
         == if NoneSplit(e.configs) then Some(((Reversed(e.ephemerals), e.configs), rest)) else None
  {
    var es := e.ephemerals;
    var t2 := [|e.configs|] + PutConfigs(e.configs);
    var t1 := PutEphemerals(es) + t2;
    AppendAssoc([|es|], t1, rest);
    ByteReads(|es|, t1 + rest);
    AppendAssoc(PutEphemerals(es), t2, rest);
    EphemeralsRead(keys, es, [], t2 + rest);
    assert Reversed(es) + [] == Reversed(es);
    AppendAssoc([|e.configs|], PutConfigs(e.configs), rest);
    ByteReads(|e.configs|, PutConfigs(e.configs) + rest);
    forall i | 0 <= i < |e.configs|
      ensures ConfigFits(e.configs[i]) && ConfigSound(keys, Reversed(es), e.configs[i])
    {
      ReversedReadable(keys, es, e.configs[i]);
    }
    ConfigsRead(keys, Reversed(es), e.configs, rest);
  }

  lemma ReversedReadable(keys: Keys, es: seq<Ephemeral>, c: Config)
    requires ConfigSound(keys, es, c) && Distinct(es)
    ensures ConfigSound(keys, Reversed(es), c)
  {
    forall i | 0 <= i < |c.parts|
      ensures PartReadable(keys, Reversed(es), c.parts[i])
    {
      LookupReversed(es, c.parts[i].box.curve);
    }
  }
}
