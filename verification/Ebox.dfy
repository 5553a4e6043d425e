/** Creating, opening and recovering an ebox (ebox.c).  Ciphers, boxes and secret sharing are
    parameters. */
module Ebox {
  import opened Bits
  import opened Buffers
  import opened ChaCha
  import opened EboxFormat

  const RECOV_TOKEN: byte := 1
  const RECOV_KEY: byte := 2
  const BLOCK: nat := 16
  const AUTHLEN: nat := 16
  const IVLEN: nat := 12
  const KEYLEN: nat := 32
  const SHARELEN: nat := 33

  /** "aes256-gcm". */
  const AES256_GCM: Bytes := [97, 101, 115, 50, 53, 54, 45, 103, 99, 109]

  /** Where a part of a template goes: one PIV slot and its public key. */
  datatype TplPart = TplPart(guid: Bytes, name: Option<Bytes>, cak: Option<Bytes>, slot: byte, curve: Bytes, pub: Bytes)

  datatype TplConfig = TplConfig(kind: byte, n: byte, parts: seq<TplPart>)

  /** The code that ebox.c calls: an authenticated cipher, secret sharing (numbered by call), boxes
      and their opening on the card, ephemeral keys and random bytes. */
  datatype Crypto = Crypto(
    encrypt: (Bytes, Bytes, Bytes) -> Bytes,
    decrypt: (Bytes, Bytes, Bytes) -> Option<Bytes>,
    split: (nat, Bytes, nat, nat) -> seq<Bytes>,
    combine: seq<Bytes> -> Bytes,
    seal: (TplPart, Bytes, Bytes) -> Box,
    open: Box -> Option<Bytes>,
    ephemeral: Bytes -> Bytes,
    random: nat -> Bytes)

  /** n different shares out of m, in order. */
  ghost predicate Choice(idx: seq<nat>, n: nat, m: nat) {
    && |idx| == n
    && (forall i :: 0 <= i < |idx| ==> idx[i] < m)
    && (forall i, j :: 0 <= i < j < |idx| ==> idx[i] < idx[j])
  }

  ghost function Pick(shares: seq<Bytes>, idx: seq<nat>): seq<Bytes>
    requires forall i :: 0 <= i < |idx| ==> idx[i] < |shares|
  {
    seq(|idx|, i requires 0 <= i < |idx| => shares[idx[i]])
  }

  ghost predicate Ciphers(c: Crypto) {
    forall k, iv, p {:trigger c.encrypt(k, iv, p)} ::
      |c.encrypt(k, iv, p)| == |p| + AUTHLEN && c.decrypt(k, iv, c.encrypt(k, iv, p)) == Some(p)
  }

  ghost predicate Splits(c: Crypto, call: nat, s: Bytes, m: nat, n: nat) {
    var shares := c.split(call, s, m, n);
    && |shares| == m && (forall i :: 0 <= i < m ==> |shares[i]| == SHARELEN)
    && (forall idx {:trigger Choice(idx, n, m)} :: Choice(idx, n, m) ==> c.combine(Pick(shares, idx)) == s)
  }

  /** Any n shares restore a 32-byte key. */
  ghost predicate Shares(c: Crypto) {
    forall call, s, m, n {:trigger c.split(call, s, m, n)} :: |s| == KEYLEN && 1 <= n <= m < 256 ==> Splits(c, call, s, m, n)
  }

  ghost predicate Combines(c: Crypto) {
    forall shares {:trigger c.combine(shares)} :: |c.combine(shares)| == KEYLEN
  }

  /** A part that can be sealed to. */
  ghost predicate PartOk(keys: Keys, p: TplPart) {
    && |p.guid| == 16 && (p.name.Some? ==> |p.name.value| < 256 && 0 !in p.name.value)
    && (p.cak.Some? ==> |p.cak.value| < B32 && keys.key(p.cak.value))
    && |p.curve| < 256 && 0 !in p.curve && |p.pub| < 256 && keys.curve(p.curve) && keys.point(p.curve, p.pub)
  }

  /** A box that opens, with its ephemeral key, to the data. */
  ghost predicate SealedFor(c: Crypto, p: TplPart, e: Bytes, d: Bytes, b: Box) {
    c.open(b) == Some(d) && BoxFits(b) && 0 !in b.cipher && 0 !in b.kdf && b.curve == p.curve && b.pub == p.pub && b.ephem == e
  }

  ghost predicate Seals(c: Crypto, keys: Keys) {
    forall p, e, d {:trigger c.seal(p, e, d)} :: PartOk(keys, p) && |d| < 256 ==> SealedFor(c, p, e, d, c.seal(p, e, d))
  }

  ghost predicate Generates(c: Crypto, keys: Keys) {
    && (forall k {:trigger c.random(k)} :: |c.random(k)| == KEYLEN)
    && (forall x {:trigger c.ephemeral(x)} :: keys.curve(x) ==> |c.ephemeral(x)| < 256 && keys.point(x, c.ephemeral(x)))
  }

  ghost predicate Sound(c: Crypto, keys: Keys) {
    Ciphers(c) && Shares(c) && Combines(c) && Seals(c, keys) && Generates(c, keys)
  }

  // ---- padding and recovery data ----

  /** Padding to whole blocks, at least one byte: section 6.3 of RFC 5652. */
  function Padded(p: Bytes): (q: Bytes)
    ensures |q| % BLOCK == 0 && |p| < |q| <= |p| + BLOCK
  {
    var n := BLOCK - |p| % BLOCK;
    p + seq(n, _ => n)
  }

  function Unpadded(q: Bytes): Option<Bytes> {
    if q == [] then None
    else
      var n := q[|q| - 1];
      if n > BLOCK || n == 0 || n > |q| || (exists i :: |q| - n <= i < |q| && q[i] != n) then None
      else Some(q[..|q| - n])
  }

  lemma PaddingComesOff(p: Bytes)
    ensures Unpadded(Padded(p)) == Some(p)
  {
    var q, n := Padded(p), BLOCK - |p| % BLOCK;
    assert q[|q| - 1] == n;
    assert forall i :: |q| - n <= i < |q| ==> q[i] == n;
    assert q[..|q| - n] == p;
  }

  /** The tagged token and key. */
  function RecoveryData(key: Bytes, token: Option<Bytes>): Bytes
    requires |key| < 256 && (token.Some? ==> |token.value| < 256)
  {
    (if token.Some? then [RECOV_TOKEN] + String8(token.value) else []) + ([RECOV_KEY] + String8(key))
  }

  /** What is read back; bytes after the key do not matter. */
  function ParseRecovery(s: Bytes): Option<(Option<Bytes>, Bytes)> {
    var tag := GetU8(s);
    if tag.None? then None
    else if tag.value.0 == RECOV_TOKEN then
      var token := GetString8(tag.value.1);
      if token.None? then None
      else
        var tag2 := GetU8(token.value.1);
        if tag2.None? || tag2.value.0 != RECOV_KEY then None
        else
          var key := GetString8(tag2.value.1);
          if key.None? then None else Some((Some(token.value.0), key.value.0))
    else if tag.value.0 != RECOV_KEY then None
    else
      var key := GetString8(tag.value.1);
      if key.None? then None else Some((None, key.value.0))
  }

  lemma RecoveryDataReads(key: Bytes, token: Option<Bytes>)
    requires |key| < 256 && (token.Some? ==> |token.value| < 256)
    ensures ParseRecovery(RecoveryData(key, token)) == Some((token, key))
  {
    var tail := [RECOV_KEY] + String8(key);
    assert String8(key) + [] == String8(key) && [] + tail == tail;
    String8Reads(key, []);
    ByteReads(RECOV_KEY, String8(key));
    if token.Some? {
      AppendAssoc([RECOV_TOKEN], String8(token.value), tail);
      ByteReads(RECOV_TOKEN, String8(token.value) + tail);
      String8Reads(token.value, tail);
    }
  }

  /** Masking a key with a nonce of its length. */
  function Masked(a: Bytes, b: Bytes): (r: Bytes)
    requires |a| == |b|
    ensures |r| == |a|
  {
    seq(|a|, i requires 0 <= i < |a| => XorByte(a[i], b[i]))
  }

  lemma MaskedTwice(a: Bytes, b: Bytes)
    requires |a| == |b|
    ensures Masked(Masked(b, a), b) == a
  {
    forall i | 0 <= i < |a|
      ensures Masked(Masked(b, a), b)[i] == a[i]
    {
      XorCommutes(Xor(b[i], a[i]), b[i]);
      XorCancel(b[i], a[i]);
    }
  }
}
