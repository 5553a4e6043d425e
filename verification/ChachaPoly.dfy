/** The authenticated cipher chacha20-poly1305@openssh.com (libssh/cipher.c): a header and a payload
    under two keys, and a tag over both. */
module ChachaPoly {
  import opened Bits
  import opened Buffers
  import opened Limbs
  import opened ChaCha
  import opened ChaChaContext
  import Poly1305

  const SSH_ERR_INVALID_ARGUMENT: int := -10
  const SSH_ERR_MAC_INVALID: int := -30
  const TAGLEN: nat := 16

  const ZERO8: seq<byte> := [0, 0, 0, 0, 0, 0, 0, 0]
  const ONE8: seq<byte> := [1, 0, 0, 0, 0, 0, 0, 0]

  /** POKE_U64: the sequence number, most significant byte first. */
  function SeqBytes(n: u32): seq<byte> {
    [0, 0, 0, 0, n / 0x1000000, n / 0x10000 % 256, n / 0x100 % 256, n % 256]
  }

  /** The cipher state for a packet; the recursion on depth keeps it folded. */
  function PacketState(key: seq<byte>, n: u32, counter: seq<byte>, depth: nat): State
    requires |key| == 32 && |counter| == 8
    decreases depth, n
  {
    if depth > 0 then PacketState(key, n, counter, depth - 1) else KeyWords(key) + IvWords(SeqBytes(n), counter)
  }

  lemma PacketStateIs(key: seq<byte>, n: u32, counter: seq<byte>)
    requires |key| == 32 && |counter| == 8
    ensures PacketState(key, n, counter, 4) == KeyWords(key) + IvWords(SeqBytes(n), counter)
  {
    assert PacketState(key, n, counter, 4) == PacketState(key, n, counter, 3) == PacketState(key, n, counter, 2);
    assert PacketState(key, n, counter, 2) == PacketState(key, n, counter, 1) == PacketState(key, n, counter, 0);
  }

  /** The first half block of the main key stream. */
  function PolyKey(key: seq<byte>, n: u32): (k: seq<byte>)
    requires |key| == 64
    ensures |k| == 32
  {
    Crypt(PacketState(key[..32], n, ZERO8, 4), seq(32, _ => 0))
  }

  /** Header and payload, encrypted or decrypted. */
  function Transformed(key: seq<byte>, n: u32, aadlen: nat, text: seq<byte>): (r: seq<byte>)
    requires |key| == 64 && aadlen <= |text|
    ensures |r| == |text|
  {
    Crypt(PacketState(key[32..], n, ZERO8, 4), text[..aadlen]) + Crypt(PacketState(key[..32], n, ONE8, 4), text[aadlen..])
  }

  lemma TransformedTwice(key: seq<byte>, n: u32, aadlen: nat, text: seq<byte>)
    requires |key| == 64 && aadlen <= |text|
    ensures Transformed(key, n, aadlen, Transformed(key, n, aadlen, text)) == text
  {
    var h, b := PacketState(key[32..], n, ZERO8, 4), PacketState(key[..32], n, ONE8, 4);
    var t := Transformed(key, n, aadlen, text);
    CryptTwice(h, text[..aadlen]);
    CryptTwice(b, text[aadlen..]);
    assert t[..aadlen] == Crypt(h, text[..aadlen]) && t[aadlen..] == Crypt(b, text[aadlen..]);
    assert text[..aadlen] + text[aadlen..] == text;
  }

  /** timingsafe_bcmp. */
  method SameBytes(a: seq<byte>, b: seq<byte>) returns (same: bool)
    requires |a| == |b|
    ensures same <==> Value(a) == Value(b)
  {
    var d: nat := 0;
    for i := 0 to |a|
      invariant d == 0 <==> a[..i] == b[..i]
    {
      var e := XorByte(a[i], b[i]);
      XorZero(a[i], b[i]);
      OrAtLeast(d, e);
      assert a[..i + 1] == a[..i] + [a[i]] && b[..i + 1] == b[..i] + [b[i]];
      d := Or(d, e);
    }
    assert a[..|a|] == a && b[..|b|] == b;
    same := d == 0;
    if Value(a) == Value(b) {
      VInjective(a, b, |a|);
    }
  }

  class Cipher {
    const main: Context
    const header: Context

    /** The contexts hold the key; counters and nonces are whatever earlier packets left. */
    ghost predicate Keyed(key: seq<byte>)
      reads main, header
    {
      && |key| == 64 && main != header
      && main.input[..12] == KeyWords(key[..32]) && header.input[..12] == KeyWords(key[32..])
    }

    constructor ()
      ensures fresh(main) && fresh(header) && main != header
    {
      main := new Context();
      header := new Context();
    }

    /** chachapoly_init. */
    method Init(key: seq<byte>) returns (r: int)
      requires main != header
      modifies main, header
      ensures r == if |key| == 64 then 0 else SSH_ERR_INVALID_ARGUMENT
      ensures r == 0 ==> Keyed(key)
    {
      if |key| != 64 {
        return SSH_ERR_INVALID_ARGUMENT;
      }
      main.KeySetup(key[..32], 256);
      header.KeySetup(key[32..], 256);
      r := 0;
    }

    /** One context, set to a packet and run over part of the buffers. */
    method Run(ctx: Context, ghost key: seq<byte>, n: u32, counter: Option<seq<byte>>,
               src: array<byte>, dest: array<byte>, at: nat, len: u32)
      requires |key| == 32 && (counter.Some? ==> |counter.value| == 8) && ctx.input[..12] == KeyWords(key)
      requires at + len <= src.Length && at + len <= dest.Length
      modifies ctx, dest
      ensures ctx.input[..12] == KeyWords(key)
      ensures dest[at..at + len] == ChaCha.Crypt(PacketState(key, n, CounterBytes(counter), 4), old(src[at..at + len]))
      ensures forall p :: (0 <= p < at || at + len <= p < dest.Length) ==> dest[p] == old(dest[p])
    {
      ctx.IvSetup(SeqBytes(n), counter);
      PacketStateIs(key, n, CounterBytes(counter));
      assert ctx.input == ctx.input[..12] + ctx.input[12..];
      ctx.EncryptBytes(src, at, dest, at, len);
    }

    /** The Poly1305 key of a packet. */
    method MakePolyKey(ghost key: seq<byte>, n: u32) returns (k: seq<byte>)
      requires Keyed(key)
      modifies main
      ensures Keyed(key) && k == PolyKey(key, n)
    {
      var buf := new byte[32](_ => 0);
      assert buf[0..0 + 32] == seq(32, _ => 0);
      Run(main, key[..32], n, None, buf, buf, 0, 32);
      k := buf[..];
      assert k == buf[0..0 + 32];
    }

    /** chachapoly_crypt; dest may be src.  Decryption checks the tag before it touches dest. */
    method Crypt(ghost key: seq<byte>, n: u32, dest: array<byte>, src: array<byte>, len: nat, aadlen: nat, encrypt: bool) returns (r: int)
      requires Keyed(key) && aadlen + len < B32 && aadlen + len <= src.Length && aadlen + len <= dest.Length
      requires aadlen + len + TAGLEN <= (if encrypt then dest.Length else src.Length)
      modifies main, header, dest
      ensures Keyed(key)
      ensures encrypt ==> r == 0 && Value(dest[aadlen + len..aadlen + len + TAGLEN]) == Poly1305.Tag(dest[..aadlen + len], PolyKey(key, n))
      ensures !encrypt ==> r == if old(Authentic(key, n, src[..], aadlen + len)) then 0 else SSH_ERR_MAC_INVALID
      ensures r == 0 ==> dest[..aadlen + len] == Transformed(key, n, aadlen, old(src[..aadlen + len]))
      ensures r != 0 ==> dest[..] == old(dest[..])
    {
      var k := MakePolyKey(key, n);
      var total := aadlen + len;
      if !encrypt {
        var expected := Poly1305.Auth(src[..total], k);
        var same := SameBytes(expected, src[total..total + TAGLEN]);
        assert src[..][..total] == src[..total] && src[..][total..total + TAGLEN] == src[total..total + TAGLEN];
        if !same {
          return SSH_ERR_MAC_INVALID;
        }
      }
      CryptParts(key, n, dest, src, len, aadlen);
      if encrypt {
        ghost var text := dest[..total];
        var tag := Poly1305.Auth(dest[..total], k);
        Put(dest, total, tag);
        assert dest[..total] == text;
      }
      r := 0;
    }

    /** Header and payload, each under its key. */
    method CryptParts(ghost key: seq<byte>, n: u32, dest: array<byte>, src: array<byte>, len: nat, aadlen: nat)
      requires Keyed(key) && aadlen + len < B32 && aadlen + len <= src.Length && aadlen + len <= dest.Length
      modifies main, header, dest
      ensures Keyed(key)
      ensures dest[..aadlen + len] == Transformed(key, n, aadlen, old(src[..aadlen + len]))
    {
      ghost var text := src[..aadlen + len];
      assert src[0..0 + aadlen] == text[..aadlen] && src[aadlen..aadlen + len] == text[aadlen..];
      if aadlen > 0 {
        Run(header, key[32..], n, None, src, dest, 0, aadlen);
      }
      ghost var head := dest[0..0 + aadlen];
      assert src[aadlen..aadlen + len] == text[aadlen..];
      Run(main, key[..32], n, Some(ONE8), src, dest, aadlen, len);
      assert dest[0..0 + aadlen] == head;
      assert dest[..aadlen + len] == dest[0..0 + aadlen] + dest[aadlen..aadlen + len];
    }
  }

  /** The sixteen bytes after the text are its tag. */
  ghost predicate Authentic(key: seq<byte>, n: u32, packet: seq<byte>, total: nat)
    requires |key| == 64 && total + TAGLEN <= |packet|
  {
    Value(packet[total..total + TAGLEN]) == Poly1305.Tag(packet[..total], PolyKey(key, n))
  }

  /** A packet encrypted by one cipher is accepted and restored by any with the same key, whatever
      either has done before. */
  method RoundTrip(a: Cipher, b: Cipher, ghost key: seq<byte>, n: u32, text: seq<byte>, aadlen: nat) returns (r: int, plain: seq<byte>)
    requires a.Keyed(key) && b.Keyed(key) && (a == b || {a.main, a.header} !! {b.main, b.header})
    requires aadlen <= |text| < B32
    modifies a.main, a.header, b.main, b.header
    ensures r == 0 && plain == text && a.Keyed(key) && b.Keyed(key)
  {
    var packet := Seal(a, key, n, text, aadlen);
    var dest := new byte[|text|];
    r := b.Crypt(key, n, dest, packet, |text| - aadlen, aadlen, false);
    TransformedTwice(key, n, aadlen, text);
    plain := dest[..|text|];
  }

  /** Encryption into a new buffer. */
  method Seal(a: Cipher, ghost key: seq<byte>, n: u32, text: seq<byte>, aadlen: nat) returns (packet: array<byte>)
    requires a.Keyed(key) && aadlen <= |text| < B32
    modifies a.main, a.header
    ensures a.Keyed(key) && fresh(packet) && packet.Length == |text| + TAGLEN
    ensures packet[..|text|] == Transformed(key, n, aadlen, text) && Authentic(key, n, packet[..], |text|)
  {
    var src := new byte[|text|];
    Put(src, 0, text);
    assert src[..|text|] == src[0..0 + |text|] == text;
    packet := new byte[|text| + TAGLEN];
    var _ := a.Crypt(key, n, packet, src, |text| - aadlen, aadlen, true);
    assert packet[..][..|text|] == packet[..|text|];
    assert packet[..][|text|..|text| + TAGLEN] == packet[|text|..|text| + TAGLEN];
  }
}
