/** b64_ntop and b64_pton (libssh/base64.c), proved against the format. */
module Base64Code {
  import opened Bits
  import opened Buffers
  import opened Base64

  method Put4(target: array<byte>, at: nat, q: seq<byte>)
    requires |q| == 4 && at + 4 <= target.Length
    modifies target
    ensures target[..at + 4] == old(target[..at]) + q
  {
    target[at] := q[0];
    target[at + 1] := q[1];
    target[at + 2] := q[2];
    target[at + 3] := q[3];
  }

  /** b64_ntop: the text and a final NUL, or -1 when they do not fit. */
  method Ntop(src: seq<byte>, target: array<byte>) returns (r: int)
    modifies target
    ensures r == if |Encode(src)| < target.Length then |Encode(src)| else -1
    ensures r >= 0 ==> target[..r] == Encode(src) && target[r] == 0
  {
    var at, n := 0, 0;
    while |src| - at > 2
      invariant 0 <= at <= |src| && 0 <= n <= target.Length && target[..n] + Encode(src[at..]) == Encode(src)
    {
      var fits := PutThree(src[at..], target, n);
      if !fits {
        return -1;
      }
      assert src[at..][3..] == src[at + 3..];
      at, n := at + 3, n + 4;
    }
    if at < |src| {
      var fits := PutLast(src[at..], target, n);
      if !fits {
        return -1;
      }
      n := n + 4;
    } else {
      assert target[..n] + [] == target[..n];
    }
    if n >= target.Length {
      return -1;
    }
    target[n] := 0;
    r := n;
  }

  /** Three bytes of many. */
  method PutThree(s: seq<byte>, target: array<byte>, n: nat) returns (fits: bool)
    requires |s| >= 3 && n <= target.Length
    modifies target
    ensures |Encode(s)| >= 4 && fits == (n + 4 <= target.Length)
    ensures fits ==> target[..n + 4] + Encode(s[3..]) == old(target[..n]) + Encode(s)
  {
    var q := Quantum(s[0], s[1], s[2], 3);
    fits := n + 4 <= target.Length;
    if fits {
      ghost var done := target[..n];
      Put4(target, n, q);
      assert done + (q + Encode(s[3..])) == (done + q) + Encode(s[3..]);
    }
  }

  /** One or two bytes that are left over. */
  method PutLast(s: seq<byte>, target: array<byte>, n: nat) returns (fits: bool)
    requires 1 <= |s| <= 2 && n <= target.Length
    modifies target
    ensures |Encode(s)| == 4 && fits == (n + 4 <= target.Length)
    ensures fits ==> target[..n + 4] == old(target[..n]) + Encode(s)
  {
    var q := Quantum(s[0], if |s| > 1 then s[1] else 0, 0, |s|);
    fits := n + 4 <= target.Length;
    if fits {
      Put4(target, n, q);
    }
  }

  // ---- decoding ----

  /** The bytes a target must have room for: decoding writes one ahead inside a quantum. */
  function Need(n: nat): nat {
    if n % 3 == 0 then n else n + 1
  }

  /** Decode, folded: the reading loop depends only on the lemmas about it. */
  ghost function Meaning(s: seq<byte>, depth: nat): Option<seq<byte>>
    decreases depth, |s|
  {
    if depth > 0 then Meaning(s, depth - 1) else Decode(s)
  }

  lemma MeaningIs(s: seq<byte>)
    ensures Meaning(s, 4) == Decode(s)
  {
    assert Meaning(s, 4) == Meaning(s, 3) == Meaning(s, 2) == Meaning(s, 1) == Meaning(s, 0);
  }

  ghost function Prepend(t: seq<byte>, d: Option<seq<byte>>): Option<seq<byte>> {
    if d.None? then None else Some(t + d.value)
  }

  ghost predicate Letters(g: seq<byte>) {
    forall i :: 0 <= i < |g| ==> Val(g[i]).Some?
  }

  function V(c: byte): (v: int)
    ensures 0 <= v < 64
  {
    if Val(c).Some? then Val(c).value else 0
  }

  /** Three bytes of four letters. */
  function ThreeBytes(g: seq<byte>): seq<byte>
    requires |g| == 4
  {
    [V(g[0]) * 4 + V(g[1]) / 16, V(g[1]) % 16 * 16 + V(g[2]) / 4, V(g[2]) % 4 * 64 + V(g[3])]
  }

  lemma FullQuantum(s: seq<byte>)
    requires |s| >= 4 && Val(s[0]).Some? && Val(s[1]).Some? && Val(s[2]).Some? && Val(s[3]).Some?
    ensures Meaning(s, 4) == Prepend(ThreeBytes(s[..4]), Meaning(s[4..], 4))
  {
    MeaningIs(s);
    MeaningIs(s[4..]);
    assert s[..4][0] == s[0] && s[..4][1] == s[1] && s[..4][2] == s[2] && s[..4][3] == s[3];
  }

  /** A character that is neither a letter nor padding spoils the text. */
  lemma Foreign(s: seq<byte>, k: nat)
    requires k < 4 && k < |s| && Val(s[k]).None? && s[k] != PAD
    ensures Meaning(s, 4) == None
  {
    MeaningIs(s);
  }

  /** Padding is accepted after two or three letters over zero bits, and ends the text. */
  lemma Padded(g: seq<byte>, rest: seq<byte>)
    requires |g| < 4 && Letters(g)
    ensures Meaning(g + [PAD] + rest, 4) ==
      if |g| == 2 && rest == [PAD] && V(g[1]) % 16 == 0 then Some([V(g[0]) * 4 + V(g[1]) / 16])
      else if |g| == 3 && rest == [] && V(g[2]) % 4 == 0 then Some([V(g[0]) * 4 + V(g[1]) / 16, V(g[1]) % 16 * 16 + V(g[2]) / 4])
      else None
  {
    PadIsNoLetter();
    var s := g + [PAD] + rest;
    MeaningIs(s);
    assert s[|g|] == PAD && forall i :: 0 <= i < |g| ==> s[i] == g[i];
    assert |s| == 4 ==> s[4..] == [];
    assert |g| == 2 && |s| >= 4 ==> s[3] == rest[0];
    assert |rest| == 1 && rest[0] == PAD ==> rest == [PAD];
    var one := [V(if |g| > 0 then g[0] else 0) * 4 + V(if |g| > 1 then g[1] else 0) / 16];
    assert one + [] == one;
    if |g| == 3 {
      var two := [V(g[0]) * 4 + V(g[1]) / 16, V(g[1]) % 16 * 16 + V(g[2]) / 4];
      assert two + [] == two;
    }
  }

  /** Letters at the front give bytes. */
  lemma AtLeast(g: seq<byte>, rest: seq<byte>)
    requires 1 <= |g| <= 4 && Letters(g)
    ensures Meaning(g + rest, 4).Some? ==> |Meaning(g + rest, 4).value| >= if |g| <= 2 then 1 else |g| - 1
  {
    var s := g + rest;
    MeaningIs(s);
    assert forall i :: 0 <= i < |g| ==> s[i] == g[i];
  }

  /** The target while a quantum is incomplete: the bits of its letters so far, from q on. */
  ghost predicate Holding(target: array<byte>, q: nat, g: seq<byte>)
    requires |g| < 4
    reads target
  {
    && q + (if |g| == 0 then 0 else if |g| == 1 then 1 else |g|) <= target.Length
    && (|g| == 1 ==> target[q] == V(g[0]) * 4)
    && (|g| >= 2 ==> target[q] == V(g[0]) * 4 + V(g[1]) / 16)
    && (|g| == 2 ==> target[q + 1] == V(g[1]) % 16 * 16)
    && (|g| == 3 ==> target[q + 1] == V(g[1]) % 16 * 16 + V(g[2]) / 4 && target[q + 2] == V(g[2]) % 4 * 64)
  }

  /** `|=` of bits below those already there. */
  method OrInto(high: byte, low: nat, k: nat, ghost p: nat) returns (r: byte)
    requires p == Pow2(k) && low < p && high % p == 0 && high + low < 256
    ensures r == high + low
  {
    var h, m := Euclid(high, p);
    r := OrAbove(low, high, k, h);
  }

  /** The four-state switch: the letter ch, of value v, after those of g. */
  method Push(target: array<byte>, ghost q: nat, state: nat, index: nat, v: nat, ghost g: seq<byte>, ghost ch: byte)
    returns (ok: bool, state': nat, index': nat)
    requires state == |g| < 4 && Letters(g) && Val(ch) == Some(v) && Holding(target, q, g)
    requires index == q + (if state == 0 then 0 else state - 1)
    modifies target
    ensures target[..q] == old(target[..q])
    ensures ok == (q + (if state == 0 then 0 else if state == 3 then 2 else state) < target.Length)
    ensures ok && state < 3 ==> state' == state + 1 && Holding(target, q, g + [ch]) && index' == q + state
    ensures ok && state == 3 ==> state' == 0 && index' == q + 3 <= target.Length && target[q..q + 3] == ThreeBytes(g + [ch])
  {
    assert Pow2(2) == 4 && Pow2(4) == 16 && Pow2(6) == 64;
    ok, state', index' := true, state, index;
    if state == 0 {
      if index >= target.Length {
        return false, state, index;
      }
      target[index] := v * 4;
      state' := 1;
    } else if state == 1 {
      if index + 1 >= target.Length {
        return false, state, index;
      }
      target[index] := OrInto(target[index], v / 16, 2, 4);
      target[index + 1] := v % 16 * 16;
      index', state' := index + 1, 2;
    } else if state == 2 {
      if index + 1 >= target.Length {
        return false, state, index;
      }
      target[index] := OrInto(target[index], v / 4, 4, 16);
      target[index + 1] := v % 4 * 64;
      index', state' := index + 1, 3;
    } else {
      if index >= target.Length {
        return false, state, index;
      }
      target[index] := OrInto(target[index], v, 6, 64);
      index', state' := index + 1, 0;
    }
  }

  /** The rest of the text is white space only. */
  method OnlySpace(src: seq<byte>, from: nat) returns (yes: bool)
    requires from <= |src|
    ensures yes <==> Strip(src[from..]) == []
  {
    var i := from;
    while i < |src|
      invariant from <= i <= |src| && Strip(src[from..]) == Strip(src[i..])
    {
      StripStep(src, i);
      if !Space(src[i]) {
        return false;
      }
      i := i + 1;
    }
    yes := true;
  }

  lemma StripStep(src: seq<byte>, i: nat)
    requires i < |src|
    ensures Strip(src[i..]) == if Space(src[i]) then Strip(src[i + 1..]) else [src[i]] + Strip(src[i + 1..])
  {
    assert src[i..][1..] == src[i + 1..];
  }

  /** The next character that is not white space, or the end. */
  method SkipSpace(src: seq<byte>, from: nat) returns (i: nat)
    requires from <= |src|
    ensures from <= i <= |src| && Strip(src[from..]) == Strip(src[i..]) && (i < |src| ==> !Space(src[i]))
  {
    i := from;
    while i < |src| && Space(src[i])
      invariant from <= i <= |src| && Strip(src[from..]) == Strip(src[i..])
    {
      StripStep(src, i);
      i := i + 1;
    }
  }

  /** After a padding character: whether the text may end like this. */
  method Trailer(src: seq<byte>, from: nat, state: nat) returns (ok: bool)
    requires from <= |src|
    ensures ok <==> (state == 2 && Strip(src[from..]) == [PAD]) || (state == 3 && Strip(src[from..]) == [])
  {
    if state == 2 {
      var i := SkipSpace(src, from);
      if i == |src| {
        return false;
      }
      StripStep(src, i);
      assert Strip(src[from..])[0] == src[i];
      if src[i] != PAD {
        return false;
      }
      ok := OnlySpace(src, i + 1);
    } else if state == 3 {
      ok := OnlySpace(src, from);
    } else {
      ok := false;
    }
  }

  /** Where the decoder stands: whole quanta in the target, letters g pending, rest to come. */
  ghost predicate Reading(target: array<byte>, q: nat, g: seq<byte>, rest: seq<byte>, d: Option<seq<byte>>)
    reads target
  {
    && |g| < 4 && Letters(g) && Holding(target, q, g) && q % 3 == 0
    && d == Prepend(target[..q], Meaning(g + rest, 4))
  }

  /** One more letter. */
  method NextLetter(target: array<byte>, state: nat, index: nat, ch: byte,
                    ghost q: nat, ghost g: seq<byte>, ghost rest: seq<byte>, ghost d: Option<seq<byte>>)
    returns (ok: bool, state': nat, index': nat, ghost q': nat, ghost g': seq<byte>)
    requires Reading(target, q, g, [ch] + rest, d) && Val(ch).Some?
    requires state == |g| && index == q + (if state == 0 then 0 else state - 1)
    modifies target
    ensures ok ==> Reading(target, q', g', rest, d) && state' == |g'| && index' == q' + (if state' == 0 then 0 else state' - 1)
    ensures !ok ==> d.Some? ==> Need(|d.value|) > target.Length
  {
    var h := g + [ch];
    assert g + ([ch] + rest) == h + rest;
    AtLeast(h, rest);
    ghost var before := target[..q];
    ok, state', index' := Push(target, q, state, index, Val(ch).value, g, ch);
    q', g' := q, h;
    if ok && state == 3 {
      QuantumDone(before, h, rest, target[..q + 3]);
      q', g' := q + 3, [];
    }
  }

  lemma QuantumDone(before: seq<byte>, h: seq<byte>, rest: seq<byte>, after: seq<byte>)
    requires |h| == 4 && Letters(h) && |after| == |before| + 3 && after[..|before|] == before && after[|before|..] == ThreeBytes(h)
    ensures Prepend(before, Meaning(h + rest, 4)) == Prepend(after, Meaning([] + rest, 4))
  {
    var s := h + rest;
    assert s[..4] == h && s[4..] == rest && s[0] == h[0] && s[1] == h[1] && s[2] == h[2] && s[3] == h[3];
    FullQuantum(s);
    assert [] + rest == rest && after == before + ThreeBytes(h);
    PrependTwice(before, ThreeBytes(h), Meaning(rest, 4));
  }

  lemma PrependTwice(a: seq<byte>, b: seq<byte>, d: Option<seq<byte>>)
    ensures Prepend(a, Prepend(b, d)) == Prepend(a + b, d)
  {
    if d.Some? {
      assert a + (b + d.value) == (a + b) + d.value;
    }
  }

  /** b64_pton with a target: the bytes whose encoding is the text without white space, or -1 when
      there are none or they do not fit. */
  method PtonInto(src: seq<byte>, target: array<byte>) returns (r: int)
    requires 0 !in src
    modifies target
    ensures var d := Decode(Strip(src));
      r == if d.Some? && Need(|d.value|) <= target.Length then |d.value| else -1
    ensures r >= 0 ==> Some(target[..r]) == Decode(Strip(src)) && Encode(target[..r]) == Strip(src)
  {
    MeaningIs(Strip(src));
    r := Scan(src, target, Meaning(Strip(src), 4));
    if r >= 0 {
      EncodeDecode(Strip(src));
    }
  }

  /** b64_pton: the bytes whose encoding is the text without white space, or -1 when there are none or
      they do not fit; without a target, their number, or -1 when the text has the wrong shape. */
  method Pton(src: seq<byte>, target: array?<byte>) returns (r: int)
    requires 0 !in src
    modifies target
    ensures target == null ==> r == if Measure(Strip(src)).Some? then Measure(Strip(src)).value else -1
    ensures target != null ==> var d := Decode(Strip(src));
      r == if d.Some? && Need(|d.value|) <= target.Length then |d.value| else -1
    ensures target != null && r >= 0 ==> Some(target[..r]) == Decode(Strip(src)) && Encode(target[..r]) == Strip(src)
  {
    if target == null {
      r := PtonLength(src);
    } else {
      r := PtonInto(src, target);
    }
  }

  /** Text that is the encoding of data but for white space decodes to data. */
  method DecodeText(text: seq<byte>, size: nat, ghost data: seq<byte>) returns (r: int, out: seq<byte>)
    requires 0 !in text && Strip(text) == Encode(data) && |data| < size
    ensures r == |data| && out == data
  {
    DecodeEncode(data);
    var target := new byte[size];
    r := Pton(text, target);
    out := target[..r];
  }

  /** What b64_ntop writes, b64_pton reads. */
  method RoundTrip(data: seq<byte>) returns (out: seq<byte>)
    ensures out == data
  {
    var text := new byte[|Encode(data)| + 1];
    var n := Ntop(data, text);
    EncodedText(data);
    var r;
    r, out := DecodeText(text[..n], |data| + 1, data);
  }

  /** An encoding holds no white space and no NUL. */
  lemma {:induction false} EncodedText(s: seq<byte>)
    ensures 0 !in Encode(s) && Strip(Encode(s)) == Encode(s)
    decreases |s|
  {
    if |s| > 0 {
      var a, b, c, n := s[0], if |s| > 1 then s[1] else 0, if |s| > 2 then s[2] else 0, if |s| > 3 then 3 else |s|;
      var rest := if |s| > 3 then s[3..] else [];
      QuantumText(a, b, c, n);
      EncodedText(rest);
      assert Encode(s) == Quantum(a, b, c, n) + Encode(rest);
      StripFront(Quantum(a, b, c, n), Encode(rest));
    }
  }

  lemma QuantumText(a: byte, b: byte, c: byte, n: nat)
    requires 1 <= n <= 3 && (n < 3 ==> c == 0) && (n < 2 ==> b == 0)
    ensures forall k :: 0 <= k < 4 ==> Quantum(a, b, c, n)[k] != 0 && !Space(Quantum(a, b, c, n)[k])
  {
    ValOfSym(a / 4);
    ValOfSym(a % 4 * 16 + b / 16);
    ValOfSym(b % 16 * 4 + c / 64);
    ValOfSym(c % 64);
  }

  lemma {:induction false} StripFront(q: seq<byte>, rest: seq<byte>)
    requires forall k :: 0 <= k < |q| ==> !Space(q[k])
    ensures Strip(q + rest) == q + Strip(rest)
    decreases |q|
  {
    if q == [] {
      assert q + rest == rest;
    } else {
      assert (q + rest)[1..] == q[1..] + rest;
      StripFront(q[1..], rest);
    }
  }

  /** The loop of b64_pton and what follows it. */
  method Scan(src: seq<byte>, target: array<byte>, ghost d: Option<seq<byte>>) returns (r: int)
    requires d == Meaning(Strip(src), 4)
    modifies target
    ensures r == if d.Some? && Need(|d.value|) <= target.Length then |d.value| else -1
    ensures r >= 0 ==> target[..r] == d.value
  {
    ghost var q: nat, g: seq<byte> := 0, [];
    var i, state, index := 0, 0, 0;
    Start(src, target, d);
    while i < |src| && src[i] != PAD
      invariant 0 <= i <= |src| && Reading(target, q, g, Strip(src[i..]), d)
      invariant state == |g| && index == q + (if state == 0 then 0 else state - 1)
    {
      StripStep(src, i);
      if !Space(src[i]) {
        ghost var rest := Strip(src[i + 1..]);
        if Val(src[i]).None? {
          Foreign(g + ([src[i]] + rest), |g|);
          return -1;
        }
        var ok;
        ok, state, index, q, g := NextLetter(target, state, index, src[i], q, g, rest, d);
        if !ok {
          return -1;
        }
      }
      i := i + 1;
    }
    if i < |src| {
      StripStep(src, i);
      r := Finish(src, i + 1, target, state, index, q, g, d);
    } else {
      Truncated(target[..q], g);
      r := if state != 0 then -1 else index;
    }
  }

  lemma Start(src: seq<byte>, target: array<byte>, d: Option<seq<byte>>)
    requires d == Meaning(Strip(src), 4)
    ensures Reading(target, 0, [], Strip(src[0..]), d)
  {
    assert src[0..] == src && [] + Strip(src) == Strip(src);
    assert d.Some? ==> target[..0] + d.value == d.value;
  }

  /** The text ends without padding. */
  lemma Truncated(before: seq<byte>, g: seq<byte>)
    requires |g| < 4
    ensures Prepend(before, Meaning(g + [], 4)) == if g == [] then Some(before) else None
  {
    assert g + [] == g && before + [] == before;
    MeaningIs(g);
  }

  /** The end of the text, at a padding character. */
  method Finish(src: seq<byte>, from: nat, target: array<byte>, state: nat, index: nat,
                ghost q: nat, ghost g: seq<byte>, ghost d: Option<seq<byte>>)
    returns (r: int)
    requires from <= |src| && Reading(target, q, g, [PAD] + Strip(src[from..]), d)
    requires state == |g| && index == q + (if state == 0 then 0 else state - 1)
    ensures r == if d.Some? then |d.value| else -1
    ensures r >= 0 ==> r <= target.Length && target[..r] == d.value && Need(r) <= target.Length
  {
    ghost var rest := Strip(src[from..]);
    assert g + ([PAD] + rest) == g + [PAD] + rest;
    Padded(g, rest);
    var ok := Trailer(src, from, state);
    if !ok || target[index] != 0 {
      return -1;
    }
    assert target[..index] == target[..q] + target[q..index];
    r := index;
  }

  // ---- without a target ----

  /** How many bytes the first four characters stand for; the unused bits are not looked at. */
  function QuantumLength(s: seq<byte>): Option<nat>
    requires |s| >= 4
  {
    if Val(s[0]).None? || Val(s[1]).None? then None
    else if Val(s[2]).Some? then
      if Val(s[3]).Some? then Some(3) else if s[3] == PAD && |s| == 4 then Some(2) else None
    else if s[2] == PAD && s[3] == PAD && |s| == 4 then Some(1)
    else None
  }

  /** The length of the data, if the text has the right shape. */
  function Measure(s: seq<byte>): Option<nat> {
    if s == [] then Some(0)
    else if |s| < 4 then None
    else
      var n := QuantumLength(s);
      var rest := Measure(s[4..]);
      if n.None? || rest.None? then None else Some(n.value + rest.value)
  }

  /** Text that can be decoded has the length of its data. */
  lemma {:induction false} MeasureOfDecoded(s: seq<byte>)
    requires Decode(s).Some?
    ensures Measure(s) == Some(|Decode(s).value|)
  {
    if s != [] {
      MeasureOfDecoded(s[4..]);
    }
  }

  ghost function Plus(n: nat, m: Option<nat>): Option<nat> {
    if m.None? then None else Some(n + m.value)
  }

  lemma MeasureQuantum(g: seq<byte>, rest: seq<byte>)
    requires |g| == 4 && Letters(g)
    ensures Measure(g + rest) == Plus(3, Measure(rest))
  {
    var s := g + rest;
    assert s[4..] == rest && s[0] == g[0] && s[1] == g[1] && s[2] == g[2] && s[3] == g[3];
  }

  lemma MeasureForeign(s: seq<byte>, k: nat)
    requires k < 4 && k < |s| && Val(s[k]).None? && s[k] != PAD
    ensures Measure(s) == None
  {
  }

  lemma MeasurePadded(g: seq<byte>, rest: seq<byte>)
    requires |g| < 4 && Letters(g)
    ensures Measure(g + ([PAD] + rest)) ==
      if |g| == 2 && rest == [PAD] then Some(1) else if |g| == 3 && rest == [] then Some(2) else None
  {
    PadIsNoLetter();
    var s := g + ([PAD] + rest);
    assert s[|g|] == PAD && forall i :: 0 <= i < |g| ==> s[i] == g[i];
    assert |s| == 4 ==> s[4..] == [];
    assert |g| == 2 && |s| >= 4 ==> s[3] == rest[0];
    assert |rest| == 1 && rest[0] == PAD ==> rest == [PAD];
  }

  /** Whole quanta counted, letters g pending, rest to come. */
  ghost predicate Counting(q: nat, g: seq<byte>, rest: seq<byte>, m: Option<nat>, state: nat, index: nat) {
    && |g| == state < 4 && Letters(g) && m == Plus(q, Measure(g + rest))
    && index == q + (if state == 0 then 0 else state - 1)
  }

  lemma QuantumCounted(q: nat, h: seq<byte>, rest: seq<byte>)
    requires |h| == 4 && Letters(h)
    ensures Plus(q, Measure(h + rest)) == Plus(q + 3, Measure([] + rest))
  {
    MeasureQuantum(h, rest);
    assert [] + rest == rest;
  }

  method CountLetter(state: nat, index: nat, ch: byte, ghost q: nat, ghost g: seq<byte>, ghost rest: seq<byte>, ghost m: Option<nat>)
    returns (state': nat, index': nat, ghost q': nat, ghost g': seq<byte>)
    requires Counting(q, g, [ch] + rest, m, state, index) && Val(ch).Some?
    ensures Counting(q', g', rest, m, state', index')
  {
    ghost var h := g + [ch];
    assert g + ([ch] + rest) == h + rest;
    index' := if state == 0 then index else index + 1;
    if state == 3 {
      QuantumCounted(q, h, rest);
      state', q', g' := 0, q + 3, [];
    } else {
      state', q', g' := state + 1, q, h;
    }
  }

  /** b64_pton without a target: the length of the data. */
  method PtonLength(src: seq<byte>) returns (r: int)
    requires 0 !in src
    ensures r == if Measure(Strip(src)).Some? then Measure(Strip(src)).value else -1
  {
    ghost var m := Measure(Strip(src));
    ghost var g: seq<byte> := [];
    ghost var q: nat := 0;
    var i, state, index := 0, 0, 0;
    assert src[0..] == src && [] + Strip(src) == Strip(src);
    while i < |src| && src[i] != PAD
      invariant 0 <= i <= |src| && Counting(q, g, Strip(src[i..]), m, state, index)
    {
      StripStep(src, i);
      if !Space(src[i]) {
        ghost var rest := Strip(src[i + 1..]);
        if Val(src[i]).None? {
          MeasureForeign(g + ([src[i]] + rest), |g|);
          return -1;
        }
        state, index, q, g := CountLetter(state, index, src[i], q, g, rest, m);
      }
      i := i + 1;
    }
    if i < |src| {
      r := CountTrailer(src, i, state, index, q, g, m);
      return;
    }
    assert g + [] == g;
    r := if state != 0 then -1 else index;
  }

  /** The end of the count at a padding character. */
  method CountTrailer(src: seq<byte>, i: nat, state: nat, index: nat, ghost q: nat, ghost g: seq<byte>, ghost m: Option<nat>)
    returns (r: int)
    requires i < |src| && src[i] == PAD && Counting(q, g, Strip(src[i..]), m, state, index)
    ensures r == if m.Some? then m.value else -1
  {
    StripStep(src, i);
    MeasurePadded(g, Strip(src[i + 1..]));
    var ok := Trailer(src, i + 1, state);
    r := if ok then index else -1;
  }
}
