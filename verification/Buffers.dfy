/** Small things shared by the modules about byte strings. */
module Buffers {
  import opened Bits

  datatype Option<+T> = None | Some(value: T)

  lemma AppendAssoc<T>(a: seq<T>, b: seq<T>, c: seq<T>)
    ensures (a + b) + c == a + (b + c)
  {
  }

  /** Parts of a slice are slices. */
  lemma SubSlices<T>(s: seq<T>, i: nat, j: nat, k: nat)
    requires i <= j <= k <= |s|
    ensures s[i..k][..j - i] == s[i..j] && s[i..k][j - i..] == s[j..k]
  {
  }

  lemma ThreeSlices<T>(s: seq<T>, i: nat, j: nat, k: nat)
    requires i <= j <= k <= |s|
    ensures s[..k] == s[..i] + s[i..j] + s[j..k]
  {
  }

  /** Overwriting part of a buffer. */
  method Put(a: array<byte>, at: nat, s: seq<byte>)
    requires at + |s| <= a.Length
    modifies a
    ensures a[at..at + |s|] == s && a[..at] == old(a[..at]) && a[at + |s|..] == old(a[at + |s|..])
    ensures forall p :: (0 <= p < at || at + |s| <= p < a.Length) ==> a[p] == old(a[p])
  {
    for i := 0 to |s|
      invariant a[at..at + i] == s[..i]
      invariant forall p :: (0 <= p < at || at + i <= p < a.Length) ==> a[p] == old(a[p])
    {
      a[at + i] := s[i];
    }
  }
}
