/** Copying into a buffer, as memcpy does. */
module Buffers {

  method CopyInto<T>(dst: array<T>, at: nat, src: seq<T>)
    requires at + |src| <= dst.Length
    modifies dst
    ensures dst[..] == old(dst[..at]) + src + old(dst[at + |src|..])
  {
    ghost var was: seq<T> := dst[..];
    for i := 0 to |src|
      invariant dst[..] == was[..at] + src[..i] + was[at + i..]
    {
      dst[at + i] := src[i];
      CopyNext(was, at, src, i);
    }
    assert src[..|src|] == src;
  }

  lemma CopyNext<T>(s: seq<T>, at: nat, src: seq<T>, i: nat)
    requires i < |src| && at + |src| <= |s|
    ensures (s[..at] + src[..i] + s[at + i..])[at + i := src[i]] == s[..at] + src[..i + 1] + s[at + i + 1..]
  {}

  /** What lies in front after a copy. */
  lemma FrontCopied<T>(s: seq<T>, at: nat, src: seq<T>, s': seq<T>)
    requires at + |src| <= |s| && s' == s[..at] + src + s[at + |src|..]
    ensures |s'| == |s| && s'[..at + |src|] == s[..at] + src
    ensures at + |src| == |s| ==> s' == s[..at] + src
  {}
}
