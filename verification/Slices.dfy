/** How slices of a sequence grow; array slices are slices of the array's contents. */
module Slices {
  lemma TakeUpdate<T>(s: seq<T>, i: nat, t: T)
    requires i < |s|
    ensures s[i := t][..i + 1] == s[..i] + [t]
  {}

  lemma SliceUpdate<T>(s: seq<T>, i: nat, k: nat, t: T)
    requires i < k <= |s|
    ensures s[i := t][i..k] == [t] + s[i + 1..k]
  {}

  lemma TakeNext<T>(s: seq<T>, i: nat)
    requires i < |s|
    ensures s[..i + 1] == s[..i] + [s[i]]
  {}

  lemma SliceCons<T>(s: seq<T>, i: nat, k: nat)
    requires i < k <= |s|
    ensures s[i..k] == [s[i]] + s[i + 1..k]
  {}

  lemma SliceSnocUpdate<T>(s: seq<T>, i: nat, k: nat, t: T)
    requires i <= k < |s|
    ensures s[k := t][i..k + 1] == s[i..k] + [t]
  {}

  lemma SliceJoin<T>(s: seq<T>, i: nat, j: nat, k: nat)
    requires i <= j <= k <= |s|
    ensures s[i..j] + s[j..k] == s[i..k]
  {}

  /** The elements t are in s at the given place. */
  ghost predicate Has<T>(s: seq<T>, at: nat, t: seq<T>)
  {
    at + |t| <= |s| && s[at..at + |t|] == t
  }

  lemma HasSplit<T>(s: seq<T>, at: nat, a: seq<T>, b: seq<T>)
    requires Has(s, at, a + b)
    ensures Has(s, at, a) && Has(s, at + |a|, b)
  {
    assert s[at..at + |a|] == s[at..at + |a + b|][..|a|];
    assert s[at + |a|..at + |a| + |b|] == s[at..at + |a + b|][|a|..];
  }

  lemma HasFirst<T>(s: seq<T>, at: nat, t: seq<T>)
    requires Has(s, at, t) && t != []
    ensures at < |s| && s[at] == t[0] && Has(s, at + 1, t[1..])
  {
    assert t == [t[0]] + t[1..];
    HasSplit(s, at, [t[0]], t[1..]);
    assert s[at..at + 1][0] == t[0];
  }

  lemma HasSlice<T>(s: seq<T>, at: nat, t: seq<T>)
    requires Has(s, at, t)
    ensures at + |t| <= |s| && s[at..at + |t|] == t
  {}

  /** The pieces of a sequence put together again. */
  function Concat<T>(chunks: seq<seq<T>>): seq<T>
  {
    if chunks == [] then [] else chunks[0] + Concat(chunks[1..])
  }

  lemma {:induction false} ConcatSnoc<T>(chunks: seq<seq<T>>, c: seq<T>)
    ensures Concat(chunks + [c]) == Concat(chunks) + c
    decreases |chunks|
  {
    var all := chunks + [c];
    if chunks == [] {
      assert all[1..] == [];
    } else {
      assert all[1..] == chunks[1..] + [c];
      ConcatSnoc(chunks[1..], c);
    }
  }

  lemma ConcatNext<T>(chunks: seq<seq<T>>, i: nat)
    requires i < |chunks|
    ensures Concat(chunks[..i + 1]) == Concat(chunks[..i]) + chunks[i]
  {
    assert chunks[..i + 1] == chunks[..i] + [chunks[i]];
    ConcatSnoc(chunks[..i], chunks[i]);
  }

  lemma ConcatNone<T>(chunks: seq<seq<T>>)
    ensures Concat(chunks[..0]) == []
  {}

  lemma ConcatAll<T>(chunks: seq<seq<T>>)
    ensures Concat(chunks[..|chunks|]) == Concat(chunks)
  {
    assert chunks[..|chunks|] == chunks;
  }
}
