/** Folding a message block by block, all at once or piece by piece through a partial-block buffer. */
module BlockStreams {
  import opened Arithmetic
  import opened Words
  import opened Slices

  /** The state after all blocks of width w of the data, taken in order. */
  ghost function Fold<S>(f: (S, seq<Byte>) -> S, w: nat, s: S, data: seq<Byte>): S
    requires w > 0 && |data| % w == 0
    decreases |data|
  {
    if data == [] then s else
      WholeRest(|data|, w);
      Fold(f, w, f(s, data[..w]), data[w..])
  }

  lemma WholeRest(n: nat, w: nat)
    requires w > 0 && n > 0 && n % w == 0
    ensures n >= w && (n - w) % w == 0
  {
    ModStep(n, w);
  }

  lemma ModStep(n: int, w: nat)
    requires w > 0
    ensures (n - w) % w == n % w && (n + w) % w == n % w
  {
    var q, r := n / w, n % w;
    assert n == w * q + r;
    UniqueMod(n - w, w, q - 1, r);
    UniqueMod(n + w, w, q + 1, r);
  }

  lemma UniqueMod(n: int, w: nat, q: int, r: nat)
    requires w > 0 && n == w * q + r && r < w
    ensures n % w == r
  {
    DivModUnique(n, w, q, r);
  }

  lemma {:induction false} FoldNext<S>(f: (S, seq<Byte>) -> S, w: nat, s: S, all: seq<Byte>, n: nat)
    requires w > 0 && n % w == 0 && n + w <= |all|
    ensures (n + w) % w == 0
    ensures Fold(f, w, s, all[..n + w]) == f(Fold(f, w, s, all[..n]), all[n..n + w])
    decreases n
  {
    ModStep(n, w);
    if n == 0 {
      assert all[..w][w..] == [] && all[..w][..w] == all[0..w];
    } else {
      WholeRest(n, w);
      var rest := all[w..];
      FoldNext(f, w, f(s, all[..w]), rest, n - w);
      assert all[..n + w][..w] == all[..w] && all[..n][..w] == all[..w];
      assert all[..n + w][w..] == rest[..n] && all[..n][w..] == rest[..n - w];
      assert rest[n - w..n] == all[n..n + w];
    }
  }

  /** Blocks before the last incomplete one. */
  function Whole(n: nat, w: nat): (k: nat)
    requires w > 0
    ensures k <= n && k % w == 0 && n - k == n % w
  {
    ModStepMany(n, w);
    n - n % w
  }

  lemma ModStepMany(n: nat, w: nat)
    requires w > 0
    ensures n % w <= n && (n - n % w) % w == 0
  {
    UniqueMod(n - n % w, w, n / w, 0);
    assert n / w >= 0;
    assert w * (n / w) >= 0;
  }

  /** What a streaming context holds after a message: the folded whole blocks, and the rest in its buffer. */
  ghost predicate Absorbed<S>(f: (S, seq<Byte>) -> S, w: nat, s0: S, msg: seq<Byte>, s: S, buffer: seq<Byte>)
    requires w > 0 && |buffer| == w
  {
    s == Fold(f, w, s0, msg[..Whole(|msg|, w)]) && buffer[..|msg| % w] == msg[Whole(|msg|, w)..]
  }

  /** In the middle of a long piece of input: everything up to input[..i] is folded. */
  ghost predicate Folded<S>(f: (S, seq<Byte>) -> S, w: nat, s0: S, all: seq<Byte>, n: nat, s: S)
    requires w > 0
  {
    n <= |all| && n % w == 0 && s == Fold(f, w, s0, all[..n])
  }

  /** The first block: what was buffered, completed by the first bytes of the input. */
  lemma FirstBlock<S>(f: (S, seq<Byte>) -> S, w: nat, s0: S, msg: seq<Byte>, s: S, buffer: seq<Byte>, input: seq<Byte>,
                      buffer': seq<Byte>)
    requires w > 0 && |buffer| == w && Absorbed(f, w, s0, msg, s, buffer) && |input| >= w - |msg| % w
    requires buffer' == buffer[..|msg| % w] + input[..w - |msg| % w]
    ensures Folded(f, w, s0, msg + input, |msg| + (w - |msg| % w), f(s, buffer'))
  {
    var all, k := msg + input, Whole(|msg|, w);
    assert k + w == |msg| + (w - |msg| % w);
    assert all[..k] == msg[..k];
    assert all[k..k + w] == msg[k..] + input[..w - |msg| % w];
    FoldNext(f, w, s0, all, k);
  }

  /** One more whole block of the input. */
  lemma NextBlock<S>(f: (S, seq<Byte>) -> S, w: nat, s0: S, msg: seq<Byte>, input: seq<Byte>, i: nat, s: S)
    requires w > 0 && Folded(f, w, s0, msg + input, |msg| + i, s) && i + w <= |input|
    ensures Folded(f, w, s0, msg + input, |msg| + i + w, f(s, input[i..i + w]))
  {
    var all, n := msg + input, |msg| + i;
    FoldNext(f, w, s0, all, n);
    assert all[n..n + w] == input[i..i + w];
  }

  /** The rest of the input goes to the front of the buffer. */
  lemma RestBuffered<S>(f: (S, seq<Byte>) -> S, w: nat, s0: S, msg: seq<Byte>, input: seq<Byte>, i: nat, s: S,
                        buffer': seq<Byte>)
    requires w > 0 && |buffer'| == w && Folded(f, w, s0, msg + input, |msg| + i, s) && i <= |input| < i + w
    requires buffer'[..|input| - i] == input[i..]
    ensures Absorbed(f, w, s0, msg + input, s, buffer')
  {
    var all, n := msg + input, |msg| + i;
    LastWhole(|all|, n, w);
    assert all[n..] == input[i..];
  }

  lemma LastWhole(n: nat, k: nat, w: nat)
    requires w > 0 && k % w == 0 && k <= n < k + w
    ensures Whole(n, w) == k && n % w == n - k
  {
    assert k == w * (k / w);
    UniqueMod(n, w, k / w, n - k);
  }

  /** Input too short to complete a block goes behind what is buffered. */
  lemma OnlyBuffered<S>(f: (S, seq<Byte>) -> S, w: nat, s0: S, msg: seq<Byte>, s: S, buffer: seq<Byte>,
                        input: seq<Byte>, buffer': seq<Byte>)
    requires w > 0 && |buffer| == w && |buffer'| == w && Absorbed(f, w, s0, msg, s, buffer) && |input| < w - |msg| % w
    requires buffer'[..|msg| % w + |input|] == buffer[..|msg| % w] + input
    ensures Absorbed(f, w, s0, msg + input, s, buffer')
  {
    var all, k := msg + input, Whole(|msg|, w);
    LastWhole(|all|, k, w);
    assert all[..k] == msg[..k] && all[k..] == msg[k..] + input;
  }

  lemma AbsorbedAll<S>(f: (S, seq<Byte>) -> S, w: nat, s0: S, msg: seq<Byte>, s: S, buffer: seq<Byte>)
    requires w > 0 && |buffer| == w && Absorbed(f, w, s0, msg, s, buffer) && |msg| % w == 0
    ensures s == Fold(f, w, s0, msg)
  {
    assert msg[..|msg|] == msg;
  }

  lemma AbsorbedNothing<S>(f: (S, seq<Byte>) -> S, w: nat, s0: S, buffer: seq<Byte>)
    requires w > 0 && |buffer| == w
    ensures Absorbed(f, w, s0, [], s0, buffer)
  {
    var msg: seq<Byte> := [];
    assert msg[..Whole(|msg|, w)] == msg && buffer[..0] == msg;
  }

  /** The loop over the whole blocks of a piece, with its counter in 32 bits: from i on it makes n passes. */
  ghost predicate Passes(i: nat, len: nat, w: nat, n: nat)
    requires w > 0
    decreases n
  {
    n > 0 ==> (i + w - 1) % 0x1_0000_0000 < len && Passes(i + w, len, w, n - 1)
  }

  /** Where n passes from i on lead. */
  ghost function Reached(i: nat, w: nat, n: nat): nat
  {
    i + w * n
  }

  lemma ReachedNext(i: nat, w: nat, n: nat)
    ensures n == 0 ==> Reached(i, w, n) == i
    ensures n > 0 ==> Reached(i, w, n) == Reached(i + w, w, n - 1) >= i + w
  {
    if n > 0 { assert w * n == w + w * (n - 1) && w * (n - 1) >= 0; }
  }

  /** No pass of the loop reads beyond the piece. The counter starts behind the bytes that complete the block begun,
      of which index are buffered. */
  ghost predicate StaysInside(index: nat, len: nat, w: nat)
    requires index < w
  {
    AllInside(w - index, len, w)
  }

  ghost predicate AllInside(from: nat, len: nat, w: nat)
    requires w > 0
  {
    forall n: nat :: Inside(from, len, w, n)
  }

  ghost predicate Inside(from: nat, len: nat, w: nat, n: nat)
    requires w > 0
  {
    Passes(from, len, w, n) ==> Reached(from, w, n) <= len
  }

  /** The loop stands at the start of a block of the whole message. */
  ghost predicate Aligned(index: nat, i: nat, w: nat)
    requires w > 0
  {
    (index + i) % w == 0
  }

  /** The guard is the one meant, as long as the end of the piece in the stream of blocks has 32 bits. */
  lemma GuardExact(index: nat, i: nat, len: nat, w: nat)
    requires (w == 16 || w == 64) && index < w && index + len < 0x1_0000_0000 && i <= len && Aligned(index, i, w)
    ensures Add32(i, w - 1) < len <==> i + w <= len
    ensures Aligned(index, i + w, w)
  {
    assert index + i <= 0x1_0000_0000 - w by { FitsBelow(index + i, w); }
  }

  /** A multiple of the block width below 2^32 has a whole block above it. */
  lemma FitsBelow(n: nat, w: nat)
    requires (w == 16 || w == 64) && n % w == 0 && n < 0x1_0000_0000
    ensures n + w <= 0x1_0000_0000
  {}

  lemma PassesNext(i: nat, len: nat, w: nat, n: nat)
    requires (w == 16 || w == 64) && i < 0x1_0000_0000
    ensures Passes(i, len, w, 0)
    ensures n > 0 ==> (Passes(i, len, w, n) <==> Add32(i, w - 1) < len && Passes(i + w, len, w, n - 1))
  {}

  lemma {:induction false} PassesInside(index: nat, i: nat, len: nat, w: nat, n: nat)
    requires (w == 16 || w == 64) && index < w && index + len < 0x1_0000_0000 && i <= len && Aligned(index, i, w)
    requires Passes(i, len, w, n)
    ensures Reached(i, w, n) <= len
    decreases n
  {
    hide *;
    ReachedNext(i, w, n);
    if n > 0 {
      PassesNext(i, len, w, n);
      GuardExact(index, i, len, w);
      PassesInside(index, i + w, len, w, n - 1);
    }
  }

  /** Up to the wrap-around every pass is made, and one more after it. */
  lemma {:induction false} PassesAll(index: nat, i: nat, len: nat, w: nat, n: nat)
    requires (w == 16 || w == 64) && 0 < index < w && len < 0x1_0000_0000 <= index + len
    requires n > 0 && Reached(i, w, n) == 0x1_0000_0000 - index + w
    ensures Passes(i, len, w, n)
    decreases n
  {
    hide *;
    ReachedNext(i, w, n);
    ReachedNext(i + w, w, n - 1);
    PassesNext(i, len, w, n);
    if n == 1 {
      WrapsBelow(index, i, len, w);
      NoPasses(i + w, len, w);
    } else {
      PassesAll(index, i + w, len, w, n - 1);
      BelowWrap(index, i, len, w);
    }
  }

  lemma NoPasses(i: nat, len: nat, w: nat)
    requires w > 0
    ensures Passes(i, len, w, 0)
  {}

  /** The last pass: the guard has wrapped around. */
  lemma WrapsBelow(index: nat, i: nat, len: nat, w: nat)
    requires (w == 16 || w == 64) && 0 < index < w && len < 0x1_0000_0000 <= index + len
    requires i + w == 0x1_0000_0000 - index + w
    ensures Add32(i, w - 1) < len
  {}

  lemma BelowWrap(index: nat, i: nat, len: nat, w: nat)
    requires (w == 16 || w == 64) && 0 < index < w && len < 0x1_0000_0000 <= index + len
    requires i + w <= 0x1_0000_0000 - index
    ensures Add32(i, w - 1) < len
  {}

  /** The exact condition for a piece of at least one block: the loop stays inside it if and only if the buffered
      bytes and the piece together have a length of 32 bits. */
  lemma CounterExact(index: nat, len: nat, w: nat)
    requires (w == 16 || w == 64) && index < w && w - index <= len < 0x1_0000_0000
    ensures StaysInside(index, len, w) <==> index + len < 0x1_0000_0000
  {
    var from := w - index;
    if index + len < 0x1_0000_0000 {
      forall n: nat
        ensures Inside(from, len, w, n)
      {
        if Passes(from, len, w, n) { PassesInside(index, from, len, w, n); }
      }
    } else {
      var n := 0x1_0000_0000 / w;
      assert Reached(from, w, n) == 0x1_0000_0000 - index + w;
      PassesAll(index, from, len, w, n);
      assert !Inside(from, len, w, n);
    }
  }
}
