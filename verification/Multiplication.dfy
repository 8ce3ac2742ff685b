/** Schoolbook multiplication (NN_Mult in nn.c). */
module Multiplication {
  import opened Arithmetic
  import opened Words
  import opened DigitSequences
  import opened NaturalNumbers

  /** A row of the schoolbook scheme: adding bi * c at digit i of the running product. */
  lemma RowIdentity(low: int, w: int, win: int, win': int, bi: int, c: int, p: int, t: int, t': int, p': int)
    requires t == low + w * win && t == p * c
    requires win' == win + bi * c
    requires t' == low + w * win' && p' == p + w * bi
    ensures t' == p' * c
  {
    assert w * (win + bi * c) == w * win + w * (bi * c);
    assert (p + w * bi) * c == p * c + w * (bi * c);
  }

  /** What digit i of t' and above stand for, once the row and its carry are in place. */
  lemma WindowValue(t': seq<Digit>, i: nat, n: nat, carry: Digit, win': nat)
    requires |t'| == i + n + 1 && t'[i + n] == carry
    requires win' == Val(t'[i..i + n]) + Weight(n) * carry
    ensures Val(t') == Val(t'[..i]) + Weight(i) * win'
  {
    hide Val, Weight;
    ValSplit(t', i);
    var win := t'[i..i + n];
    assert t'[i..] == win + [carry];
    ValSnoc(win, carry);
  }

  lemma RowStep(t: seq<Digit>, t': seq<Digit>, i: nat, n: nat, carry: Digit, bi: Digit, c: nat, p: nat, p': nat,
                win': nat)
    requires |t| == i + n && |t'| == i + n + 1
    requires t'[..i] == t[..i] && t'[i + n] == carry
    requires win' == Val(t'[i..i + n]) + Weight(n) * carry && win' == Val(t[i..]) + bi * c
    requires Val(t) == p * c && p' == p + Weight(i) * bi
    ensures Val(t') == p' * c
  {
    hide *;
    ValSplit(t, i);
    WindowValue(t', i, n, carry, win');
    RowIdentity(Val(t[..i]), Weight(i), Val(t[i..]), win', bi, c, p, Val(t), Val(t'), p');
  }

  /** Adds the row b[i] * c into the running product t. */
  method AddRow(t: array<Digit>, i: nat, bi: Digit, c: array<Digit>, n: nat, ghost p: nat, ghost p': nat)
    requires i + n < t.Length && n <= c.Length && t != c
    requires t[i + n] == 0
    requires Val(t[..i + n]) == p * Val(c[..n]) && p' == p + Weight(i) * bi
    modifies t
    ensures Val(t[..i + n + 1]) == p' * Val(c[..n])
    ensures forall k :: i + n < k < t.Length ==> t[k] == old(t[k])
  {
    hide Val, Weight;
    ghost var s: seq<Digit> := t[..i + n];
    assert s[i..] == t[i..i + n];
    var carry := AddDigitMult(t, i, t, i, bi, c, n);
    assert t[i + n] == 0;
    ghost var win: seq<Digit> := t[i..i + n];
    assert Val(win) + Weight(n) * carry == Val(s[i..]) + bi * Val(c[..n]) by {
      if bi == 0 {
        assert win == s[i..];
      }
    }
    t[i + n] := Add32(t[i + n], carry);
    assert t[i + n] == carry;
    assert t[..i + n + 1][i..i + n] == win;
    assert t[..i + n + 1][..i] == s[..i];
    RowStep(s, t[..i + n + 1], i, n, carry, bi, Val(c[..n]), p, p', Val(win) + Weight(n) * carry);
  }

  /** The double-length product t = b * c, accumulated row by row. */
  method Product(t: array<Digit>, b: array<Digit>, c: array<Digit>, n: nat)
    requires 2 * n <= t.Length && n <= b.Length && n <= c.Length && t != b && t != c
    modifies t
    ensures Val(t[..2 * n]) == Val(b[..n]) * Val(c[..n])
  {
    hide *;
    AssignZero(t, 2 * n);
    var bDigits := Digits(b, n);
    var cDigits := Digits(c, n);
    ValZero(t[..cDigits]);
    ValZero(b[..0]);
    Rows(t, 2 * n, b, bDigits, c, cDigits);
    ValTrim(t[..2 * n], bDigits + cDigits);
    assert t[..2 * n][..bDigits + cDigits] == t[..bDigits + cDigits];
  }

  /** The rows of the product, from the least significant digit of b. */
  method Rows(t: array<Digit>, size: nat, b: array<Digit>, bDigits: nat, c: array<Digit>, cDigits: nat)
    requires bDigits + cDigits <= size <= t.Length && bDigits <= b.Length && cDigits <= c.Length && t != b && t != c
    requires Val(t[..cDigits]) == 0 && Val(b[..0]) == 0
    requires forall k :: cDigits <= k < size ==> t[k] == 0
    modifies t
    ensures Val(t[..bDigits + cDigits]) == Val(b[..bDigits]) * Val(c[..cDigits])
    ensures forall k :: bDigits + cDigits <= k < size ==> t[k] == 0
  {
    hide *;
    for i := 0 to bDigits
      invariant Val(t[..i + cDigits]) == Val(b[..i]) * Val(c[..cDigits])
      invariant forall k :: i + cDigits <= k < size ==> t[k] == 0
    {
      AppendValue(b, i);
      AddRow(t, i, b[i], c, cDigits, Val(b[..i]), Val(b[..i + 1]));
    }
  }

  lemma AppendValue(b: array<Digit>, i: nat)
    requires i < b.Length
    ensures Val(b[..i + 1]) == Val(b[..i]) + Weight(i) * b[i]
  {
    hide *;
    assert b[..i + 1] == b[..i] + [b[i]];
    ValSnoc(b[..i], b[i]);
  }

  /** a = b * c. */
  method Mult(a: array<Digit>, b: array<Digit>, c: array<Digit>, n: nat)
    requires n <= MAX_NN_DIGITS && 2 * n <= a.Length && n <= b.Length && n <= c.Length
    modifies a
    ensures Val(a[..2 * n]) == old(Val(b[..n])) * old(Val(c[..n]))
    ensures forall k :: 2 * n <= k < a.Length ==> a[k] == old(a[k])
  {
    var t := new Digit[2 * MAX_NN_DIGITS];
    Product(t, b, c, n);
    Assign(a, t, 2 * n);
  }
}
