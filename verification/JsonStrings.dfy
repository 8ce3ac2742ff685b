/** The strings of cJSON.c as parse_string reads them: what they stand for, the length that is allocated for them,
    and when that is enough. Reading at or past the end of the text gives the terminating zero. */
module JsonStrings {
  import opened Words
  import opened Slices
  import opened Buffers
  import opened JsonEscapes
  import opened JsonText

  datatype Parsed<T> = Fail | Ok(v: T, at: nat)

  /** parse_string, from its opening quote. */
  function ParseString(s: seq<Byte>, at: nat): (r: Parsed<seq<Byte>>)
    requires at <= |s|
    ensures r.Ok? ==> at < r.at <= |s|
  {
    if Ch(s, at) != QUOTE then Fail
    else
      var b := Body(s, at + 1);
      Ok(b.0, if Ch(s, b.1) == QUOTE then b.1 + 1 else b.1)
  }

  /** The length that parse_string allocates for: one for every character or backslash pair. */
  function Room(s: seq<Byte>, at: nat): nat
    requires at <= |s|
    decreases |s| - at
  {
    var c := Ch(s, at);
    if c == QUOTE || c == 0 then 0
    else if c == BACKSLASH then 1 + Room(s, Within(s, at + 2))
    else 1 + Room(s, at + 1)
  }

  /** Where the pass that computes the length stops. */
  function RoomEnd(s: seq<Byte>, at: nat): (r: nat)
    requires at <= |s|
    ensures at <= r <= |s|
    decreases |s| - at
  {
    var c := Ch(s, at);
    if c == QUOTE || c == 0 then at else if c == BACKSLASH then RoomEnd(s, Within(s, at + 2)) else RoomEnd(s, at + 1)
  }

  /** The pass that writes stops no later than the one that computes the length: no escape reaches over the quote
      at which that one stopped. */
  predicate Contained(s: seq<Byte>, at: nat)
    requires at <= |s|
  {
    Body(s, at).1 <= RoomEnd(s, at)
  }

  /** The counts of the length pass from q up to a place, and where it then is. */
  ghost function Tokens(s: seq<Byte>, q: nat, to: nat): (r: (nat, nat))
    requires q <= |s| && to <= |s|
    ensures q <= r.1 <= |s| && (q <= to ==> r.1 <= to + 1)
    decreases |s| - q
  {
    var c := Ch(s, q);
    if q >= to || c == QUOTE || c == 0 then (0, q)
    else var r := Tokens(s, if c == BACKSLASH then Within(s, q + 2) else q + 1, to); (1 + r.0, r.1)
  }

  lemma {:induction false} TokensRoom(s: seq<Byte>, q: nat, to: nat)
    requires q <= |s| && to <= |s|
    ensures var r := Tokens(s, q, to); Room(s, q) == r.0 + Room(s, r.1) && RoomEnd(s, q) == RoomEnd(s, r.1)
    ensures Tokens(s, q, to).1 < to ==> RoomEnd(s, q) < to
    decreases |s| - q
  {
    var c := Ch(s, q);
    if !(q >= to || c == QUOTE || c == 0) {
      TokensRoom(s, if c == BACKSLASH then Within(s, q + 2) else q + 1, to);
    }
  }

  /** Four hexadecimal digits count four. */
  lemma HexTokens(s: seq<Byte>, at: nat, to: nat)
    requires IsHex(s, at) && at + 4 <= to <= |s|
    ensures Tokens(s, at, to) == (var r := Tokens(s, at + 4, to); (4 + r.0, r.1))
  {
    var r4 := Tokens(s, at + 4, to);
    assert Tokens(s, at + 3, to) == (1 + r4.0, r4.1);
    assert Tokens(s, at + 2, to) == (2 + r4.0, r4.1);
    assert Tokens(s, at + 1, to) == (3 + r4.0, r4.1);
  }

  /** What a Unicode escape writes is within what is counted for it, even if the two passes part there. */
  lemma UnicodeRoom(s: seq<Byte>, u: nat)
    requires u < |s| && Ch(s, u) == LOWER_U
    ensures var one := Unicode(s, u);
      var to := Within(s, one.1 + 1);
      var r := Tokens(s, u + 1, to);
      r.1 >= to ==> |one.0| + (r.1 - to) <= 1 + r.0
  {
    var one := Unicode(s, u);
    var to := Within(s, one.1 + 1);
    if one.0 != [] {
      HexIs(s, u + 1);
      HexTokens(s, u + 1, to);
      if one.1 == u + 10 {
        HexIs(s, u + 7);
        HexTokens(s, u + 7, to);
        assert Tokens(s, u + 5, to) == (var r := Tokens(s, u + 7, to); (1 + r.0, r.1));
      }
    }
  }

  /** The same for any escape, with the length pass at its backslash or one further. */
  lemma EscapeRoom(s: seq<Byte>, b: nat, q: nat, to: nat)
    requires b < |s| && Ch(s, b) == BACKSLASH && b <= q <= b + 1 && q <= |s|
    requires to == Within(s, Unescape(s, b + 1).1 + 1)
    ensures q <= to && (Tokens(s, q, to).1 >= to ==>
      |Unescape(s, b + 1).0| + (Tokens(s, q, to).1 - to) <= Tokens(s, q, to).0 + (q - b))
  {
    hide Unicode, Unescape, Tokens, Ch;
    UnescapeIs(s, b + 1);
    if Ch(s, b + 1) == LOWER_U {
      UnicodeRoom(s, b + 1);
      TokensPair(s, b, to);
    } else {
      ShortRoom(s, b, q);
    }
  }

  lemma UnescapeIs(s: seq<Byte>, e: nat)
    ensures if Ch(s, e) == LOWER_U then e < |s| && Unescape(s, e) == Unicode(s, e) && Unicode(s, e).1 >= e + 4
            else |Unescape(s, e).0| == 1 && Unescape(s, e).1 == e
  {}

  /** The backslash and the letter of an escape, together or the letter alone, count one. */
  lemma TokensPair(s: seq<Byte>, b: nat, to: nat)
    requires b + 2 <= to <= |s| && Ch(s, b) == BACKSLASH && Ch(s, b + 1) == LOWER_U
    ensures var r := Tokens(s, b + 2, to); Tokens(s, b, to) == (1 + r.0, r.1) && Tokens(s, b + 1, to) == (1 + r.0, r.1)
  {}

  lemma ShortRoom(s: seq<Byte>, b: nat, q: nat)
    requires b < |s| && Ch(s, b) == BACKSLASH && b <= q <= b + 1 && q <= |s|
    ensures var to := Within(s, b + 2);
      var r := Tokens(s, q, to);
      q <= to && (r.1 >= to ==> 1 + (r.1 - to) <= r.0 + (q - b))
  {}

  /** As long as the writing pass stays contained, what it writes from b on is within what the length pass counts
      from q on, although a malformed escape can put that pass one character ahead. */
  lemma {:induction false} WrittenFits(s: seq<Byte>, b: nat, q: nat)
    requires b <= q <= b + 1 && q <= |s| && Body(s, b).1 <= RoomEnd(s, q)
    ensures |Body(s, b).0| <= Room(s, q) + (q - b)
    decreases |s| - b
  {
    var c := Ch(s, b);
    if c == QUOTE || c == 0 {
    } else if c != BACKSLASH {
      WrittenFits(s, b + 1, b + 1);
    } else {
      var one := Unescape(s, b + 1);
      var to := Within(s, one.1 + 1);
      EscapeRoom(s, b, q, to);
      TokensRoom(s, q, to);
      hide Unescape, Tokens;
      WrittenFits(s, to, Tokens(s, q, to).1);
    }
  }

  /** The length allocated is enough for every contained string. */
  lemma ContainedFits(s: seq<Byte>, at: nat)
    requires at <= |s| && Contained(s, at)
    ensures |Body(s, at).0| <= Room(s, at)
  {
    WrittenFits(s, at, at);
  }

  /** A text that ends where the length pass stops. */
  ghost predicate Closed(p: seq<Byte>)
  {
    p != [] && (p[|p| - 1] == QUOTE || p[|p| - 1] == 0)
  }

  lemma HexAgrees(p: seq<Byte>, t: seq<Byte>, at: nat)
    requires Closed(p) && at < |p|
    ensures Hex4(p, at) == Hex4(p + t, at)
    ensures Hex4(p, at) != 0 ==> at + 4 < |p|
  {
    var s := p + t;
    assert forall i {:trigger Ch(s, i)} :: 0 <= i < |p| ==> Ch(s, i) == Ch(p, i);
    assert HexValue(Ch(p, |p| - 1)) == 16;
  }

  /** An escape is read the same whatever follows the end. */
  lemma UnescapeAgrees(p: seq<Byte>, t: seq<Byte>, e: nat)
    requires Closed(p) && e < |p|
    ensures Unescape(p, e) == Unescape(p + t, e)
  {
    var s := p + t;
    assert Ch(s, e) == Ch(p, e);
    if Ch(p, e) == LOWER_U {
      HexAgrees(p, t, e + 1);
      var uc := Hex4(p, e + 1);
      if 0xd800 <= uc <= 0xdbff {
        assert Ch(s, e + 5) == Ch(p, e + 5);
        if Ch(p, e + 5) == BACKSLASH {
          assert Ch(s, e + 6) == Ch(p, e + 6);
          if Ch(p, e + 6) == LOWER_U { HexAgrees(p, t, e + 7); }
        }
      }
      hide Hex4, Utf8;
    }
  }

  /** The writing pass stops here. */
  ghost predicate Ends(s: seq<Byte>, b: nat)
  {
    Ch(s, b) == QUOTE || Ch(s, b) == 0
  }

  /** One step of the writing pass: what it writes, and the place it goes on. */
  ghost function One(s: seq<Byte>, b: nat): (r: (seq<Byte>, nat))
    requires b < |s|
    ensures b < r.1 <= |s| && r.1 <= b + 12
  {
    if Ch(s, b) != BACKSLASH then ([Ch(s, b)], b + 1)
    else UnescapeEnds(s, b + 1); (Unescape(s, b + 1).0, Within(s, Unescape(s, b + 1).1 + 1))
  }

  lemma UnescapeEnds(s: seq<Byte>, e: nat)
    ensures e <= Unescape(s, e).1 <= e + 10
  {}

  lemma BodyEnd(s: seq<Byte>, b: nat)
    requires b <= |s| && Ends(s, b)
    ensures Body(s, b) == ([], b)
  {}

  lemma BodyStep(s: seq<Byte>, b: nat)
    requires b <= |s| && !Ends(s, b)
    ensures b < |s| && Body(s, b) == (One(s, b).0 + Body(s, One(s, b).1).0, Body(s, One(s, b).1).1)
  {
    hide Unescape;
  }

  /** A step inside p is the same whatever follows p; one that goes to the end of p may go on behind it. */
  lemma OneAgrees(p: seq<Byte>, t: seq<Byte>, b: nat)
    requires Closed(p) && b < |p|
    ensures Ends(p + t, b) == Ends(p, b)
    ensures !Ends(p, b) ==> b + 1 < |p| && One(p + t, b).0 == One(p, b).0
    ensures !Ends(p, b) && One(p, b).1 < |p| ==> One(p + t, b).1 == One(p, b).1
    ensures !Ends(p, b) && One(p, b).1 == |p| ==> One(p + t, b).1 >= |p|
  {
    assert Ch(p + t, b) == Ch(p, b);
    if b + 1 < |p| { UnescapeAgrees(p, t, b + 1); }
    hide Unescape;
  }

  /** A high surrogate with a second escape behind it. */
  predicate PairAt(s: seq<Byte>, b: nat)
  {
    && Ch(s, b + 1) == LOWER_U && 0xd800 <= Hex4(s, b + 2) <= 0xdbff
    && Ch(s, b + 6) == BACKSLASH && Ch(s, b + 7) == LOWER_U
  }

  /** The escape at b has the quote at end among its characters: as its letter, as one of the four digits behind its u,
      or as one of those of the second half of a pair. */
  predicate Covers(s: seq<Byte>, b: nat, end: nat)
  {
    && Ch(s, b) == BACKSLASH
    && (end == b + 1 || (Ch(s, b + 1) == LOWER_U && b + 2 <= end <= b + 5) || (PairAt(s, b) && b + 8 <= end <= b + 11))
  }

  /** No escape that the writing pass meets from b on covers the place. */
  ghost predicate NoneCovers(s: seq<Byte>, b: nat, end: nat)
    requires b <= |s|
    decreases |s| - b
  {
    b < end && !Ends(s, b) ==> !Covers(s, b, end) && NoneCovers(s, One(s, b).1, end)
  }

  lemma CoversIs(s: seq<Byte>, b: nat, end: nat)
    requires b < end < |s| && Ends(s, end) && !Ends(s, b)
    ensures One(s, b).1 > end <==> Covers(s, b, end)
  {
    if Ch(s, b) == BACKSLASH {
      HexIs(s, b + 2);
      hide Hex4, Utf8;
    }
  }

  /** So the writing pass is contained if and only if no escape covers the quote at which the length pass stops. */
  lemma ContainedByEscapes(s: seq<Byte>, at: nat)
    requires at <= |s| && RoomEnd(s, at) < |s|
    ensures Contained(s, at) <==> NoneCovers(s, at, RoomEnd(s, at))
  {
    RoomStops(s, at);
    BodyWithin(s, at, RoomEnd(s, at));
  }

  lemma {:induction false} BodyWithin(s: seq<Byte>, b: nat, end: nat)
    requires b <= end < |s| && Ends(s, end)
    ensures Body(s, b).1 <= end <==> NoneCovers(s, b, end)
    decreases |s| - b
  {
    hide Body, One, Covers, Unescape;
    if Ends(s, b) {
      BodyEnd(s, b);
    } else {
      BodyStep(s, b);
      CoversIs(s, b, end);
      if One(s, b).1 <= end { BodyWithin(s, One(s, b).1, end); }
    }
  }

  /** A string that ends inside p is the same whatever follows p; one that does not goes on behind p. */
  lemma {:induction false} BodyAgrees(p: seq<Byte>, t: seq<Byte>, b: nat)
    requires Closed(p) && b < |p|
    ensures Body(p, b).1 < |p| ==> Body(p + t, b) == Body(p, b)
    ensures Body(p, b).1 == |p| ==> Body(p + t, b).1 >= |p|
    decreases |p| - b
  {
    hide *;
    OneAgrees(p, t, b);
    if Ends(p, b) {
      BodyEnd(p, b);
      BodyEnd(p + t, b);
    } else {
      BodyStep(p, b);
      BodyStep(p + t, b);
      if One(p, b).1 < |p| { BodyAgrees(p, t, One(p, b).1); }
    }
  }

  /** s is p followed by letters only. */
  ghost predicate LettersBehind(s: seq<Byte>, p: seq<Byte>)
  {
    |p| <= |s| && s[..|p|] == p && forall i :: |p| <= i < |s| ==> s[i] == 65
  }

  lemma LetterHere(s: seq<Byte>, p: seq<Byte>, at: nat)
    requires |p| <= at < |s| && LettersBehind(s, p)
    ensures !Ends(s, at) && One(s, at) == ([65], at + 1)
  {}

  /** Letters are written as they are. */
  lemma {:induction false} LettersWritten(s: seq<Byte>, p: seq<Byte>, at: nat)
    requires |p| <= at <= |s| && LettersBehind(s, p)
    ensures |Body(s, at).0| == |s| - at
    decreases |s| - at
  {
    if at < |s| {
      hide *;
      LetterHere(s, p, at);
      BodyStep(s, at);
      LettersWritten(s, p, at + 1);
    } else {
      BodyEnd(s, at);
    }
  }

  /** Behind a text in which an escape reaches over the end, every further letter is written. */
  lemma {:induction false} LettersFollow(s: seq<Byte>, p: seq<Byte>, b: nat)
    requires Closed(p) && b < |p| && Body(p, b).1 == |p| && LettersBehind(s, p)
    ensures |Body(s, b).0| + |p| + 12 >= |s|
    decreases |p| - b
  {
    assert p + s[|p|..] == s;
    hide *;
    OneAgrees(p, s[|p|..], b);
    if Ends(p, b) { BodyEnd(p, b); }
    BodyStep(p, b);
    BodyStep(s, b);
    if One(p, b).1 < |p| {
      LettersFollow(s, p, One(p, b).1);
    } else {
      LettersWritten(s, p, One(s, b).1);
    }
  }

  /** The length pass depends only on the text up to where it stops. */
  lemma {:induction false} RoomAgrees(s: seq<Byte>, s': seq<Byte>, q: nat, end: nat)
    requires q <= end < |s| && end < |s'| && RoomEnd(s, q) == end && forall i :: 0 <= i <= end ==> s[i] == s'[i]
    ensures Room(s', q) == Room(s, q) && RoomEnd(s', q) == end
    decreases |s| - q
  {
    var c := Ch(s, q);
    assert Ch(s', q) == c;
    if c == QUOTE || c == 0 {
    } else {
      var n := if c == BACKSLASH then Within(s, q + 2) else q + 1;
      RoomAgrees(s, s', n, end);
    }
  }

  lemma {:induction false} RoomStops(s: seq<Byte>, at: nat)
    requires at <= |s|
    ensures Ch(s, RoomEnd(s, at)) == QUOTE || Ch(s, RoomEnd(s, at)) == 0
    decreases |s| - at
  {
    var c := Ch(s, at);
    if !(c == QUOTE || c == 0) { RoomStops(s, if c == BACKSLASH then Within(s, at + 2) else at + 1); }
  }

  ghost predicate FitsFollowedBy(p: seq<Byte>, t: seq<Byte>, at: nat)
    requires at <= |p|
  {
    |Body(p + t, at).0| <= Room(p + t, at)
  }

  /** A text cut off behind the character at which the length pass stops. */
  ghost function Head(s: seq<Byte>, at: nat): (p: seq<Byte>)
    requires at <= |s| && RoomEnd(s, at) < |s|
    ensures at < |p| == RoomEnd(s, at) + 1 && Closed(p)
  {
    RoomStops(s, at);
    s[..RoomEnd(s, at) + 1]
  }

  lemma HeadAgrees(s: seq<Byte>, at: nat, t: seq<Byte>)
    requires at <= |s| && RoomEnd(s, at) < |s|
    ensures var p := Head(s, at); Room(p + t, at) == Room(s, at) && RoomEnd(p + t, at) == RoomEnd(s, at)
  {
    RoomAgrees(s, Head(s, at) + t, at, RoomEnd(s, at));
  }

  lemma HeadContained(s: seq<Byte>, at: nat, t: seq<Byte>)
    requires at <= |s| && RoomEnd(s, at) < |s|
    ensures Contained(Head(s, at) + t, at) <==> Body(Head(s, at), at).1 < |Head(s, at)|
  {
    HeadAgrees(s, at, t);
    BodyAgrees(Head(s, at), t, at);
  }

  /** The exact condition: the length allocated is enough for the text up to where the length pass stops, whatever
      comes behind it, if and only if the writing pass is contained, that is, no escape covers that place. */
  lemma RoomExact(s: seq<Byte>, at: nat)
    requires at <= |s| && RoomEnd(s, at) < |s|
    ensures (forall t: seq<Byte> :: FitsFollowedBy(Head(s, at), t, at)) <==> Contained(s, at)
    ensures Contained(s, at) <==> NoneCovers(s, at, RoomEnd(s, at))
  {
    ContainedByEscapes(s, at);
    var p := Head(s, at);
    var rest := s[RoomEnd(s, at) + 1..];
    assert p + rest == s;
    HeadContained(s, at, rest);
    if Contained(s, at) {
      forall t: seq<Byte>
        ensures FitsFollowedBy(p, t, at)
      {
        HeadContained(s, at, t);
        ContainedFits(p + t, at);
      }
    } else {
      var t: seq<Byte> := seq(Room(s, at) + 13, _ => 65);
      HeadAgrees(s, at, t);
      LettersFollow(p + t, p, at);
      assert !FitsFollowedBy(p, t, at);
    }
  }

  /** A malformed escape that reaches over the closing quote: one byte is allocated besides the terminating zero,
      and four are written. */
  lemma Overrun()
    ensures var s: seq<Byte> := [QUOTE, BACKSLASH, LOWER_U, QUOTE, 65, 66, 67, 68, 69, 70, 71, QUOTE];
      Room(s, 1) == 1 && |Body(s, 1).0| == 4 && !Contained(s, 1)
  {
    var s: seq<Byte> := [QUOTE, BACKSLASH, LOWER_U, QUOTE, 65, 66, 67, 68, 69, 70, 71, QUOTE];
    assert Room(s, 3) == 0 && RoomEnd(s, 3) == 3;
    assert Hex4(s, 3) == 0;
    assert |Body(s, 11).0| == 0 && Body(s, 11).1 == 11;
    assert |Body(s, 10).0| == 1 && Body(s, 10).1 == 11;
    assert |Body(s, 9).0| == 2 && Body(s, 9).1 == 11;
    assert |Body(s, 8).0| == 3 && Body(s, 8).1 == 11;
    assert |Body(s, 7).0| == 4 && Body(s, 7).1 == 11;
  }

  lemma HexRoom(s: seq<Byte>, at: nat)
    requires at + 4 <= |s| && IsHex(s, at)
    ensures RoomEnd(s, at) == RoomEnd(s, at + 4)
  {
    assert RoomEnd(s, at + 3) == RoomEnd(s, at + 4);
    assert RoomEnd(s, at + 2) == RoomEnd(s, at + 3);
    assert RoomEnd(s, at + 1) == RoomEnd(s, at + 2);
  }

  /** Every valid string is contained: both passes stop at its closing quote. */
  lemma {:induction false} ValidContained(s: seq<Byte>, at: nat)
    requires at <= |s| && ValidBody(s, at)
    ensures Body(s, at).1 == RoomEnd(s, at)
    decreases |s| - at
  {
    var c := Ch(s, at);
    if c == QUOTE {
    } else if c != BACKSLASH {
      ValidContained(s, at + 1);
    } else if Ch(s, at + 1) == LOWER_U {
      HexIs(s, at + 2);
      HexRoom(s, at + 2);
      if Unicode(s, at + 1).1 == at + 11 {
        HexIs(s, at + 8);
        HexRoom(s, at + 8);
        ValidContained(s, at + 12);
      } else {
        ValidContained(s, at + 6);
      }
    } else {
      ValidContained(s, at + 2);
    }
  }

  lemma ValidCloses(s: seq<Byte>, at: nat)
    requires at <= |s| && ValidBody(s, at)
    ensures Ch(s, Body(s, at).1) == QUOTE
  {
    BodyMeans(s, at);
    MeansCloses(s, at, Body(s, at).0, Body(s, at).1);
  }

  lemma {:induction false} MeansCloses(s: seq<Byte>, at: nat, bytes: seq<Byte>, end: nat)
    requires at <= |s| && ValidBody(s, at) && Means(s, at, bytes, end)
    ensures Ch(s, end) == QUOTE
    decreases |s| - at
  {
    hide BeginsWith, AfterPoint, NextPoint;
    if Ch(s, at) == QUOTE {
    } else if Ch(s, at) != BACKSLASH {
      MeansCloses(s, at + 1, bytes[1..], end);
    } else if !EscapeAt(s, at) {
      MeansCloses(s, at + 2, bytes[1..], end);
    } else {
      var (cp, n) := NextPoint(s, at);
      MeansCloses(s, at + n, if cp == 0 then bytes else AfterPoint(bytes), end);
    }
  }

  /** So the length allocated is enough for every valid string. */
  lemma ValidFits(s: seq<Byte>, at: nat)
    requires at <= |s| && ValidBody(s, at)
    ensures Contained(s, at) && |Body(s, at).0| <= Room(s, at)
  {
    ValidContained(s, at);
    ContainedFits(s, at);
  }

  /** The pass of parse_string that computes the length. */
  method MeasureString(s: seq<Byte>, at: nat) returns (room: nat)
    requires at <= |s|
    ensures room == Room(s, at)
  {
    room := 0;
    var ptr := at;
    while Ch(s, ptr) != QUOTE && Ch(s, ptr) != 0
      invariant at <= ptr <= |s| && room + Room(s, ptr) == Room(s, at)
      decreases |s| - ptr
    {
      room := room + 1;
      ptr := if Ch(s, ptr) == BACKSLASH then Within(s, ptr + 2) else ptr + 1;
    }
  }

  /** What the code appends to the output at a place, and where it goes on. */
  method Unescaped(s: seq<Byte>, ptr: nat) returns (bytes: seq<Byte>, next: nat)
    requires ptr < |s| && Ch(s, ptr) != QUOTE && Ch(s, ptr) != 0
    ensures ptr < next <= |s| && Body(s, ptr) == (bytes + Body(s, next).0, Body(s, next).1)
  {
    hide Unescape;
    if Ch(s, ptr) != BACKSLASH {
      return [Ch(s, ptr)], ptr + 1;
    }
    var one := Unescape(s, ptr + 1);
    return one.0, Within(s, one.1 + 1);
  }

  lemma AppendNext(a: seq<Byte>, b: seq<Byte>, c: seq<Byte>)
    ensures a + (b + c) == (a + b) + c
  {}

  /** The pass that writes, into the buffer allocated. */
  method WriteString(s: seq<Byte>, at: nat, out: array<Byte>) returns (n: nat, ptr: nat)
    requires at <= |s| && Contained(s, at) && out.Length == Room(s, at) + 1
    modifies out
    ensures n < out.Length && out[n] == 0 && Body(s, at) == (out[..n], ptr)
  {
    ContainedFits(s, at);
    ptr, n := at, 0;
    ghost var all := Body(s, at);
    hide Body, Contained, Room;
    while Ch(s, ptr) != QUOTE && Ch(s, ptr) != 0
      invariant at <= ptr <= |s| && n < out.Length && all.1 == Body(s, ptr).1 && all.0 == out[..n] + Body(s, ptr).0
      decreases |s| - ptr
    {
      var bytes, next := Unescaped(s, ptr);
      n := Append(out, n, bytes, Body(s, next).0, all.0);
      ptr := next;
    }
    BodyEnd(s, ptr);
    assert all.0 == out[..n];
    out[n] := 0;
  }

  method Append(out: array<Byte>, n: nat, bytes: seq<Byte>, ghost rest: seq<Byte>, ghost all: seq<Byte>)
    returns (n': nat)
    requires n < out.Length && all == out[..n] + (bytes + rest) && |all| < out.Length
    modifies out
    ensures n' < out.Length && all == out[..n'] + rest
  {
    ghost var was: seq<Byte> := out[..];
    CopyInto(out, n, bytes);
    FrontCopied(was, n, bytes, out[..]);
    AppendNext(was[..n], bytes, rest);
    n' := n + |bytes|;
  }

  /** The same pass beyond what was allocated, as far as it is defined at all. */
  method ScanString(s: seq<Byte>, at: nat) returns (out: seq<Byte>, ptr: nat)
    requires at <= |s|
    ensures Body(s, at) == (out, ptr)
  {
    ptr, out := at, [];
    ghost var all := Body(s, at);
    hide Body;
    while Ch(s, ptr) != QUOTE && Ch(s, ptr) != 0
      invariant at <= ptr <= |s| && all.1 == Body(s, ptr).1 && all.0 == out + Body(s, ptr).0
      decreases |s| - ptr
    {
      var bytes, next := Unescaped(s, ptr);
      AppendNext(out, bytes, Body(s, next).0);
      out, ptr := out + bytes, next;
    }
    BodyEnd(s, ptr);
    assert all.0 == out;
  }

  /** parse_string: allocates and, where the string is contained, writes within the length allocated. Where it is
      not, `RoomExact` says that the source can write beyond it; the model then gives the bytes as a value. The source
      does not test for that: the branch only keeps the two cases apart here. */
  method StringAt(s: seq<Byte>, at: nat) returns (r: Parsed<seq<Byte>>, room: nat)
    requires at <= |s|
    ensures r == ParseString(s, at)
    ensures r.Ok? ==> room == Room(s, at + 1) && (Contained(s, at + 1) ==> |r.v| <= room)
    ensures r.Ok? <==> Ch(s, at) == QUOTE
    ensures r.Ok? && ValidBody(s, at + 1) ==> Means(s, at + 1, r.v, r.at - 1) && Ch(s, r.at - 1) == QUOTE
  {
    if Ch(s, at) != QUOTE {
      return Fail, 0;
    }
    if ValidBody(s, at + 1) {
      BodyMeans(s, at + 1);
      ValidCloses(s, at + 1);
    }
    hide Body, Room, Contained, ValidBody, Means;
    room := MeasureString(s, at + 1);
    var text, ptr;
    if Contained(s, at + 1) {
      var out := new Byte[room + 1];
      var n;
      n, ptr := WriteString(s, at + 1, out);
      text := out[..n];
    } else {
      text, ptr := ScanString(s, at + 1);
    }
    if Ch(s, ptr) == QUOTE {
      ptr := ptr + 1;
    }
    r := Ok(text, ptr);
  }
}
