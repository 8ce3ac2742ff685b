/** Big-endian integers in a byte stream (the little-endian-host branch of nd_netbyte.h). */
module NetBytes {
  import opened Arithmetic
  import opened Words
  import opened ByteStrings

  /** The k low bytes of n, most significant first. */
  function BigBytes(n: nat, k: nat): (s: seq<Byte>)
    ensures |s| == k
  {
    if k == 0 then [] else BigBytes(n / 256, k - 1) + [n % 256]
  }

  lemma ByteWeights()
    ensures ByteWeight(0) == 1 && ByteWeight(1) == 0x100 && ByteWeight(2) == 0x1_0000 && ByteWeight(4) == 0x1_0000_0000
    ensures ByteWeight(8) == 0x1_0000_0000_0000_0000
  {
    assert ByteWeight(3) == 0x100_0000;
    assert ByteWeight(5) == 0x100_0000_0000;
    assert ByteWeight(6) == 0x1_0000_0000_0000;
    assert ByteWeight(7) == 0x100_0000_0000_0000;
  }

  /** Reading gives back what was written, exactly when it fits. */
  lemma {:induction false} BigRoundTrip(n: nat, k: nat)
    ensures BigEndian(BigBytes(n, k)) == n <==> n < ByteWeight(k)
    ensures BigEndian(BigBytes(n, k)) < ByteWeight(k)
  {
    if k > 0 {
      BigRoundTrip(n / 256, k - 1);
      var s := BigBytes(n, k);
      assert s[..|s| - 1] == BigBytes(n / 256, k - 1);
    }
  }

  /** nd_short_to_netstream, nd_long_to_netstream and nd_longlong_to_netstream, and a single byte. */
  function Put8(v: Byte): seq<Byte> { [v] }

  function Put16(v: nat): seq<Byte> { [(v / 0x100) % 256, v % 256] }

  function Put32(v: nat): seq<Byte>
  {
    [(v / 0x100_0000) % 256, (v / 0x1_0000) % 256, (v / 0x100) % 256, v % 256]
  }

  function Put64(v: nat): seq<Byte>
  {
    [(v / 0x100_0000_0000_0000) % 256, (v / 0x1_0000_0000_0000) % 256, (v / 0x100_0000_0000) % 256,
      (v / 0x1_0000_0000) % 256,
     (v / 0x100_0000) % 256, (v / 0x1_0000) % 256, (v / 0x100) % 256, v % 256]
  }

  lemma PutsAreBig(v: nat)
    ensures v < 0x100 ==> Put8(v) == BigBytes(v, 1)
    ensures Put16(v) == BigBytes(v, 2) && Put32(v) == BigBytes(v, 4) && Put64(v) == BigBytes(v, 8)
  {
    Bytes1(v);
    Bytes2(v);
    Bytes4(v);
    Bytes8(v);
    hide BigBytes, Put16, Put32, Put64;
  }

  lemma Bytes1(v: nat)
    ensures BigBytes(v, 1) == [v % 256]
  {
    assert BigBytes(v / 256, 0) == [];
  }

  lemma Bytes2(v: nat)
    ensures BigBytes(v, 2) == Put16(v)
  {
    Bytes1(v / 256);
  }

  lemma Bytes4(v: nat)
    ensures BigBytes(v, 4) == Put32(v)
  {
    var w := v / 256;
    Bytes2(w / 256);
    assert BigBytes(w, 3) == BigBytes(w / 256, 2) + [w % 256];
    assert BigBytes(v, 4) == BigBytes(w, 3) + [v % 256];
    hide BigBytes;
    assert w / 256 == v / 0x1_0000 && w / 256 / 256 == v / 0x100_0000;
  }

  lemma Bytes8(v: nat)
    ensures BigBytes(v, 8) == Put64(v)
  {
    Bytes6(v / 0x1_0000);
    var w := v / 256;
    assert BigBytes(w, 7) == BigBytes(w / 256, 6) + [w % 256];
    Nested(v, 0x100);
    Nested(v, 0x1_0000);
    Nested(v, 0x100_0000);
    Nested(v, 0x1_0000_0000);
    Nested(v, 0x100_0000_0000);
  }

  lemma Bytes6(v: nat)
    ensures BigBytes(v, 6) == [(v / 0x100_0000_0000) % 256, (v / 0x1_0000_0000) % 256] + Put32(v)
  {
    Bytes4(v / 0x1_0000);
    var w := v / 256;
    assert BigBytes(w, 5) == BigBytes(w / 256, 4) + [w % 256];
    Nested(v, 0x100);
    Nested(v, 0x1_0000);
    Nested(v, 0x100_0000);
  }

  /** Dividing twice. */
  lemma Nested(v: nat, d: nat)
    requires d > 0
    ensures v / 0x1_0000 / d == v / (0x1_0000 * d)
  {
    DivDiv(v, 0x1_0000, d);
  }

  /** nd_netstream_to_short, nd_netstream_to_long and nd_netstream_to_longlong. */
  function Get16(s: seq<Byte>, at: nat): nat
    requires at + 2 <= |s|
  {
    s[at] as int * 0x100 + s[at + 1] as int
  }

  function Get32(s: seq<Byte>, at: nat): nat
    requires at + 4 <= |s|
  {
    s[at] as int * 0x100_0000 + s[at + 1] as int * 0x1_0000 + s[at + 2] as int * 0x100 + s[at + 3] as int
  }

  function Get64(s: seq<Byte>, at: nat): nat
    requires at + 8 <= |s|
  {
    Get32(s, at) * 0x1_0000_0000 + Get32(s, at + 4)
  }

  lemma {:induction false} ValueSnoc(s: seq<Byte>, b: Byte)
    ensures BigEndian(s + [b]) == BigEndian(s) * 256 + b
  {
    assert (s + [b])[..|s|] == s;
  }

  lemma GetsAreBig(s: seq<Byte>, at: nat)
    ensures at + 1 <= |s| ==> BigEndian(s[at..at + 1]) == s[at]
    ensures at + 2 <= |s| ==> BigEndian(s[at..at + 2]) == Get16(s, at)
    ensures at + 4 <= |s| ==> BigEndian(s[at..at + 4]) == Get32(s, at)
    ensures at + 8 <= |s| ==> BigEndian(s[at..at + 8]) == Get64(s, at)
  {
    if at + 1 <= |s| { UpTo2(s, at); }
    if at + 4 <= |s| { UpTo4(s, at, at); }
    if at + 8 <= |s| { UpTo8(s, at); }
    hide BigEndian, Get16, Get32, Get64;
  }

  lemma UpTo2(s: seq<Byte>, at: nat)
    requires at < |s|
    ensures BigEndian(s[at..at + 1]) == s[at]
    ensures at + 2 <= |s| ==> BigEndian(s[at..at + 2]) == Get16(s, at)
  {
    assert s[at..at] == [];
    assert BigEndian(s[at..at]) == 0;
    ValueUpTo(s, at, 1);
    ValueUpTo(s, at, 2);
    hide BigEndian;
  }

  /** Four more bytes behind those from start on. */
  lemma UpTo4(s: seq<Byte>, start: nat, at: nat)
    requires start <= at && at + 4 <= |s|
    ensures BigEndian(s[start..at + 4]) == BigEndian(s[start..at]) * 0x1_0000_0000 + Get32(s, at)
    ensures BigEndian(s[at..at]) == 0
  {
    assert s[at..at] == [];
    assert BigEndian(s[at..at]) == 0;
    ValueUpTo(s, start, at - start + 1);
    ValueUpTo(s, start, at - start + 2);
    ValueUpTo(s, start, at - start + 3);
    ValueUpTo(s, start, at - start + 4);
    hide BigEndian;
  }

  lemma UpTo8(s: seq<Byte>, at: nat)
    requires at + 8 <= |s|
    ensures BigEndian(s[at..at + 8]) == Get64(s, at)
  {
    UpTo4(s, at, at);
    UpTo4(s, at, at + 4);
    hide BigEndian;
  }

  lemma ValueUpTo(s: seq<Byte>, at: nat, k: nat)
    requires k > 0
    ensures at + k <= |s| ==> BigEndian(s[at..at + k]) == BigEndian(s[at..at + k - 1]) * 256 + s[at + k - 1]
  {
    if at + k <= |s| {
      assert s[at..at + k] == s[at..at + k - 1] + [s[at + k - 1]];
      ValueSnoc(s[at..at + k - 1], s[at + k - 1]);
    }
  }
}
