/** Byte encodings that several components share: big-endian lengths, lowercase hexadecimal, and
    the bytes of an ASCII literal. */
module Encoding {

  type Byte = b: int | 0 <= b < 256

  type Bytes = seq<Byte>

  function Pow256(width: nat): (p: nat)
    ensures 1 <= p
  {
    if width == 0 then 1 else 256 * Pow256(width - 1)
  }

  const TWO_TO_32: nat := 0x1_0000_0000
  const TWO_TO_64: nat := 0x1_0000_0000_0000_0000

  lemma LengthWidths()
    ensures Pow256(4) == TWO_TO_32 && Pow256(8) == TWO_TO_64
  {
    assert Pow256(2) == 0x1_0000;
    assert Pow256(4) == 0x1_0000_0000;
    assert Pow256(6) == 0x1_0000_0000_0000;
  }

  /** The low `width` bytes of n, most significant first. */
  function BigEndian(n: nat, width: nat): (bytes: Bytes)
    ensures |bytes| == width
  {
    if width == 0 then [] else BigEndian(n / 256, width - 1) + [n % 256]
  }

  function FromBigEndian(bytes: Bytes): nat {
    if bytes == [] then 0 else 256 * FromBigEndian(bytes[..|bytes| - 1]) + bytes[|bytes| - 1]
  }

  lemma {:induction false} BigEndianRoundTrip(n: nat, width: nat)
    requires n < Pow256(width)
    ensures FromBigEndian(BigEndian(n, width)) == n
  {
    if width != 0 {
      var high := n / 256;
      assert n == 256 * high + n % 256;
      assert high < Pow256(width - 1);
      BigEndianRoundTrip(high, width - 1);
      var bytes := BigEndian(n, width);
      assert bytes[..width - 1] == BigEndian(high, width - 1) && bytes[width - 1] == n % 256;
    }
  }

  lemma {:induction false} FromBigEndianRoundTrip(bytes: Bytes)
    ensures BigEndian(FromBigEndian(bytes), |bytes|) == bytes
  {
    if bytes != [] {
      var front, last := bytes[..|bytes| - 1], bytes[|bytes| - 1];
      var high := FromBigEndian(front);
      FromBigEndianRoundTrip(front);
      assert FromBigEndian(bytes) == 256 * high + last;
      assert (256 * high + last) / 256 == high && (256 * high + last) % 256 == last;
      assert bytes == front + [last];
    }
  }

  lemma OneMoreDigit(base: int, high: int, power: int, low: int, digit: int)
    ensures base * (high * power + low) + digit == high * (base * power) + (base * low + digit)
  {
    assert base * (high * power) == high * (base * power);
  }

  lemma FromBigEndianSnoc(bytes: Bytes, byte: Byte)
    ensures FromBigEndian(bytes + [byte]) == 256 * FromBigEndian(bytes) + byte
  {
    assert (bytes + [byte])[..|bytes|] == bytes;
  }

  /** The most significant byte comes first: what stands in front counts 256 to the power of what is behind. */
  lemma {:induction false} MostSignificantFirst(front: Bytes, back: Bytes)
    ensures FromBigEndian(front + back) == FromBigEndian(front) * Pow256(|back|) + FromBigEndian(back)
    decreases |back|
  {
    if back == [] {
      assert front + back == front;
    } else {
      var middle, last := back[..|back| - 1], back[|back| - 1];
      MostSignificantFirst(front, middle);
      FromBigEndianSnoc(front + middle, last);
      FromBigEndianSnoc(middle, last);
      assert back == middle + [last] && front + back == front + middle + [last];
      OneMoreDigit(256, FromBigEndian(front), Pow256(|middle|), FromBigEndian(middle), last);
    }
  }

  /** A value behind its big-endian length. */
  function Prefixed(value: Bytes, width: nat): (bytes: Bytes)
    ensures |bytes| == width + |value|
  {
    BigEndian(|value|, width) + value
  }

  /** A length-prefixed value is uniquely decodable in front of any remainder. */
  lemma PrefixedSplit(a: Bytes, x: Bytes, b: Bytes, y: Bytes, width: nat)
    requires |a| < Pow256(width) && |b| < Pow256(width)
    requires Prefixed(a, width) + x == Prefixed(b, width) + y
    ensures a == b && x == y
  {
    var left, right := Prefixed(a, width) + x, Prefixed(b, width) + y;
    assert left[..width] == BigEndian(|a|, width) && right[..width] == BigEndian(|b|, width);
    BigEndianRoundTrip(|a|, width);
    BigEndianRoundTrip(|b|, width);
    assert left[width..width + |a|] == a && right[width..width + |b|] == b;
    assert left[width + |a|..] == x && right[width + |b|..] == y;
  }

  /** The first separator splits a sequence in only one way. */
  lemma SplitAtFirst<T>(separator: T, a: seq<T>, x: seq<T>, b: seq<T>, y: seq<T>)
    requires separator !in a && separator !in b
    requires a + [separator] + x == b + [separator] + y
    ensures a == b && x == y
  {
    var left, right := a + [separator] + x, b + [separator] + y;
    assert left[|a|] == separator && right[|b|] == separator;
    assert |a| == |b|;
    assert left[..|a|] == a && right[..|b|] == b;
    assert left[|a| + 1..] == x && right[|b| + 1..] == y;
  }

  /** So does the last one. */
  lemma SplitAtLast<T>(separator: T, a: seq<T>, x: seq<T>, b: seq<T>, y: seq<T>)
    requires separator !in x && separator !in y
    requires a + [separator] + x == b + [separator] + y
    ensures a == b && x == y
  {
    var left, right := a + [separator] + x, b + [separator] + y;
    assert left[|a|] == separator && right[|b|] == separator;
    assert forall i | |a| < i < |left| :: left[i] == x[i - |a| - 1];
    assert forall i | |b| < i < |right| :: right[i] == y[i - |b| - 1];
    assert |a| == |b|;
    assert left[..|a|] == a && right[..|b|] == b;
    assert left[|a| + 1..] == x && right[|b| + 1..] == y;
  }

  /** Split at two separators, the longer front ends in the text between them. */
  lemma SplitTwice<T>(separator: T, a: seq<T>, x: seq<T>, b: seq<T>, y: seq<T>)
    requires a + [separator] + x == b + [separator] + y && |b| < |a|
    ensures a == b + [separator] + a[|b| + 1..] && y == a[|b| + 1..] + [separator] + x
  {
    var left, right := a + [separator] + x, b + [separator] + y;
    var front := b + [separator];
    assert left[..|a|] == a && right[..|a|][..|front|] == front;
    assert a[..|front|] == front && a == a[..|front|] + a[|front|..];
    assert right[|front|..] == y && left[|front|..] == a[|front|..] + [separator] + x;
  }

  lemma CommonPrefix<T>(prefix: seq<T>, a: seq<T>, b: seq<T>)
    requires prefix + a == prefix + b
    ensures a == b
  {
    assert (prefix + a)[|prefix|..] == a && (prefix + b)[|prefix|..] == b;
  }

  /** The bytes of an ASCII literal. */
  function Ascii(s: string): (bytes: Bytes)
    ensures |bytes| == |s|
  {
    seq(|s|, i requires 0 <= i < |s| => s[i] as int % 256)
  }

  // Lowercase hexadecimal

  predicate IsHexDigit(c: char) {
    '0' <= c <= '9' || 'a' <= c <= 'f'
  }

  predicate IsHex(s: string) {
    forall i | 0 <= i < |s| :: IsHexDigit(s[i])
  }

  function Nibble(c: char): (n: int)
    requires IsHexDigit(c)
    ensures 0 <= n < 16
  {
    if c <= '9' then c as int - '0' as int else c as int - 'a' as int + 10
  }

  function HexDigit(n: int): (c: char)
    requires 0 <= n < 16
    ensures IsHexDigit(c) && Nibble(c) == n
  {
    if n < 10 then '0' + n as char else 'a' + (n - 10) as char
  }

  lemma NibbleRoundTrip(c: char)
    requires IsHexDigit(c)
    ensures HexDigit(Nibble(c)) == c
  {
  }

  function Hex(bytes: Bytes): (s: string)
    ensures |s| == 2 * |bytes| && IsHex(s)
  {
    if bytes == [] then "" else [HexDigit(bytes[0] / 16), HexDigit(bytes[0] % 16)] + Hex(bytes[1..])
  }

  /** The bytes a text of hexadecimal digit pairs stands for; the inverse of Hex. */
  function Unhex(s: string): (bytes: Bytes)
    requires IsHex(s) && |s| % 2 == 0
    ensures |bytes| == |s| / 2
  {
    if s == "" then [] else [16 * Nibble(s[0]) + Nibble(s[1])] + Unhex(s[2..])
  }

  lemma {:induction false} UnhexRoundTrip(bytes: Bytes)
    ensures Unhex(Hex(bytes)) == bytes
  {
    if bytes != [] {
      UnhexRoundTrip(bytes[1..]);
      assert Hex(bytes)[2..] == Hex(bytes[1..]);
      assert 16 * (bytes[0] / 16) + bytes[0] % 16 == bytes[0];
    }
  }

  lemma Halves(high: nat, low: nat)
    requires low < 16
    ensures (16 * high + low) / 16 == high && (16 * high + low) % 16 == low
  {
  }

  lemma {:induction false} HexRoundTrip(s: string)
    requires IsHex(s) && |s| % 2 == 0
    ensures Hex(Unhex(s)) == s
  {
    if s != "" {
      HexRoundTrip(s[2..]);
      Halves(Nibble(s[0]), Nibble(s[1]));
      NibbleRoundTrip(s[0]);
      NibbleRoundTrip(s[1]);
      assert Unhex(s)[1..] == Unhex(s[2..]);
      assert s == [s[0], s[1]] + s[2..];
    }
  }

  lemma {:induction false} UnhexSnoc(s: string, high: char, low: char)
    requires IsHex(s) && |s| % 2 == 0 && IsHexDigit(high) && IsHexDigit(low)
    ensures Unhex(s + [high, low]) == Unhex(s) + [16 * Nibble(high) + Nibble(low)]
  {
    if s == "" {
      assert s + [high, low] == [high, low];
    } else {
      assert (s + [high, low])[2..] == s[2..] + [high, low];
      UnhexSnoc(s[2..], high, low);
    }
  }

  /** Decodes exactly `width` bytes of lowercase hexadecimal into a fresh buffer, pair by pair.
      Every other text is refused: the accepted texts are exactly the encodings. */
  method DecodeHex(encoded: string, width: nat) returns (ok: bool, decoded: array<Byte>)
    ensures fresh(decoded) && decoded.Length == width
    ensures ok ==> Hex(decoded[..]) == encoded
    ensures ok <==> |encoded| == 2 * width && IsHex(encoded)
  {
    decoded := new Byte[width](_ => 0);
    if |encoded| != 2 * width {
      return false, decoded;
    }
    var index := 0;
    while index < width
      invariant 0 <= index <= width
      invariant IsHex(encoded[..2 * index])
      invariant decoded[..index] == Unhex(encoded[..2 * index])
    {
      var high, low := encoded[2 * index], encoded[2 * index + 1];
      if !IsHexDigit(high) || !IsHexDigit(low) {
        return false, decoded;
      }
      UnhexSnoc(encoded[..2 * index], high, low);
      assert encoded[..2 * (index + 1)] == encoded[..2 * index] + [high, low];
      decoded[index] := 16 * Nibble(high) + Nibble(low);
      index := index + 1;
    }
    assert encoded[..2 * width] == encoded;
    assert decoded[..width] == decoded[..];
    HexRoundTrip(encoded);
    ok := true;
  }
}
