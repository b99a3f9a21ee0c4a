/** The base64url encoding as it is written down in sections 4 and 5 of RFC 4648: groups of three bytes, and an alphabet
    given as a text. It is what the codec of module Base64Url computes with one accumulator. */
module Base64Rfc {
  import opened Base64Url

  // ---------- The alphabet ----------

  const UPPER: string := "ABCDEFGHIJKLMNOPQRSTUVWXYZ"
  const LOWER: string := "abcdefghijklmnopqrstuvwxyz"
  const DIGITS: string := "0123456789"

  /** Table 2 of RFC 4648. */
  const ALPHABET: string := UPPER + LOWER + DIGITS + "-_"

  lemma UpperAt(i: nat)
    requires i < 26
    ensures |UPPER| == 26 && UPPER[i] as int == 65 + i
  {
  }

  lemma LowerAt(i: nat)
    requires i < 26
    ensures |LOWER| == 26 && LOWER[i] as int == 97 + i
  {
  }

  lemma DigitsAt(i: nat)
    requires i < 10
    ensures |DIGITS| == 10 && DIGITS[i] as int == 48 + i
  {
  }

  lemma AlphabetLength()
    ensures |ALPHABET| == 64
  {
    UpperAt(0);
    LowerAt(0);
    DigitsAt(0);
  }

  /** The character of each value. */
  lemma CharIs(i: Sextet)
    ensures |ALPHABET| == 64 && UrlChar(i) == ALPHABET[i] as int
  {
    hide UPPER, LOWER, DIGITS;
    AlphabetLength();
    if i < 26 {
      UpperAt(i);
    } else if i < 52 {
      UpperAt(0);
      LowerAt(i - 26);
    } else if i < 62 {
      UpperAt(0);
      LowerAt(0);
      DigitsAt(i - 52);
    } else {
      UpperAt(0);
      LowerAt(0);
      DigitsAt(0);
    }
  }

  /** The value of each byte to the decoder: its place in the alphabet, where '+' and '/' of the standard alphabet count
      as '-' and '_'; all other bytes end the decoding. */
  lemma DigitIs(c: Byte, i: Sextet)
    ensures |ALPHABET| == 64
    ensures Digit(c) == i <==>
      c == ALPHABET[i] as int || (c == '+' as int && i == 62) || (c == '/' as int && i == 63)
  {
    hide ALPHABET;
    CharIs(i);
    AlphabetInverse(i, c);
  }

  lemma NoDigitIs(c: Byte)
    ensures |ALPHABET| == 64
    ensures Digit(c) == -1 <==>
      (forall i :: 0 <= i < 64 ==> c != ALPHABET[i] as int) && c != '+' as int && c != '/' as int
  {
    hide ALPHABET;
    AlphabetLength();
    forall i | 0 <= i < 64 ensures Digit(c) == i <==>
      c == ALPHABET[i] as int || (c == '+' as int && i == 62) || (c == '/' as int && i == 63)
    {
      DigitIs(c, i);
    }
    DigitIs(c, 62);
    DigitIs(c, 63);
    if Digit(c) >= 0 { DigitIs(c, Digit(c)); }
  }

  function Letter(i: Sextet): (c: Byte)
    ensures c == UrlChar(i)
  {
    CharIs(i);
    ALPHABET[i] as int
  }

  // ---------- Encoding ----------

  /** Three bytes make four characters, two make three and one makes two. */
  function Group3(a: Byte, b: Byte, c: Byte): Bytes {
    [Letter(a / 4), Letter(a % 4 * 16 + b / 16), Letter(b % 16 * 4 + c / 64), Letter(c % 64)]
  }

  function Group2(a: Byte, b: Byte): Bytes {
    [Letter(a / 4), Letter(a % 4 * 16 + b / 16), Letter(b % 16 * 4)]
  }

  function Group1(a: Byte): Bytes {
    [Letter(a / 4), Letter(a % 4 * 16)]
  }

  /** Groups of three bytes from the front; the last group may be shorter. */
  function Encoded(x: Bytes): Bytes {
    var n := |x|;
    if n == 0 then []
    else if n % 3 == 0 then Encoded(x[..n - 3]) + Group3(x[n - 3], x[n - 2], x[n - 1])
    else if n % 3 == 1 then Encoded(x[..n - 1]) + Group1(x[n - 1])
    else Encoded(x[..n - 2]) + Group2(x[n - 2], x[n - 1])
  }

  lemma Append64(q: nat, r: Sextet, n: nat)
    ensures Chars(Digits64(64 * q + r, n + 1)) == Chars(Digits64(q, n)) + [UrlChar(r)]
  {
    assert (64 * q + r) / 64 == q && (64 * q + r) % 64 == r;
  }

  lemma Value256Last(x: Bytes)
    requires x != []
    ensures Value256(x) == 256 * Value256(x[..|x| - 1]) + x[|x| - 1]
  {
  }

  lemma Lengths3(j: nat)
    ensures EncodedLength(3 * j) == 4 * j && EncodedLength(3 * j + 1) == 4 * j + 2
        && EncodedLength(3 * j + 2) == 4 * j + 3
    ensures 3 * j % 3 == 0 && (3 * j + 1) % 3 == 1 && (3 * j + 2) % 3 == 2
  {
  }

  /** The number that is written: filled up with zero bits to whole characters. */
  lemma EncodeSpecIs(x: Bytes, j: nat)
    ensures |x| == 3 * j ==> EncodeSpec(x) == Chars(Digits64(Value256(x), 4 * j))
    ensures |x| == 3 * j + 1 ==> EncodeSpec(x) == Chars(Digits64(16 * Value256(x), 4 * j + 2))
    ensures |x| == 3 * j + 2 ==> EncodeSpec(x) == Chars(Digits64(4 * Value256(x), 4 * j + 3))
  {
    hide EncodedLength, Chars, Digits64, Value256;
    Lengths3(j);
  }

  lemma Bits24(v: nat, a: Byte, b: Byte, c: Byte)
    ensures 16 * (256 * v + a) == 64 * (64 * v + a / 4) + a % 4 * 16
    ensures 4 * (256 * (256 * v + a) + b) == 64 * (64 * (64 * v + a / 4) + (a % 4 * 16 + b / 16)) + b % 16 * 4
    ensures 256 * (256 * (256 * v + a) + b) + c
         == 64 * (64 * (64 * (64 * v + a / 4) + (a % 4 * 16 + b / 16)) + (b % 16 * 4 + c / 64)) + c % 64
  {
  }

  lemma LastGroup3(x: Bytes, j: nat)
    requires |x| == 3 * j + 3
    ensures EncodeSpec(x) == EncodeSpec(x[..|x| - 3]) + Group3(x[|x| - 3], x[|x| - 2], x[|x| - 1])
  {
    hide Digits64, Chars, Value256, EncodeSpec, Letter, UrlChar;
    var n, y := |x|, x[..|x| - 3];
    var a, b, c := x[n - 3], x[n - 2], x[n - 1];
    Value256Last(x);
    Value256Last(x[..n - 1]);
    Value256Last(x[..n - 2]);
    assert x[..n - 1][..n - 2] == x[..n - 2] && x[..n - 2][..n - 3] == y;
    var v := Value256(y);
    Bits24(v, a, b, c);
    Four(v, a / 4, a % 4 * 16 + b / 16, b % 16 * 4 + c / 64, c % 64, 4 * j);
    EncodeSpecIs(x, j + 1);
    EncodeSpecIs(y, j);
  }

  lemma Four(v: nat, p: Sextet, q: Sextet, r: Sextet, t: Sextet, m: nat)
    ensures Chars(Digits64(64 * (64 * (64 * (64 * v + p) + q) + r) + t, m + 4))
         == Chars(Digits64(v, m)) + [UrlChar(p), UrlChar(q), UrlChar(r), UrlChar(t)]
    ensures Chars(Digits64(64 * (64 * (64 * v + p) + q) + r, m + 3))
         == Chars(Digits64(v, m)) + [UrlChar(p), UrlChar(q), UrlChar(r)]
    ensures Chars(Digits64(64 * (64 * v + p) + q, m + 2)) == Chars(Digits64(v, m)) + [UrlChar(p), UrlChar(q)]
  {
    hide Digits64, Chars, UrlChar;
    Append64(v, p, m);
    Append64(64 * v + p, q, m + 1);
    Append64(64 * (64 * v + p) + q, r, m + 2);
    Append64(64 * (64 * (64 * v + p) + q) + r, t, m + 3);
  }

  lemma LastGroup2(x: Bytes, j: nat)
    requires |x| == 3 * j + 2
    ensures EncodeSpec(x) == EncodeSpec(x[..|x| - 2]) + Group2(x[|x| - 2], x[|x| - 1])
  {
    hide Digits64, Chars, Value256, EncodeSpec, Letter, UrlChar;
    var n, y := |x|, x[..|x| - 2];
    var a, b := x[n - 2], x[n - 1];
    Value256Last(x);
    Value256Last(x[..n - 1]);
    assert x[..n - 1][..n - 2] == y;
    var v := Value256(y);
    Bits24(v, a, b, 0);
    Four(v, a / 4, a % 4 * 16 + b / 16, b % 16 * 4, 0, 4 * j);
    EncodeSpecIs(x, j);
    EncodeSpecIs(y, j);
  }

  lemma LastGroup1(x: Bytes, j: nat)
    requires |x| == 3 * j + 1
    ensures EncodeSpec(x) == EncodeSpec(x[..|x| - 1]) + Group1(x[|x| - 1])
  {
    hide Digits64, Chars, Value256, EncodeSpec, Letter, UrlChar;
    var n, y := |x|, x[..|x| - 1];
    var a := x[n - 1];
    Value256Last(x);
    var v := Value256(y);
    Bits24(v, a, 0, 0);
    Four(v, a / 4, a % 4 * 16, 0, 0, 4 * j);
    EncodeSpecIs(x, j);
    EncodeSpecIs(y, j);
  }

  /** The encoder writes what the standard says, for every byte string. */
  lemma {:induction false} EncodeIsRfc(x: Bytes)
    ensures EncodeSpec(x) == Encoded(x)
  {
    hide EncodeSpec, Group1, Group2, Group3;
    if |x| == 0 {
      NothingEncoded();
    } else if |x| % 3 == 0 {
      LastGroup3(x, |x| / 3 - 1);
      EncodeIsRfc(x[..|x| - 3]);
    } else if |x| % 3 == 1 {
      LastGroup1(x, |x| / 3);
      EncodeIsRfc(x[..|x| - 1]);
    } else {
      LastGroup2(x, |x| / 3);
      EncodeIsRfc(x[..|x| - 2]);
    }
  }

  lemma NothingEncoded()
    ensures EncodeSpec([]) == []
  {
  }

  // ---------- Decoding ----------

  /** The three bytes that four values of six bits each make up. */
  function First(p: int, q: int): (b: Byte)
    requires 0 <= p < 64 && 0 <= q < 64
  {
    p * 4 + q / 16
  }

  function Second(q: int, r: int): (b: Byte)
    requires 0 <= q < 64 && 0 <= r < 64
  {
    q % 16 * 16 + r / 4
  }

  function Third(r: int, t: int): (b: Byte)
    requires 0 <= r < 64 && 0 <= t < 64
  {
    r % 4 * 64 + t
  }

  lemma SameBits(v: nat, p: Sextet, q: Sextet, r: Sextet, t: Sextet)
    ensures 64 * (64 * v + p) + q == (256 * v + First(p, q)) * 16 + q % 16
    ensures 64 * (64 * (64 * v + p) + q) + r == (256 * (256 * v + First(p, q)) + Second(q, r)) * 4 + r % 4
    ensures 64 * (64 * (64 * (64 * v + p) + q) + r) + t
         == 256 * (256 * (256 * v + First(p, q)) + Second(q, r)) + Third(r, t)
  {
  }

  /** Four values make three bytes; of a shorter last group, the bits that do not fill a byte are dropped. */
  function Decoded(d: seq<Sextet>): Bytes {
    var m := |d|;
    if m == 0 then []
    else if m % 4 == 0 then
      var p, q, r, t := d[m - 4], d[m - 3], d[m - 2], d[m - 1];
      Decoded(d[..m - 4]) + [First(p, q), Second(q, r), Third(r, t)]
    else if m % 4 == 3 then
      var p, q, r := d[m - 3], d[m - 2], d[m - 1];
      Decoded(d[..m - 3]) + [First(p, q), Second(q, r)]
    else if m % 4 == 2 then
      var p, q := d[m - 2], d[m - 1];
      Decoded(d[..m - 2]) + [First(p, q)]
    else Decoded(d[..m - 1])
  }

  /** The bytes of the decoder's number. */
  function Numbered(d: seq<Sextet>): Bytes {
    Digits256(Value64(d) / SpareFactor(|d|), DecodedLength(|d|))
  }

  lemma Append256(q: nat, r: Byte, n: nat)
    ensures Digits256(256 * q + r, n + 1) == Digits256(q, n) + [r]
  {
    assert (256 * q + r) / 256 == q && (256 * q + r) % 256 == r;
  }

  lemma Value64Last(d: seq<Sextet>)
    requires d != []
    ensures Value64(d) == 64 * Value64(d[..|d| - 1]) + d[|d| - 1]
  {
  }

  lemma Lengths4(j: nat)
    ensures DecodedLength(4 * j) == 3 * j && DecodedLength(4 * j + 1) == 3 * j
    ensures DecodedLength(4 * j + 2) == 3 * j + 1 && DecodedLength(4 * j + 3) == 3 * j + 2
    ensures SpareFactor(4 * j) == 1 && SpareFactor(4 * j + 1) == 64
    ensures SpareFactor(4 * j + 2) == 16 && SpareFactor(4 * j + 3) == 4
  {
    hide DecodedLength;
    InFours(j, 0);
    InFours(j, 1);
    InFours(j, 2);
    InFours(j, 3);
    WholeBytes(4 * j, 3 * j, 0);
    WholeBytes(4 * j + 1, 3 * j, 6);
    WholeBytes(4 * j + 2, 3 * j + 1, 4);
    WholeBytes(4 * j + 3, 3 * j + 2, 2);
  }

  lemma InFours(j: nat, r: nat)
    requires r < 4
    ensures (4 * j + r) % 4 == r
  {
  }

  lemma WholeBytes(m: nat, n: nat, bits: nat)
    requires 6 * m == 8 * n + bits && bits < 8
    ensures DecodedLength(m) == n
  {
  }

  lemma DropSpare(v: nat, spare: nat)
    ensures spare < 64 ==> (v * 64 + spare) / 64 == v
    ensures spare < 16 ==> (v * 16 + spare) / 16 == v
    ensures spare < 4 ==> (v * 4 + spare) / 4 == v
  {
  }

  lemma NumberedIs(d: seq<Sextet>, v: nat, spare: nat, j: nat)
    ensures |d| == 4 * j && Value64(d) == v ==> Numbered(d) == Digits256(v, 3 * j)
    ensures |d| == 4 * j + 1 && Value64(d) == v * 64 + spare && spare < 64 ==> Numbered(d) == Digits256(v, 3 * j)
    ensures |d| == 4 * j + 2 && Value64(d) == v * 16 + spare && spare < 16 ==> Numbered(d) == Digits256(v, 3 * j + 1)
    ensures |d| == 4 * j + 3 && Value64(d) == v * 4 + spare && spare < 4 ==> Numbered(d) == Digits256(v, 3 * j + 2)
  {
    hide DecodedLength, SpareFactor, Digits256, Value64;
    Lengths4(j);
    DropSpare(v, spare);
  }

  lemma Three(v: nat, p: Byte, q: Byte, r: Byte, m: nat)
    ensures Digits256(256 * (256 * (256 * v + p) + q) + r, m + 3) == Digits256(v, m) + [p, q, r]
    ensures Digits256(256 * (256 * v + p) + q, m + 2) == Digits256(v, m) + [p, q]
    ensures Digits256(256 * v + p, m + 1) == Digits256(v, m) + [p]
  {
    hide Digits256;
    Append256(v, p, m);
    Append256(256 * v + p, q, m + 1);
    Append256(256 * (256 * v + p) + q, r, m + 2);
  }

  lemma LastFour(d: seq<Sextet>, j: nat)
    requires |d| == 4 * j + 4
    ensures var m := |d|;
            var p, q, r, t := d[m - 4], d[m - 3], d[m - 2], d[m - 1];
            Numbered(d) == Numbered(d[..m - 4]) + [First(p, q), Second(q, r), Third(r, t)]
  {
    hide Digits256, Value64, Numbered, First, Second, Third;
    var m, e := |d|, d[..|d| - 4];
    var p, q, r, t := d[m - 4], d[m - 3], d[m - 2], d[m - 1];
    Value64Last(d);
    Value64Last(d[..m - 1]);
    Value64Last(d[..m - 2]);
    Value64Last(d[..m - 3]);
    assert d[..m - 1][..m - 2] == d[..m - 2] && d[..m - 2][..m - 3] == d[..m - 3] && d[..m - 3][..m - 4] == e;
    var v := Value64(e);
    SameBits(v, p, q, r, t);
    Three(v, First(p, q), Second(q, r), Third(r, t), 3 * j);
    NumberedIs(d, Value64(d), 0, j + 1);
    NumberedIs(e, v, 0, j);
  }

  lemma LastThree(d: seq<Sextet>, j: nat)
    requires |d| == 4 * j + 3
    ensures var m := |d|;
            var p, q, r := d[m - 3], d[m - 2], d[m - 1];
            Numbered(d) == Numbered(d[..m - 3]) + [First(p, q), Second(q, r)]
  {
    hide Digits256, Value64, Numbered, First, Second, Third;
    var m, e := |d|, d[..|d| - 3];
    var p, q, r := d[m - 3], d[m - 2], d[m - 1];
    Value64Last(d);
    Value64Last(d[..m - 1]);
    Value64Last(d[..m - 2]);
    assert d[..m - 1][..m - 2] == d[..m - 2] && d[..m - 2][..m - 3] == e;
    var v := Value64(e);
    SameBits(v, p, q, r, 0);
    Three(v, First(p, q), Second(q, r), 0, 3 * j);
    NumberedIs(d, 256 * (256 * v + First(p, q)) + Second(q, r), r % 4, j);
    NumberedIs(e, v, 0, j);
  }

  lemma LastTwo(d: seq<Sextet>, j: nat)
    requires |d| == 4 * j + 2
    ensures Numbered(d) == Numbered(d[..|d| - 2]) + [First(d[|d| - 2], d[|d| - 1])]
  {
    hide Digits256, Value64, Numbered, First, Second, Third;
    var m, e := |d|, d[..|d| - 2];
    var p, q := d[m - 2], d[m - 1];
    Value64Last(d);
    Value64Last(d[..m - 1]);
    assert d[..m - 1][..m - 2] == e;
    var v := Value64(e);
    SameBits(v, p, q, 0, 0);
    Three(v, First(p, q), 0, 0, 3 * j);
    NumberedIs(d, 256 * v + First(p, q), q % 16, j);
    NumberedIs(e, v, 0, j);
  }

  lemma LastOne(d: seq<Sextet>, j: nat)
    requires |d| == 4 * j + 1
    ensures Numbered(d) == Numbered(d[..|d| - 1])
  {
    hide Digits256, Value64, Numbered;
    var e := d[..|d| - 1];
    Value64Last(d);
    NumberedIs(d, Value64(e), d[|d| - 1], j);
    NumberedIs(e, Value64(e), 0, j);
  }

  lemma {:induction false} NumberedIsDecoded(d: seq<Sextet>)
    ensures Numbered(d) == Decoded(d)
  {
    hide Numbered;
    var m := |d|;
    if m == 0 {
      NothingNumbered();
    } else if m % 4 == 0 {
      LastFour(d, m / 4 - 1);
      NumberedIsDecoded(d[..m - 4]);
    } else if m % 4 == 3 {
      LastThree(d, m / 4);
      NumberedIsDecoded(d[..m - 3]);
    } else if m % 4 == 2 {
      LastTwo(d, m / 4);
      NumberedIsDecoded(d[..m - 2]);
    } else {
      LastOne(d, m / 4);
      NumberedIsDecoded(d[..m - 1]);
    }
  }

  lemma NothingNumbered()
    ensures Numbered([]) == []
  {
  }

  /** d are the values of the longest prefix of s that has values. */
  ghost predicate ValuesOf(s: Bytes, d: seq<Sextet>) {
    && |d| <= |s|
    && (forall i :: 0 <= i < |d| ==> Digit(s[i]) == d[i])
    && (|d| < |s| ==> Digit(s[|d|]) == -1)
  }

  /** The decoder reads the characters up to the first one without a value as the standard says. */
  lemma DecodeIsRfc(s: Bytes, d: seq<Sextet>)
    requires ValuesOf(s, d)
    ensures DecodeSpec(s) == Decoded(d)
  {
    var m := ValidLength(s);
    assert forall i :: 0 <= i < |d| ==> Digit(s[i]) >= 0;
    assert m == |d|;
    assert Sextets(s[..m]) == d;
    NumberedIsDecoded(d);
  }
}
