/** The base64url codec of JwtToken (section 5 of RFC 4648, padding omitted as in section 3.2).

    A byte string of n bytes is read as one 8n-bit number, and a string of m alphabet characters as one
    6m-bit number; together with its length the number determines the string. Encoding and decoding are
    specified on these numbers, while the methods keep the program's signed 32-bit accumulator. */
module Base64Url {

  type Byte = x: int | 0 <= x < 256
  type Sextet = x: int | 0 <= x < 64
  type Bytes = seq<Byte>

  // ---------- Numbers and their digits ----------

  /** The 8n-bit number written by n bytes, most significant byte first. */
  function Value256(s: Bytes): nat {
    if s == [] then 0 else 256 * Value256(s[..|s| - 1]) + s[|s| - 1]
  }

  /** The 6m-bit number written by m sextets, most significant sextet first. */
  function Value64(s: seq<Sextet>): nat {
    if s == [] then 0 else 64 * Value64(s[..|s| - 1]) + s[|s| - 1]
  }

  function Digits256(v: nat, n: nat): (s: Bytes)
    ensures |s| == n
  {
    if n == 0 then [] else Digits256(v / 256, n - 1) + [v % 256]
  }

  function Digits64(v: nat, n: nat): (s: seq<Sextet>)
    ensures |s| == n
  {
    if n == 0 then [] else Digits64(v / 64, n - 1) + [v % 64]
  }

  lemma {:induction false} Digits256OfValue(s: Bytes)
    ensures Digits256(Value256(s), |s|) == s
  {
    if s != [] {
      Digits256OfValue(s[..|s| - 1]);
    }
  }

  lemma {:induction false} Digits64OfValue(s: seq<Sextet>)
    ensures Digits64(Value64(s), |s|) == s
  {
    if s != [] {
      Digits64OfValue(s[..|s| - 1]);
    }
  }

  /** Two sextet strings of one length that write the same number are equal. */
  lemma Value64Injective(s: seq<Sextet>, t: seq<Sextet>)
    requires |s| == |t| && Value64(s) == Value64(t)
    ensures s == t
  {
    Digits64OfValue(s);
    Digits64OfValue(t);
  }

  // ---------- Alphabets ----------

  const PAD: Byte := 61
  const DOT: Byte := 46

  /** The standard alphabet table of the encoder. */
  function StdChar(i: Sextet): Byte {
    if i < 26 then 65 + i          // 'A'..'Z'
    else if i < 52 then 97 + i - 26  // 'a'..'z'
    else if i < 62 then 48 + i - 52  // '0'..'9'
    else if i == 62 then 43          // '+'
    else 47                          // '/'
  }

  /** The URL-safe alphabet: '-' and '_' instead of '+' and '/'. */
  function UrlChar(i: Sextet): Byte {
    if i == 62 then 45 else if i == 63 then 95 else StdChar(i)
  }

  /** The decoder's table over the standard alphabet, -1 for every other byte. */
  function StdDigit(c: Byte): (d: int)
    ensures -1 <= d < 64
  {
    if 65 <= c <= 90 then c - 65
    else if 97 <= c <= 122 then c - 97 + 26
    else if 48 <= c <= 57 then c - 48 + 52
    else if c == 43 then 62
    else if c == 47 then 63
    else -1
  }

  /** What one input byte means to the decoder once '-' and '_' are mapped to '+' and '/'. */
  function Digit(c: Byte): (d: int)
    ensures -1 <= d < 64
  {
    if c == 45 then 62 else if c == 95 then 63 else StdDigit(c)
  }

  predicate IsUrlSafe(c: Byte) {
    65 <= c <= 90 || 97 <= c <= 122 || 48 <= c <= 57 || c == 45 || c == 95
  }

  /** On the URL-safe alphabet, and only there, the two tables are inverse to each other. */
  lemma AlphabetInverse(i: Sextet, c: Byte)
    ensures IsUrlSafe(UrlChar(i)) && Digit(UrlChar(i)) == i
    ensures Digit(c) >= 0 ==> (UrlChar(Digit(c)) == c <==> IsUrlSafe(c))
    ensures IsUrlSafe(c) ==> Digit(c) >= 0
  {
  }

  function Chars(s: seq<Sextet>): (r: Bytes)
    ensures |r| == |s|
    ensures forall i :: 0 <= i < |s| ==> r[i] == UrlChar(s[i])
  {
    seq(|s|, i requires 0 <= i < |s| => UrlChar(s[i]))
  }

  /** The length of the longest prefix the decoder understands. */
  function ValidLength(s: Bytes): (m: nat)
    ensures m <= |s|
    ensures forall i :: 0 <= i < m ==> Digit(s[i]) >= 0
    ensures m < |s| ==> Digit(s[m]) == -1
  {
    if s == [] || Digit(s[0]) == -1 then 0 else 1 + ValidLength(s[1..])
  }

  function Sextets(s: Bytes): (r: seq<Sextet>)
    requires forall i :: 0 <= i < |s| ==> Digit(s[i]) >= 0
    ensures |r| == |s|
    ensures forall i :: 0 <= i < |s| ==> r[i] == Digit(s[i])
  {
    seq(|s|, i requires 0 <= i < |s| => Digit(s[i]))
  }

  // ---------- Specification of the codec ----------

  function EncodedLength(n: nat): nat {
    (4 * n + 2) / 3
  }

  function DecodedLength(m: nat): nat {
    6 * m / 8
  }

  /** How many bits of n bytes are left over for the last sextet: 0, 2 or 4. */
  function PartialBits(n: nat): (k: nat)
    ensures k == 0 || k == 2 || k == 4
    ensures (8 * n - k) % 6 == 0
  {
    2 * (n % 3)
  }

  /** The number with the k bits of its last, partial sextet filled up to six with zero bits. */
  function Filled(total: nat, k: nat): nat {
    if k == 2 then total * 16 else if k == 4 then total * 4 else total
  }

  /** 2 to the number of bits of m sextets that do not make up a whole byte. */
  function SpareFactor(m: nat): (f: nat)
    ensures f > 0
  {
    if m % 4 == 0 then 1 else if m % 4 == 1 then 64 else if m % 4 == 2 then 16 else 4
  }

  function EncodeSpec(x: Bytes): Bytes {
    Chars(Digits64(Filled(Value256(x), PartialBits(|x|)), EncodedLength(|x|)))
  }

  function DecodeSpec(s: Bytes): Bytes {
    var m := ValidLength(s);
    Digits256(Value64(Sextets(s[..m])) / SpareFactor(m), DecodedLength(m))
  }

  // ---------- The 32-bit accumulator ----------

  const TWO32: int := 0x1_0000_0000
  const TWO31: int := 0x8000_0000

  /** The signed 32-bit integer congruent to x modulo 2^32. */
  function Wrap32(x: int): (r: int)
    ensures -TWO31 <= r < TWO31
  {
    (x + TWO31) % TWO32 - TWO31
  }

  /** 2^k. */
  function Pow2(k: nat): (p: nat)
    ensures p > 0
  {
    if k == 0 then 1 else 2 * Pow2(k - 1)
  }

  lemma Pow2Values(k: nat)
    ensures Pow2(0) == 1 && Pow2(2) == 4 && Pow2(4) == 16 && Pow2(6) == 64
    ensures Pow2(k + 2) == 4 * Pow2(k)
    ensures Pow2(k + 6) == 64 * Pow2(k)
    ensures Pow2(k + 8) == 256 * Pow2(k)
  {
    assert Pow2(k + 2) == 4 * Pow2(k);
    assert Pow2(k + 4) == 4 * Pow2(k + 2);
    assert Pow2(k + 6) == 4 * Pow2(k + 4);
    assert Pow2(k + 8) == 4 * Pow2(k + 6);
    assert Pow2(4) == 4 * Pow2(2);
    assert Pow2(6) == 4 * Pow2(4);
  }

  /** (val << log b) + c on 32 bits. */
  function ShiftAdd(val: int, c: int, b: int): int {
    Wrap32(val * b) + c
  }

  /** The digit in base b above the low `bits` bits: (val >> bits) & (b - 1). */
  function Top(val: int, bits: nat, b: int): (d: int)
    requires b > 0
    ensures 0 <= d < b
  {
    val / Pow2(bits) % b
  }

  lemma MulMonotone(a: int, b: int, m: nat)
    requires a <= b
    ensures a * m <= b * m
  {
  }

  lemma MulDistributes(a: int, b: int, c: int)
    ensures (a + b) * c == a * c + b * c
  {
  }

  lemma MulAssociates(a: int, b: int, c: int)
    ensures (a * b) * c == a * (b * c)
  {
  }

  lemma UniqueQuotient(m: int, q1: int, r1: int, q2: int, r2: int)
    requires 0 <= r1 < m && 0 <= r2 < m
    requires q1 * m + r1 == q2 * m + r2
    ensures q1 == q2
  {
    if q1 > q2 {
      MulMonotone(q2 + 1, q1, m);
    } else if q1 < q2 {
      MulMonotone(q1 + 1, q2, m);
    }
  }

  lemma QuotientRemainder(x: int, m: int, q: int, r: int)
    requires 0 <= r < m
    requires x == q * m + r
    ensures x / m == q && x % m == r
  {
    UniqueQuotient(m, x / m, x % m, q, r);
  }

  lemma ModMultiple(u: int, t: int, p: int)
    requires p > 0
    ensures (u - t * p) % p == u % p
  {
    MulDistributes(u / p, -t, p);
    QuotientRemainder(u - t * p, p, u / p - t, u % p);
  }

  /** The low bits of (u << log b) + c. */
  lemma ModAfterShift(u: int, c: int, b: int, p: int)
    requires 0 <= c < b && p > 0
    ensures 0 < b * p && (b * u + c) % (b * p) == b * (u % p) + c
  {
    var q, r := u / p, u % p;
    MulDistributes(q * p, r, b);
    MulAssociates(q, p, b);
    MulMonotone(r + 1, p, b);
    MulDistributes(r, 1, b);
    QuotientRemainder(b * u + c, b * p, q, b * r + c);
  }

  /** The low bits of v are one digit in base b followed by the bits below it. */
  lemma ModSplit(v: int, b: int, p: int)
    requires b > 0 && p > 0
    ensures 0 < b * p && v % (b * p) == (v / p) % b * p + v % p
  {
    var q, r := v / p, v % p;
    var q2, d := q / b, q % b;
    MulDistributes(q2 * b, d, p);
    MulAssociates(q2, b, p);
    MulMonotone(d + 1, b, p);
    MulDistributes(d, 1, p);
    QuotientRemainder(v, b * p, q2, d * p + r);
  }

  lemma WrapShift(val: int, b: int) returns (q: int)
    requires b == 256 || b == 64
    ensures Wrap32(val * b) == b * (val - q * (TWO32 / b))
    ensures Wrap32(val * b) <= TWO31 - b
  {
    q := (val * b + TWO31) / TWO32;
    assert Wrap32(val * b) == val * b - q * TWO32;
  }

  /** Shifting in by 2^8 or 2^6: only bits that are no longer read are lost, and the addition cannot overflow. */
  lemma {:induction false} ShiftIn(val: int, c: int, b: int, p: int, t: int)
    requires b == 256 || b == 64
    requires 0 <= c < b && p > 0 && t * p == TWO32 / b
    ensures -TWO31 <= ShiftAdd(val, c, b) < TWO31
    ensures 0 < b * p && ShiftAdd(val, c, b) % (b * p) == b * (val % p) + c
  {
    var q := WrapShift(val, b);
    MulAssociates(q, t, p);
    ModMultiple(val, q * t, p);
    ModAfterShift(val - (q * t) * p, c, b, p);
  }

  // ---------- The methods ----------

  function ReplaceByte(s: Bytes, a: Byte, b: Byte): (r: Bytes)
    ensures |r| == |s|
    ensures forall i :: 0 <= i < |s| ==> r[i] == if s[i] == a then b else s[i]
  {
    seq(|s|, i requires 0 <= i < |s| => if s[i] == a then b else s[i])
  }

  method StripPadding(s: Bytes) returns (r: Bytes)
    ensures r <= s
    ensures forall i :: |r| <= i < |s| ==> s[i] == PAD
    ensures r == [] || r[|r| - 1] != PAD
    ensures PAD !in s ==> r == s
  {
    r := s;
    while r != [] && r[|r| - 1] == PAD
      invariant r <= s
      invariant forall i :: |r| <= i < |s| ==> s[i] == PAD
    {
      r := r[..|r| - 1];
    }
    assert |r| < |s| ==> s[|r|] == PAD;
  }

  method AddPadding(s: Bytes) returns (r: Bytes)
    ensures s <= r && |r| % 4 == 0 && |r| < |s| + 4
    ensures forall i :: |s| <= i < |r| ==> r[i] == PAD
  {
    r := s;
    while |r| % 4 != 0
      invariant s <= r && |r| <= (|s| + 3) / 4 * 4
      invariant forall i :: |s| <= i < |r| ==> r[i] == PAD
      decreases (|s| + 3) / 4 * 4 - |r|
    {
      r := r + [PAD];
    }
  }

  function StdChars(s: seq<Sextet>): (r: Bytes)
    ensures |r| == |s|
    ensures forall i :: 0 <= i < |s| ==> r[i] == StdChar(s[i])
  {
    seq(|s|, i requires 0 <= i < |s| => StdChar(s[i]))
  }

  lemma UrlFromStd(s: seq<Sextet>)
    ensures ReplaceByte(ReplaceByte(StdChars(s), 43, 45), 47, 95) == Chars(s)
  {
  }

  /** The digits already written and the k unread low bits of the accumulator together make up the number `total`. */
  predicate Balance(known: nat, val: int, k: nat, total: nat) {
    known * Pow2(k) + val % Pow2(k) == total
  }

  /** One more input digit of n bits keeps the balance. */
  lemma AppendDigit(known: nat, val: int, c: int, b: int, k: nat, total: nat)
    requires b == 256 || b == 64
    requires 0 <= c < b
    requires k == 0 || k == 2 || k == 4 || (k == 6 && b == 64)
    requires Balance(known, val, k, total)
    ensures -TWO31 <= ShiftAdd(val, c, b) < TWO31
    ensures Balance(known, ShiftAdd(val, c, b), if b == 256 then k + 8 else k + 6, b * total + c)
  {
    Pow2Values(k);
    var p := Pow2(k);
    var t := Cofactor(b, k);
    ShiftIn(val, c, b, p, t);
    MulAssociates(known, b, p);
    MulAssociates(b, known, p);
  }

  lemma Cofactor(b: int, k: nat) returns (t: int)
    requires b == 256 || b == 64
    requires k == 0 || k == 2 || k == 4 || (k == 6 && b == 64)
    ensures t * Pow2(k) == TWO32 / b
  {
    Pow2Values(0);
    t := if k == 0 then TWO32 / b
         else if k == 2 then TWO32 / b / 4
         else if k == 4 then TWO32 / b / 16
         else TWO32 / b / 64;
  }

  /** Moving the top digit from the accumulator to the output keeps the balance. */
  lemma EmitDigit(known: nat, val: int, b: int, k: nat, total: nat)
    requires b == 256 || b == 64
    requires Balance(known, val, if b == 256 then k + 8 else k + 6, total)
    ensures Balance(b * known + Top(val, k, b), val, k, total)
  {
    Pow2Values(k);
    var p := Pow2(k);
    ModSplit(val, b, p);
    MulAssociates(known, b, p);
    MulDistributes(b * known, (val / p) % b, p);
  }

  /** The last, partial sextet is filled up with zero bits. */
  lemma FlushSextet(known: nat, val: int, k: nat, total: nat)
    requires k == 2 || k == 4
    requires Balance(known, val, k, total)
    ensures 64 * known + Top(ShiftAdd(val, 0, 256), k + 2, 64) == Filled(total, k)
  {
    Pow2Values(k);
    var p := Pow2(k);
    var w := ShiftAdd(val, 0, 256);
    var t := Cofactor(256, k);
    ShiftIn(val, 0, 256, p, t);
    ModSplit(w, 64, 4 * p);
    var d, r := (w / (4 * p)) % 64, w % (4 * p);
    assert 256 * (val % p) == d * (4 * p) + r;
    if p == 4 {
      assert d == 16 * (val % 4);
    } else {
      assert d == 4 * (val % 16);
    }
  }

  lemma AppendValue256(s: Bytes, i: nat)
    requires i < |s|
    ensures Value256(s[..i + 1]) == 256 * Value256(s[..i]) + s[i]
  {
    assert s[..i + 1][..i] == s[..i];
  }

  lemma AppendValue64(s: seq<Sextet>, d: Sextet)
    ensures Value64(s + [d]) == 64 * Value64(s) + d
  {
    assert (s + [d])[..|s|] == s;
  }

  lemma PushStd(s: seq<Sextet>, d: Sextet)
    ensures StdChars(s + [d]) == StdChars(s) + [StdChar(d)]
  {
  }

  /** JwtToken::base64UrlEncode. Each pass of the inner loop emits the sextet above the low `bits` bits. */
  method Encode(input: Bytes) returns (output: Bytes)
    ensures output == EncodeSpec(input)
  {
    hide Balance, Pow2, Value64, Value256, Top, ShiftAdd, Filled, StdChars, EncodeSpec;
    output := [];
    var val := 0;
    var bits := -6;
    ghost var sextets: seq<Sextet> := [];
    EncodeStart(input);
    for i := 0 to |input|
      invariant bits == -6 || bits == -4 || bits == -2
      invariant 6 * |sextets| + bits + 6 == 8 * i
      invariant Balance(Value64(sextets), val, bits + 6, Value256(input[..i]))
      invariant output == StdChars(sextets)
    {
      var c := input[i];
      AppendDigit(Value64(sextets), val, c, 256, bits + 6, Value256(input[..i]));
      AppendValue256(input, i);
      val := ShiftAdd(val, c, 256);
      bits := bits + 8;
      while bits >= 0
        invariant bits == -6 || bits == -4 || bits == -2 || bits == 0 || bits == 2 || bits == 4 || bits == 6
        invariant 6 * |sextets| + bits + 6 == 8 * (i + 1)
        invariant Balance(Value64(sextets), val, bits + 6, Value256(input[..i + 1]))
        invariant output == StdChars(sextets)
      {
        EmitDigit(Value64(sextets), val, 64, bits, Value256(input[..i + 1]));
        var d: Sextet := Top(val, bits, 64);
        AppendValue64(sextets, d);
        PushStd(sextets, d);
        output := output + [StdChar(d)];
        sextets := sextets + [d];
        bits := bits - 6;
      }
    }
    assert input[..|input|] == input;
    if bits > -6 {
      FlushSextet(Value64(sextets), val, bits + 6, Value256(input));
      var d: Sextet := Top(ShiftAdd(val, 0, 256), bits + 8, 64);
      AppendValue64(sextets, d);
      PushStd(sextets, d);
      output := output + [StdChar(d)];
      sextets := sextets + [d];
    } else {
      BalanceEnd(Value64(sextets), val, Value256(input));
    }
    EncodedDigits(input, sextets, bits + 6);
    output := UrlText(output, sextets);
  }

  lemma EncodeStart(input: Bytes)
    ensures Balance(Value64([]), 0, 0, Value256(input[..0]))
    ensures StdChars([]) == []
  {
  }

  lemma BalanceEnd(known: nat, val: int, total: nat)
    requires Balance(known, val, 0, total)
    ensures known == Filled(total, 0)
  {
  }

  lemma EncodedDigits(x: Bytes, s: seq<Sextet>, k: nat)
    requires (k == 0 && 6 * |s| == 8 * |x|) || ((k == 2 || k == 4) && 6 * |s| == 8 * |x| + 6 - k)
    requires Value64(s) == Filled(Value256(x), k)
    ensures Chars(s) == EncodeSpec(x)
  {
    EncodedBits(|x|, |s|, k);
    Digits64OfValue(s);
  }

  lemma EncodedBits(n: nat, m: nat, k: nat)
    requires (k == 0 && 6 * m == 8 * n) || ((k == 2 || k == 4) && 6 * m == 8 * n + 6 - k)
    ensures m == EncodedLength(n) && k == PartialBits(n)
  {
  }

  /** The tail of the encoder: drop padding characters (there are none) and switch to the URL-safe alphabet. */
  method UrlText(std: Bytes, ghost s: seq<Sextet>) returns (output: Bytes)
    requires std == StdChars(s)
    ensures output == Chars(s)
  {
    output := StripPadding(std);
    NoPadding(s);
    UrlFromStd(s);
    output := ReplaceByte(output, 43, 45);
    output := ReplaceByte(output, 47, 95);
  }

  lemma NoPadding(s: seq<Sextet>)
    ensures PAD !in StdChars(s)
  {
    assert forall i :: 0 <= i < |s| ==> StdChars(s)[i] == StdChar(s[i]);
  }

  /** JwtToken::base64UrlDecode. The loop stops at the first byte outside the alphabet, padding included. */
  method Decode(input: Bytes) returns (output: Bytes)
    ensures output == DecodeSpec(input)
  {
    hide Balance, Pow2, Value256, Value64, Top, ShiftAdd, DecodeSpec, Digit, StdDigit, ValidLength;
    var b64 := StandardText(input);
    ghost var m := ValidLength(input);

    output := [];
    var val := 0;
    var bits := -8;
    var i := 0;
    DecodeStart(input);
    while i < |b64|
      invariant 0 <= i <= m
      invariant bits == -8 || bits == -6 || bits == -4 || bits == -2
      invariant 8 * |output| + bits + 8 == 6 * i
      invariant Balance(Value256(output), val, bits + 8, Value64(Sextets(input[..i])))
    {
      var d := StdDigit(b64[i]);
      if d == -1 {
        break;
      }
      AppendDigit(Value256(output), val, d, 64, bits + 8, Value64(Sextets(input[..i])));
      AppendSextet(input, i);
      val := ShiftAdd(val, d, 64);
      bits := bits + 6;
      i := i + 1;
      if bits >= 0 {
        EmitDigit(Value256(output), val, 256, bits, Value64(Sextets(input[..i])));
        var b: Byte := Top(val, bits, 256);
        AppendValue256(output + [b], |output|);
        assert (output + [b])[..|output|] == output;
        assert (output + [b])[..|output| + 1] == output + [b];
        output := output + [b];
        bits := bits - 8;
      }
    }
    DecodedDigits(input, output, val);
  }

  lemma DecodeStart(input: Bytes)
    ensures Balance(Value256([]), 0, 0, Value64(Sextets(input[..0])))
  {
  }

  lemma AppendSextet(s: Bytes, i: nat)
    requires i < ValidLength(s)
    ensures Value64(Sextets(s[..i + 1])) == 64 * Value64(Sextets(s[..i])) + Digit(s[i])
  {
    var t := Sextets(s[..i + 1]);
    assert t[..i] == Sextets(s[..i]);
  }

  lemma DecodedDigits(input: Bytes, output: Bytes, val: int)
    requires 0 <= 6 * ValidLength(input) - 8 * |output| < 8
    requires Balance(Value256(output), val, 6 * ValidLength(input) - 8 * |output|,
        Value64(Sextets(input[..ValidLength(input)])))
    ensures output == DecodeSpec(input)
  {
    var m := ValidLength(input);
    SparePower(m, |output|);
    QuotientRemainder(Value64(Sextets(input[..m])), SpareFactor(m), Value256(output), val % SpareFactor(m));
    Digits256OfValue(output);
  }

  lemma SparePower(m: nat, n: nat)
    requires 0 <= 6 * m - 8 * n < 8
    ensures Pow2(6 * m - 8 * n) == SpareFactor(m)
    ensures n == DecodedLength(m)
  {
    Pow2Values(0);
  }

  /** The head of the decoder: switch to the standard alphabet and pad to a multiple of four characters. */
  method StandardText(s: Bytes) returns (b64: Bytes)
    ensures |s| <= |b64|
    ensures forall i :: 0 <= i < ValidLength(s) ==> StdDigit(b64[i]) == Digit(s[i])
    ensures ValidLength(s) < |b64| ==> StdDigit(b64[ValidLength(s)]) == -1
  {
    b64 := ReplaceByte(s, 45, 43);
    b64 := ReplaceByte(b64, 95, 47);
    ghost var t := b64;
    b64 := AddPadding(b64);
    assert forall i :: 0 <= i < |s| ==> b64[i] == t[i];
  }

  // ---------- Laws of the codec ----------

  lemma {:induction false} Value256Bound(s: Bytes)
    ensures Value256(s) < Pow2(8 * |s|)
  {
    if s != [] {
      Value256Bound(s[..|s| - 1]);
      Pow2Values(8 * (|s| - 1));
    }
  }

  lemma {:induction false} Value64Bound(s: seq<Sextet>)
    ensures Value64(s) < Pow2(6 * |s|)
  {
    if s != [] {
      Value64Bound(s[..|s| - 1]);
      Pow2Values(6 * (|s| - 1));
    }
  }

  lemma {:induction false} ValueOfDigits256(v: nat, n: nat)
    requires v < Pow2(8 * n)
    ensures Value256(Digits256(v, n)) == v
  {
    if n > 0 {
      Pow2Values(8 * (n - 1));
      ValueOfDigits256(v / 256, n - 1);
      assert Digits256(v, n)[..n - 1] == Digits256(v / 256, n - 1);
    }
  }

  lemma {:induction false} ValueOfDigits64(v: nat, n: nat)
    requires v < Pow2(6 * n)
    ensures Value64(Digits64(v, n)) == v
  {
    if n > 0 {
      Pow2Values(6 * (n - 1));
      ValueOfDigits64(v / 64, n - 1);
      assert Digits64(v, n)[..n - 1] == Digits64(v / 64, n - 1);
    }
  }

  /** What the decoder reads back from the characters of a sextet string. */
  lemma SextetsOfChars(s: seq<Sextet>)
    ensures ValidLength(Chars(s)) == |s|
    ensures Sextets(Chars(s)) == s
    ensures forall i :: 0 <= i < |s| ==> IsUrlSafe(Chars(s)[i])
  {
    forall i | 0 <= i < |s|
      ensures Digit(Chars(s)[i]) == s[i] && IsUrlSafe(Chars(s)[i])
    {
      AlphabetInverse(s[i], PAD);
    }
  }

  lemma CharsOfSextets(s: Bytes)
    requires forall i :: 0 <= i < |s| ==> IsUrlSafe(s[i])
    ensures ValidLength(s) == |s|
    ensures Chars(Sextets(s)) == s
  {
    forall i | 0 <= i < |s|
      ensures Digit(s[i]) >= 0 && UrlChar(Digit(s[i])) == s[i]
    {
      AlphabetInverse(0, s[i]);
    }
  }

  /** The length arithmetic of section 3.2 of RFC 4648, from bytes to characters and back. */
  lemma EncodedLengths(n: nat)
    ensures DecodedLength(EncodedLength(n)) == n
    ensures EncodedLength(n) % 4 == (if n % 3 == 0 then 0 else n % 3 + 1)
    ensures 6 * EncodedLength(n) == 8 * n + (if n % 3 == 0 then 0 else if n % 3 == 1 then 4 else 2)
  {
    var q := n / 3;
    if n % 3 == 0 {
      assert EncodedLength(n) == 4 * q;
    } else if n % 3 == 1 {
      assert EncodedLength(n) == 4 * q + 2;
    } else {
      assert EncodedLength(n) == 4 * q + 3;
    }
  }

  /** ... and from characters to bytes. */
  lemma DecodedLengths(m: nat)
    ensures 6 * m == 8 * DecodedLength(m)
                     + (if m % 4 == 0 then 0 else if m % 4 == 1 then 6 else if m % 4 == 2 then 4 else 2)
    ensures m % 4 != 1 ==> EncodedLength(DecodedLength(m)) == m
  {
    var q := m / 4;
    if m % 4 == 0 {
      assert DecodedLength(m) == 3 * q;
    } else if m % 4 == 1 {
      assert DecodedLength(m) == 3 * q;
    } else if m % 4 == 2 {
      assert DecodedLength(m) == 3 * q + 1;
    } else {
      assert DecodedLength(m) == 3 * q + 2;
    }
  }

  lemma FilledBound(v: nat, n: nat)
    requires v < Pow2(8 * n)
    ensures Filled(v, PartialBits(n)) < Pow2(6 * EncodedLength(n))
    ensures Filled(v, PartialBits(n)) == v * SpareFactor(EncodedLength(n))
  {
    EncodedLengths(n);
    FourTimes(8 * n);
    FourTimes(8 * n + 2);
  }

  lemma FourTimes(k: nat)
    ensures Pow2(k + 2) == 4 * Pow2(k)
  {
    assert Pow2(k + 1) == 2 * Pow2(k);
  }

  lemma SpareBound(v: nat, m: nat)
    requires v < Pow2(6 * m)
    ensures v / SpareFactor(m) < Pow2(8 * DecodedLength(m))
  {
    DecodedLengths(m);
    var k := 8 * DecodedLength(m);
    FourTimes(k);
    FourTimes(k + 2);
    FourTimes(k + 4);
  }

  /** The number the encoder writes. */
  lemma EncodedNumber(x: Bytes)
    ensures var d := Digits64(Filled(Value256(x), PartialBits(|x|)), EncodedLength(|x|));
            EncodeSpec(x) == Chars(d) && Value64(d) == Value256(x) * SpareFactor(EncodedLength(|x|))
  {
    Value256Bound(x);
    FilledBound(Value256(x), |x|);
    ValueOfDigits64(Filled(Value256(x), PartialBits(|x|)), EncodedLength(|x|));
  }

  /** An encoding has ceil(4n/3) characters, all of them in the URL-safe alphabet, hence no padding and no '.'. */
  lemma EncodedText(x: Bytes)
    ensures |EncodeSpec(x)| == (4 * |x| + 2) / 3
    ensures forall i :: 0 <= i < |EncodeSpec(x)| ==>
        IsUrlSafe(EncodeSpec(x)[i]) && EncodeSpec(x)[i] != PAD && EncodeSpec(x)[i] != DOT
  {
    SextetsOfChars(Digits64(Filled(Value256(x), PartialBits(|x|)), EncodedLength(|x|)));
  }

  /** base64UrlDecode(base64UrlEncode(x)) == x for every byte string. */
  lemma RoundTrip(x: Bytes)
    ensures DecodeSpec(EncodeSpec(x)) == x
  {
    var e := EncodeSpec(x);
    var d := Digits64(Filled(Value256(x), PartialBits(|x|)), EncodedLength(|x|));
    EncodedNumber(x);
    EncodedLengths(|x|);
    SextetsOfChars(d);
    assert e[..|e|] == e;
    QuotientRemainder(Value64(d), SpareFactor(|d|), Value256(x), 0);
    Digits256OfValue(x);
  }

  /** Canonical encodings in the sense of section 3.5 of RFC 4648. */
  predicate IsCanonical(s: Bytes) {
    && (forall i :: 0 <= i < |s| ==> IsUrlSafe(s[i]))
    && |s| % 4 != 1
    && (|s| % 4 == 2 ==> Digit(s[|s| - 1]) % 16 == 0)
    && (|s| % 4 == 3 ==> Digit(s[|s| - 1]) % 4 == 0)
  }

  /** The unused trailing bits of a number are those of its last digit. */
  lemma TrailingBits(s: seq<Sextet>)
    requires |s| % 4 != 1
    ensures Value64(s) % SpareFactor(|s|) == if s == [] then 0 else s[|s| - 1] % SpareFactor(|s|)
  {
    if s != [] {
      var d := s[|s| - 1];
      var v := Value64(s[..|s| - 1]);
      LowBits(v, d);
      assert Value64(s) == 64 * v + d;
    }
  }

  lemma LowBits(v: nat, d: Sextet)
    ensures (64 * v + d) % 16 == d % 16 && (64 * v + d) % 4 == d % 4
  {
    ModMultiple(d, -4 * v, 16);
    ModMultiple(d, -16 * v, 4);
  }

  /** The decoder's number for a string of valid characters. */
  lemma DecodedNumber(s: Bytes)
    requires ValidLength(s) == |s|
    ensures Value256(DecodeSpec(s)) == Value64(Sextets(s)) / SpareFactor(|s|)
    ensures |DecodeSpec(s)| == DecodedLength(|s|)
  {
    assert s[..|s|] == s;
    Value64Bound(Sextets(s));
    SpareBound(Value64(Sextets(s)), |s|);
    ValueOfDigits256(Value64(Sextets(s)) / SpareFactor(|s|), DecodedLength(|s|));
  }

  lemma CanonicalNumber(s: Bytes)
    requires IsCanonical(s)
    ensures ValidLength(s) == |s|
    ensures Value64(Sextets(s)) == Value64(Sextets(s)) / SpareFactor(|s|) * SpareFactor(|s|)
  {
    CharsOfSextets(s);
    TrailingBits(Sextets(s));
  }

  lemma {:induction false} CanonicalIsEnough(s: Bytes)
    requires IsCanonical(s)
    ensures EncodeSpec(DecodeSpec(s)) == s
  {
    hide Value64, Value256, Digits64, Digits256, DecodedLength, EncodedLength, SpareFactor, Filled, PartialBits;
    var y := DecodeSpec(s);
    CharsOfSextets(s);
    CanonicalNumber(s);
    DecodedNumber(s);
    DecodedLengths(|s|);
    EncodedNumber(y);
    var d := Digits64(Filled(Value256(y), PartialBits(|y|)), EncodedLength(|y|));
    Value64Injective(d, Sextets(s));
  }

  lemma {:induction false} CanonicalIsNeeded(s: Bytes)
    requires EncodeSpec(DecodeSpec(s)) == s
    ensures IsCanonical(s)
  {
    var y := DecodeSpec(s);
    EncodedNumber(y);
    EncodedLengths(|y|);
    var d := Digits64(Filled(Value256(y), PartialBits(|y|)), EncodedLength(|y|));
    SextetsOfChars(d);
    QuotientRemainder(Value64(d), SpareFactor(|d|), Value256(y), 0);
    TrailingBits(d);
  }

  /** Decoding then encoding gives the string back exactly for the canonical strings. */
  lemma {:induction false} CanonicalExactly(s: Bytes)
    ensures EncodeSpec(DecodeSpec(s)) == s <==> IsCanonical(s)
  {
    if IsCanonical(s) {
      CanonicalIsEnough(s);
    }
    if EncodeSpec(DecodeSpec(s)) == s {
      CanonicalIsNeeded(s);
    }
  }
}
