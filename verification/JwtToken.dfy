/** The token framing of JwtToken: section 7.1 of RFC 7515 around the codec of module Base64Url.

    HMAC-SHA256 and the JSON library are parameters: any functions that satisfy `Sound`. */
module JwtToken {
  import opened Wrappers
  import opened Base64Url

  datatype Json = JString(text: Bytes) | JOther

  datatype Document = Object(members: seq<(Bytes, Json)>) | NotAnObject

  datatype Library = Library(
    hmac: (Bytes, Bytes) -> Bytes,
    write: seq<(Bytes, Bytes)> -> Bytes,
    parse: Bytes -> Option<Document>)

  const NUL: Byte := 0

  /** {"alg":"HS256","typ":"JWT"} */
  const HEADER: Bytes := [
    123, 34, 97, 108, 103, 34, 58, 34, 72, 83, 50, 53, 54, 34, 44,
    34, 116, 121, 112, 34, 58, 34, 74, 87, 84, 34, 125]

  /** What is assumed of OpenSSL and RapidJSON: a MAC is not empty, printed JSON has no NUL byte (NUL is escaped)
      and parses back to the members it was printed from. */
  ghost predicate Sound(lib: Library) {
    && (forall data, key :: lib.hmac(data, key) != [])
    && (forall ms :: NUL !in lib.write(ms))
    && (forall ms :: lib.parse(lib.write(ms)) == Some(Object(Quoted(ms))))
  }

  function Quoted(ms: seq<(Bytes, Bytes)>): (r: seq<(Bytes, Json)>)
    ensures |r| == |ms|
  {
    seq(|ms|, i requires 0 <= i < |ms| => (ms[i].0, JString(ms[i].1)))
  }

  /** The C string read from a byte string: everything before the first NUL. */
  function CString(s: Bytes): (r: Bytes)
    ensures NUL !in r
    ensures r <= s
    ensures NUL !in s ==> r == s
  {
    if s == [] || s[0] == NUL then [] else [s[0]] + CString(s[1..])
  }

  function CStrings(ms: seq<(Bytes, Bytes)>): (r: seq<(Bytes, Bytes)>)
    ensures |r| == |ms|
  {
    seq(|ms|, i requires 0 <= i < |ms| => (CString(ms[i].0), CString(ms[i].1)))
  }

  /** The members of the payload map, in some order, each once. */
  ghost predicate Enumerates(ms: seq<(Bytes, Bytes)>, p: map<Bytes, Bytes>) {
    && (forall i :: 0 <= i < |ms| ==> ms[i].0 in p && p[ms[i].0] == ms[i].1)
    && (forall i, j :: 0 <= i < j < |ms| ==> ms[i].0 != ms[j].0)
    && p.Keys == Names(ms)
  }

  ghost function Names(ms: seq<(Bytes, Bytes)>): set<Bytes> {
    set i | 0 <= i < |ms| :: ms[i].0
  }

  lemma NamesAppend(ms: seq<(Bytes, Bytes)>, m: (Bytes, Bytes))
    ensures Names(ms + [m]) == Names(ms) + {m.0}
  {
    var all := ms + [m];
    assert all[|ms|] == m;
    assert forall i :: 0 <= i < |ms| ==> all[i] == ms[i];
  }

  function SigningInput(lib: Library, ms: seq<(Bytes, Bytes)>): Bytes {
    EncodeSpec(HEADER) + [DOT] + EncodeSpec(CString(lib.write(CStrings(ms))))
  }

  function Signature(lib: Library, secret: Bytes, signingInput: Bytes): Bytes {
    EncodeSpec(lib.hmac(signingInput, secret))
  }

  function Token(lib: Library, secret: Bytes, ms: seq<(Bytes, Bytes)>): Bytes {
    SigningInput(lib, ms) + [DOT] + Signature(lib, secret, SigningInput(lib, ms))
  }

  // ---------- Splitting at dots, the way std::getline does ----------

  function FirstPart(s: Bytes): (p: Bytes)
    ensures p <= s
    ensures DOT !in p
    ensures |p| < |s| ==> s[|p|] == DOT
  {
    if s == [] || s[0] == DOT then [] else [s[0]] + FirstPart(s[1..])
  }

  function Split(s: Bytes): seq<Bytes>
    decreases |s|
  {
    if s == [] then []
    else
      var p := FirstPart(s);
      [p] + (if |p| < |s| then Split(s[|p| + 1..]) else [])
  }

  function Join(parts: seq<Bytes>): Bytes {
    if parts == [] then []
    else if |parts| == 1 then parts[0]
    else parts[0] + [DOT] + Join(parts[1..])
  }

  /** A byte string without the dot it may end with. */
  function WithoutFinalDot(s: Bytes): Bytes {
    if s != [] && s[|s| - 1] == DOT then s[..|s| - 1] else s
  }

  lemma SplitRest(p: Bytes, rest: Bytes)
    ensures rest != [] ==> WithoutFinalDot(p + [DOT] + rest) == p + [DOT] + WithoutFinalDot(rest)
    ensures WithoutFinalDot(p + [DOT]) == p
  {
    if rest != [] {
      var s := p + [DOT] + rest;
      assert s[|s| - 1] == rest[|rest| - 1];
    }
  }

  /** Splitting loses exactly one thing: a dot at the very end. */
  lemma {:induction false} SplitJoin(s: Bytes)
    ensures Join(Split(s)) == WithoutFinalDot(s)
    ensures forall p :: p in Split(s) ==> DOT !in p
    decreases |s|
  {
    if s != [] {
      var p := FirstPart(s);
      if |p| < |s| {
        var rest := s[|p| + 1..];
        SplitJoin(rest);
        SplitRest(p, rest);
        assert s == p + [DOT] + rest;
        assert Split(s) == [p] + Split(rest);
        if rest == [] {
          assert s == p + [DOT];
        } else {
          assert Split(s)[1..] == Split(rest);
        }
      } else {
        assert s == p && Split(s) == [p];
      }
    }
  }

  lemma FirstPartOf(p: Bytes, rest: Bytes)
    requires DOT !in p
    ensures FirstPart(p) == p
    ensures FirstPart(p + [DOT] + rest) == p
  {
    if p != [] {
      FirstPartOf(p[1..], rest);
      assert (p + [DOT] + rest)[1..] == p[1..] + [DOT] + rest;
    }
  }

  lemma SplitStep(p: Bytes, rest: Bytes)
    requires DOT !in p
    ensures Split(p + [DOT] + rest) == [p] + Split(rest)
    ensures p != [] ==> Split(p) == [p]
  {
    FirstPartOf(p, rest);
    assert (p + [DOT] + rest)[|p| + 1..] == rest;
  }

  function Dotted(a: Bytes, b: Bytes, c: Bytes): Bytes {
    a + [DOT] + b + [DOT] + c
  }

  lemma DottedRest(a: Bytes, b: Bytes, c: Bytes)
    ensures Dotted(a, b, c) == a + [DOT] + (b + [DOT] + c)
    ensures Dotted(a, b, c) + [DOT] == a + [DOT] + (b + [DOT] + (c + [DOT] + []))
  {
  }

  /** Three dot-free parts, the last one not empty, come back from their token, final dot or not. */
  lemma SplitThree(a: Bytes, b: Bytes, c: Bytes)
    requires DOT !in a && DOT !in b && DOT !in c && c != []
    ensures Split(Dotted(a, b, c)) == [a, b, c]
    ensures Split(Dotted(a, b, c) + [DOT]) == [a, b, c]
  {
    hide Split, Dotted;
    DottedRest(a, b, c);
    SplitStep(c, []);
    SplitStep(b, c);
    SplitStep(b, c + [DOT] + []);
    SplitStep(a, b + [DOT] + c);
    SplitStep(a, b + [DOT] + (c + [DOT] + []));
    SplitEmpty();
  }

  lemma SplitEmpty()
    ensures Split([]) == []
  {
  }

  // ---------- Specification of decode ----------

  /** The string-valued members; of two with one name the later one wins. */
  function Strings(ms: seq<(Bytes, Json)>): map<Bytes, Bytes> {
    if ms == [] then map[]
    else
      var m := Strings(ms[..|ms| - 1]);
      var (name, value) := ms[|ms| - 1];
      if value.JString? then m[CString(name) := CString(value.text)] else m
  }

  function DecodeToken(lib: Library, secret: Bytes, token: Bytes): Option<map<Bytes, Bytes>> {
    var parts := Split(token);
    if |parts| != 3 || Signature(lib, secret, parts[0] + [DOT] + parts[1]) != parts[2] then None
    else
      match lib.parse(CString(DecodeSpec(parts[1])))
      case Some(Object(ms)) => Some(Strings(ms))
      case _ => None
  }

  // ---------- The class ----------

  class Jwt {
    const secret: Bytes

    constructor (secret: Bytes)
      ensures this.secret == secret
    {
      this.secret := secret;
    }

    method Encode(lib: Library, payload: map<Bytes, Bytes>) returns (token: Bytes)
      ensures exists ms :: Enumerates(ms, payload) && token == Token(lib, secret, ms)
    {
      var encodedHeader := Base64Url.Encode(HEADER);
      var ms: seq<(Bytes, Bytes)> := [];
      ghost var given: seq<(Bytes, Bytes)> := [];
      var rest := payload.Keys;
      while rest != {}
        invariant rest <= payload.Keys
        invariant Names(given) == payload.Keys - rest
        invariant forall i :: 0 <= i < |given| ==> given[i].0 in payload && payload[given[i].0] == given[i].1
        invariant forall i, j :: 0 <= i < j < |given| ==> given[i].0 != given[j].0
        invariant ms == CStrings(given)
        decreases rest
      {
        var key :| key in rest;
        NamesAppend(given, (key, payload[key]));
        assert forall i :: 0 <= i < |given| ==> given[i].0 in Names(given);
        given := given + [(key, payload[key])];
        ms := ms + [(CString(key), CString(payload[key]))];
        rest := rest - {key};
      }
      assert Enumerates(given, payload);
      var encodedPayload := Base64Url.Encode(CString(lib.write(ms)));
      var signingInput := encodedHeader + [DOT] + encodedPayload;
      var encodedSignature := Base64Url.Encode(lib.hmac(signingInput, secret));
      token := signingInput + [DOT] + encodedSignature;
      assert token == Token(lib, secret, given);
    }

    method Decode(lib: Library, token: Bytes) returns (result: Option<map<Bytes, Bytes>>)
      ensures result == DecodeToken(lib, secret, token)
    {
      var parts := SplitToken(token);
      if |parts| != 3 {
        return None;
      }
      var signingInput := parts[0] + [DOT] + parts[1];
      var encodedExpected := Base64Url.Encode(lib.hmac(signingInput, secret));
      if |encodedExpected| != |parts[2]| || encodedExpected != parts[2] {
        return None;
      }
      var json := Base64Url.Decode(parts[1]);
      var doc := lib.parse(CString(json));
      if doc.None? || doc.value.NotAnObject? {
        return None;
      }
      var ms := doc.value.members;
      var strings := map[];
      for i := 0 to |ms|
        invariant strings == Strings(ms[..i])
      {
        assert ms[..i + 1][..i] == ms[..i];
        var (name, value) := ms[i];
        if value.JString? {
          strings := strings[CString(name) := CString(value.text)];
        }
      }
      assert ms[..|ms|] == ms;
      result := Some(strings);
    }
  }

  lemma SplitNext(s: Bytes)
    requires s != []
    ensures Split(s) == [FirstPart(s)] + Split(if |FirstPart(s)| < |s| then s[|FirstPart(s)| + 1..] else [])
  {
    SplitEmpty();
  }

  method SplitToken(token: Bytes) returns (parts: seq<Bytes>)
    ensures parts == Split(token)
  {
    hide Split;
    parts := [];
    var rest := token;
    while rest != []
      invariant parts + Split(rest) == Split(token)
      decreases |rest|
    {
      SplitNext(rest);
      var p := FirstPart(rest);
      parts := parts + [p];
      rest := if |p| < |rest| then rest[|p| + 1..] else [];
    }
    SplitEmpty();
  }

  // ---------- Laws of the framing ----------

  ghost predicate NulFree(p: map<Bytes, Bytes>) {
    forall k :: k in p ==> NUL !in k && NUL !in p[k]
  }

  lemma {:induction false} StringsOfMembers(ms: seq<(Bytes, Bytes)>, p: map<Bytes, Bytes>)
    requires NulFree(p)
    requires forall i :: 0 <= i < |ms| ==> ms[i].0 in p && p[ms[i].0] == ms[i].1
    ensures var m := Strings(Quoted(CStrings(ms)));
            (forall k :: k in m ==> k in p && m[k] == p[k]) && forall i :: 0 <= i < |ms| ==> ms[i].0 in m
  {
    if ms != [] {
      var init := ms[..|ms| - 1];
      StringsOfMembers(init, p);
      assert Quoted(CStrings(ms))[..|ms| - 1] == Quoted(CStrings(init));
    }
  }

  lemma {:induction false} StringsAreNulFree(ms: seq<(Bytes, Json)>)
    ensures NulFree(Strings(ms))
  {
    if ms != [] {
      StringsAreNulFree(ms[..|ms| - 1]);
    }
  }

  lemma {:induction false} TokenParts(lib: Library, secret: Bytes, ms: seq<(Bytes, Bytes)>)
    requires Sound(lib)
    ensures Split(Token(lib, secret, ms)) ==
            [EncodeSpec(HEADER), EncodeSpec(lib.write(CStrings(ms))), Signature(lib, secret, SigningInput(lib, ms))]
  {
    var mac := lib.hmac(SigningInput(lib, ms), secret);
    EncodedText(HEADER);
    EncodedText(lib.write(CStrings(ms)));
    EncodedText(mac);
    assert |EncodeSpec(mac)| > 0;
    SplitThree(EncodeSpec(HEADER), EncodeSpec(lib.write(CStrings(ms))), EncodeSpec(mac));
  }

  /** What decode makes of a token of encode, whatever the payload. */
  lemma DecodeOfToken(lib: Library, secret: Bytes, ms: seq<(Bytes, Bytes)>)
    requires Sound(lib)
    ensures DecodeToken(lib, secret, Token(lib, secret, ms)) == Some(Strings(Quoted(CStrings(ms))))
  {
    TokenParts(lib, secret, ms);
    RoundTrip(lib.write(CStrings(ms)));
  }

  /** decode(encode(p)) is p exactly for the payloads without a NUL byte. */
  lemma {:induction false} TokenRoundTrip(lib: Library, secret: Bytes, ms: seq<(Bytes, Bytes)>, p: map<Bytes, Bytes>)
    requires Sound(lib) && Enumerates(ms, p)
    ensures DecodeToken(lib, secret, Token(lib, secret, ms)) == Some(p) <==> NulFree(p)
  {
    DecodeOfToken(lib, secret, ms);
    StringsAreNulFree(Quoted(CStrings(ms)));
    if NulFree(p) {
      StringsOfMembers(ms, p);
      assert forall k :: k in Names(ms) ==> k in Strings(Quoted(CStrings(ms)));
      assert Strings(Quoted(CStrings(ms))) == p;
    }
  }

  lemma JoinThree(a: Bytes, b: Bytes, c: Bytes)
    ensures Join([a, b, c]) == Dotted(a, b, c)
  {
    assert [a, b, c][1..] == [b, c];
    assert [b, c][1..] == [c];
    assert Join([b, c]) == b + [DOT] + Join([c]);
    assert a + [DOT] + (b + [DOT] + c) == a + [DOT] + b + [DOT] + c;
  }

  /** The header, as text. */
  const HEADER_TEXT: string := "{\"alg\":\"HS256\",\"typ\":\"JWT\"}"

  lemma HeaderIs(i: nat)
    requires i < 27
    ensures |HEADER| == |HEADER_TEXT| == 27 && HEADER[i] == HEADER_TEXT[i] as int
  {
  }

  /** Member i is a string, and no later string has the same name. */
  ghost predicate LastString(ms: seq<(Bytes, Json)>, i: nat, k: Bytes, v: Bytes) {
    && i < |ms| && ms[i].1.JString? && CString(ms[i].0) == k && CString(ms[i].1.text) == v
    && forall j :: i < j < |ms| && ms[j].1.JString? ==> CString(ms[j].0) != k
  }

  /** What decode makes of the members of an object: a name has a value exactly if it has a string, and then it has the
      last one. Members that are no strings do not show. */
  lemma {:induction false} StringsIff(ms: seq<(Bytes, Json)>, k: Bytes, v: Bytes)
    ensures k in Strings(ms) && Strings(ms)[k] == v <==> exists i :: LastString(ms, i, k, v)
  {
    hide CString;
    if ms != [] {
      var n := |ms| - 1;
      var init := ms[..n];
      StringsIff(init, k, v);
      var (name, value) := ms[n];
      if value.JString? && CString(name) == k {
        if CString(value.text) == v { assert LastString(ms, n, k, v); }
      } else if i: nat :| LastString(init, i, k, v) {
        assert LastString(ms, i, k, v);
      }
      if i: nat :| LastString(ms, i, k, v) {
        if i < n { assert ms[n].1.JString? ==> CString(ms[n].0) != k; assert LastString(init, i, k, v); }
      }
    }
  }

  /** Without a string, a name is absent. */
  lemma NoStringNoName(ms: seq<(Bytes, Json)>, k: Bytes)
    requires forall i :: 0 <= i < |ms| && ms[i].1.JString? ==> CString(ms[i].0) != k
    ensures k !in Strings(ms)
  {
    if k in Strings(ms) {
      StringsIff(ms, k, Strings(ms)[k]);
    }
  }

  /** Two parts followed by their own signature. */
  function Signed(lib: Library, secret: Bytes, a: Bytes, b: Bytes): Bytes {
    Dotted(a, b, Signature(lib, secret, a + [DOT] + b))
  }

  /** A token is accepted only if it is two dot-free parts followed by their own signature, and perhaps a final dot. */
  lemma AcceptedIsSigned(lib: Library, secret: Bytes, token: Bytes) returns (a: Bytes, b: Bytes)
    requires DecodeToken(lib, secret, token).Some?
    ensures DOT !in a && DOT !in b
    ensures token == Signed(lib, secret, a, b) || token == Signed(lib, secret, a, b) + [DOT]
  {
    hide EncodeSpec, DecodeSpec, Split, Join;
    var parts := Split(token);
    a, b := parts[0], parts[1];
    SplitJoin(token);
    var c := parts[2];
    assert parts == [a, b, c];
    JoinThree(a, b, c);
    assert token == WithoutFinalDot(token) || token == WithoutFinalDot(token) + [DOT];
  }

  /** ... and each such text, with or without the final dot, is decoded from its second part alone. */
  lemma {:induction false} SignedIsAccepted(lib: Library, secret: Bytes, a: Bytes, b: Bytes, token: Bytes)
    requires DOT !in a && DOT !in b
    requires lib.hmac(a + [DOT] + b, secret) != []
    requires token == Signed(lib, secret, a, b) || token == Signed(lib, secret, a, b) + [DOT]
    ensures DecodeToken(lib, secret, token) ==
            match lib.parse(CString(DecodeSpec(b))) { case Some(Object(ms)) => Some(Strings(ms)) case _ => None }
  {
    hide EncodeSpec, DecodeSpec, Split, Dotted;
    EncodedText(lib.hmac(a + [DOT] + b, secret));
    SplitThree(a, b, Signature(lib, secret, a + [DOT] + b));
  }

  /** Two dot-free parts followed by their own signature, perhaps with a final dot, the second one a JSON object. */
  ghost predicate WellSigned(lib: Library, secret: Bytes, token: Bytes, a: Bytes, b: Bytes) {
    && DOT !in a && DOT !in b
    && (token == Signed(lib, secret, a, b) || token == Signed(lib, secret, a, b) + [DOT])
    && match lib.parse(CString(DecodeSpec(b))) { case Some(Object(_)) => true case _ => false }
  }

  /** Exactly which tokens are accepted, given that a MAC is not empty. Nothing else is looked at: not the header, not
      the time, and no member of the payload. */
  lemma AcceptedIff(lib: Library, secret: Bytes, token: Bytes)
    requires forall data :: lib.hmac(data, secret) != []
    ensures DecodeToken(lib, secret, token).Some? <==> exists a, b :: WellSigned(lib, secret, token, a, b)
  {
    hide EncodeSpec, DecodeSpec, Split, Dotted, DecodeToken;
    if DecodeToken(lib, secret, token).Some? {
      var a, b := AcceptedIsSigned(lib, secret, token);
      SignedIsAccepted(lib, secret, a, b, token);
      assert WellSigned(lib, secret, token, a, b);
    }
    if a, b :| WellSigned(lib, secret, token, a, b) {
      SignedIsAccepted(lib, secret, a, b, token);
    }
  }

  /** The name of the member that gives the end of a token's life, "exp" (section 4.1.4 of RFC 7519), and a time long
      past, "0". */
  const EXP: Bytes := [101, 120, 112]
  const LONG_AGO: Bytes := [48]

  /** An expired token is accepted: one whose only member says that it expired at time 0. */
  lemma ExpiredIsAccepted(lib: Library, secret: Bytes)
    requires Sound(lib)
    ensures DecodeToken(lib, secret, Token(lib, secret, [(EXP, LONG_AGO)])) == Some(map[EXP := LONG_AGO])
  {
    var ms, p := [(EXP, LONG_AGO)], map[EXP := LONG_AGO];
    assert Names(ms) == {EXP} by { assert ms[0].0 in Names(ms); }
    assert Enumerates(ms, p);
    TokenRoundTrip(lib, secret, ms, p);
  }

  /** A token made with one secret is accepted under another exactly if the two MACs of its signing input agree. */
  lemma ForeignSecret(lib: Library, secret: Bytes, other: Bytes, ms: seq<(Bytes, Bytes)>)
    requires Sound(lib)
    ensures DecodeToken(lib, other, Token(lib, secret, ms)).Some? <==>
            lib.hmac(SigningInput(lib, ms), secret) == lib.hmac(SigningInput(lib, ms), other)
  {
    TokenParts(lib, secret, ms);
    RoundTrip(lib.write(CStrings(ms)));
    RoundTrip(lib.hmac(SigningInput(lib, ms), secret));
    RoundTrip(lib.hmac(SigningInput(lib, ms), other));
  }

  // ---------- The assumptions can be met ----------

  /** A way to write members that needs no JSON: each name and each value encoded, and followed by a dot. */
  function DottedMembers(ms: seq<(Bytes, Bytes)>): Bytes {
    if ms == [] then []
    else EncodeSpec(ms[0].0) + [DOT] + (EncodeSpec(ms[0].1) + [DOT] + DottedMembers(ms[1..]))
  }

  function Paired(parts: seq<Bytes>): seq<(Bytes, Json)> {
    if |parts| < 2 then [] else [(DecodeSpec(parts[0]), JString(DecodeSpec(parts[1])))] + Paired(parts[2..])
  }

  lemma QuotedFirst(ms: seq<(Bytes, Bytes)>)
    requires ms != []
    ensures Quoted(ms) == [(ms[0].0, JString(ms[0].1))] + Quoted(ms[1..])
  {
  }

  lemma PairedFirst(a: Bytes, b: Bytes, parts: seq<Bytes>)
    ensures Paired([a] + ([b] + parts)) == [(DecodeSpec(a), JString(DecodeSpec(b)))] + Paired(parts)
  {
    hide DecodeSpec;
    assert ([a] + ([b] + parts))[2..] == parts;
  }

  lemma {:induction false} DottedMembersAreParsed(ms: seq<(Bytes, Bytes)>)
    ensures Paired(Split(DottedMembers(ms))) == Quoted(ms)
  {
    hide EncodeSpec, DecodeSpec, Split, Quoted, Paired;
    if ms == [] {
      SplitEmpty();
      NothingPaired();
    } else {
      var (a, b) := ms[0];
      var rest := DottedMembers(ms[1..]);
      EncodedText(a);
      EncodedText(b);
      RoundTrip(a);
      RoundTrip(b);
      SplitStep(EncodeSpec(b), rest);
      SplitStep(EncodeSpec(a), EncodeSpec(b) + [DOT] + rest);
      DottedMembersAreParsed(ms[1..]);
      PairedFirst(EncodeSpec(a), EncodeSpec(b), Split(rest));
      QuotedFirst(ms);
    }
  }

  lemma NothingPaired()
    ensures Paired([]) == Quoted([])
  {
  }

  lemma {:induction false} DottedMembersHaveNoNul(ms: seq<(Bytes, Bytes)>)
    ensures NUL !in DottedMembers(ms)
  {
    hide EncodeSpec;
    if ms != [] {
      EncodedText(ms[0].0);
      EncodedText(ms[0].1);
      DottedMembersHaveNoNul(ms[1..]);
    }
  }

  /** What is assumed of the libraries is not contradictory. */
  lemma SomeLibraryIsSound()
    ensures exists lib :: Sound(lib)
  {
    hide DottedMembers, Paired, Split, Quoted;
    var lib := Library((_, _) => [1], DottedMembers, s => Some(Object(Paired(Split(s)))));
    forall ms ensures NUL !in lib.write(ms) && lib.parse(lib.write(ms)) == Some(Object(Quoted(ms))) {
      DottedMembersAreParsed(ms);
      DottedMembersHaveNoNul(ms);
    }
    assert Sound(lib);
  }
}
