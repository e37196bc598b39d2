/** The token printer and parser of api/core/JWT.php (section 7.1 of RFC 7515, section 7 of RFC 7519). */
module Jwt {
  import opened Basics
  import opened Base64Url

  /** A claim's value: null, a number, or anything else. */
  datatype Claim = JsonNull | Num(n: int) | OtherClaim(text: string)

  type Payload = map<string, Claim>

  /**
   * The functions that PHP supplies: the JSON printer and parser, the printed header, the keyed hash of a text, and
   * the comparison `claim < number`.
   */
  datatype Platform = Platform(
    toJson: Payload -> seq<Byte>, fromJson: seq<Byte> -> Option<Payload>, header: seq<Byte>,
    hmac: string -> seq<Byte>, less: (Claim, int) -> bool)

  /** JSON parsing undoes printing, and numbers compare as numbers. Nothing is asked of the hash. */
  ghost predicate Lawful(p: Platform) {
    && (forall claims: Payload :: p.fromJson(p.toJson(claims)) == Some(claims))
    && (forall n: int, m: int :: p.less(Num(n), m) <==> n < m)
  }

  // ----- explode('.', s)

  function Explode(s: string): (parts: seq<string>)
    ensures |parts| > 0
  {
    if s == [] then [""]
    else
      var parts := Explode(s[1..]);
      if s[0] == '.' then [""] + parts else [[s[0]] + parts[0]] + parts[1..]
  }

  function Implode(parts: seq<string>): string
    requires |parts| > 0
  {
    if |parts| == 1 then parts[0] else parts[0] + "." + Implode(parts[1..])
  }

  /** Splitting loses nothing, and no part holds a dot. */
  lemma {:induction false} ExplodeInverse(s: string)
    ensures Implode(Explode(s)) == s
    ensures forall i :: 0 <= i < |Explode(s)| ==> '.' !in Explode(s)[i]
  {
    if s != [] {
      ExplodeInverse(s[1..]);
      var parts, all := Explode(s[1..]), Explode(s);
      if s[0] == '.' {
        assert all[1..] == parts;
        assert Implode(all) == "" + "." + s[1..];
      } else if |parts| == 1 {
        assert Implode(all) == [s[0]] + s[1..];
      } else {
        assert all[1..] == parts[1..];
        assert Implode(all) == [s[0]] + (parts[0] + "." + Implode(parts[1..]));
      }
    }
  }

  lemma {:induction false} ExplodeFirst(a: string, rest: string)
    requires '.' !in a
    ensures Explode(a + "." + rest) == [a] + Explode(rest)
  {
    if a == [] {
      assert (a + "." + rest)[1..] == rest;
    } else {
      assert (a + "." + rest)[1..] == a[1..] + "." + rest;
      ExplodeFirst(a[1..], rest);
      assert a[0] in a && a == [a[0]] + a[1..];
    }
  }

  lemma {:induction false} ExplodeNoDot(a: string)
    requires '.' !in a
    ensures Explode(a) == [a]
  {
    if a != [] {
      ExplodeNoDot(a[1..]);
      assert a[0] in a && a == [a[0]] + a[1..];
    }
  }

  lemma ExplodeThree(a: string, b: string, c: string)
    requires '.' !in a && '.' !in b && '.' !in c
    ensures Explode(a + "." + b + "." + c) == [a, b, c]
  {
    assert a + "." + b + "." + c == a + "." + (b + "." + c);
    ExplodeFirst(a, b + "." + c);
    ExplodeFirst(b, c);
    ExplodeNoDot(c);
  }

  // ----- Tokens

  function WithExpiry(payload: Payload, expires: int): Payload {
    payload["exp" := Num(expires)]
  }

  function Encode(p: Platform, payload: Payload, lifetime: int, now: int): string {
    var header := UrlEncode(p.header);
    var body := UrlEncode(p.toJson(WithExpiry(payload, now + lifetime)));
    var signature := p.hmac(header + "." + body);
    header + "." + body + "." + UrlEncode(signature)
  }

  /** `isset($payload['exp']) && $payload['exp'] < time()` */
  predicate Expired(p: Platform, payload: Payload, now: int) {
    "exp" in payload && payload["exp"] != JsonNull && p.less(payload["exp"], now)
  }

  /** A missing payload is PHP's null. */
  function Decode(p: Platform, token: string, now: int): Option<Payload> {
    var parts := Explode(token);
    if |parts| != 3 then None
    else
      var (header, body, signature) := (parts[0], parts[1], parts[2]);
      if UrlDecode(signature) != p.hmac(header + "." + body) then None
      else
        var payload := p.fromJson(UrlDecode(body));
        if payload.Some? && Expired(p, payload.value, now) then None else payload
  }

  lemma SafeHasNoDot(s: string)
    requires UrlSafe(s)
    ensures '.' !in s
  {
  }

  /** A token splits back into the three texts it was made of, however long they are. */
  lemma TokenHasThreeParts(p: Platform, payload: Payload, lifetime: int, now: int)
    ensures var header := UrlEncode(p.header);
      var body := UrlEncode(p.toJson(payload["exp" := Num(now + lifetime)]));
      Explode(Encode(p, payload, lifetime, now)) == [header, body, UrlEncode(p.hmac(header + "." + body))]
  {
    var header := UrlEncode(p.header);
    var body := UrlEncode(p.toJson(WithExpiry(payload, now + lifetime)));
    var signature := UrlEncode(p.hmac(header + "." + body));
    PaddingRestored(p.header);
    PaddingRestored(p.toJson(WithExpiry(payload, now + lifetime)));
    PaddingRestored(p.hmac(header + "." + body));
    SafeHasNoDot(header);
    SafeHasNoDot(body);
    SafeHasNoDot(signature);
    ExplodeThree(header, body, signature);
  }

  /**
   * Whatever the hash: a token decodes to its payload with the expiry added as long as the clock has not passed the
   * expiry, and to null from then on.
   */
  lemma TokenRoundTrip(p: Platform, payload: Payload, lifetime: int, issued: int, now: int)
    requires Lawful(p)
    ensures Decode(p, Encode(p, payload, lifetime, issued), now)
         == if now <= issued + lifetime then Some(payload["exp" := Num(issued + lifetime)]) else None
  {
    var header := UrlEncode(p.header);
    var claims := WithExpiry(payload, issued + lifetime);
    TokenHasThreeParts(p, payload, lifetime, issued);
    UrlRoundTrip(p.toJson(claims));
    UrlRoundTrip(p.hmac(header + "." + UrlEncode(p.toJson(claims))));
  }

  /** `token` consists of a signed text and the encoding of its signature. */
  predicate SignedAs(p: Platform, token: string, header: string, body: string, signature: string) {
    token == header + "." + body + "." + signature && UrlDecode(signature) == p.hmac(header + "." + body)
  }

  /** The claims carry an expiry, other than null, that compares as less than the clock. */
  predicate PastExpiry(p: Platform, claims: Payload, now: int) {
    "exp" in claims && claims["exp"] != JsonNull && p.less(claims["exp"], now)
  }

  /**
   * Exactly the three-part texts are accepted whose third part decodes to the hash of the first two, whose second
   * decodes and parses to claims, and whose claims carry no expiry that the clock has passed; the claims are what comes
   * out.
   */
  lemma AcceptedIff(p: Platform, token: string, now: int, claims: Payload)
    ensures Decode(p, token, now) == Some(claims) <==>
      && (exists header, body, signature :: SignedAs(p, token, header, body, signature)
            && '.' !in header && '.' !in body && '.' !in signature && p.fromJson(UrlDecode(body)) == Some(claims))
      && !PastExpiry(p, claims, now)
  {
    var parts := Explode(token);
    ExplodeInverse(token);
    if |parts| == 3 {
      ImplodeThree(parts);
      assert token == parts[0] + "." + parts[1] + "." + parts[2];
      assert UrlDecode(parts[2]) == p.hmac(parts[0] + "." + parts[1]) ==>
        SignedAs(p, token, parts[0], parts[1], parts[2]);
    }
    forall header, body, signature |
      SignedAs(p, token, header, body, signature) && '.' !in header && '.' !in body && '.' !in signature
      ensures parts == [header, body, signature]
    {
      ExplodeThree(header, body, signature);
    }
  }

  lemma ImplodeThree(parts: seq<string>)
    requires |parts| == 3
    ensures Implode(parts) == parts[0] + "." + parts[1] + "." + parts[2]
  {
    assert Implode(parts[1..][1..]) == parts[2];
    assert Implode(parts[1..]) == parts[1] + "." + parts[2];
  }
}
