/** Base64 (section 4 of RFC 4648) and the url-safe, unpadded form of api/core/JWT.php (section 5, and 3.2). */
module Base64Url {
  type Byte = b: int | 0 <= b < 256
  type Sextet = n: int | 0 <= n < 64

  // ----- Base64

  function Symbol(n: Sextet): char {
    if n < 26 then 'A' + n as char
    else if n < 52 then 'a' + (n - 26) as char
    else if n < 62 then '0' + (n - 52) as char
    else if n == 62 then '+'
    else '/'
  }

  predicate InAlphabet(c: char) {
    'A' <= c <= 'Z' || 'a' <= c <= 'z' || '0' <= c <= '9' || c == '+' || c == '/'
  }

  function SextetOf(c: char): Sextet
    requires InAlphabet(c)
  {
    if 'A' <= c <= 'Z' then c as int - 'A' as int
    else if 'a' <= c <= 'z' then c as int - 'a' as int + 26
    else if '0' <= c <= '9' then c as int - '0' as int + 52
    else if c == '+' then 62
    else 63
  }

  function Group(a: Byte, b: Byte, c: Byte): seq<Sextet> {
    [a / 4, a % 4 * 16 + b / 16, b % 16 * 4 + c / 64, c % 64]
  }

  function Symbols(n: seq<Sextet>): (s: string)
    ensures |s| == |n| && forall i :: 0 <= i < |s| ==> InAlphabet(s[i])
  {
    seq(|n|, i requires 0 <= i < |n| => Symbol(n[i]))
  }

  /** `base64_encode` */
  function Base64Encode(x: seq<Byte>): string {
    if x == [] then ""
    else if |x| == 1 then Symbols(Group(x[0], 0, 0)[..2]) + "=="
    else if |x| == 2 then Symbols(Group(x[0], x[1], 0)[..3]) + "="
    else Symbols(Group(x[0], x[1], x[2])) + Base64Encode(x[3..])
  }

  /** The sextets of a text, whose other characters, padding included, are passed over. */
  function Sextets(s: string): seq<Sextet> {
    if s == [] then []
    else if InAlphabet(s[0]) then [SextetOf(s[0])] + Sextets(s[1..])
    else Sextets(s[1..])
  }

  function First(a: Sextet, b: Sextet): Byte {
    a as int * 4 + b as int / 16
  }

  function Second(b: Sextet, c: Sextet): Byte {
    b as int % 16 * 16 + c as int / 4
  }

  function Third(c: Sextet, d: Sextet): Byte {
    c as int % 4 * 64 + d as int
  }

  /** The whole bytes in a sequence of sextets. */
  function Bytes(n: seq<Sextet>): seq<Byte> {
    if |n| < 2 then []
    else if |n| == 2 then [First(n[0], n[1])]
    else if |n| == 3 then [First(n[0], n[1]), Second(n[1], n[2])]
    else [First(n[0], n[1]), Second(n[1], n[2]), Third(n[2], n[3])] + Bytes(n[4..])
  }

  /** `base64_decode`, not strict */
  function Base64Decode(s: string): seq<Byte> {
    Bytes(Sextets(s))
  }

  // ----- The url-safe form

  /** `str_replace` of a single character */
  function Replace(s: string, from: char, to: string): string {
    if s == [] then [] else (if s[0] == from then to else [s[0]]) + Replace(s[1..], from, to)
  }

  function ToUrl(s: string): string {
    Replace(Replace(Replace(s, '+', "-"), '/', "_"), '=', "")
  }

  function FromUrl(s: string): string {
    Replace(Replace(s, '-', "+"), '_', "/")
  }

  /** `str_repeat('=', n)` */
  function Padding(n: nat): string {
    seq(n, _ => '=')
  }

  function Pad(s: string): string {
    var remainder := |s| % 4;
    if remainder != 0 then s + Padding(4 - remainder) else s
  }

  function UrlEncode(x: seq<Byte>): string {
    ToUrl(Base64Encode(x))
  }

  function UrlDecode(s: string): seq<Byte> {
    Base64Decode(FromUrl(Pad(s)))
  }

  // ----- Base64 round trip

  lemma SymbolInverse(n: Sextet)
    ensures InAlphabet(Symbol(n)) && SextetOf(Symbol(n)) == n
  {
  }

  /** The symbols of an encoding, without the padding. */
  function Body(x: seq<Byte>): string {
    var s := Base64Encode(x);
    s[..|s| - PadCount(x)]
  }

  function PadCount(x: seq<Byte>): (k: nat)
    ensures k <= 2 && k <= |Base64Encode(x)| && |Base64Encode(x)| % 4 == 0
    ensures (|x| + k) % 3 == 0
  {
    if |x| == 0 then 0 else if |x| == 1 then 2 else if |x| == 2 then 1 else PadCount(x[3..])
  }

  /** An encoding is symbols of the alphabet followed by the padding. */
  lemma {:induction false} EncodingParts(x: seq<Byte>)
    ensures Base64Encode(x) == Body(x) + Padding(PadCount(x))
    ensures forall i :: 0 <= i < |Body(x)| ==> InAlphabet(Body(x)[i])
  {
    if |x| == 1 {
      assert Body(x) == Symbols(Group(x[0], 0, 0)[..2]);
    } else if |x| == 2 {
      assert Body(x) == Symbols(Group(x[0], x[1], 0)[..3]);
    } else if |x| > 2 {
      EncodingParts(x[3..]);
      assert Body(x) == Symbols(Group(x[0], x[1], x[2])) + Body(x[3..]);
    }
  }

  lemma {:induction false} SextetsOfSymbols(n: seq<Sextet>, rest: string)
    ensures Sextets(Symbols(n) + rest) == n + Sextets(rest)
  {
    if n == [] {
      assert Symbols(n) + rest == rest;
    } else {
      SymbolInverse(n[0]);
      assert (Symbols(n) + rest)[1..] == Symbols(n[1..]) + rest;
      SextetsOfSymbols(n[1..], rest);
    }
  }

  lemma GroupInverse(a: Byte, b: Byte, c: Byte)
    ensures var g := Group(a, b, c); First(g[0], g[1]) == a && Second(g[1], g[2]) == b && Third(g[2], g[3]) == c
  {
  }

  lemma BytesOfGroup(a: Byte, b: Byte, c: Byte, rest: seq<Sextet>)
    ensures Bytes(Group(a, b, c) + rest) == [a, b, c] + Bytes(rest)
  {
    GroupInverse(a, b, c);
    var n := Group(a, b, c) + rest;
    assert n[4..] == rest;
    assert Bytes(n) == [First(n[0], n[1]), Second(n[1], n[2]), Third(n[2], n[3])] + Bytes(n[4..]);
  }

  lemma BytesOfShort(n: seq<Sextet>)
    ensures |n| == 2 ==> Bytes(n) == [First(n[0], n[1])]
    ensures |n| == 3 ==> Bytes(n) == [First(n[0], n[1]), Second(n[1], n[2])]
  {
  }

  lemma PaddingHasNoSextets()
    ensures Sextets("=") == [] && Sextets("==") == []
  {
  }

  /** One byte, or two, encoded with padding, come back; `zero` fills the group. */
  lemma DecodeOneByte(a: Byte, zero: Byte)
    requires zero == 0
    ensures Base64Decode(Symbols(Group(a, zero, zero)[..2]) + "==") == [a]
  {
    PaddingHasNoSextets();
    GroupInverse(a, zero, zero);
    SextetsOfSymbols(Group(a, zero, zero)[..2], "==");
    BytesOfShort(Group(a, zero, zero)[..2]);
  }

  lemma DecodeTwoBytes(a: Byte, b: Byte, zero: Byte)
    requires zero == 0
    ensures Base64Decode(Symbols(Group(a, b, zero)[..3]) + "=") == [a, b]
  {
    PaddingHasNoSextets();
    GroupInverse(a, b, zero);
    SextetsOfSymbols(Group(a, b, zero)[..3], "=");
    BytesOfShort(Group(a, b, zero)[..3]);
  }

  /** A full group comes back, followed by the bytes of the rest. */
  lemma DecodeGroup(a: Byte, b: Byte, c: Byte, rest: string)
    ensures Base64Decode(Symbols(Group(a, b, c)) + rest) == [a, b, c] + Base64Decode(rest)
  {
    SextetsOfSymbols(Group(a, b, c), rest);
    BytesOfGroup(a, b, c, Sextets(rest));
  }

  lemma {:induction false} DecodeInvertsEncode(x: seq<Byte>)
    ensures Base64Decode(Base64Encode(x)) == x
  {
    hide Base64Decode, Symbols, Group;
    if x == [] {
      DecodeNothing();
    } else if |x| == 1 {
      DecodeOneByte(x[0], 0);
    } else if |x| == 2 {
      DecodeTwoBytes(x[0], x[1], 0);
    } else {
      DecodeInvertsEncode(x[3..]);
      DecodeGroup(x[0], x[1], x[2], Base64Encode(x[3..]));
    }
  }

  lemma DecodeNothing()
    ensures Base64Decode("") == []
  {
  }

  // ----- Url-safe round trip

  lemma {:induction false} ReplaceConcat(a: string, b: string, from: char, to: string)
    ensures Replace(a + b, from, to) == Replace(a, from, to) + Replace(b, from, to)
  {
    if a == [] {
      assert a + b == b;
    } else {
      assert (a + b)[1..] == a[1..] + b;
      ReplaceConcat(a[1..], b, from, to);
    }
  }

  lemma ToUrlConcat(a: string, b: string)
    ensures ToUrl(a + b) == ToUrl(a) + ToUrl(b)
  {
    ReplaceConcat(a, b, '+', "-");
    ReplaceConcat(Replace(a, '+', "-"), Replace(b, '+', "-"), '/', "_");
    ReplaceConcat(Replace(Replace(a, '+', "-"), '/', "_"), Replace(Replace(b, '+', "-"), '/', "_"), '=', "");
  }

  lemma FromUrlConcat(a: string, b: string)
    ensures FromUrl(a + b) == FromUrl(a) + FromUrl(b)
  {
    ReplaceConcat(a, b, '-', "+");
    ReplaceConcat(Replace(a, '-', "+"), Replace(b, '-', "+"), '_', "/");
  }

  /** What a url-safe text may hold: letters, digits, '-' and '_'. */
  predicate UrlSafe(s: string) {
    forall i :: 0 <= i < |s| ==> (InAlphabet(s[i]) && s[i] != '+' && s[i] != '/') || s[i] == '-' || s[i] == '_'
  }

  lemma OneSymbol(c: char)
    requires InAlphabet(c)
    ensures |ToUrl([c])| == 1 && UrlSafe(ToUrl([c])) && FromUrl(ToUrl([c])) == [c]
  {
    var d := if c == '+' then '-' else if c == '/' then '_' else c;
    OneReplaced(c, '+', '-');
    OneReplaced(if c == '+' then '-' else c, '/', '_');
    assert Replace([d], '=', "") == [d];
    OneReplaced(d, '-', '+');
    OneReplaced(if d == '-' then '+' else d, '_', '/');
  }

  lemma OneReplaced(c: char, from: char, to: char)
    ensures Replace([c], from, [to]) == if c == from then [to] else [c]
  {
  }

  lemma {:induction false} SymbolsComeBack(s: string)
    requires forall i :: 0 <= i < |s| ==> InAlphabet(s[i])
    ensures |ToUrl(s)| == |s| && UrlSafe(ToUrl(s)) && FromUrl(ToUrl(s)) == s
  {
    if s == [] {
      assert ToUrl(s) == [] && FromUrl([]) == [];
    } else {
      assert s == [s[0]] + s[1..];
      OneSymbol(s[0]);
      SymbolsComeBack(s[1..]);
      ToUrlConcat([s[0]], s[1..]);
      FromUrlConcat(ToUrl([s[0]]), ToUrl(s[1..]));
    }
  }

  lemma PaddingIsStripped(k: nat)
    requires k <= 2
    ensures ToUrl(Padding(k)) == "" && FromUrl(Padding(k)) == Padding(k)
  {
    assert Padding(0) == "" && Padding(1) == "=" && Padding(2) == "=" + "=";
    assert ToUrl("") == "" && FromUrl("") == "";
    OneReplaced('=', '+', '-');
    OneReplaced('=', '/', '_');
    assert Replace("=", '=', "") == "" + Replace("", '=', "");
    OneReplaced('=', '-', '+');
    OneReplaced('=', '_', '/');
    assert ToUrl("=") == "" && FromUrl("=") == "=";
    ToUrlConcat("=", "=");
    FromUrlConcat("=", "=");
  }

  /**
   * The padding that `UrlDecode` adds restores exactly what `UrlEncode` stripped: an encoded length is never 1
   * more than a multiple of 4, at most two signs are added, and `base64_decode` is given the original encoding.
   */
  lemma PaddingRestored(x: seq<Byte>)
    ensures UrlSafe(UrlEncode(x))
    ensures |UrlEncode(x)| % 4 != 1
    ensures |Pad(UrlEncode(x))| - |UrlEncode(x)| == PadCount(x) <= 2
    ensures FromUrl(Pad(UrlEncode(x))) == Base64Encode(x)
  {
    UrlForm(x);
    PadComesBack(UrlEncode(x), Body(x), PadCount(x));
  }

  lemma PadComesBack(u: string, body: string, k: nat)
    requires k <= 2 && (|u| + k) % 4 == 0 && FromUrl(u) == body
    ensures |u| % 4 != 1 && |Pad(u)| == |u| + k && FromUrl(Pad(u)) == body + Padding(k)
  {
    assert u + Padding(0) == u && body + Padding(0) == body;
    assert Pad(u) == u + Padding(k);
    PaddingIsStripped(k);
    FromUrlConcat(u, Padding(k));
  }

  lemma Stripped(x: seq<Byte>)
    ensures UrlEncode(x) == ToUrl(Body(x))
    ensures Base64Encode(x) == Body(x) + Padding(PadCount(x))
    ensures forall i :: 0 <= i < |Body(x)| ==> InAlphabet(Body(x)[i])
  {
    EncodingParts(x);
    ToUrlConcat(Body(x), Padding(PadCount(x)));
    PaddingIsStripped(PadCount(x));
    assert ToUrl(Body(x)) + "" == ToUrl(Body(x));
  }

  lemma UrlForm(x: seq<Byte>)
    ensures UrlSafe(UrlEncode(x)) && FromUrl(UrlEncode(x)) == Body(x)
    ensures Base64Encode(x) == Body(x) + Padding(PadCount(x))
    ensures (|UrlEncode(x)| + PadCount(x)) % 4 == 0
  {
    hide Replace, Base64Encode;
    Stripped(x);
    SymbolsComeBack(Body(x));
  }

  lemma UrlRoundTrip(x: seq<Byte>)
    ensures UrlDecode(UrlEncode(x)) == x
  {
    PaddingRestored(x);
    DecodeInvertsEncode(x);
  }

  /** A character outside the alphabet changes nothing, wherever it stands. */
  lemma {:induction false} OthersPassedOver(a: string, c: char, b: string)
    requires !InAlphabet(c)
    ensures Base64Decode(a + [c] + b) == Base64Decode(a + b)
  {
    SextetsPass(a, c, b);
  }

  lemma {:induction false} SextetsPass(a: string, c: char, b: string)
    requires !InAlphabet(c)
    ensures Sextets(a + [c] + b) == Sextets(a + b)
  {
    if a == [] {
      assert (a + [c] + b)[1..] == b && a + b == b;
    } else {
      assert (a + [c] + b)[1..] == a[1..] + [c] + b;
      assert (a + b)[1..] == a[1..] + b;
      SextetsPass(a[1..], c, b);
    }
  }

  /** A decoded text has as many bytes as its sextets fill. */
  lemma {:induction false} BytesFilled(n: seq<Sextet>)
    ensures |Bytes(n)| == |n| * 6 / 8
  {
    if |n| >= 4 {
      BytesFilled(n[4..]);
    }
  }

  /** The ends of the ranges of the alphabet in table 1 of RFC 4648. */
  lemma Rfc4648Alphabet()
    ensures Symbol(0) == 'A' && Symbol(25) == 'Z' && Symbol(26) == 'a' && Symbol(51) == 'z'
    ensures Symbol(52) == '0' && Symbol(61) == '9' && Symbol(62) == '+' && Symbol(63) == '/'
  {
  }

  /** The example "foo" of section 10 of RFC 4648, and its prefixes. */
  lemma Rfc4648Example(f: Byte, o: Byte, zero: Byte)
    requires f == 102 && o == 111 && zero == 0
    ensures Symbols(Group(f, o, o)) == "Zm9v"
    ensures Symbols(Group(f, o, zero)[..3]) + "=" == "Zm8="
    ensures Symbols(Group(f, zero, zero)[..2]) + "==" == "Zg=="
  {
    assert Group(f, o, o) == [25, 38, 61, 47];
    assert Group(f, o, zero)[..3] == [25, 38, 60];
    assert Group(f, zero, zero)[..2] == [25, 32];
  }
}
