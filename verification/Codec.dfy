/**
 * The string codec of mobile/canvaskit/canvaskit.js: `qa` counts UTF-8 bytes, `ra` writes them into a bounded
 * window of the heap, `db` reads them back. A code unit is 16 bits, a heap byte 8, and the values computed in
 * between are 32-bit integers.
 */
module Codec {
  import opened Basics
  import opened Flattening

  type CodeUnit = bv16
  type Byte = bv8
  type Str = seq<CodeUnit>

  /** A code point outside the surrogates. */
  type Char = c: bv32 | c < 55296 || 57343 < c <= 0x10FFFF

  /** What the bit patterns of the decoder can yield. */
  type Code = v: bv32 | v <= 0x1FFFFF

  // ----- The characters of a string, as the encoder reads them

  predicate Surrogate(u: CodeUnit) {
    55296 <= u <= 57343
  }

  /** `charCodeAt(k) & 1023`; past the end `charCodeAt` is NaN, and `NaN & 1023` is 0. */
  function LowBits(s: Str, k: nat): (low: bv32)
    ensures low <= 1023
  {
    if k < |s| then s[k] as bv32 & 1023 else 0
  }

  /** Any surrogate is taken for the first of a pair, whatever follows it. */
  function Pair(u: CodeUnit, low: bv32): (c: Char)
    requires low <= 1023
    ensures c >= 65536
  {
    (65536 + ((u as bv32 & 1023) << 10)) | low
  }

  function CharAt(s: Str, k: nat): Char
    requires k < |s|
  {
    if Surrogate(s[k]) then Pair(s[k], LowBits(s, k + 1)) else s[k] as bv32
  }

  /** The position after the character at `k`; a surrogate at the very end makes it one past the end. */
  function After(s: Str, k: nat): nat
    requires k < |s|
  {
    if Surrogate(s[k]) then k + 2 else k + 1
  }

  function CharsFrom(s: Str, k: nat): seq<Char>
    decreases |s| - k
  {
    if k >= |s| then [] else [CharAt(s, k)] + CharsFrom(s, After(s, k))
  }

  function Chars(s: Str): seq<Char> {
    CharsFrom(s, 0)
  }

  // ----- UTF-8 (section 3 of RFC 3629) and UTF-16 (section 2.1 of RFC 2781)

  function Utf8(c: Char): (bytes: seq<Byte>)
    ensures 1 <= |bytes| <= 4
  {
    if c <= 127 then
      [c as Byte]
    else if c <= 2047 then
      [(192 | (c >> 6)) as Byte, (128 | (c & 63)) as Byte]
    else if c <= 65535 then
      [(224 | (c >> 12)) as Byte, (128 | ((c >> 6) & 63)) as Byte, (128 | (c & 63)) as Byte]
    else
      [(240 | (c >> 18)) as Byte, (128 | ((c >> 12) & 63)) as Byte, (128 | ((c >> 6) & 63)) as Byte,
       (128 | (c & 63)) as Byte]
  }

  function HighUnit(x: bv32): CodeUnit
    requires x <= 2047
  {
    (55296 | x) as CodeUnit
  }

  function LowUnit(x: bv32): CodeUnit
    requires x <= 1023
  {
    (56320 | x) as CodeUnit
  }

  /** `String.fromCharCode` of a value below 2^21, as one unit or as a pair. */
  function FromCode(v: Code): (units: Str)
    ensures 1 <= |units| <= 2
  {
    if v < 65536 then [v as CodeUnit] else [HighUnit((v - 65536) >> 10), LowUnit((v - 65536) & 1023)]
  }

  function Utf16(c: Char): (units: Str)
    ensures 1 <= |units| <= 2
  {
    FromCode(c)
  }

  function Encoding(cs: seq<Char>): seq<Byte> {
    Flat(cs, Utf8)
  }

  function Units(cs: seq<Char>): Str {
    Flat(cs, Utf16)
  }

  // ----- qa: counting

  /** What the unit at the head of a character adds to the count. */
  lemma CharCost(a: Str, k: nat)
    requires k < |a|
    ensures |Encoding(CharsFrom(a, k))| == |Encoding(CharsFrom(a, After(a, k)))|
      + if a[k] <= 127 then 1 else if a[k] <= 2047 then 2 else if Surrogate(a[k]) then 4 else 3
  {
  }

  method CountBytes(a: Str) returns (b: nat)
    ensures b == |Encoding(Chars(a))|
  {
    b := 0;
    var c := 0;
    while c < |a|
      invariant b + |Encoding(CharsFrom(a, c))| == |Encoding(Chars(a))|
      decreases |a| - c
    {
      var e := a[c];
      CharCost(a, c);
      if e <= 127 {
        b := b + 1;
      } else if e <= 2047 {
        b := b + 2;
      } else if 55296 <= e && e <= 57343 {
        b := b + 4;
        c := c + 1;
      } else {
        b := b + 3;
      }
      c := c + 1;
    }
  }

  // ----- ra: writing

  /** The longest prefix of whole characters that fits into `room` bytes, encoded. */
  function Fitting(a: Str, room: int): seq<Byte> {
    Encoding(Chars(a)[..Fit(Chars(a), Utf8, room)])
  }

  /** One character of the string, and where the loop goes on. */
  method ReadChar(a: Str, k: nat) returns (n: Char, next: nat)
    requires k < |a|
    ensures n == CharAt(a, k) && next == After(a, k)
  {
    if Surrogate(a[k]) {
      n, next := Pair(a[k], LowBits(a, k + 1)), k + 2;
    } else {
      n, next := a[k] as bv32, k + 1;
    }
  }

  /** `e[i] = x`, which a typed array ignores beyond its end. The array shows the front of an endless heap `v`. */
  method Put(e: array<Byte>, i: nat, x: Byte, ghost v: seq<Byte>) returns (ghost v': seq<Byte>)
    requires i < |v| && e[..] <= v
    modifies e
    ensures v' == v[i := x] && e[..] <= v'
  {
    v' := v[i := x];
    if i < e.Length {
      e[i] := x;
    }
  }

  method PutTwo(e: array<Byte>, i: nat, x: Byte, y: Byte, ghost v: seq<Byte>) returns (ghost v': seq<Byte>)
    requires i + 1 < |v| && e[..] <= v
    modifies e
    ensures v' == v[i := x][i + 1 := y] && e[..] <= v'
  {
    v' := Put(e, i, x, v);
    v' := Put(e, i + 1, y, v');
  }

  lemma Assembled(v: seq<Byte>, v': seq<Byte>, b: nat, text: seq<Byte>)
    requires b + |text| <= |v| == |v'|
    requires forall i :: 0 <= i < |text| ==> v'[b + i] == text[i]
    requires forall i :: 0 <= i < |v| && !(b <= i < b + |text|) ==> v'[i] == v[i]
    ensures v' == v[..b] + text + v[b + |text|..]
  {
    assert v' == v'[..b] + v'[b..b + |text|] + v'[b + |text|..];
  }

  /** The bytes of one character, or nothing when they do not all fit before `end`. */
  method WriteChar(n: Char, e: array<Byte>, b: nat, end: nat, ghost v: seq<Byte>)
    returns (next: nat, ghost v': seq<Byte>)
    requires b <= end < |v| && e[..] <= v
    modifies e
    ensures e[..] <= v'
    ensures |Utf8(n)| > end - b ==> next == b && v' == v
    ensures |Utf8(n)| <= end - b ==> next == b + |Utf8(n)| && v' == v[..b] + Utf8(n) + v[next..]
  {
    next, v' := b, v;
    if n <= 127 {
      if next >= end {
        return;
      }
      v' := Put(e, next, n as Byte, v');
      next := next + 1;
    } else {
      if n <= 2047 {
        if next + 1 >= end {
          return;
        }
        v' := Put(e, next, (192 | (n >> 6)) as Byte, v');
        next := next + 1;
      } else {
        if n <= 65535 {
          if next + 2 >= end {
            return;
          }
          v' := Put(e, next, (224 | (n >> 12)) as Byte, v');
          next := next + 1;
        } else {
          if next + 3 >= end {
            return;
          }
          v' := PutTwo(e, next, (240 | (n >> 18)) as Byte, (128 | ((n >> 12) & 63)) as Byte, v');
          next := next + 2;
        }
        v' := Put(e, next, (128 | ((n >> 6) & 63)) as Byte, v');
        next := next + 1;
      }
      v' := Put(e, next, (128 | (n & 63)) as Byte, v');
      next := next + 1;
    }
    Assembled(v, v', b, Utf8(n));
  }

  /** The loop of `ra`: characters from the front until one does not fit between `f` and `end`. */
  method WriteChars(a: Str, e: array<Byte>, f: nat, end: nat, ghost v: seq<Byte>)
    returns (at: nat, ghost v': seq<Byte>)
    requires f <= end < |v| && e[..] <= v
    modifies e
    ensures e[..] <= v'
    ensures at == f + |Fitting(a, end - f)| <= end
    ensures v' == v[..f] + Fitting(a, end - f) + v[at..]
  {
    hide CharAt, Utf8, Fit, Flat;
    at, v' := f, v;
    var k := 0;
    ghost var done: seq<Char> := [];
    WritingStarts(v, f, end, Chars(a), Utf8);
    while k < |a|
      invariant f <= at <= end && e[..] <= v'
      invariant Writing(v', v, f, end, Chars(a), Utf8, done, CharsFrom(a, k), at)
      decreases |a| - k
    {
      ghost var rest, heap := CharsFrom(a, k), v';
      var n, after := ReadChar(a, k);
      assert rest[0] == n && rest[1..] == CharsFrom(a, after);
      var next;
      next, v' := WriteChar(n, e, at, end, v');
      if next == at {
        assert |Utf8(n)| > end - at;
        break;
      }
      WritingAdvances(heap, v', v, f, end, Chars(a), Utf8, done, rest, at);
      done, at, k := done + [n], next, after;
    }
    WritingEnds(v', v, f, end, Chars(a), Utf8, done, CharsFrom(a, k), at);
  }

  /** The heap with `text` laid over it from `b` on, as far as the heap goes. */
  function Overlay(h: seq<Byte>, b: nat, text: seq<Byte>): (r: seq<Byte>)
    ensures |r| == |h|
  {
    seq(|h|, i requires 0 <= i < |h| => if b <= i < b + |text| then text[i - b] else h[i])
  }

  lemma OverlayInside(h: seq<Byte>, b: nat, text: seq<Byte>)
    requires b + |text| <= |h|
    ensures Overlay(h, b, text) == h[..b] + text + h[b + |text|..]
  {
  }

  lemma OverlayOfFront(h: seq<Byte>, v: seq<Byte>, b: nat, text: seq<Byte>, after: seq<Byte>)
    requires h <= v && b + |text| <= |v|
    requires |after| == |h| && after <= v[..b] + text + v[b + |text|..]
    ensures after == Overlay(h, b, text)
  {
  }

  /**
   * `ra(a, b, c)`: the window is the `c` bytes from `b`. Without room it writes nothing; otherwise it writes the
   * encoding of the longest prefix of whole characters that leaves a byte free, then NUL, and nothing else. What
   * falls beyond the end of the heap is lost, and the result counts it all the same.
   */
  method WriteString(a: Str, e: array<Byte>, b: nat, c: int) returns (written: nat)
    modifies e
    ensures c <= 0 ==> written == 0 && e[..] == old(e[..])
    ensures c > 0 ==> written == |Fitting(a, c - 1)| < c
    ensures c > 0 ==> e[..] == Overlay(old(e[..]), b, Fitting(a, c - 1) + [0])
  {
    if !(0 < c) {
      return 0;
    }
    ghost var v := e[..] + seq(b + c, _ => 0);
    var at; ghost var v';
    at, v' := WriteChars(a, e, b, b + c - 1, v);
    v' := Put(e, at, 0, v');
    written := at - b;
    ghost var text := Fitting(a, c - 1) + [0];
    assert v' == v[..b] + text + v[b + |text|..];
    OverlayOfFront(old(e[..]), v, b, text, e[..]);
  }

  // ----- db: reading

  /** `a[i] & 63`; past the end of the array `a[i]` is undefined, and `undefined & 63` is 0. */
  function Low6(h: seq<Byte>, i: nat): (low: bv32)
    ensures low <= 63
  {
    if i < |h| then h[i] as bv32 & 63 else 0
  }

  function Two(f: bv32, k: bv32): Code
    requires k <= 63
  {
    ((f & 31) << 6) | k
  }

  function Three(f: bv32, k: bv32, n: bv32): Code
    requires k <= 63 && n <= 63
  {
    ((f & 15) << 12) | (k << 6) | n
  }

  function Four(f: bv32, k: bv32, n: bv32, m: bv32): Code
    requires k <= 63 && n <= 63 && m <= 63
  {
    ((f & 7) << 18) | (k << 12) | (n << 6) | m
  }

  /** The value that one pass of the decoder's loop reads at `b`. */
  function ValueAt(h: seq<Byte>, b: nat): Code
    requires b < |h|
  {
    var f := h[b] as bv32;
    if f & 128 == 0 then f
    else if f & 224 == 192 then Two(f, Low6(h, b + 1))
    else if f & 240 == 224 then Three(f, Low6(h, b + 1), Low6(h, b + 2))
    else Four(f, Low6(h, b + 1), Low6(h, b + 2), Low6(h, b + 3))
  }

  /** The position after it, which may be beyond the end of the text. */
  function AfterValue(h: seq<Byte>, b: nat): nat
    requires b < |h|
  {
    var f := h[b] as bv32;
    if f & 128 == 0 then b + 1 else if f & 224 == 192 then b + 2 else if f & 240 == 224 then b + 3 else b + 4
  }

  function Values(h: seq<Byte>, b: nat, c: int): seq<Code>
    requires c <= |h|
    decreases c - b
  {
    if b >= c then [] else [ValueAt(h, b)] + Values(h, AfterValue(h, b), c)
  }

  function Decoded(h: seq<Byte>, b: nat, c: int): Str
    requires c <= |h|
  {
    Flat(Values(h, b, c), FromCode)
  }

  /** Where the text from `i` ends: at a NUL, at the end of the array, or at `stop` if there is one. */
  function EndOfText(h: seq<Byte>, i: nat, stop: Option<int>): (end: nat)
    ensures i <= |h| ==> i <= end <= |h|
    decreases |h| - i
  {
    if i < |h| && h[i] != 0 && !(stop.Some? && i >= stop.value) then EndOfText(h, i + 1, stop) else i
  }

  method ReadValue(a: array<Byte>, b: nat) returns (f: Code, next: nat)
    requires b < a.Length
    ensures f == ValueAt(a[..], b) && next == AfterValue(a[..], b)
  {
    f, next := a[b] as bv32, b + 1;
    if f & 128 != 0 {
      var k := Low6(a[..], next);
      next := next + 1;
      if f & 224 == 192 {
        f := Two(f, k);
      } else {
        var n := Low6(a[..], next);
        next := next + 1;
        if f & 240 == 224 {
          f := Three(f, k, n);
        } else {
          f := Four(f, k, n, Low6(a[..], next));
          next := next + 1;
        }
      }
    }
  }

  /** The first loop of `db`. */
  method FindEnd(a: array<Byte>, b: nat, stop: Option<int>) returns (end: nat)
    requires b <= a.Length
    ensures end == EndOfText(a[..], b, stop)
  {
    end := b;
    while end < a.Length && a[end] != 0 && !(stop.Some? && end >= stop.value)
      invariant b <= end <= a.Length
      invariant EndOfText(a[..], b, stop) == EndOfText(a[..], end, stop)
    {
      end := end + 1;
    }
  }

  /** The second loop of `db`. */
  method Decode(a: array<Byte>, b: nat, end: nat) returns (s: Str)
    requires end <= a.Length
    ensures s == Decoded(a[..], b, end)
  {
    hide ValueAt, FromCode, Flat;
    s := [];
    var at := b;
    ghost var read: seq<Code> := [];
    FlatOfNothing<Code, CodeUnit>(FromCode);
    while at < end
      invariant s == Flat(read, FromCode)
      invariant read + Values(a[..], at, end) == Values(a[..], b, end)
      decreases end - at
    {
      var f, next := ReadValue(a, at);
      FlatAppend(read, f, FromCode);
      assert read + ([f] + Values(a[..], next, end)) == (read + [f]) + Values(a[..], next, end);
      s, read, at := s + FromCode(f), read + [f], next;
    }
    assert read == Values(a[..], b, end);
  }

  /** Where `db` stops when it is given a byte count, and when it is not. */
  function StopAt(b: nat, c: Option<int>): Option<int> {
    if c.None? then None else Some(b + c.value)
  }

  /** The bytes between `b` and `end` as `db` decodes them: above 16 bytes with the native decoder, if there is one. */
  function Text(h: seq<Byte>, b: nat, end: nat, native: Option<seq<Byte> -> Str>): Str
    requires b <= end <= |h|
  {
    if 16 < end - b && native.Some? then native.value(h[b..end]) else Decoded(h, b, end)
  }

  /** `db(a, b, c)`; `native` is the decoder of the TextDecoder that the runtime may have. */
  method ReadString(a: array<Byte>, b: nat, c: Option<int>, native: Option<seq<Byte> -> Str>) returns (s: Str)
    requires b <= a.Length
    ensures s == Text(a[..], b, EndOfText(a[..], b, StopAt(b, c)), native)
  {
    var end := FindEnd(a, b, StopAt(b, c));
    if 16 < end - b && native.Some? {
      return native.value(a[b..end]);
    }
    s := Decode(a, b, end);
  }

  // ----- There and back

  lemma Decode2(c: Char, h: seq<Byte>, b: nat)
    requires 128 <= c <= 2047 && b + 2 <= |h|
    requires h[b] == (192 | (c >> 6)) as Byte && h[b + 1] == (128 | (c & 63)) as Byte
    ensures ValueAt(h, b) == c && AfterValue(h, b) == b + 2
  {
  }

  lemma Decode3(c: Char, h: seq<Byte>, b: nat)
    requires 2048 <= c <= 65535 && b + 3 <= |h|
    requires h[b] == (224 | (c >> 12)) as Byte && h[b + 1] == (128 | ((c >> 6) & 63)) as Byte
    requires h[b + 2] == (128 | (c & 63)) as Byte
    ensures ValueAt(h, b) == c && AfterValue(h, b) == b + 3
  {
  }

  lemma Decode4(c: Char, h: seq<Byte>, b: nat)
    requires 65536 <= c && b + 4 <= |h|
    requires h[b] == (240 | (c >> 18)) as Byte && h[b + 1] == (128 | ((c >> 12) & 63)) as Byte
    requires h[b + 2] == (128 | ((c >> 6) & 63)) as Byte && h[b + 3] == (128 | (c & 63)) as Byte
    ensures ValueAt(h, b) == c && AfterValue(h, b) == b + 4
  {
  }

  /** The decoder undoes the code of one character, and consumes exactly its bytes. */
  lemma DecodeOne(c: Char, h: seq<Byte>, b: nat)
    requires b + |Utf8(c)| <= |h|
    requires forall i :: 0 <= i < |Utf8(c)| ==> h[b + i] == Utf8(c)[i]
    ensures ValueAt(h, b) == c && AfterValue(h, b) == b + |Utf8(c)|
  {
    assert h[b + 0] == Utf8(c)[0];
    if c <= 127 {
    } else if c <= 2047 {
      assert h[b + 1] == Utf8(c)[1];
      Decode2(c, h, b);
    } else if c <= 65535 {
      assert h[b + 1] == Utf8(c)[1] && h[b + 2] == Utf8(c)[2];
      Decode3(c, h, b);
    } else {
      assert h[b + 1] == Utf8(c)[1] && h[b + 2] == Utf8(c)[2] && h[b + 3] == Utf8(c)[3];
      Decode4(c, h, b);
    }
  }

  lemma NoZeroBytes(c: Char)
    requires c != 0
    ensures forall i :: 0 <= i < |Utf8(c)| ==> Utf8(c)[i] != 0
  {
  }

  /** `text` stands at `b` in the heap. */
  predicate StandsAt(text: seq<Byte>, h: seq<Byte>, b: nat) {
    b + |text| <= |h| && forall i :: 0 <= i < |text| ==> h[b + i] == text[i]
  }

  lemma StandsInParts(first: seq<Byte>, rest: seq<Byte>, h: seq<Byte>, b: nat)
    requires StandsAt(first + rest, h, b)
    ensures StandsAt(first, h, b) && StandsAt(rest, h, b + |first|)
  {
    forall i | 0 <= i < |first|
      ensures h[b + i] == first[i]
    {
      assert (first + rest)[i] == first[i];
    }
    forall i | 0 <= i < |rest|
      ensures h[b + |first| + i] == rest[i]
    {
      assert (first + rest)[|first| + i] == rest[i];
    }
  }

  /** Decoding the bytes of an encoding gives back its characters. */
  lemma {:induction false} ValuesOfEncoding(cs: seq<Char>, h: seq<Byte>, b: nat)
    requires StandsAt(Encoding(cs), h, b)
    ensures Values(h, b, b + |Encoding(cs)|) == cs
  {
    hide Utf8, ValueAt, AfterValue;
    if cs != [] {
      StandsInParts(Utf8(cs[0]), Encoding(cs[1..]), h, b);
      DecodeOne(cs[0], h, b);
      ValuesOfEncoding(cs[1..], h, b + |Utf8(cs[0])|);
    }
  }

  function BeforeNul(cs: seq<Char>): (r: seq<Char>)
    ensures r <= cs && 0 !in r
  {
    if cs == [] || cs[0] == 0 then [] else [cs[0]] + BeforeNul(cs[1..])
  }

  lemma {:induction false} ScanPasses(h: seq<Byte>, i: nat, n: nat, stop: Option<int>)
    requires i + n <= |h| && forall j :: i <= j < i + n ==> h[j] != 0
    requires stop.Some? ==> i + n <= stop.value
    ensures EndOfText(h, i, stop) == EndOfText(h, i + n, stop)
    decreases n
  {
    if n > 0 {
      ScanPasses(h, i + 1, n - 1, stop);
    }
  }

  /** The scan stops at the first NUL, at the limit, or at the end of the array, and not before. */
  lemma {:induction false} ScanStopsFirst(h: seq<Byte>, i: nat, stop: Option<int>)
    requires i <= |h|
    ensures var end := EndOfText(h, i, stop);
      && i <= end <= |h|
      && (forall j :: i <= j < end ==> h[j] != 0 && (stop.Some? ==> j < stop.value))
      && (end == |h| || h[end] == 0 || (stop.Some? && stop.value <= end))
    decreases |h| - i
  {
    if i < |h| {
      ScanStopsFirst(h, i + 1, stop);
    }
  }

  /** A text that ends at `e` ends there for the scan: by a NUL, the end of the array, or the limit. */
  predicate EndsAt(h: seq<Byte>, e: nat, stop: Option<int>) {
    && e <= |h| && (stop.Some? ==> e <= stop.value)
    && (e == |h| || h[e] == 0 || stop == Some(e))
  }

  /** The scan stops at the first encoded NUL, or where the text ends. */
  lemma {:induction false} EndOfEncoding(cs: seq<Char>, h: seq<Byte>, b: nat, stop: Option<int>)
    requires StandsAt(Encoding(cs), h, b) && EndsAt(h, b + |Encoding(cs)|, stop)
    ensures EndOfText(h, b, stop) == b + |Encoding(BeforeNul(cs))|
  {
    hide Low6;
    if cs != [] {
      StandsInParts(Utf8(cs[0]), Encoding(cs[1..]), h, b);
      if cs[0] == 0 {
        assert h[b + 0] == Utf8(cs[0])[0];
      } else {
        NoZeroBytes(cs[0]);
        forall j | b <= j < b + |Utf8(cs[0])|
          ensures h[j] != 0
        {
          assert h[b + (j - b)] == Utf8(cs[0])[j - b];
        }
        ScanPasses(h, b, |Utf8(cs[0])|, stop);
        EndOfEncoding(cs[1..], h, b + |Utf8(cs[0])|, stop);
        assert BeforeNul(cs)[1..] == BeforeNul(cs[1..]);
      }
    }
  }

  lemma BeforeNulStands(cs: seq<Char>, h: seq<Byte>, b: nat)
    requires StandsAt(Encoding(cs), h, b)
    ensures StandsAt(Encoding(BeforeNul(cs)), h, b)
  {
    var rest := cs[|BeforeNul(cs)|..];
    assert cs == BeforeNul(cs) + rest;
    FlatConcat(BeforeNul(cs), rest, Utf8);
    StandsInParts(Encoding(BeforeNul(cs)), Encoding(rest), h, b);
  }

  // ----- Which strings come back

  predicate High(u: CodeUnit) {
    55296 <= u <= 56319
  }

  predicate Low(u: CodeUnit) {
    56320 <= u <= 57343
  }

  /** From `k` on, every high surrogate is followed by a low one, and there are no others. */
  predicate PairedFrom(s: Str, k: nat)
    decreases |s| - k
  {
    if k >= |s| then true
    else if Surrogate(s[k]) then High(s[k]) && k + 1 < |s| && Low(s[k + 1]) && PairedFrom(s, k + 2)
    else PairedFrom(s, k + 1)
  }

  lemma PairSplits(u: CodeUnit, low: bv32)
    requires low <= 1023
    ensures (Pair(u, low) - 65536) >> 10 == u as bv32 & 1023
    ensures (Pair(u, low) - 65536) & 1023 == low
  {
  }

  lemma LowComesBack(u: CodeUnit)
    ensures LowUnit(u as bv32 & 1023) == u <==> Low(u)
  {
  }

  /** What the encoder makes of a surrogate is decoded to that unit exactly when it is a high one. */
  lemma HeadComesBackIff(u: CodeUnit, low: bv32, c: Char)
    requires Surrogate(u) && low <= 1023
    requires c >= 65536 && (c - 65536) >> 10 == u as bv32 & 1023 && (c - 65536) & 1023 == low
    ensures |FromCode(c)| == 2
    ensures FromCode(c)[0] == u <==> High(u)
    ensures FromCode(c)[1] == LowUnit(low)
  {
  }

  /** A surrogate and the unit after it come back exactly when they are a pair. */
  lemma PairComesBackIff(u: CodeUnit, v: CodeUnit, low: bv32, c: Char)
    requires Surrogate(u) && low == v as bv32 & 1023 && c == Pair(u, low)
    ensures |Utf16(c)| == 2
    ensures Utf16(c)[0] == u <==> High(u)
    ensures Utf16(c)[1] == v <==> Low(v)
  {
    PairSplits(u, low);
    HeadComesBackIff(u, low, c);
    LowComesBack(v);
  }

  lemma LowBitsInside(s: Str, k: nat)
    requires k < |s|
    ensures LowBits(s, k) == s[k] as bv32 & 1023
  {
  }

  lemma CharAtIsPair(s: Str, k: nat, low: bv32)
    requires k + 1 < |s| && Surrogate(s[k]) && low == LowBits(s, k + 1)
    ensures CharAt(s, k) == Pair(s[k], low)
  {
  }

  lemma SurrogateHead(s: Str, k: nat)
    requires k + 1 < |s| && Surrogate(s[k])
    ensures Utf16(CharAt(s, k)) == s[k..k + 2] <==> High(s[k]) && Low(s[k + 1])
  {
    var low, c := LowBits(s, k + 1), CharAt(s, k);
    LowBitsInside(s, k + 1);
    CharAtIsPair(s, k, low);
    PairComesBackIff(s[k], s[k + 1], low, c);
    PairEquality(Utf16(c), s[k], s[k + 1], s, k);
  }

  lemma PairEquality<B>(two: seq<B>, u: B, v: B, s: seq<B>, k: nat)
    requires |two| == 2 && k + 1 < |s| && u == s[k] && v == s[k + 1]
    ensures two == s[k..k + 2] <==> two[0] == u && two[1] == v
  {
  }

  lemma SurrogateIsLong(s: Str, k: nat)
    requires k < |s| && Surrogate(s[k])
    ensures CharAt(s, k) != 0 && |Utf16(CharAt(s, k))| == 2
  {
  }

  lemma PlainHead(s: Str, k: nat)
    requires k < |s| && !Surrogate(s[k])
    ensures Utf16(CharAt(s, k)) == [s[k]] && (CharAt(s, k) == 0 <==> s[k] == 0)
  {
  }

  lemma HeadTail<B>(units: seq<B>, rest: seq<B>, s: seq<B>, k: nat)
    requires k < |s|
    ensures units + rest == s[k..] <==>
      k + |units| <= |s| && units == s[k..k + |units|] && rest == s[k + |units|..]
  {
  }

  /** Re-reading the characters before the first NUL gives the string back exactly if it is paired and has no NUL. */
  lemma {:induction false} UnitsComeBackIff(s: Str, k: nat)
    requires k <= |s|
    ensures Units(BeforeNul(CharsFrom(s, k))) == s[k..] <==> PairedFrom(s, k) && 0 !in s[k..]
    decreases |s| - k
  {
    if k < |s| {
      assert CharsFrom(s, k)[1..] == CharsFrom(s, After(s, k));
      if Surrogate(s[k]) {
        SurrogateComesBack(s, k);
        if k + 2 <= |s| {
          UnitsComeBackIff(s, k + 2);
        }
      } else {
        PlainComesBack(s, k);
        UnitsComeBackIff(s, k + 1);
      }
    }
  }

  lemma SurrogateComesBack(s: Str, k: nat)
    requires k < |s| && Surrogate(s[k])
    ensures Units(BeforeNul(CharsFrom(s, k))) == s[k..] <==>
      k + 1 < |s| && High(s[k]) && Low(s[k + 1]) && Units(BeforeNul(CharsFrom(s, k + 2))) == s[k + 2..]
    ensures 0 in s[k..] && k + 1 < |s| && Low(s[k + 1]) ==> 0 in s[k + 2..]
  {
    hide CharAt, Utf16;
    var c, cs := CharAt(s, k), CharsFrom(s, k);
    SurrogateIsLong(s, k);
    assert cs[0] == c && cs[1..] == CharsFrom(s, k + 2);
    UnitsOfNext(c, cs);
    HeadTail(Utf16(c), Units(BeforeNul(cs[1..])), s, k);
    if k + 1 < |s| {
      SurrogateHead(s, k);
      if 0 in s[k..] && Low(s[k + 1]) {
        var i :| k <= i < |s| && s[i] == 0;
        assert s[k + 2..][i - (k + 2)] == 0;
      }
    }
  }

  lemma PlainComesBack(s: Str, k: nat)
    requires k < |s| && !Surrogate(s[k])
    ensures Units(BeforeNul(CharsFrom(s, k))) == s[k..] <==>
      s[k] != 0 && Units(BeforeNul(CharsFrom(s, k + 1))) == s[k + 1..]
    ensures 0 in s[k..] <==> s[k] == 0 || 0 in s[k + 1..]
  {
    hide CharAt, Utf16;
    var c, cs := CharAt(s, k), CharsFrom(s, k);
    PlainHead(s, k);
    assert cs[0] == c && cs[1..] == CharsFrom(s, k + 1);
    assert s[k..] == [s[k]] + s[k + 1..];
    if s[k] != 0 {
      UnitsOfNext(c, cs);
      HeadTail(Utf16(c), Units(BeforeNul(cs[1..])), s, k);
      assert s[k..k + 1] == [s[k]];
    }
  }

  lemma UnitsOfNext(c: Char, cs: seq<Char>)
    requires cs != [] && cs[0] == c && c != 0
    ensures Units(BeforeNul(cs)) == Utf16(c) + Units(BeforeNul(cs[1..]))
  {
  }

  lemma {:induction false} SameUnits(cs: seq<Char>, codes: seq<Code>)
    requires |cs| == |codes| && forall i :: 0 <= i < |cs| ==> cs[i] == codes[i]
    ensures Units(cs) == Flat(codes, FromCode)
  {
    if cs != [] {
      SameUnits(cs[1..], codes[1..]);
    }
  }

  const BYTE_ORDER_MARK: Char := 0xFEFF

  function WithoutMark(cs: seq<Char>): seq<Char> {
    if cs != [] && cs[0] == BYTE_ORDER_MARK then cs[1..] else cs
  }

  /** What the Encoding Standard asks of a UTF-8 TextDecoder, as far as the bytes are well-formed. */
  ghost predicate Standard(native: Option<seq<Byte> -> Str>) {
    native.Some? ==> forall cs: seq<Char> :: native.value(Encoding(cs)) == Units(WithoutMark(cs))
  }

  /** The characters that `db` makes of an encoding: the native decoder drops a leading byte order mark. */
  function AsRead(cs: seq<Char>, native: bool): seq<Char> {
    if native && |Encoding(cs)| > 16 then WithoutMark(cs) else cs
  }

  lemma NativeReads(native: seq<Byte> -> Str, cs: seq<Char>, h: seq<Byte>, b: nat)
    requires Standard(Some(native)) && StandsAt(Encoding(cs), h, b)
    ensures native(h[b..b + |Encoding(cs)|]) == Units(WithoutMark(cs))
  {
    assert h[b..b + |Encoding(cs)|] == Encoding(cs);
  }

  lemma HandWrittenReads(cs: seq<Char>, h: seq<Byte>, b: nat)
    requires StandsAt(Encoding(cs), h, b)
    ensures Decoded(h, b, b + |Encoding(cs)|) == Units(cs)
  {
    ValuesOfEncoding(cs, h, b);
    SameUnits(cs, Values(h, b, b + |Encoding(cs)|));
  }

  /** What is read back where characters were written: those up to the first NUL, as code units. */
  lemma ReadsBack(cs: seq<Char>, h: seq<Byte>, b: nat, stop: Option<int>, native: Option<seq<Byte> -> Str>)
    requires StandsAt(Encoding(cs), h, b) && EndsAt(h, b + |Encoding(cs)|, stop)
    requires Standard(native)
    ensures Text(h, b, EndOfText(h, b, stop), native) == Units(AsRead(BeforeNul(cs), native.Some?))
  {
    hide Encoding, Decoded, Units, EndOfText, BeforeNul, WithoutMark, Standard;
    EndOfEncoding(cs, h, b, stop);
    BeforeNulStands(cs, h, b);
    HandWrittenReads(BeforeNul(cs), h, b);
    if native.Some? {
      NativeReads(native.value, BeforeNul(cs), h, b);
    }
  }

  /** A string that has lost its first unit, a byte order mark, is not the string it was. */
  lemma {:induction false} LostMarkDiffers(s: Str, k: nat)
    requires 1 <= k <= |s| && s[k - 1] == 0xFEFF
    ensures Units(BeforeNul(CharsFrom(s, k))) != s[k - 1..]
    decreases |s| - k
  {
    if k < |s| {
      var c, cs := CharAt(s, k), CharsFrom(s, k);
      assert cs[0] == c;
      if c != 0 {
        UnitsOfNext(c, cs);
        if Surrogate(s[k]) {
          SurrogateFirst(s, k);
        } else {
          PlainHead(s, k);
          assert cs[1..] == CharsFrom(s, k + 1);
          assert s[k - 1..] == [s[k - 1]] + s[k..];
          if s[k] == 0xFEFF {
            LostMarkDiffers(s, k + 1);
          }
        }
      }
    }
  }

  lemma SurrogateFirst(s: Str, k: nat)
    requires k < |s| && Surrogate(s[k])
    ensures Utf16(CharAt(s, k))[0] != 0xFEFF
  {
  }

  /** A piece given by its byte count alone is read back, whatever byte follows it. */
  lemma CountedReadsBack(cs: seq<Char>, h: seq<Byte>, b: nat, native: Option<seq<Byte> -> Str>)
    requires StandsAt(Encoding(cs), h, b) && 0 !in cs && Standard(native)
    ensures Text(h, b, EndOfText(h, b, StopAt(b, Some(|Encoding(cs)|))), native) == Units(AsRead(cs, native.Some?))
  {
    ReadsBack(cs, h, b, StopAt(b, Some(|Encoding(cs)|)), native);
    NothingCut(cs);
  }

  lemma {:induction false} NothingCut(cs: seq<Char>)
    requires 0 !in cs
    ensures BeforeNul(cs) == cs
  {
    if cs != [] {
      NothingCut(cs[1..]);
    }
  }

  lemma EverythingFits(a: Str)
    ensures Fit(Chars(a), Utf8, |Encoding(Chars(a))|) == |Chars(a)|
  {
    var cs := Chars(a);
    FitIsLongest(cs, Utf8, |Encoding(cs)|, |cs|);
    assert cs[..|cs|] == cs;
  }

  lemma WrittenStands(bytes: seq<Byte>, h: seq<Byte>, before: seq<Byte>, ptr: nat)
    requires ptr + |bytes| + 1 <= |before|
    requires h == before[..ptr] + bytes + [0] + before[ptr + |bytes| + 1..]
    ensures StandsAt(bytes, h, ptr) && |h| == |before| && h[ptr + |bytes|] == 0
  {
  }

  /**
   * Writing a string into any window and reading it back: the longest prefix of whole characters that fits comes
   * back, up to a NUL, and never part of a character; a native decoder drops a mark at the front of a long text.
   */
  method WriteAndReadWindow(s: Str, heap: array<Byte>, ptr: nat, c: nat, native: Option<seq<Byte> -> Str>)
    returns (r: Str)
    requires c > 0 && ptr + c <= heap.Length && Standard(native)
    modifies heap
    ensures r == Units(AsRead(BeforeNul(Chars(s)[..Fit(Chars(s), Utf8, c - 1)]), native.Some?))
  {
    ghost var before := heap[..];
    var written := WriteString(s, heap, ptr, c);
    OverlayInside(before, ptr, Fitting(s, c - 1) + [0]);
    WrittenStands(Fitting(s, c - 1), heap[..], before, ptr);
    r := ReadString(heap, ptr, None, native);
    ReadsBack(Chars(s)[..Fit(Chars(s), Utf8, c - 1)], heap[..], ptr, None, native);
  }

  /** A native decoder takes the mark off this string. */
  predicate LosesMark(s: Str, native: bool) {
    native && s != [] && s[0] == 0xFEFF && |Encoding(Chars(s))| > 16
  }

  lemma ComesBackIff(s: Str, native: bool)
    ensures Units(AsRead(BeforeNul(Chars(s)), native)) == s <==>
      PairedFrom(s, 0) && 0 !in s && !LosesMark(s, native)
  {
    hide Utf8, Utf16, Flat;
    var cs, before := Chars(s), BeforeNul(Chars(s));
    UnitsComeBackIff(s, 0);
    assert s[0..] == s;
    FlatConcat(before, cs[|before|..], Utf8);
    assert cs == before + cs[|before|..];
    if s != [] {
      MarkHead(s);
      if s[0] == 0xFEFF {
        LostMarkAtFront(s);
      }
    }
    if 0 !in s {
      NoNulNoCut(s, 0);
    }
  }

  lemma MarkHead(s: Str)
    requires s != []
    ensures CharAt(s, 0) == BYTE_ORDER_MARK <==> s[0] == 0xFEFF
  {
  }

  lemma LostMarkAtFront(s: Str)
    requires s != [] && s[0] == 0xFEFF
    ensures Units(BeforeNul(Chars(s))[1..]) != s
  {
    MarkHead(s);
    LostMarkDiffers(s, 1);
    assert Chars(s)[1..] == CharsFrom(s, 1);
    assert s[0..] == s;
  }

  lemma {:induction false} NoNulNoCut(s: Str, k: nat)
    requires 0 !in s
    ensures BeforeNul(CharsFrom(s, k)) == CharsFrom(s, k)
    decreases |s| - k
  {
    if k < |s| {
      if Surrogate(s[k]) {
        SurrogateIsLong(s, k);
      } else {
        PlainHead(s, k);
      }
      NoNulNoCut(s, After(s, k));
    }
  }

  /** For instance a mark and five euro signs, 18 bytes: paired, without NUL, and changed by a native decoder. */
  lemma MarkAndEuros()
    ensures var s: Str := [0xFEFF, 0x20AC, 0x20AC, 0x20AC, 0x20AC, 0x20AC];
      LosesMark(s, true) && PairedFrom(s, 0) && 0 !in s
  {
    var s: Str := [0xFEFF, 0x20AC, 0x20AC, 0x20AC, 0x20AC, 0x20AC];
    CharCost(s, 0);
    CharCost(s, 1);
    CharCost(s, 2);
    CharCost(s, 3);
    CharCost(s, 4);
    CharCost(s, 5);
    assert PairedFrom(s, 3);
  }

  /**
   * Writing a string into a window of `qa + 1` bytes and reading it back returns it exactly when all its surrogates
   * are paired, it has no NUL, and it is not one that a native decoder takes the byte order mark off. Of any other
   * string, lone surrogates and the units they swallow come back changed, and what follows a NUL does not come back.
   */
  method WriteAndRead(s: Str, heap: array<Byte>, ptr: nat, native: Option<seq<Byte> -> Str>) returns (r: Str)
    requires ptr + |Encoding(Chars(s))| + 1 <= heap.Length && Standard(native)
    modifies heap
    ensures r == s <==> PairedFrom(s, 0) && 0 !in s && !LosesMark(s, native.Some?)
  {
    var n := CountBytes(s);
    r := WriteAndReadWindow(s, heap, ptr, n + 1, native);
    EverythingFits(s);
    assert Chars(s)[..|Chars(s)|] == Chars(s);
    ComesBackIff(s, native.Some?);
  }

  /**
   * What the encoder makes of surrogates: a pair is its character; a lone one swallows the ten low bits of whatever
   * follows it, and of nothing at the end.
   */
  lemma SurrogateExamples()
    ensures CharAt([0xD83D, 0xDE00], 0) == 0x1F600
    ensures CharAt([0xD83D, 0x41], 0) == 0x1F441
    ensures CharAt([0xD83D], 0) == 0x1F400 && After([0xD83D], 0) == 2
    ensures CharAt([0xDE00], 0) == 0x90000
  {
  }

  /**
   * Bytes that are no encoding are decoded all the same: an overlong form of NUL, a lone surrogate, a lead byte at the
   * end of the array, whose missing bytes count as 0, and a stray continuation byte, taken for the first of four.
   */
  lemma MalformedExamples()
    ensures ValueAt([0xC0, 0x80], 0) == 0 && AfterValue([0xC0, 0x80], 0) == 2
    ensures ValueAt([0xED, 0xA0, 0x80], 0) == 0xD800
    ensures ValueAt([0xE2], 0) == 0x2000 && AfterValue([0xE2], 0) == 3
    ensures ValueAt([0x81, 0x82, 0x83, 0x84], 0) == 0x420C4
  {
  }

  /** The first example of section 7 of RFC 3629, and a character beyond the first plane. */
  lemma Rfc3629Examples()
    ensures Utf8(0x41) == [0x41] && Utf8(0x2262) == [0xE2, 0x89, 0xA2] && Utf8(0x391) == [0xCE, 0x91]
    ensures Utf8(0x233B4) == [0xF0, 0xA3, 0x8E, 0xB4] && Utf16(0x233B4) == [0xD84C, 0xDFB4]
  {
  }
}
