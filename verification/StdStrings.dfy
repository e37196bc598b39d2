/**
 * How mobile/canvaskit/canvaskit.js passes a std::string over the boundary (line 147): a length and that many bytes,
 * which are decoded piece by piece between the NULs and joined again.
 */
module StdStrings {
  import opened Basics
  import opened Flattening
  import opened Codec

  // ----- Reading

  /** The bytes from `n` to `end`, decoded between the NULs. */
  function StdText(h: seq<Byte>, n: nat, end: nat, native: Option<seq<Byte> -> Str>): Str
    requires n <= end <= |h|
    decreases end - n
  {
    ScanStopsFirst(h, n, Some(end));
    var p := EndOfText(h, n, Some(end));
    if p >= end then Text(h, n, end, native) else Text(h, n, p, native) + [0] + StdText(h, p + 1, end, native)
  }

  function Joined(first: Option<Str>, rest: Str): Str {
    if first.None? then rest else first.value + [0] + rest
  }

  /** Where no NUL and no limit comes before `p`, the scan passes it by. */
  lemma ScanReaches(h: seq<Byte>, n: nat, p: nat, end: nat)
    requires n <= p <= end <= |h| && forall j :: n <= j < p ==> h[j] != 0
    ensures EndOfText(h, n, Some(p)) == p
    ensures EndOfText(h, n, Some(end)) == EndOfText(h, p, Some(end))
  {
    ScanPasses(h, n, p - n, Some(p));
    ScanPasses(h, n, p - n, Some(end));
  }

  /** What reading the piece from `n` to `p` does to the text still to come. */
  lemma PieceEnds(h: seq<Byte>, n: nat, p: nat, end: nat, native: Option<seq<Byte> -> Str>, v: Option<Str>)
    requires n <= p <= end <= |h| && forall j :: n <= j < p ==> h[j] != 0
    requires p == end || h[p] == 0
    ensures EndOfText(h, n, StopAt(n, Some(p - n))) == p
    ensures Joined(v, StdText(h, n, end, native)) ==
      if p == end then Joined(v, Text(h, n, p, native))
      else Joined(Some(Joined(v, Text(h, n, p, native))), StdText(h, p + 1, end, native))
  {
    hide Text;
    ScanReaches(h, n, p, end);
    if p < end && v.Some? {
      assert v.value + [0] + (Text(h, n, p, native) + [0] + StdText(h, p + 1, end, native))
          == (v.value + [0] + Text(h, n, p, native)) + [0] + StdText(h, p + 1, end, native);
    }
  }

  /** `fromWireType`: `e` is the address of the string, `f` the length found there. */
  method FromWire(heap: array<Byte>, e: nat, f: nat, native: Option<seq<Byte> -> Str>) returns (r: Str)
    requires e + 4 + f <= heap.Length
    ensures r == StdText(heap[..], e + 4, e + 4 + f, native)
  {
    hide StdText, Text, EndOfText, StopAt;
    var k := e + 4;
    var v: Option<Str>, n, l := None, k, 0;
    ghost var h, end, whole := heap[..], k + f, StdText(heap[..], k, k + f, native);
    while l <= f
      invariant k <= n && l <= f + 1
      invariant l <= f ==> n <= k + l && Joined(v, StdText(h, n, end, native)) == whole
      invariant l <= f ==> forall j :: n <= j < k + l ==> h[j] != 0
      invariant l == f + 1 ==> v == Some(whole)
    {
      var p := k + l;
      if l == f || heap[p] == 0 {
        PieceEnds(h, n, p, end, native, v);
        var piece := ReadPiece(heap, n, p, native);
        v, n := Some(Joined(v, piece)), p + 1;
      }
      l := l + 1;
    }
    r := v.value;
  }

  /** `n ? db(B, n, p - n) : ""` */
  method ReadPiece(heap: array<Byte>, n: nat, p: nat, native: Option<seq<Byte> -> Str>) returns (piece: Str)
    requires 0 < n <= p <= heap.Length
    ensures piece == Text(heap[..], n, EndOfText(heap[..], n, StopAt(n, Some(p - n))), native)
  {
    piece := ReadString(heap, n, Some(p - n), native);
  }

  // ----- Writing, and there and back

  /** `toWireType`: the bytes of the string and a NUL go behind the length word at `e`; the length is the result. */
  method ToWire(s: Str, heap: array<Byte>, e: nat) returns (n: nat)
    modifies heap
    ensures n == |Encoding(Chars(s))|
    ensures heap[..] == Overlay(old(heap[..]), e + 4, Encoding(Chars(s)) + [0])
  {
    n := CountBytes(s);
    var _ := WriteString(s, heap, e + 4, n + 1);
    EverythingFits(s);
    assert Chars(s)[..|Chars(s)|] == Chars(s);
  }

  /** The characters between the NULs, each piece as `db` reads it, with NULs between them again. */
  function ReadPieces(cs: seq<Char>, native: bool): Str {
    var piece := BeforeNul(cs);
    if piece == cs then Units(AsRead(piece, native))
    else Units(AsRead(piece, native)) + [0] + ReadPieces(cs[|piece| + 1..], native)
  }

  /** A native decoder takes the mark off some piece of more than 16 bytes. */
  predicate SomePieceLosesMark(cs: seq<Char>, native: bool) {
    var piece := BeforeNul(cs);
    || (native && |Encoding(piece)| > 16 && piece[0] == BYTE_ORDER_MARK)
    || (piece != cs && SomePieceLosesMark(cs[|piece| + 1..], native))
  }

  /** What follows the first piece: a NUL, and the other pieces. */
  lemma NextPiece(cs: seq<Char>)
    requires BeforeNul(cs) != cs
    ensures |BeforeNul(cs)| < |cs| && cs[|BeforeNul(cs)|] == 0
    ensures cs == BeforeNul(cs) + [0] + cs[|BeforeNul(cs)| + 1..]
  {
    StopsAtNul(cs);
    assert cs == cs[..|BeforeNul(cs)|] + [cs[|BeforeNul(cs)|]] + cs[|BeforeNul(cs)| + 1..];
  }

  lemma {:induction false} StopsAtNul(cs: seq<Char>)
    ensures |BeforeNul(cs)| < |cs| ==> cs[|BeforeNul(cs)|] == 0
    ensures |BeforeNul(cs)| == |cs| ==> BeforeNul(cs) == cs
  {
    if cs != [] && cs[0] != 0 {
      StopsAtNul(cs[1..]);
    }
  }

  lemma EncodingOfPieces(cs: seq<Char>)
    requires BeforeNul(cs) != cs
    ensures |BeforeNul(cs)| < |cs|
    ensures Encoding(cs) == Encoding(BeforeNul(cs)) + ([0] + Encoding(cs[|BeforeNul(cs)| + 1..]))
    ensures Units(cs) == Units(BeforeNul(cs)) + ([0] + Units(cs[|BeforeNul(cs)| + 1..]))
  {
    NextPiece(cs);
    var piece, rest := BeforeNul(cs), cs[|BeforeNul(cs)| + 1..];
    assert cs == piece + ([0] + rest);
    FlatConcat(piece, [0] + rest, Utf8);
    FlatConcat(piece, [0] + rest, Utf16);
    assert ([0] + rest)[1..] == rest;
    assert Utf8(0) == [0] && Utf16(0) == [0];
  }

  /** Reading back an encoding of any characters, NULs included, by its length. */
  lemma {:induction false} StdReadsBack(cs: seq<Char>, h: seq<Byte>, n: nat, native: Option<seq<Byte> -> Str>)
    requires StandsAt(Encoding(cs), h, n) && Standard(native)
    ensures StdText(h, n, n + |Encoding(cs)|, native) == ReadPieces(cs, native.Some?)
    decreases |cs|
  {
    hide Encoding, Units, Text, Standard, StandsAt, EndOfText, AsRead, BeforeNul;
    StandsInside(Encoding(cs), h, n);
    var end, piece := n + |Encoding(cs)|, BeforeNul(cs);
    EndOfEncoding(cs, h, n, Some(end));
    ReadsBack(cs, h, n, Some(end), native);
    if piece != cs {
      EncodingOfPieces(cs);
      var rest := cs[|piece| + 1..];
      StandsInParts(Encoding(piece), [0] + Encoding(rest), h, n);
      StandsInParts([0], Encoding(rest), h, n + |Encoding(piece)|);
      StdReadsBack(rest, h, n + |Encoding(piece)| + 1, native);
    }
  }

  lemma StandsInside(text: seq<Byte>, h: seq<Byte>, n: nat)
    requires StandsAt(text, h, n)
    ensures n + |text| <= |h|
  {
  }

  // ----- Which strings come back

  /** Where no piece loses its mark, joining the pieces is decoding the whole. */
  lemma {:induction false} PiecesJoin(cs: seq<Char>, native: bool)
    requires !SomePieceLosesMark(cs, native)
    ensures ReadPieces(cs, native) == Units(cs)
    decreases |cs|
  {
    hide Encoding, Units;
    var piece := BeforeNul(cs);
    assert AsRead(piece, native) == piece;
    if piece != cs {
      EncodingOfPieces(cs);
      PiecesJoin(cs[|piece| + 1..], native);
      assert Units(piece) + [0] + Units(cs[|piece| + 1..]) == Units(piece) + ([0] + Units(cs[|piece| + 1..]));
    }
  }

  /** Decoding what the encoder makes of a string gives it back exactly if its surrogates are paired. */
  lemma {:induction false} AllUnitsComeBackIff(s: Str, k: nat)
    requires k <= |s|
    ensures Units(CharsFrom(s, k)) == s[k..] <==> PairedFrom(s, k)
    decreases |s| - k
  {
    hide CharAt, Utf16;
    if k < |s| {
      var c, cs := CharAt(s, k), CharsFrom(s, k);
      assert cs[0] == c && cs[1..] == CharsFrom(s, After(s, k));
      assert Units(cs) == Utf16(c) + Units(cs[1..]);
      HeadTail(Utf16(c), Units(cs[1..]), s, k);
      if Surrogate(s[k]) {
        SurrogateIsLong(s, k);
        if k + 1 < |s| {
          SurrogateHead(s, k);
          AllUnitsComeBackIff(s, k + 2);
        }
      } else {
        PlainHead(s, k);
        AllUnitsComeBackIff(s, k + 1);
        assert s[k..k + 1] == [s[k]];
      }
    }
  }

  /** Where the NUL behind the first piece stands in the string. Every unit before it belongs to the piece. */
  lemma {:induction false} NulPosition(s: Str, k: nat) returns (q: nat)
    requires k <= |s| && BeforeNul(CharsFrom(s, k)) != CharsFrom(s, k)
    ensures k <= q < |s| && s[q] == 0 && |Units(BeforeNul(CharsFrom(s, k)))| == q - k
    ensures |BeforeNul(CharsFrom(s, k))| < |CharsFrom(s, k)|
    ensures CharsFrom(s, k)[|BeforeNul(CharsFrom(s, k))| + 1..] == CharsFrom(s, q + 1)
    decreases |s| - k
  {
    hide CharAt, Utf16;
    var c, cs := CharAt(s, k), CharsFrom(s, k);
    assert cs[0] == c && cs[1..] == CharsFrom(s, After(s, k));
    if Surrogate(s[k]) {
      SurrogateIsLong(s, k);
    } else {
      PlainHead(s, k);
    }
    if c == 0 {
      q := k;
      assert cs[0 + 1..] == CharsFrom(s, q + 1);
    } else {
      assert BeforeNul(cs) == [c] + BeforeNul(cs[1..]);
      assert cs == [c] + cs[1..];
      if After(s, k) >= |s| {
        assert false;
      }
      q := NulPosition(s, After(s, k));
      UnitsOfNext(c, cs);
      assert cs[1..][|BeforeNul(cs[1..])| + 1..] == cs[|BeforeNul(cs)| + 1..];
    }
  }

  /** A piece that has lost its first unit, a mark, is not followed by what makes the string whole again. */
  lemma {:induction false} LostMarkStaysLost(s: Str, k: nat, more: Str)
    requires 1 <= k <= |s| && s[k - 1] == 0xFEFF
    requires more == [] || more[0] == 0
    requires BeforeNul(CharsFrom(s, k)) == CharsFrom(s, k) ==> more == []
    ensures Units(BeforeNul(CharsFrom(s, k))) + more != s[k - 1..]
    decreases |s| - k
  {
    hide CharAt, Utf16;
    assert s[k - 1..][0] == 0xFEFF;
    if k < |s| {
      var c, cs := CharAt(s, k), CharsFrom(s, k);
      assert cs[0] == c && cs[1..] == CharsFrom(s, After(s, k));
      if Surrogate(s[k]) {
        SurrogateIsLong(s, k);
        SurrogateFirst(s, k);
        UnitsOfNext(c, cs);
        assert (Units(BeforeNul(cs)) + more)[0] == Utf16(c)[0];
      } else {
        PlainHead(s, k);
        if c != 0 {
          UnitsOfNext(c, cs);
          assert Units(BeforeNul(cs)) + more == [s[k]] + (Units(BeforeNul(cs[1..])) + more);
          assert s[k - 1..] == [s[k - 1]] + s[k..];
          if s[k] == 0xFEFF {
            LostMarkStaysLost(s, k + 1, more);
          }
        } else {
          assert Units(BeforeNul(cs)) + more == more;
        }
      }
    }
  }

  lemma {:induction false} LostMarkShows(s: Str, k: nat)
    requires k <= |s| && SomePieceLosesMark(CharsFrom(s, k), true)
    ensures ReadPieces(CharsFrom(s, k), true) != s[k..]
    decreases |s| - k
  {
    hide CharAt, Utf8, Utf16, Units;
    var cs, piece := CharsFrom(s, k), BeforeNul(CharsFrom(s, k));
    if |Encoding(piece)| > 16 && piece[0] == BYTE_ORDER_MARK {
      assert k < |s| && cs[0] == CharAt(s, k) && cs[1..] == CharsFrom(s, After(s, k));
      MarkAt(s, k);
      var more := if piece == cs then [] else [0] + ReadPieces(cs[|piece| + 1..], true);
      assert piece[1..] == BeforeNul(cs[1..]);
      LostMarkStaysLost(s, k + 1, more);
      assert ReadPieces(cs, true) == Units(piece[1..]) + more;
    } else {
      var q := NulPosition(s, k);
      LostMarkShows(s, q + 1);
      var all := ReadPieces(cs, true);
      assert all == Units(piece) + [0] + ReadPieces(CharsFrom(s, q + 1), true);
      assert all[q + 1 - k..] == ReadPieces(CharsFrom(s, q + 1), true);
      assert s[k..][q + 1 - k..] == s[q + 1..];
    }
  }

  lemma MarkAt(s: Str, k: nat)
    requires k < |s| && CharAt(s, k) == BYTE_ORDER_MARK
    ensures s[k] == 0xFEFF && After(s, k) == k + 1
  {
  }

  lemma StdComesBackIff(s: Str, native: bool)
    ensures ReadPieces(Chars(s), native) == s <==> PairedFrom(s, 0) && !SomePieceLosesMark(Chars(s), native)
  {
    hide ReadPieces, Units, CharsFrom;
    AllUnitsComeBackIff(s, 0);
    assert s[0..] == s;
    if SomePieceLosesMark(Chars(s), native) {
      OnlyNative(Chars(s), native);
      LostMarkShows(s, 0);
    } else {
      PiecesJoin(Chars(s), native);
    }
  }

  lemma {:induction false} OnlyNative(cs: seq<Char>, native: bool)
    requires SomePieceLosesMark(cs, native)
    ensures native
    decreases |cs|
  {
    var piece := BeforeNul(cs);
    if piece != cs {
      if SomePieceLosesMark(cs[|piece| + 1..], native) {
        OnlyNative(cs[|piece| + 1..], native);
      }
    }
  }

  /**
   * A string passed to a std::string and back returns, NULs and all, exactly if its surrogates are paired and a native
   * decoder takes the mark off none of its pieces between the NULs.
   */
  method WriteAndReadStd(s: Str, heap: array<Byte>, e: nat, native: Option<seq<Byte> -> Str>) returns (r: Str)
    requires e + 4 + |Encoding(Chars(s))| + 1 <= heap.Length && Standard(native)
    modifies heap
    ensures r == s <==> PairedFrom(s, 0) && !SomePieceLosesMark(Chars(s), native.Some?)
  {
    hide Encoding, Chars, ReadPieces, PairedFrom, SomePieceLosesMark, StdText, Overlay, Standard, StandsAt;
    ghost var before := heap[..];
    var n := ToWire(s, heap, e);
    OverlayInside(before, e + 4, Encoding(Chars(s)) + [0]);
    WrittenStands(Encoding(Chars(s)), heap[..], before, e + 4);
    r := FromWire(heap, e, n, native);
    StdReadsBack(Chars(s), heap[..], e + 4, native);
    StdComesBackIff(s, native.Some?);
  }
}
