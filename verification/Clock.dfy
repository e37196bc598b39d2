/** `date('H:i:s', ...)` texts and the order SQLite gives them. */
module Clock {
  const DAY := 86400

  /** A second of the day. */
  type Second = s: int | 0 <= s < DAY

  /** SQLite compares two texts byte by byte; a proper prefix comes first. */
  predicate TextLess(a: string, b: string) {
    if a == [] then b != []
    else if b == [] then false
    else a[0] < b[0] || (a[0] == b[0] && TextLess(a[1..], b[1..]))
  }

  function Digit(d: int): char
    requires 0 <= d < 10
  {
    '0' + d as char
  }

  function TwoDigits(n: int): string
    requires 0 <= n < 100
  {
    [Digit(n / 10), Digit(n % 10)]
  }

  /** The text of a second of the day. */
  function ClockText(second: Second): string {
    TwoDigits(second / 3600) + ":" + TwoDigits(second / 60 % 60) + ":" + TwoDigits(second % 60)
  }

  lemma TwoDigitsOrder(a: int, b: int, x: string, y: string)
    requires 0 <= a < 100 && 0 <= b < 100
    ensures TextLess(TwoDigits(a) + x, TwoDigits(b) + y) <==> a < b || (a == b && TextLess(x, y))
  {
  }

  lemma ColonOrder(x: string, y: string)
    ensures TextLess(":" + x, ":" + y) <==> TextLess(x, y)
  {
  }

  lemma TextsOrder(h: int, m: int, s: int, h': int, m': int, s': int)
    requires 0 <= h < 100 && 0 <= m < 100 && 0 <= s < 100 && 0 <= h' < 100 && 0 <= m' < 100 && 0 <= s' < 100
    ensures TextLess(TwoDigits(h) + ":" + TwoDigits(m) + ":" + TwoDigits(s),
                     TwoDigits(h') + ":" + TwoDigits(m') + ":" + TwoDigits(s'))
       <==> h < h' || (h == h' && (m < m' || (m == m' && s < s')))
  {
    var x, x' := TwoDigits(s) + "", TwoDigits(s') + "";
    var y, y' := TwoDigits(m) + (":" + x), TwoDigits(m') + (":" + x');
    TwoDigitsOrder(s, s', "", "");
    ColonOrder(x, x');
    TwoDigitsOrder(m, m', ":" + x, ":" + x');
    ColonOrder(y, y');
    TwoDigitsOrder(h, h', ":" + y, ":" + y');
    assert TwoDigits(h) + ":" + TwoDigits(m) + ":" + TwoDigits(s) == TwoDigits(h) + (":" + y);
    assert TwoDigits(h') + ":" + TwoDigits(m') + ":" + TwoDigits(s') == TwoDigits(h') + (":" + y');
  }

  lemma FieldOrder(a: int, b: int)
    requires 0 <= a && 0 <= b
    ensures a < b <==>
      a / 3600 < b / 3600 || (a / 3600 == b / 3600 &&
        (a / 60 % 60 < b / 60 % 60 || (a / 60 % 60 == b / 60 % 60 && a % 60 < b % 60)))
  {
    assert a / 60 / 60 == a / 3600 && b / 60 / 60 == b / 3600;
  }

  /** Comparing the stored texts is comparing the times: the padding is what makes this true. */
  lemma TextOrderIsTimeOrder(a: Second, b: Second)
    ensures TextLess(ClockText(a), ClockText(b)) <==> a < b
  {
    TextsOrder(a / 3600, a / 60 % 60, a % 60, b / 3600, b / 60 % 60, b % 60);
    FieldOrder(a, b);
  }

  /** 13:30, as the seed stores it. */
  lemma ClockTextExample()
    ensures ClockText(48600) == "13:30:00"
  {
  }
}
