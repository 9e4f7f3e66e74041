/**
 * Tombstones store their position as CSS text (`${x}px`) and the proximity
 * scan reads it back with `parseInt(text, 10)`. This module models both
 * directions on whole numbers and proves that the read-back is exact, which
 * is why the rest of the model may use the artist table's coordinates.
 */
module Pixels {
  import opened Options

  predicate IsDigit(c: char)
  {
    '0' <= c <= '9'
  }

  function DigitChar(d: nat): (c: char)
    requires d < 10
    ensures IsDigit(c) && (c as int) - ('0' as int) == d
  {
    ['0', '1', '2', '3', '4', '5', '6', '7', '8', '9'][d]
  }

  function DigitValue(c: char): nat
    requires IsDigit(c)
  {
    (c as int) - ('0' as int)
  }

  /** The shortest decimal spelling of `n`, as JavaScript prints a whole number below 10^21. */
  function Decimal(n: nat): (s: string)
    ensures |s| > 0 && forall i :: 0 <= i < |s| ==> IsDigit(s[i])
  {
    if n < 10 then [DigitChar(n)] else Decimal(n / 10) + [DigitChar(n % 10)]
  }

  /** The template literal `${n}px`. */
  function Px(n: int): string
  {
    (if n < 0 then "-" + Decimal(-n) else Decimal(n)) + "px"
  }

  /** The number of leading decimal digits of `s`. */
  function DigitRun(s: string): (k: nat)
    ensures k <= |s|
    ensures forall i :: 0 <= i < k ==> IsDigit(s[i])
    ensures k < |s| ==> !IsDigit(s[k])
  {
    if |s| == 0 || !IsDigit(s[0]) then 0 else 1 + DigitRun(s[1..])
  }

  /** The value of a string of decimal digits, most significant first. */
  function ValueOf(s: string): nat
    requires forall i :: 0 <= i < |s| ==> IsDigit(s[i])
  {
    if |s| == 0 then 0 else ValueOf(s[..|s| - 1]) * 10 + DigitValue(s[|s| - 1])
  }

  /**
   * `parseInt(s, 10)` on a string without leading white space: an optional
   * sign, then the longest run of digits; `None` stands for `NaN` when no
   * digit follows.
   */
  function ParseInt(s: string): (r: Option<int>)
  {
    var negative := |s| > 0 && s[0] == '-';
    var body := if |s| > 0 && (s[0] == '-' || s[0] == '+') then s[1..] else s;
    var k := DigitRun(body);
    if k == 0 then None
    else
      var v: int := ValueOf(body[..k]);
      Some(if negative then -v else v)
  }

  lemma {:induction false} ValueOfDecimal(n: nat)
    ensures ValueOf(Decimal(n)) == n
    decreases n
  {
    if n >= 10 {
      var s := Decimal(n);
      assert s[..|s| - 1] == Decimal(n / 10);
      ValueOfDecimal(n / 10);
    }
  }

  lemma {:induction false} DigitRunStopsAt(digits: string, rest: string)
    requires forall i :: 0 <= i < |digits| ==> IsDigit(digits[i])
    requires |rest| > 0 && !IsDigit(rest[0])
    ensures DigitRun(digits + rest) == |digits|
    decreases |digits|
  {
    if |digits| > 0 {
      assert (digits + rest)[1..] == digits[1..] + rest;
      DigitRunStopsAt(digits[1..], rest);
    }
  }

  /** Reading a tombstone's `left` or `top` back yields the number written. */
  lemma {:induction false} PxRoundTrip(n: int)
    ensures ParseInt(Px(n)) == Some(n)
  {
    var m := if n < 0 then -n else n;
    var digits := Decimal(m);
    var body := digits + "px";
    DigitRunStopsAt(digits, "px");
    assert body[..|digits|] == digits;
    ValueOfDecimal(m);
    if n < 0 {
      assert Px(n) == "-" + body;
      assert Px(n)[1..] == body;
    } else {
      assert Px(n) == body;
      assert IsDigit(body[0]);
    }
  }

}
