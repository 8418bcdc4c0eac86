/**
 * Python's `int(text)` and `str(n)` on decimal integers, as far as the bot
 * relies on them: `int` turns a message or a button suffix into a number, or
 * raises `ValueError`; `str` (through f-strings) writes the ids into buttons.
 *
 * The parser is a simplification of Python's: surrounding ASCII whitespace,
 * one optional sign and one or more ASCII digits. Python also accepts
 * underscores between digits and non-ASCII digits and spaces; those are not
 * modelled.
 */
module PyInt {
  import opened Wrappers

  /** ASCII whitespace: space, tab, line feed, vertical tab, form feed, carriage return. */
  predicate IsSpace(c: char) {
    c == ' ' || 9 <= c as int <= 13
  }

  predicate IsDigit(c: char) {
    '0' <= c <= '9'
  }

  predicate AllDigits(s: string) {
    forall i :: 0 <= i < |s| ==> IsDigit(s[i])
  }

  /** `s` without its leading whitespace. */
  function StripLeft(s: string): (r: string)
    ensures r == [] || !IsSpace(r[0])
    ensures forall c :: c in r ==> c in s
    ensures |s| > 0 && !IsSpace(s[0]) ==> r == s
  {
    if |s| > 0 && IsSpace(s[0]) then StripLeft(s[1..]) else s
  }

  /** `s` without its trailing whitespace. */
  function StripRight(s: string): (r: string)
    ensures r == [] || !IsSpace(r[|r| - 1])
    ensures forall c :: c in r ==> c in s
    ensures |s| > 0 && !IsSpace(s[|s| - 1]) ==> r == s
  {
    if |s| > 0 && IsSpace(s[|s| - 1]) then StripRight(s[..|s| - 1]) else s
  }

  function Strip(s: string): (r: string)
    ensures forall c :: c in r ==> c in s
  {
    StripRight(StripLeft(s))
  }

  function DigitValue(c: char): nat
    requires IsDigit(c)
  {
    c as int - '0' as int
  }

  /** The value of a string of decimal digits, most significant first. */
  function DigitsValue(ds: string): nat
    requires AllDigits(ds)
  {
    if ds == [] then 0 else 10 * DigitsValue(ds[..|ds| - 1]) + DigitValue(ds[|ds| - 1])
  }

  /** `int(s)`: `Some(n)` where Python returns `n`, `None` where it raises `ValueError`. */
  function ParseInt(s: string): Option<int> {
    var t := Strip(s);
    var negative := |t| > 0 && t[0] == '-';
    var body := if |t| > 0 && (t[0] == '-' || t[0] == '+') then t[1..] else t;
    if |body| > 0 && AllDigits(body) then
      var magnitude: int := DigitsValue(body);
      Some(if negative then -magnitude else magnitude)
    else
      None
  }

  function DigitChar(d: nat): (c: char)
    requires d < 10
    ensures IsDigit(c) && DigitValue(c) == d
  {
    ('0' as int + d) as char
  }

  /** `str(n)` for a natural number: its decimal digits without leading zeros. */
  function ShowNat(n: nat): (r: string)
    ensures |r| > 0 && AllDigits(r)
  {
    if n < 10 then [DigitChar(n)] else ShowNat(n / 10) + [DigitChar(n % 10)]
  }

  /** `str(n)` for any integer. */
  function ShowInt(n: int): string {
    if n < 0 then "-" + ShowNat(-n) else ShowNat(n)
  }

  /** Reading back the digits that `ShowNat` writes gives the number. */
  lemma {:induction false} DigitsValueShowNat(n: nat)
    ensures DigitsValue(ShowNat(n)) == n
  {
    if n >= 10 {
      var s := ShowNat(n);
      assert s[..|s| - 1] == ShowNat(n / 10);
      DigitsValueShowNat(n / 10);
    }
  }

  /** `int(str(n)) == n`: the rendering of an integer parses back to it. */
  lemma ParseIntShowInt(n: int)
    ensures ParseInt(ShowInt(n)) == Some(n)
  {
    var s := ShowInt(n);
    var m: nat := if n < 0 then -n else n;
    DigitsValueShowNat(m);
    assert !IsSpace(s[0]) && !IsSpace(s[|s| - 1]);
    assert Strip(s) == s;
    if n < 0 {
      assert s[1..] == ShowNat(m);
    }
  }

  /** Text without a single digit never parses: `int` raises on it. */
  lemma ParseIntNeedsDigit(s: string)
    requires forall i :: 0 <= i < |s| ==> !IsDigit(s[i])
    ensures ParseInt(s) == None
  {
    var t := Strip(s);
    var body := if |t| > 0 && (t[0] == '-' || t[0] == '+') then t[1..] else t;
    if |body| > 0 {
      assert body[0] in t;
      assert !IsDigit(body[0]);
    }
  }

  predicate AllSpace(s: string) {
    forall i :: 0 <= i < |s| ==> IsSpace(s[i])
  }

  /** Surrounding whitespace, of any length, does not change what `int` reads. */
  lemma ParseIntIgnoresSpace(a: string, s: string, b: string)
    requires AllSpace(a) && AllSpace(b)
    ensures ParseInt(a + s + b) == ParseInt(s)
  {
    assert a + s + b == a + (s + b);
    StripLeftSpacesBefore(a, s + b);
    StripLeftSpacesAfter(s, b);
    var l := StripLeft(s);
    assert Strip(a + s + b) == Strip(s) by {
      if l == [] {
        StripRightSpacesAfter([], b);
        assert [] + b == b;
      } else {
        StripRightSpacesAfter(l, b);
      }
    }
  }

  /** Leading whitespace is all dropped by the left strip. */
  lemma {:induction false} StripLeftSpacesBefore(a: string, t: string)
    requires AllSpace(a)
    ensures StripLeft(a + t) == StripLeft(t)
  {
    if a != [] {
      assert IsSpace(a[0]) && (a + t)[0] == a[0];
      assert (a + t)[1..] == a[1..] + t;
      StripLeftSpacesBefore(a[1..], t);
    } else {
      assert a + t == t;
    }
  }

  /** Trailing whitespace survives the left strip only when something else does. */
  lemma {:induction false} StripLeftSpacesAfter(s: string, b: string)
    requires AllSpace(b)
    ensures StripLeft(s + b) == if StripLeft(s) == [] then [] else StripLeft(s) + b
  {
    if |s| > 0 && IsSpace(s[0]) {
      assert (s + b)[1..] == s[1..] + b;
      StripLeftSpacesAfter(s[1..], b);
    } else if |s| == 0 {
      assert s + b == b + [];
      StripLeftSpacesBefore(b, []);
    }
  }

  /** Trailing whitespace is all dropped by the right strip. */
  lemma {:induction false} StripRightSpacesAfter(t: string, b: string)
    requires AllSpace(b)
    ensures StripRight(t + b) == StripRight(t)
  {
    if b != [] {
      var b' := b[..|b| - 1];
      assert (t + b)[..|t + b| - 1] == t + b';
      StripRightSpacesAfter(t, b');
    } else {
      assert t + b == t;
    }
  }
}
