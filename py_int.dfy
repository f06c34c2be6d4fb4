/**
 Python's conversions between integers and decimal text: `str(i)` for an
 `int`, and `int(s)` for a `str`, whose `ValueError` is `None` here.
 */
module PyInt {
  import opened PyText

  datatype Option<+T> = None | Some(value: T)

  predicate IsDigit(c: char) {
    '0' <= c <= '9'
  }

  predicate AllDigits(s: string) {
    forall i | 0 <= i < |s| :: IsDigit(s[i])
  }

  function DigitChar(d: nat): (c: char)
    requires d < 10
    ensures IsDigit(c) && c as int - '0' as int == d
  {
    ('0' as int + d) as char
  }

  /** `str(n)` for a non-negative integer: decimal digits without leading zeros. */
  function NatToString(n: nat): (s: string)
    ensures |s| >= 1 && AllDigits(s)
    ensures s[0] == '0' ==> n == 0
    decreases n
  {
    if n < 10 then [DigitChar(n)] else NatToString(n / 10) + [DigitChar(n % 10)]
  }

  /** `str(i)`: a `-` sign for a negative number, then the digits of its magnitude. */
  function IntToString(i: int): string {
    if i < 0 then "-" + NatToString(-i) else NatToString(i)
  }

  /** The number that a run of decimal digits denotes (leading zeros allowed). */
  function DigitsValue(s: string): nat
    requires AllDigits(s)
  {
    if s == [] then 0
    else DigitsValue(s[..|s| - 1]) * 10 + (s[|s| - 1] as int - '0' as int)
  }

  /** The whitespace that `int()` skips around the number: the whitespace of
      `str.split()` except the ASCII separators U+001C..U+001F. Non-ASCII
      whitespace is first turned into a space and then skipped, while an
      ASCII character is kept as it is and only `\t\n\v\f\r` and the space
      are skipped. */
  predicate IsIntSpace(c: char) {
    IsSpace(c) && !(28 <= c as int <= 31)
  }

  /** The leading whitespace that `int()` skips. */
  function StripStart(s: string): string {
    if s != [] && IsIntSpace(s[0]) then StripStart(s[1..]) else s
  }

  /** The trailing whitespace that `int()` skips. */
  function StripEnd(s: string): string {
    if s != [] && IsIntSpace(s[|s| - 1]) then StripEnd(s[..|s| - 1]) else s
  }

  /** `int(s)`: surrounding whitespace is ignored, then an optional sign and
      at least one decimal digit; anything else raises `ValueError` (`None`). */
  function ParseInt(s: string): Option<int> {
    var t := StripEnd(StripStart(s));
    var negative := t != [] && t[0] == '-';
    var digits := if t != [] && (t[0] == '-' || t[0] == '+') then t[1..] else t;
    if digits == [] || !AllDigits(digits) then None
    else
      var magnitude: int := DigitsValue(digits);
      Some(if negative then -magnitude else magnitude)
  }

  lemma {:induction false} DigitsValueOfNatToString(n: nat)
    ensures DigitsValue(NatToString(n)) == n
    decreases n
  {
    if n >= 10 {
      DigitsValueOfNatToString(n / 10);
      var s := NatToString(n);
      assert s[..|s| - 1] == NatToString(n / 10);
    }
  }

  /** `int(str(i)) == i` for every integer. */
  lemma ParseIntOfIntToString(i: int)
    ensures ParseInt(IntToString(i)) == Some(i)
  {
    var s := IntToString(i);
    var digits := NatToString(if i < 0 then -i else i);
    assert !IsIntSpace(s[0]) && !IsIntSpace(s[|s| - 1]);
    assert StripEnd(StripStart(s)) == s;
    DigitsValueOfNatToString(if i < 0 then -i else i);
    if i < 0 {
      assert s[1..] == digits;
    }
  }

  /** `int(w)` raises for a word that does not start with a digit or a sign. */
  lemma ParseIntRejectsWord(w: string)
    requires w != [] && !IsIntSpace(w[0]) && !IsIntSpace(w[|w| - 1])
    requires !IsDigit(w[0]) && w[0] != '-' && w[0] != '+'
    ensures ParseInt(w) == None
  {
    assert StripStart(w) == w;
    assert StripEnd(w) == w;
  }

  /** `int()` skips a tab or a no-break space around the digits, but not the
      ASCII separator U+001C, which `str.split()` would treat as whitespace. */
  lemma ParseIntWhitespace()
    ensures ParseInt(['\t', '5', '\U{A0}']) == Some(5)
    ensures ParseInt([28 as char, '5']) == None
  {
    var t := ['\t', '5', '\U{A0}'];
    assert StripStart(t) == StripStart(t[1..]) && t[1..] == ['5', '\U{A0}'];
    assert StripEnd(['5', '\U{A0}']) == StripEnd(['5']);
    assert DigitsValue(['5']) == DigitsValue([]) * 10 + 5;
    var u := [28 as char, '5'];
    assert StripStart(u) == u && StripEnd(u) == u;
    assert !IsDigit(u[0]);
  }

  /** `str(i)` is one-to-one. */
  lemma IntToStringInjective(i: int, j: int)
    requires IntToString(i) == IntToString(j)
    ensures i == j
  {
    ParseIntOfIntToString(i);
    ParseIntOfIntToString(j);
  }

  /** Whatever `int(s)` accepts contains at least one decimal digit. */
  lemma ParseIntReadsDigits(s: string)
    requires ParseInt(s).Some?
    ensures exists i | 0 <= i < |s| :: IsDigit(s[i])
  {
    var t := StripEnd(StripStart(s));
    StripKeepsInside(s);
    var k := if t[0] == '-' || t[0] == '+' then 1 else 0;
    assert IsDigit(t[k]);
    var o: nat :| OccursAt(s, t, o);
    assert s[o + k] == t[k];
  }

  /** The stripped text lies inside the original one. */
  lemma StripKeepsInside(s: string)
    ensures exists o: nat :: OccursAt(s, StripEnd(StripStart(s)), o)
  {
    var l := StripStart(s);
    StripStartIsSuffix(s);
    StripEndIsPrefix(l);
    var o := |s| - |l|;
    assert s[o..o + |StripEnd(l)|] == l[..|StripEnd(l)|];
    assert OccursAt(s, StripEnd(l), o);
  }

  lemma {:induction false} StripStartIsSuffix(s: string)
    ensures |StripStart(s)| <= |s| && StripStart(s) == s[|s| - |StripStart(s)|..]
  {
    if s != [] && IsIntSpace(s[0]) {
      StripStartIsSuffix(s[1..]);
    }
  }

  lemma {:induction false} StripEndIsPrefix(s: string)
    ensures |StripEnd(s)| <= |s| && StripEnd(s) == s[..|StripEnd(s)|]
  {
    if s != [] && IsIntSpace(s[|s| - 1]) {
      StripEndIsPrefix(s[..|s| - 1]);
    }
  }
}
