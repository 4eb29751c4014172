/**
 * Python's `int(...)` on the two kinds of argument the counting program hands
 * it: text (a WIG token or a text cell of the feature table) and a float
 * (a pandas numeric cell). A `None` result stands for the `ValueError` that
 * `int` raises.
 */
module PyInt {
  import opened Outcomes
  import PyText

  predicate IsDigit(c: char) {
    '0' <= c <= '9'
  }

  function DigitValue(c: char): (d: nat)
    requires IsDigit(c)
    ensures d < 10
  {
    c as int - '0' as int
  }

  function DigitChar(d: nat): (c: char)
    requires d < 10
    ensures IsDigit(c) && DigitValue(c) == d
  {
    ('0' as int + d) as char
  }

  predicate AllDigits(s: string) {
    forall i | 0 <= i < |s| :: IsDigit(s[i])
  }

  /** A run of ASCII decimal digits read as a number; `None` unless the text
      is a non-empty run of digits. */
  function ParseDigits(s: string): (r: Option<nat>)
    ensures r.Some? <==> s != [] && AllDigits(s)
    decreases |s|
  {
    if s == [] || !IsDigit(s[|s| - 1]) then None
    else if |s| == 1 then Some(DigitValue(s[0]))
    else
      match ParseDigits(s[..|s| - 1])
      case None => None
      case Some(v) => Some(10 * v + DigitValue(s[|s| - 1]))
  }

  /** `int(s)` for a string: surrounding whitespace, then an optional sign,
      then decimal digits. */
  function ParseInt(s: string): Option<int> {
    ParseSigned(PyText.Strip(s))
  }

  /** `int(t)` for a string with no surrounding whitespace. */
  function ParseSigned(t: string): Option<int> {
    if t != [] && (t[0] == '-' || t[0] == '+') then
      match ParseDigits(t[1..])
      case None => None
      case Some(v) => var n: int := v; Some(if t[0] == '-' then -n else n)
    else
      match ParseDigits(t)
      case None => None
      case Some(v) => Some(v)
  }

  /** The decimal text of a natural number, most significant digit first. */
  function DigitsText(n: nat): (s: string)
    ensures s != [] && AllDigits(s)
    decreases n
  {
    if n < 10 then [DigitChar(n)] else DigitsText(n / 10) + [DigitChar(n % 10)]
  }

  /** `str(x)` for an integer. */
  function IntText(x: int): string {
    if x < 0 then "-" + DigitsText(-x) else DigitsText(x)
  }

  lemma {:induction false} ParseDigitsText(n: nat)
    ensures ParseDigits(DigitsText(n)) == Some(n)
    decreases n
  {
    if n >= 10 {
      var s := DigitsText(n);
      ParseDigitsText(n / 10);
      assert s[..|s| - 1] == DigitsText(n / 10);
    }
  }

  /** `int(str(x)) == x` */
  lemma ParseIntText(x: int)
    ensures ParseInt(IntText(x)) == Some(x)
  {
    var s := IntText(x);
    assert PyText.NoSpace(s) by {
      var d := if x < 0 then DigitsText(-x) else DigitsText(x);
      assert s == (if x < 0 then "-" else "") + d;
      assert forall i | 0 <= i < |d| :: !PyText.IsSpace(d[i]);
    }
    PyText.StripNoSpace(s);
    SignedText(x);
  }

  lemma SignedText(x: int)
    ensures ParseSigned(IntText(x)) == Some(x)
  {
    var s := IntText(x);
    if x < 0 {
      var d := DigitsText(-x);
      ParseDigitsText(-x);
      assert s[1..] == d;
    } else {
      ParseDigitsText(x);
      assert IsDigit(s[0]);
    }
  }

  /** `int(r)` for a finite float: truncation toward zero. */
  function Truncate(r: real): (n: int)
    ensures 0.0 <= r ==> n as real <= r < n as real + 1.0
    ensures r < 0.0 ==> n as real - 1.0 < r <= n as real
  {
    if r >= 0.0 then r.Floor else -((-r).Floor)
  }

  /** `str(x)` is a single token starting with a digit or a minus sign. */
  lemma IntTextToken(x: int)
    ensures PyText.IsToken(IntText(x))
    ensures IntText(x)[0] == '-' || IsDigit(IntText(x)[0])
  {
    var d := if x < 0 then DigitsText(-x) else DigitsText(x);
    assert IntText(x) == (if x < 0 then "-" else "") + d;
    assert forall i | 0 <= i < |d| :: !PyText.IsSpace(d[i]);
  }
}
