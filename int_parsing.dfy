/**
 * Python's `int(s)` on a string, restricted to ASCII: surrounding whitespace is
 * stripped, an optional sign is accepted, and the digits may be grouped by single
 * underscores (`1_000`). Anything else is the `ValueError` case, modelled as `None`.
 */
module IntParsing {
  import opened Wrappers

  predicate IsDigit(c: char) { '0' <= c <= '9' }

  function DigitValue(c: char): nat
    requires IsDigit(c)
  {
    (c as int) - ('0' as int)
  }

  function DigitChar(d: nat): (c: char)
    requires d < 10
    ensures IsDigit(c) && DigitValue(c) == d
  {
    (('0' as int) + d) as char
  }

  /** The ASCII characters `int()` strips around a literal: space, tab, line feed, vertical tab, form feed, carriage return. */
  predicate IsSpace(c: char) {
    c == ' ' || ('\t' <= c <= '\r')
  }

  predicate AllSpace(w: string) {
    forall i :: 0 <= i < |w| ==> IsSpace(w[i])
  }

  function TrimLeft(s: string): string {
    if |s| > 0 && IsSpace(s[0]) then TrimLeft(s[1..]) else s
  }

  function TrimRight(s: string): string {
    if |s| > 0 && IsSpace(s[|s| - 1]) then TrimRight(s[..|s| - 1]) else s
  }

  function Trim(s: string): string {
    TrimRight(TrimLeft(s))
  }

  /** Position `i` of `s` holds a digit, or an underscore between two digits. */
  predicate DigitOrSeparator(s: string, i: nat)
    requires i < |s|
  {
    IsDigit(s[i]) || (s[i] == '_' && 0 < i < |s| - 1 && IsDigit(s[i - 1]) && IsDigit(s[i + 1]))
  }

  /** One or more digits, where single underscores may separate two digits. */
  predicate WellFormedDigits(s: string) {
    |s| > 0 && forall i :: 0 <= i < |s| ==> DigitOrSeparator(s, i)
  }

  /** The decimal value of the digits of `s`, underscores (and any other non-digit) ignored. */
  function DigitsValue(s: string): nat {
    if |s| == 0 then 0
    else
      var v := DigitsValue(s[..|s| - 1]);
      if IsDigit(s[|s| - 1]) then 10 * v + DigitValue(s[|s| - 1]) else v
  }

  /** `int(s)`: `Some(value)` on success, `None` where Python raises `ValueError`. */
  function ParseInt(s: string): Option<int> {
    var t := Trim(s);
    if |t| > 0 && (t[0] == '+' || t[0] == '-') then
      if WellFormedDigits(t[1..]) then
        Some(if t[0] == '-' then -(DigitsValue(t[1..]) as int) else DigitsValue(t[1..]))
      else None
    else if WellFormedDigits(t) then Some(DigitsValue(t))
    else None
  }

  /** `str(n)` for a natural number: its shortest decimal representation. */
  function ShowNat(n: nat): (s: string)
    ensures |s| > 0 && IsDigit(s[0]) && IsDigit(s[|s| - 1])
  {
    if n < 10 then [DigitChar(n)] else ShowNat(n / 10) + [DigitChar(n % 10)]
  }

  /** `str(n)` for an integer. */
  function ShowInt(n: int): string {
    if n < 0 then "-" + ShowNat(-n) else ShowNat(n)
  }

  lemma {:induction false} ShowNatIsDigits(n: nat)
    ensures forall i :: 0 <= i < |ShowNat(n)| ==> IsDigit(ShowNat(n)[i])
    ensures WellFormedDigits(ShowNat(n))
    ensures DigitsValue(ShowNat(n)) == n
  {
    if n >= 10 {
      ShowNatIsDigits(n / 10);
      var s := ShowNat(n);
      assert s[..|s| - 1] == ShowNat(n / 10);
    }
  }

  lemma {:induction false} TrimLeftSpaces(w: string, x: string)
    requires AllSpace(w)
    requires |x| > 0 && !IsSpace(x[0])
    ensures TrimLeft(w + x) == x
  {
    if |w| > 0 {
      assert (w + x)[1..] == w[1..] + x;
      TrimLeftSpaces(w[1..], x);
    } else {
      assert w + x == x;
    }
  }

  lemma {:induction false} TrimRightSpaces(x: string, w: string)
    requires AllSpace(w)
    requires |x| > 0 && !IsSpace(x[|x| - 1])
    ensures TrimRight(x + w) == x
  {
    if |w| > 0 {
      assert (x + w)[..|x + w| - 1] == x + w[..|w| - 1];
      TrimRightSpaces(x, w[..|w| - 1]);
    } else {
      assert x + w == x;
    }
  }

  /** Stripping removes exactly the whitespace padding around a literal. */
  lemma TrimPadded(w1: string, x: string, w2: string)
    requires AllSpace(w1) && AllSpace(w2)
    requires |x| > 0 && !IsSpace(x[0]) && !IsSpace(x[|x| - 1])
    ensures Trim(w1 + x + w2) == x
  {
    assert w1 + x + w2 == w1 + (x + w2);
    TrimLeftSpaces(w1, x + w2);
    TrimRightSpaces(x, w2);
  }

  /** Round trip: what `str` prints, `int` reads back, whatever whitespace pads it. */
  lemma ParseShowRoundTrip(n: int, w1: string, w2: string)
    requires AllSpace(w1) && AllSpace(w2)
    ensures ParseInt(w1 + ShowInt(n) + w2) == Some(n)
  {
    var m: nat := if n < 0 then -n else n;
    var digits := ShowNat(m);
    ShowNatIsDigits(m);
    var x := ShowInt(n);
    assert x == if n < 0 then "-" + digits else digits;
    TrimPadded(w1, x, w2);
    if n < 0 {
      assert x[1..] == digits;
    } else {
      assert !(x[0] == '+' || x[0] == '-');
    }
  }

  lemma NotWellFormedAt(s: string, i: nat)
    requires i < |s| && !DigitOrSeparator(s, i)
    ensures !WellFormedDigits(s)
  {
  }

  /** Grade cells `int()` accepts. */
  lemma ParseAccepts()
    ensures ParseInt("5") == Some(5)
    ensures ParseInt(" 4\n") == Some(4)
    ensures ParseInt("-3") == Some(-3)
  {
    assert ShowInt(5) == "5" && ShowInt(4) == "4" && ShowInt(-3) == "-3";
    ParseShowRoundTrip(5, "", "");
    assert "" + "5" + "" == "5";
    ParseShowRoundTrip(4, " ", "\n");
    ParseShowRoundTrip(-3, "", "");
    assert "" + "-3" + "" == "-3";
  }

  /** Grade cells `int()` rejects with `ValueError`: a word, a decimal, a doubled underscore. */
  lemma ParseRejects()
    ensures ParseInt("invalid") == None
    ensures ParseInt("4.5") == None
    ensures ParseInt("1__0") == None
  {
    NotWellFormedAt("invalid", 0);
    NotWellFormedAt("4.5", 1);
    NotWellFormedAt("1__0", 1);
  }
}
