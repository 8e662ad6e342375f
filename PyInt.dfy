/**
 * Python's `int(s)` applied to a `str`, restricted to ASCII input: optional
 * surrounding ASCII whitespace, an optional sign, and decimal digits that may be
 * grouped by single underscores ("1_000"). Anything else raises ValueError,
 * which is modelled as `None`.
 */
module PyInt {
  import opened Wrappers

  /** The ASCII whitespace CPython skips around an integer literal: space, \t, \n, \v, \f, \r. */
  predicate IsSpace(c: char) {
    c == ' ' || ('\t' <= c <= '\r')
  }

  predicate IsDigit(c: char) {
    '0' <= c <= '9'
  }

  predicate AllSpace(w: string) {
    forall i :: 0 <= i < |w| ==> IsSpace(w[i])
  }

  function StripLeading(s: string): (r: string)
    ensures |r| <= |s|
    ensures forall c :: c in s && !IsSpace(c) ==> c in r
    ensures forall c :: c in r ==> c in s
    ensures |r| > 0 ==> !IsSpace(r[0])
  {
    if |s| > 0 && IsSpace(s[0]) then
      assert forall c :: c in s && !IsSpace(c) ==> c in s[1..] by {
        forall c | c in s && !IsSpace(c) ensures c in s[1..] {
          var i :| 0 <= i < |s| && s[i] == c;
          assert i > 0 && s[1..][i - 1] == c;
        }
      }
      StripLeading(s[1..])
    else
      s
  }

  function StripTrailing(s: string): (r: string)
    ensures |r| <= |s|
    ensures forall c :: c in s && !IsSpace(c) ==> c in r
    ensures forall c :: c in r ==> c in s
    ensures |r| > 0 ==> !IsSpace(r[|r| - 1])
  {
    if |s| > 0 && IsSpace(s[|s| - 1]) then
      assert forall c :: c in s && !IsSpace(c) ==> c in s[..|s| - 1] by {
        forall c | c in s && !IsSpace(c) ensures c in s[..|s| - 1] {
          var i :| 0 <= i < |s| && s[i] == c;
          assert i < |s| - 1 && s[..|s| - 1][i] == c;
        }
      }
      StripTrailing(s[..|s| - 1])
    else
      s
  }

  function Strip(s: string): string {
    StripTrailing(StripLeading(s))
  }

  /**
   * A digit body as int() accepts it in base 10: non-empty, starting and ending
   * with a digit, every other character a digit or an underscore, and no two
   * underscores in a row. Leading zeros are allowed in base 10.
   */
  predicate WellFormedDigits(d: string) {
    && |d| > 0
    && IsDigit(d[0])
    && IsDigit(d[|d| - 1])
    && (forall i :: 0 <= i < |d| ==> IsDigit(d[i]) || d[i] == '_')
    && (forall i :: 0 <= i < |d| - 1 && d[i] == '_' ==> IsDigit(d[i + 1]))
  }

  /** The value of a run of digits and underscores, read most significant digit first. */
  function DigitsValue(d: string): nat
    requires forall i :: 0 <= i < |d| ==> IsDigit(d[i]) || d[i] == '_'
  {
    if |d| == 0 then 0
    else if d[|d| - 1] == '_' then DigitsValue(d[..|d| - 1])
    else
      assert IsDigit(d[|d| - 1]);
      DigitsValue(d[..|d| - 1]) * 10 + (d[|d| - 1] as int - '0' as int)
  }

  /** `int(s)` for a string `s`; `None` where CPython raises ValueError. */
  function ParseInt(s: string): (r: Option<int>)
    ensures r.Some? ==> exists i :: 0 <= i < |s| && IsDigit(s[i])
  {
    var t := Strip(s);
    var r := ParseStripped(t);
    assert r.Some? ==> exists i :: 0 <= i < |s| && IsDigit(s[i]) by {
      if r.Some? {
        var j :| 0 <= j < |t| && IsDigit(t[j]);
        assert t[j] in s;
      }
    }
    r
  }

  /** The literal once surrounding whitespace is gone: an optional sign, then the digit body. */
  function ParseStripped(t: string): (r: Option<int>)
    ensures r.Some? ==> exists i :: 0 <= i < |t| && IsDigit(t[i])
  {
    if |t| > 0 && (t[0] == '+' || t[0] == '-') then
      var body := t[1..];
      if WellFormedDigits(body) then
        assert IsDigit(t[1]);
        Some(if t[0] == '-' then -(DigitsValue(body) as int) else DigitsValue(body))
      else
        None
    else if WellFormedDigits(t) then
      Some(DigitsValue(t))
    else
      None
  }

  // ---------------------------------------------------------------------------
  // Decimal rendering, the partner of ParseInt (what `str(n)` produces).

  function Digit(n: nat): (c: char)
    requires n < 10
    ensures IsDigit(c)
  {
    ('0' as int + n) as char
  }

  function ShowNat(n: nat): (s: string)
    ensures |s| > 0
    ensures forall i :: 0 <= i < |s| ==> IsDigit(s[i])
  {
    if n < 10 then [Digit(n)] else ShowNat(n / 10) + [Digit(n % 10)]
  }

  function ShowInt(n: int): string {
    if n < 0 then "-" + ShowNat(-n) else ShowNat(n)
  }

  lemma {:induction false} ShowNatValue(n: nat)
    ensures DigitsValue(ShowNat(n)) == n
  {
    if n >= 10 {
      var s := ShowNat(n);
      assert s[..|s| - 1] == ShowNat(n / 10);
      ShowNatValue(n / 10);
    }
  }

  lemma {:induction false} StripLeadingPadded(w: string, t: string)
    requires AllSpace(w)
    requires |t| == 0 || !IsSpace(t[0])
    ensures StripLeading(w + t) == t
  {
    if |w| == 0 {
      assert w + t == t;
    } else {
      assert (w + t)[1..] == w[1..] + t;
      StripLeadingPadded(w[1..], t);
    }
  }

  lemma {:induction false} StripTrailingPadded(t: string, w: string)
    requires AllSpace(w)
    requires |t| == 0 || !IsSpace(t[|t| - 1])
    ensures StripTrailing(t + w) == t
  {
    if |w| == 0 {
      assert t + w == t;
    } else {
      assert (t + w)[..|t + w| - 1] == t + w[..|w| - 1];
      StripTrailingPadded(t, w[..|w| - 1]);
    }
  }

  /** Whitespace around a literal whose ends are not whitespace is what Strip removes. */
  lemma StripPadded(w1: string, t: string, w2: string)
    requires AllSpace(w1) && AllSpace(w2)
    requires |t| > 0 && !IsSpace(t[0]) && !IsSpace(t[|t| - 1])
    ensures Strip(w1 + t + w2) == t
  {
    assert w1 + t + w2 == w1 + (t + w2);
    StripLeadingPadded(w1, t + w2);
    StripTrailingPadded(t, w2);
  }

  lemma ParseShowIntStripped(n: int)
    ensures ParseStripped(ShowInt(n)) == Some(n)
  {
    var digits := ShowNat(if n < 0 then -n else n);
    ShowNatValue(if n < 0 then -n else n);
    if n < 0 {
      assert ShowInt(n)[1..] == digits;
    }
  }

  /** Every integer's decimal rendering, with any ASCII whitespace around it, parses back to that integer. */
  lemma ParseShowInt(w1: string, n: int, w2: string)
    requires AllSpace(w1) && AllSpace(w2)
    ensures ParseInt(w1 + ShowInt(n) + w2) == Some(n)
  {
    var s := ShowInt(n);
    assert s[0] == '-' || IsDigit(s[0]);
    assert IsDigit(s[|s| - 1]);
    StripPadded(w1, s, w2);
    ParseShowIntStripped(n);
  }

  /** An ASCII character that is neither whitespace, a digit, a sign nor an underscore makes int() fail. */
  lemma ParseRejectsForeign(s: string, c: char)
    requires c in s
    requires (c as int) < 0x80
    requires !IsSpace(c) && !IsDigit(c) && c != '+' && c != '-' && c != '_'
    ensures ParseInt(s) == None
  {
    var t := Strip(s);
    assert c in t;
    var i :| 0 <= i < |t| && t[i] == c;
    if |t| > 0 && (t[0] == '+' || t[0] == '-') {
      assert t[1..][i - 1] == c;
    }
  }
}
