/**
 * The few pieces of java.lang.String and java.lang.Integer that the core relies on:
 * String.trim, an ASCII toLowerCase, Integer.toString and Integer.parseInt.
 */
module Text {
  import opened Wrappers

  /** Java's String.trim removes every leading and trailing character whose code is at most U+0020. */
  predicate IsTrimmed(c: char) {
    c <= ' '
  }

  function TrimStart(s: string): (r: string)
    ensures |r| <= |s| && r == s[|s| - |r|..]
    ensures r == [] || !IsTrimmed(r[0])
    ensures forall k | 0 <= k < |s| - |r| :: IsTrimmed(s[k])
  {
    if s != [] && IsTrimmed(s[0]) then TrimStart(s[1..]) else s
  }

  function TrimEnd(s: string): (r: string)
    ensures |r| <= |s| && r == s[..|r|]
    ensures r == [] || !IsTrimmed(r[|r| - 1])
    ensures forall k | |r| <= k < |s| :: IsTrimmed(s[k])
  {
    if s != [] && IsTrimmed(s[|s| - 1]) then TrimEnd(s[..|s| - 1]) else s
  }

  /** How many characters String.trim drops from the front of `s`. */
  function TrimOffset(s: string): nat {
    |s| - |TrimStart(s)|
  }

  /**
   * String.trim: the infix of `s` left after dropping trimmed characters at both ends; it neither
   * starts nor ends with one.
   */
  function Trim(s: string): (r: string)
    ensures TrimOffset(s) + |r| <= |s| && r == s[TrimOffset(s)..TrimOffset(s) + |r|]
    ensures forall k | 0 <= k < TrimOffset(s) :: IsTrimmed(s[k])
    ensures forall k | TrimOffset(s) + |r| <= k < |s| :: IsTrimmed(s[k])
    ensures r == [] || (!IsTrimmed(r[0]) && !IsTrimmed(r[|r| - 1]))
  {
    var t := TrimStart(s);
    var r := TrimEnd(t);
    TrimmedInfix(s, t, r);
    r
  }

  /** An infix of a suffix of `s` is an infix of `s`, and what follows it within the suffix follows it in `s`. */
  lemma TrimmedInfix(s: string, t: string, r: string)
    requires |t| <= |s| && t == s[|s| - |t|..] && |r| <= |t| && r == t[..|r|]
    requires forall k | |r| <= k < |t| :: IsTrimmed(t[k])
    ensures r == s[|s| - |t|..|s| - |t| + |r|]
    ensures forall k | |s| - |t| + |r| <= k < |s| :: IsTrimmed(s[k])
  {
    forall k | |s| - |t| + |r| <= k < |s|
      ensures IsTrimmed(s[k])
    {
      assert s[k] == t[k - (|s| - |t|)];
    }
  }

  /** A string without leading or trailing blanks is its own trim. */
  lemma {:induction false} TrimOfTrimmed(s: string)
    requires s == [] || (!IsTrimmed(s[0]) && !IsTrimmed(s[|s| - 1]))
    ensures Trim(s) == s
  {
    assert TrimStart(s) == s;
    assert TrimEnd(s) == s;
  }

  /** Trimming a string that starts with a visible character keeps that character in front. */
  lemma TrimKeepsVisibleHead(c: char, s: string)
    requires !IsTrimmed(c)
    ensures Trim([c] + s) != [] && Trim([c] + s)[0] == c
  {
    var t := [c] + s;
    assert TrimStart(t) == t;
    var r := TrimEnd(t);
    assert r == [] || r[0] == c;
  }

  /** String.trim is idempotent: a trimmed string has nothing left to trim. */
  lemma TrimIdempotent(s: string)
    ensures Trim(Trim(s)) == Trim(s)
  {
    TrimOfTrimmed(Trim(s));
  }

  predicate IsUpper(c: char) {
    'A' <= c <= 'Z'
  }

  /** `c` is `l` itself, or the upper-case form of the ASCII lower-case letter `l`. */
  predicate SameIgnoringCase(c: char, l: char) {
    c == l || ('a' <= l <= 'z' && c as int == l as int - 32)
  }

  /**
   * String.toLowerCase, restricted to the ASCII letters: no upper-case letter is left, every
   * other character is kept, and each character of the result is its input character ignoring case.
   */
  function ToLower(s: string): (r: string)
    ensures |r| == |s|
    ensures forall k | 0 <= k < |r| :: !IsUpper(r[k])
    ensures forall k | 0 <= k < |s| && !IsUpper(s[k]) :: r[k] == s[k]
    ensures forall k | 0 <= k < |s| :: SameIgnoringCase(s[k], r[k])
  {
    seq(|s|, k requires 0 <= k < |s| => if IsUpper(s[k]) then (s[k] as int + 32) as char else s[k])
  }

  /** Lower-casing twice is lower-casing once. */
  lemma ToLowerIdempotent(s: string)
    ensures ToLower(ToLower(s)) == ToLower(s)
  {
  }

  /** `p` starts `s` when the case of ASCII letters is ignored. */
  predicate StartsIgnoringCase(s: string, p: string) {
    |p| <= |s| && forall k | 0 <= k < |p| :: SameIgnoringCase(s[k], p[k])
  }

  /**
   * `toLowerCase().startsWith(p)` for a prefix `p` without upper-case letters is a prefix test
   * that ignores case.
   */
  lemma {:induction false} LowerPrefixIgnoresCase(s: string, p: string)
    requires forall k | 0 <= k < |p| :: !IsUpper(p[k])
    ensures p <= ToLower(s) <==> StartsIgnoringCase(s, p)
  {
    var l := ToLower(s);
    if p <= l {
      forall k | 0 <= k < |p|
        ensures SameIgnoringCase(s[k], p[k])
      {
        assert l[k] == p[k];
      }
    }
    if StartsIgnoringCase(s, p) {
      forall k | 0 <= k < |p|
        ensures l[k] == p[k]
      {
        assert SameIgnoringCase(s[k], p[k]);
      }
      assert p == l[..|p|];
    }
  }

  predicate IsDigit(c: char) {
    '0' <= c <= '9'
  }

  function DigitChar(d: nat): (c: char)
    requires d < 10
    ensures IsDigit(c) && (c as int) - ('0' as int) == d
  {
    ((d + '0' as int) as char)
  }

  /** Integer.toString for a non-negative value: its decimal digits, most significant first. */
  function NatDigits(n: nat): (r: string)
    ensures r != [] && forall k | 0 <= k < |r| :: IsDigit(r[k])
  {
    if n < 10 then [DigitChar(n)] else NatDigits(n / 10) + [DigitChar(n % 10)]
  }

  /** Integer.toString: a minus sign for negative values, then the decimal digits. */
  function Decimal(n: int): string {
    if n < 0 then "-" + NatDigits(-n) else NatDigits(n)
  }

  function DigitValue(c: char): (d: nat)
    requires IsDigit(c)
    ensures d < 10
  {
    (c as int) - ('0' as int)
  }

  /** The value of a string of decimal digits. */
  function DigitsValue(ds: string): nat
    requires forall k | 0 <= k < |ds| :: IsDigit(ds[k])
  {
    if ds == [] then 0 else 10 * DigitsValue(ds[..|ds| - 1]) + DigitValue(ds[|ds| - 1])
  }

  const IntMin: int := -0x8000_0000
  const IntMax: int := 0x7fff_ffff

  /** The sign and digits Integer.parseInt accepts, and the value they denote. */
  predicate AllDigits(ds: string) {
    ds != [] && forall k | 0 <= k < |ds| :: IsDigit(ds[k])
  }

  /**
   * Integer.parseInt(s, 10) with ASCII digits: an optional '+' or '-', then at least one digit,
   * and a value within the 32-bit range; anything else is a NumberFormatException (None).
   */
  function ParseInt(s: string): (r: Option<int>)
    ensures r.Some? ==> IntMin <= r.value <= IntMax
    ensures r.Some? <==>
      || (AllDigits(s) && DigitsValue(s) <= IntMax)
      || (|s| > 1 && s[0] == '+' && AllDigits(s[1..]) && DigitsValue(s[1..]) <= IntMax)
      || (|s| > 1 && s[0] == '-' && AllDigits(s[1..]) && DigitsValue(s[1..]) <= -IntMin)
    ensures r.Some? ==>
      r.value == (if s[0] == '-' then -(DigitsValue(s[1..]) as int)
                  else if s[0] == '+' then DigitsValue(s[1..])
                  else DigitsValue(s))
  {
    if s == [] then None
    else if s[0] == '-' || s[0] == '+' then
      var ds := s[1..];
      if !AllDigits(ds) then None
      else
        var v := if s[0] == '-' then -(DigitsValue(ds) as int) else DigitsValue(ds);
        if IntMin <= v <= IntMax then Some(v) else None
    else if AllDigits(s) && DigitsValue(s) <= IntMax then Some(DigitsValue(s))
    else None
  }

  lemma {:induction false} DigitsValueOfNat(n: nat)
    ensures DigitsValue(NatDigits(n)) == n
  {
    if n >= 10 {
      DigitsValueOfNat(n / 10);
      var ds := NatDigits(n / 10) + [DigitChar(n % 10)];
      assert ds[..|ds| - 1] == NatDigits(n / 10);
    }
  }

  /** Integer.parseInt undoes Integer.toString on every 32-bit value. */
  lemma ParseDecimal(n: int)
    requires IntMin <= n <= IntMax
    ensures ParseInt(Decimal(n)) == Some(n)
  {
    var d := Decimal(n);
    if n < 0 {
      var ds := NatDigits(-n);
      DigitsValueOfNat(-n);
      assert d == "-" + ds;
      assert d[0] == '-' && d[1..] == ds;
      assert AllDigits(ds);
    } else {
      DigitsValueOfNat(n);
      assert AllDigits(d) && d[0] != '-' && d[0] != '+';
    }
  }
}
