/** Decimal text of natural numbers: Python's `str(n)`, the `02d` format
    (zero-padded to at least two digits) and the `.2f` format of a value
    given in hundredths, with the digit-string reading that inverts them. */
module Decimal {
  import opened Chars

  predicate AllDigits(s: string) {
    forall i :: 0 <= i < |s| ==> IsAsciiDigit(s[i])
  }

  function DigitChar(d: nat): (c: char)
    requires d < 10
    ensures IsAsciiDigit(c)
  {
    ('0' as int + d) as char
  }

  function DigitValue(c: char): (d: nat)
    requires IsAsciiDigit(c)
    ensures d < 10
  {
    c as int - '0' as int
  }

  /** The number a string of decimal digits denotes (leading zeros allowed). */
  function Value(s: string): nat
    requires AllDigits(s)
    decreases |s|
  {
    if |s| == 0 then 0 else Value(s[..|s| - 1]) * 10 + DigitValue(s[|s| - 1])
  }

  /** A non-empty digit string without a leading zero (`"0"` itself is
      allowed): the strings `str(n)` can produce. */
  predicate Canonical(s: string) {
    |s| >= 1 && AllDigits(s) && (|s| == 1 || s[0] != '0')
  }

  /** Python's `str(n)` for a natural number: the shortest digit string
      denoting `n` (no leading zero except for `0` itself). */
  function Dec(n: nat): (r: string)
    ensures |r| >= 1 && AllDigits(r)
    ensures r[0] != '0' || n == 0
    ensures Canonical(r)
    ensures Value(r) == n
    decreases n
  {
    if n < 10 then [DigitChar(n)]
    else
      var h := Dec(n / 10);
      var r := h + [DigitChar(n % 10)];
      assert r[..|r| - 1] == h;
      r
  }

  /** The length of `str(n)` grows at 10 and at 100. */
  lemma {:induction false} DecLength(n: nat)
    ensures n < 10 ==> |Dec(n)| == 1
    ensures 10 <= n < 100 ==> |Dec(n)| == 2
    ensures 100 <= n ==> |Dec(n)| >= 3
    decreases n
  {
    if n >= 10 {
      DecLength(n / 10);
    }
  }

  /** `str` is onto the canonical strings: every canonical digit string is
      `str` of its value, so `Dec` and `Value` are mutually inverse there. */
  lemma {:induction false} DecUnique(s: string)
    requires Canonical(s)
    ensures Dec(Value(s)) == s
    decreases |s|
  {
    var last := s[|s| - 1];
    var d := DigitValue(last);
    assert DigitChar(d) == last;
    if |s| > 1 {
      var h := s[..|s| - 1];
      assert h[0] == s[0];
      DecUnique(h);
      var n := Value(s);
      assert n == Value(h) * 10 + d;
      assert Value(h) >= 1;
      DivMod10(Value(h), d);
      assert s == h + [last];
    }
  }

  /** A leading zero does not change the value of a digit string. */
  lemma {:induction false} ValueLeadingZero(s: string)
    requires AllDigits(s)
    ensures AllDigits("0" + s) && Value("0" + s) == Value(s)
    decreases |s|
  {
    var z := "0" + s;
    if |s| > 0 {
      assert z[..|z| - 1] == "0" + s[..|s| - 1];
      ValueLeadingZero(s[..|s| - 1]);
    }
  }

  /** Python's `f"{n:02d}"` for a natural number: `str(n)` padded on the
      left with zeros to two characters. Reading it back gives `n`, and it
      is exactly two characters long when `n` has at most two digits. */
  function Pad2(n: nat): (r: string)
    ensures AllDigits(r) && Value(r) == n
    ensures |r| >= 2
    ensures |r| == 2 <==> n < 100
    ensures |r| > 2 ==> r[0] != '0'
  {
    DecLength(n);
    if n < 10 then
      ValueLeadingZero(Dec(n));
      "0" + Dec(n)
    else Dec(n)
  }

  /** The padded text is the only digit string of at least two characters
      that denotes its value and has no leading zero beyond the padding. */
  lemma {:induction false} Pad2Unique(s: string)
    requires AllDigits(s) && |s| >= 2 && (|s| > 2 ==> s[0] != '0')
    ensures Pad2(Value(s)) == s
  {
    var n := Value(s);
    if s[0] == '0' {
      var t := s[1..];
      assert s == "0" + t;
      ValueLeadingZero(t);
      assert |t| == 1;
      DecUnique(t);
      DecLength(n);
    } else {
      DecUnique(s);
      DecLength(n);
    }
  }

  /** Python's `f"{x:.2f}"` for `x == centis / 100`, a value known to the
      hundredth: integer part, a point, and two fraction digits. */
  function Fixed2(centis: nat): (r: string)
    ensures |r| >= 4 && r[|r| - 3] == '.'
    ensures Canonical(r[..|r| - 3]) && AllDigits(r[|r| - 2..])
    ensures Value(r[..|r| - 3]) * 100 + Value(r[|r| - 2..]) == centis
  {
    var whole := Dec(centis / 100);
    var frac := Pad2(centis % 100);
    var r := whole + "." + frac;
    assert r[..|r| - 3] == whole;
    assert r[|r| - 2..] == frac;
    r
  }

  /** The fixed-point text is the only string made of a canonical integer
      part, a point and two fraction digits that denotes its value. */
  lemma {:induction false} Fixed2Unique(whole: string, frac: string)
    requires Canonical(whole) && AllDigits(frac) && |frac| == 2
    ensures Fixed2(Value(whole) * 100 + Value(frac)) == whole + "." + frac
  {
    FracBound(frac);
    DecUnique(whole);
    Pad2Unique(frac);
    Fixed2Parts(Value(whole), Value(frac), whole, frac);
  }

  lemma Fixed2Parts(w: nat, f: nat, ws: string, fs: string)
    requires f < 100 && Dec(w) == ws && Pad2(f) == fs
    ensures Fixed2(w * 100 + f) == ws + "." + fs
  {
    Fixed2Of(w, f);
  }

  lemma Fixed2Of(w: nat, f: nat)
    requires f < 100
    ensures Fixed2(w * 100 + f) == Dec(w) + "." + Pad2(f)
  {
    DivMod100(w, f);
  }

  lemma {:induction false} FracBound(frac: string)
    requires AllDigits(frac) && |frac| == 2
    ensures Value(frac) < 100
  {
    var h := frac[..1];
    assert h[..0] == [];
    assert Value(h) == DigitValue(frac[0]);
    assert Value(frac) == Value(h) * 10 + DigitValue(frac[1]);
  }

  lemma DivMod10(q: nat, r: nat)
    requires r < 10
    ensures (q * 10 + r) / 10 == q && (q * 10 + r) % 10 == r
  {
  }

  lemma DivMod100(q: nat, r: nat)
    requires r < 100
    ensures (q * 100 + r) / 100 == q && (q * 100 + r) % 100 == r
  {
  }
}
