/** Python's `int(text)` and `str(n)` for decimal integers: the key coercion a
    lookup applies to the stop code taken from the URL. */
module Coercion {
  import opened Values

  /** The characters `int()` strips from both ends of an ASCII text: space
      and tab through carriage return. */
  predicate IsSpace(c: char) {
    c == ' ' || '\t' <= c <= '\r'
  }

  predicate IsDigit(c: char) {
    '0' <= c <= '9'
  }

  /** The number of whitespace characters `s` starts with. */
  function LeadingSpaces(s: string): (n: nat)
    ensures n <= |s| && (n == |s| || !IsSpace(s[n]))
    ensures forall i :: 0 <= i < n ==> IsSpace(s[i])
  {
    if |s| > 0 && IsSpace(s[0]) then 1 + LeadingSpaces(s[1..]) else 0
  }

  /** The number of whitespace characters `s` ends with. */
  function TrailingSpaces(s: string): (n: nat)
    ensures n <= |s| && (n == |s| || !IsSpace(s[|s| - 1 - n]))
    ensures forall i :: |s| - n <= i < |s| ==> IsSpace(s[i])
  {
    if |s| > 0 && IsSpace(s[|s| - 1]) then 1 + TrailingSpaces(s[..|s| - 1]) else 0
  }

  /** The text with the whitespace at both ends removed. */
  function Strip(text: string): string
  {
    var rest := text[LeadingSpaces(text)..];
    rest[..|rest| - TrailingSpaces(rest)]
  }

  /** Stripping keeps a slice of the text with whitespace on either side of
      it and no whitespace at its ends. */
  lemma StripBounds(text: string) returns (lo: nat, hi: nat)
    ensures lo <= hi <= |text| && Strip(text) == text[lo..hi]
    ensures forall i :: 0 <= i < lo ==> IsSpace(text[i])
    ensures forall i :: hi <= i < |text| ==> IsSpace(text[i])
    ensures lo < hi ==> !IsSpace(text[lo]) && !IsSpace(text[hi - 1])
  {
    lo := LeadingSpaces(text);
    var rest := text[lo..];
    var n := TrailingSpaces(rest);
    hi := |text| - n;
    forall i | hi <= i < |text| ensures IsSpace(text[i]) {
      assert text[i] == rest[i - lo];
    }
    if lo < hi {
      assert text[lo] == rest[0] && text[hi - 1] == rest[|rest| - 1 - n];
    }
  }

  /** Decimal digits, where a single underscore may separate two digits. */
  predicate DigitRun(s: string) {
    && |s| > 0 && IsDigit(s[0]) && IsDigit(s[|s| - 1])
    && (forall i {:trigger s[i]} :: 0 <= i < |s| ==> IsDigit(s[i]) || (s[i] == '_' && i + 1 < |s| && IsDigit(s[i + 1])))
  }

  /** The number a digit run denotes, underscores ignored. */
  function RunValue(s: string): nat
  {
    if s == [] then 0
    else
      var n := |s| - 1;
      if IsDigit(s[n]) then 10 * RunValue(s[..n]) + (s[n] as int - '0' as int) else RunValue(s[..n])
  }

  /** `int(text)`: surrounding whitespace, an optional sign, then a digit
      run; anything else is a ValueError, here None. */
  function ParseInt(text: string): Option<int>
  {
    var t := Strip(text);
    if |t| > 0 && (t[0] == '+' || t[0] == '-') then
      var magnitude: int := RunValue(t[1..]);
      if DigitRun(t[1..]) then Some(if t[0] == '-' then -magnitude else magnitude) else None
    else if DigitRun(t) then Some(RunValue(t))
    else None
  }

  /** `str(n)` for a natural number: its decimal digits, no leading zero. */
  function NatToString(n: nat): (s: string)
    ensures |s| > 0 && forall i :: 0 <= i < |s| ==> IsDigit(s[i])
  {
    if n < 10 then [('0' as int + n) as char]
    else NatToString(n / 10) + [('0' as int + n % 10) as char]
  }

  /** `str(n)` */
  function IntToString(n: int): string
  {
    if n < 0 then "-" + NatToString(-n) else NatToString(n)
  }

  lemma {:induction false} NatToStringValue(n: nat)
    ensures RunValue(NatToString(n)) == n
  {
    var s := NatToString(n);
    if n >= 10 {
      NatToStringValue(n / 10);
      assert s[..|s| - 1] == NatToString(n / 10);
    }
  }

  lemma NoSpaceNoTrim(s: string)
    requires |s| > 0 && !IsSpace(s[0]) && !IsSpace(s[|s| - 1])
    ensures Strip(s) == s
  {
    assert LeadingSpaces(s) == 0;
    assert TrailingSpaces(s) == 0;
  }

  /** `int(str(n)) == n` for every integer. */
  lemma ParseIntRoundTrip(n: int)
    ensures ParseInt(IntToString(n)) == Some(n)
  {
    var m: nat := if n < 0 then -n else n;
    var digits := NatToString(m);
    NatToStringValue(m);
    DigitsAreRun(digits);
    var s := IntToString(n);
    if n < 0 {
      assert s == "-" + digits && s[1..] == digits;
      assert s[|s| - 1] == digits[|digits| - 1];
      NoSpaceNoTrim(s);
    } else {
      assert s == digits;
      NoSpaceNoTrim(s);
    }
  }

  lemma DigitsAreRun(s: string)
    requires |s| > 0 && forall i :: 0 <= i < |s| ==> IsDigit(s[i])
    ensures DigitRun(s)
  {
  }

  /** Whatever `int()` accepts has a digit in it and nothing but a sign,
      digits, underscores and surrounding whitespace: every other text is a
      ValueError. */
  lemma ParseIntAccepts(text: string)
    requires ParseInt(text).Some?
    ensures exists i :: 0 <= i < |text| && IsDigit(text[i])
    ensures forall i :: 0 <= i < |text| ==> Allowed(text[i])
  {
    var lo, hi := StripBounds(text);
    LiteralAllowed(Strip(text));
    EmbeddedAllowed(text, Strip(text), lo);
  }

  /** A signed or unsigned digit run ends in a digit and holds only allowed characters. */
  lemma LiteralAllowed(t: string)
    requires if |t| > 0 && (t[0] == '+' || t[0] == '-') then DigitRun(t[1..]) else DigitRun(t)
    ensures |t| > 0 && IsDigit(t[|t| - 1])
    ensures forall i :: 0 <= i < |t| ==> Allowed(t[i])
  {
    var signed := |t| > 0 && (t[0] == '+' || t[0] == '-');
    var body := if signed then t[1..] else t;
    RunAllowed(body);
    assert body[|body| - 1] == t[|t| - 1];
    forall i | 0 <= i < |t| ensures Allowed(t[i]) {
      if signed && i > 0 { assert t[i] == body[i - 1]; }
    }
  }

  /** A literal surrounded by whitespace: the whole text is allowed, and the
      literal's last digit is a digit of the text. */
  lemma EmbeddedAllowed(text: string, t: string, off: nat)
    requires off + |t| <= |text| && t == text[off..off + |t|]
    requires forall i :: 0 <= i < off ==> IsSpace(text[i])
    requires forall i :: off + |t| <= i < |text| ==> IsSpace(text[i])
    requires |t| > 0 && IsDigit(t[|t| - 1])
    requires forall i :: 0 <= i < |t| ==> Allowed(t[i])
    ensures exists i :: 0 <= i < |text| && IsDigit(text[i])
    ensures forall i :: 0 <= i < |text| ==> Allowed(text[i])
  {
    forall i | 0 <= i < |text| ensures Allowed(text[i]) {
      if off <= i < off + |t| { assert text[i] == t[i - off]; }
    }
    assert text[off + |t| - 1] == t[|t| - 1];
  }

  /** The characters `int()` can accept. */
  predicate Allowed(c: char) {
    IsSpace(c) || IsDigit(c) || c == '_' || c == '+' || c == '-'
  }

  lemma RunAllowed(s: string)
    requires DigitRun(s)
    ensures forall i :: 0 <= i < |s| ==> Allowed(s[i])
  {
  }
}
