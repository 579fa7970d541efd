/** String helpers shared by the models: JavaScript's `String.prototype.trim`, lower-casing,
    substring search, and the decimal rendering of integers in template literals. */
module Text {
  import opened Wrappers

  /** The characters `trim` removes: WhiteSpace and LineTerminator of section 12.2 and 12.3
      of ECMA-262 (tab, vertical tab, form feed, space, no-break space, byte order mark,
      the other space separators, line feed, carriage return, line and paragraph separators). */
  predicate IsJsWhitespace(c: char) {
    || c == '\t' || c == '\n' || c == '\U{B}' || c == '\U{C}' || c == '\r' || c == ' '
    || c == '\U{A0}' || c == '\U{1680}' || ('\U{2000}' <= c <= '\U{200A}')
    || c == '\U{2028}' || c == '\U{2029}' || c == '\U{202F}' || c == '\U{205F}'
    || c == '\U{3000}' || c == '\U{FEFF}'
  }

  /** Every character of `s` is whitespace (the empty string included). */
  predicate IsBlank(s: string) {
    forall k :: 0 <= k < |s| ==> IsJsWhitespace(s[k])
  }

  function TrimStart(s: string): string {
    if s != [] && IsJsWhitespace(s[0]) then TrimStart(s[1..]) else s
  }

  function TrimEnd(s: string): string {
    if s != [] && IsJsWhitespace(s[|s| - 1]) then TrimEnd(s[..|s| - 1]) else s
  }

  /** `s.trim()`. */
  function Trim(s: string): string {
    TrimEnd(TrimStart(s))
  }

  /** How many whitespace characters `s` starts with. */
  function LeadingBlanks(s: string): (n: nat)
    ensures n <= |s|
  {
    if s != [] && IsJsWhitespace(s[0]) then 1 + LeadingBlanks(s[1..]) else 0
  }

  /** How many whitespace characters `s` ends with. */
  function TrailingBlanks(s: string): (n: nat)
    ensures n <= |s|
  {
    if s != [] && IsJsWhitespace(s[|s| - 1]) then 1 + TrailingBlanks(s[..|s| - 1]) else 0
  }

  lemma {:induction false} TrimStartDrops(s: string)
    ensures TrimStart(s) == s[LeadingBlanks(s)..]
    ensures IsBlank(s[..LeadingBlanks(s)])
    ensures TrimStart(s) != [] ==> !IsJsWhitespace(TrimStart(s)[0])
  {
    if s != [] && IsJsWhitespace(s[0]) {
      TrimStartDrops(s[1..]);
      var n := LeadingBlanks(s[1..]);
      assert s[1..][n..] == s[n + 1..];
      var pre := s[..n + 1];
      forall k | 0 <= k < |pre| ensures IsJsWhitespace(pre[k]) {
        if k > 0 {
          assert pre[k] == s[1..][..n][k - 1];
        }
      }
    }
  }

  lemma {:induction false} TrimEndDrops(s: string)
    ensures TrimEnd(s) == s[..|s| - TrailingBlanks(s)]
    ensures IsBlank(s[|s| - TrailingBlanks(s)..])
    ensures TrimEnd(s) != [] ==> !IsJsWhitespace(TrimEnd(s)[|TrimEnd(s)| - 1])
  {
    if s != [] && IsJsWhitespace(s[|s| - 1]) {
      var init := s[..|s| - 1];
      TrimEndDrops(init);
      var j := |init| - TrailingBlanks(init);
      assert init[..j] == s[..j];
      var post := s[j..];
      forall k | 0 <= k < |post| ensures IsJsWhitespace(post[k]) {
        assert post[k] == s[j + k];
        if j + k < |s| - 1 {
          assert s[j + k] == init[j + k] == init[j..][k];
        }
      }
    }
  }

  /** The trimmed string is a contiguous piece of `s`, everything cut off is whitespace,
      and what is left neither starts nor ends with whitespace. */
  lemma TrimShape(s: string)
    ensures exists i, j :: 0 <= i <= j <= |s| && Trim(s) == s[i..j] && IsBlank(s[..i]) && IsBlank(s[j..])
    ensures Trim(s) != [] ==> !IsJsWhitespace(Trim(s)[0]) && !IsJsWhitespace(Trim(s)[|Trim(s)| - 1])
  {
    TrimStartDrops(s);
    var i := LeadingBlanks(s);
    var t := s[i..];
    TrimEndDrops(t);
    var j := i + |t| - TrailingBlanks(t);
    assert Trim(s) == s[i..j] by {
      assert t[..j - i] == s[i..j];
    }
    assert IsBlank(s[j..]) by {
      assert t[j - i..] == s[j..];
    }
    if Trim(s) != [] {
      assert Trim(s)[0] == t[0];
    }
  }

  /** Trimming leaves nothing exactly when the string is blank. */
  lemma {:induction false} TrimEmptyIffBlank(s: string)
    ensures Trim(s) == [] <==> IsBlank(s)
  {
    TrimShape(s);
    var i, j :| 0 <= i <= j <= |s| && Trim(s) == s[i..j] && IsBlank(s[..i]) && IsBlank(s[j..]);
    if Trim(s) == [] {
      forall k | 0 <= k < |s| ensures IsJsWhitespace(s[k]) {
        if k < i {
          assert s[k] == s[..i][k];
        } else {
          assert s[k] == s[j..][k - j];
        }
      }
    } else {
      assert s[i] == Trim(s)[0];
    }
  }

  /** Trimming a trimmed string changes nothing. */
  lemma TrimIdempotent(s: string)
    ensures Trim(Trim(s)) == Trim(s)
  {
    TrimShape(s);
    var t := Trim(s);
    if t != [] {
      assert TrimStart(t) == t;
      assert TrimEnd(t) == t;
    }
  }

  /** ASCII letters lower-cased, every other character unchanged. */
  function LowerChar(c: char): char {
    if 'A' <= c <= 'Z' then (c as int + 32) as char else c
  }

  /** `s.toLowerCase()` restricted to ASCII letters: no capital is left, every character that
      was not a capital is kept where it was, and each capital becomes its small letter. */
  function ToLower(s: string): (r: string)
    ensures |r| == |s|
    ensures forall k :: 0 <= k < |r| ==> !('A' <= r[k] <= 'Z')
    ensures forall k :: 0 <= k < |s| && !('A' <= s[k] <= 'Z') ==> r[k] == s[k]
    ensures forall k :: 0 <= k < |s| && 'A' <= s[k] <= 'Z' ==> 'a' <= r[k] <= 'z' && r[k] as int - s[k] as int == 'a' as int - 'A' as int
  {
    seq(|s|, k requires 0 <= k < |s| => LowerChar(s[k]))
  }

  /** Lower-casing works character by character, so it commutes with taking a slice. */
  lemma ToLowerSlice(s: string, i: int, j: int)
    requires 0 <= i <= j <= |s|
    ensures ToLower(s)[i..j] == ToLower(s[i..j])
  {
    assert forall k :: 0 <= k < j - i ==> ToLower(s)[i..j][k] == LowerChar(s[i + k]);
  }

  lemma ToLowerIdempotent(s: string)
    ensures ToLower(ToLower(s)) == ToLower(s)
  {
  }

  /** `sub` occurs in `s` starting at index `i`. */
  predicate OccursAt(s: string, sub: string, i: int) {
    0 <= i && i + |sub| <= |s| && s[i..i + |sub|] == sub
  }

  /** `s.includes(sub)`: `sub` occurs in `s` at some position (the empty string occurs everywhere). */
  predicate Contains(s: string, sub: string) {
    exists i :: 0 <= i <= |s| - |sub| && OccursAt(s, sub, i)
  }

  /** A case-insensitive search finds whatever a case-sensitive one finds, at the same place. */
  lemma ContainsLowered(s: string, sub: string)
    requires Contains(s, sub)
    ensures Contains(ToLower(s), ToLower(sub))
  {
    var i :| 0 <= i <= |s| - |sub| && OccursAt(s, sub, i);
    ToLowerSlice(s, i, i + |sub|);
    assert OccursAt(ToLower(s), ToLower(sub), i);
  }

  function DigitChar(d: int): char
    requires 0 <= d < 10
  {
    ('0' as int + d) as char
  }

  /** Decimal digits of `n`, most significant first, with no leading zero. */
  function NatToDecimal(n: nat): (r: string)
    ensures r != []
    ensures forall k :: 0 <= k < |r| ==> '0' <= r[k] <= '9'
  {
    if n < 10 then [DigitChar(n)] else NatToDecimal(n / 10) + [DigitChar(n % 10)]
  }

  /** The text a template literal inserts for an integer: its decimal form, `-` first if negative. */
  function IntToDecimal(n: int): string {
    if n < 0 then "-" + NatToDecimal(-n) else NatToDecimal(n)
  }

  /** Reads back a string of decimal digits. */
  function ParseDigits(s: string): (r: Option<int>)
    ensures r.Some? <==> s != [] && forall k :: 0 <= k < |s| ==> '0' <= s[k] <= '9'
    ensures r.Some? ==> r.value >= 0
  {
    if s == [] || !('0' <= s[|s| - 1] <= '9') then None
    else if |s| == 1 then Some(s[0] as int - '0' as int)
    else
      var init := ParseDigits(s[..|s| - 1]);
      if init.None? then None else Some(init.value * 10 + (s[|s| - 1] as int - '0' as int))
  }

  /** Reads back an optionally negative decimal integer. */
  function ParseInt(s: string): Option<int> {
    if s != [] && s[0] == '-' then
      var v := ParseDigits(s[1..]);
      if v.None? then None else Some(-v.value)
    else ParseDigits(s)
  }

  lemma {:induction false} NatToDecimalRoundTrip(n: nat)
    ensures ParseDigits(NatToDecimal(n)) == Some(n)
  {
    if n >= 10 {
      NatToDecimalRoundTrip(n / 10);
      var r := NatToDecimal(n);
      assert r[..|r| - 1] == NatToDecimal(n / 10);
    }
  }

  /** A leading `-` negates what the rest reads as. */
  lemma ParseIntNegated(digits: string)
    ensures ParseInt("-" + digits) == match ParseDigits(digits)
                                      case None => None
                                      case Some(v) => Some(-v)
  {
    assert ("-" + digits)[1..] == digits;
  }

  /** Without a leading `-`, the text reads as plain digits. */
  lemma ParseIntUnsigned(digits: string)
    requires digits == [] || digits[0] != '-'
    ensures ParseInt(digits) == ParseDigits(digits)
  {
  }

  /** The decimal text of an integer determines the integer: `ParseInt` undoes `IntToDecimal`. */
  lemma IntToDecimalRoundTrip(n: int)
    ensures ParseInt(IntToDecimal(n)) == Some(n)
  {
    if n < 0 {
      NatToDecimalRoundTrip(-n);
      ParseIntNegated(NatToDecimal(-n));
    } else {
      NatToDecimalRoundTrip(n);
      ParseIntUnsigned(NatToDecimal(n));
    }
  }
}
