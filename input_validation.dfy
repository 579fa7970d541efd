/** `validateInput` of the second app's front end
    (ToDoApp02-Frontend+Backend/frontend/src/utils/helpers.js): a value passes when it is
    present and non-empty, its trimmed length reaches `minLength`, and its raw length does not
    exceed `maxLength`; otherwise the result is a message naming the bound that failed. */
module InputValidation {
  import opened Wrappers
  import opened Text

  const TooShortPrefix := "输入内容至少需要"
  const TooLongPrefix := "输入内容不能超过"
  const CharsSuffix := "个字符"

  /** The message for a value shorter than `minLength` once trimmed. */
  function TooShort(minLength: int): string {
    TooShortPrefix + IntToDecimal(minLength) + CharsSuffix
  }

  /** The message for a value longer than `maxLength`. */
  function TooLong(maxLength: int): string {
    TooLongPrefix + IntToDecimal(maxLength) + CharsSuffix
  }

  /** `validateInput(value, minLength, maxLength)`. `None` as the value is `null` or
      `undefined`; `None` as the result is the `null` that means "valid". */
  function ValidateInput(value: Option<string>, minLength: int, maxLength: int): (r: Option<string>)
    ensures r.None? <==>
      value.Some? && value.value != "" && |Trim(value.value)| >= minLength && |value.value| <= maxLength
    ensures r.Some? ==> r.value == TooShort(minLength) || r.value == TooLong(maxLength)
  {
    if value.None? || value.value == "" || |Trim(value.value)| < minLength then Some(TooShort(minLength))
    else if |value.value| > maxLength then Some(TooLong(maxLength))
    else None
  }

  /** The call with the default bounds, 1 and 255. */
  function ValidateWithDefaults(value: Option<string>): Option<string> {
    ValidateInput(value, 1, 255)
  }

  /** A missing, empty or whitespace-only value is always rejected with the minimum-length
      message once the minimum is at least one. */
  lemma BlankRejected(value: Option<string>, minLength: int, maxLength: int)
    requires minLength >= 1
    requires value.None? || IsBlank(value.value)
    ensures ValidateInput(value, minLength, maxLength) == Some(TooShort(minLength))
  {
    if value.Some? {
      TrimEmptyIffBlank(value.value);
    }
  }

  /** The maximum is checked on the raw value: padding alone can push a value whose trimmed
      form fits over the limit. */
  lemma PaddingCountsAgainstMaximum(s: string, minLength: int, maxLength: int)
    requires s != "" && |Trim(s)| >= minLength && |s| > maxLength
    ensures ValidateInput(Some(s), minLength, maxLength) == Some(TooLong(maxLength))
  {
  }

  /** Such a value exists even with the default bounds: 250 letters padded with six spaces. */
  lemma PaddedValueRejectedByDefault()
    ensures var s := seq(3, i => ' ') + seq(250, i => 'a') + seq(3, i => ' ');
      |Trim(s)| == 250 && ValidateWithDefaults(Some(s)) == Some(TooLong(255))
  {
    var pad, body := seq(3, i => ' '), seq(250, i => 'a');
    var s := pad + body + pad;
    assert Trim(s) == body by {
      TrimStartDrops(s);
      TrimEndDrops(TrimStart(s));
      assert LeadingBlanks(s) == 3 by {
        LeadingBlanksOfPadded(pad, body + pad);
        assert s == pad + (body + pad);
      }
      assert TrimStart(s) == body + pad;
      assert TrailingBlanks(body + pad) == 3 by {
        TrailingBlanksOfPadded(body, pad);
      }
    }
  }

  lemma {:induction false} LeadingBlanksOfPadded(pad: string, rest: string)
    requires IsBlank(pad) && rest != [] && !IsJsWhitespace(rest[0])
    ensures LeadingBlanks(pad + rest) == |pad|
    decreases |pad|
  {
    if pad != [] {
      assert (pad + rest)[1..] == pad[1..] + rest;
      LeadingBlanksOfPadded(pad[1..], rest);
    } else {
      assert pad + rest == rest;
    }
  }

  lemma {:induction false} TrailingBlanksOfPadded(rest: string, pad: string)
    requires IsBlank(pad) && rest != [] && !IsJsWhitespace(rest[|rest| - 1])
    ensures TrailingBlanks(rest + pad) == |pad|
    decreases |pad|
  {
    if pad != [] {
      assert (rest + pad)[..|rest + pad| - 1] == rest + pad[..|pad| - 1];
      TrailingBlanksOfPadded(rest, pad[..|pad| - 1]);
    } else {
      assert rest + pad == rest;
    }
  }

  /** When both bounds fail, the minimum-length message wins because it is checked first. */
  lemma MinimumCheckedFirst(s: string, minLength: int, maxLength: int)
    requires |Trim(s)| < minLength && |s| > maxLength
    ensures ValidateInput(Some(s), minLength, maxLength) == Some(TooShort(minLength))
  {
  }

  /** The minimum-length message embeds its bound: the digits between its prefix and suffix
      read back as `minLength`. */
  lemma TooShortNamesBound(minLength: int)
    ensures var m := TooShort(minLength);
      |m| >= |TooShortPrefix| + |CharsSuffix| &&
      m[..|TooShortPrefix|] == TooShortPrefix &&
      ParseInt(m[|TooShortPrefix|..|m| - |CharsSuffix|]) == Some(minLength)
  {
    var m := TooShort(minLength);
    assert m[|TooShortPrefix|..|m| - |CharsSuffix|] == IntToDecimal(minLength);
    IntToDecimalRoundTrip(minLength);
  }

  /** The maximum-length message embeds its bound the same way. */
  lemma TooLongNamesBound(maxLength: int)
    ensures var m := TooLong(maxLength);
      |m| >= |TooLongPrefix| + |CharsSuffix| &&
      m[..|TooLongPrefix|] == TooLongPrefix &&
      ParseInt(m[|TooLongPrefix|..|m| - |CharsSuffix|]) == Some(maxLength)
  {
    var m := TooLong(maxLength);
    assert m[|TooLongPrefix|..|m| - |CharsSuffix|] == IntToDecimal(maxLength);
    IntToDecimalRoundTrip(maxLength);
  }

  /** The two messages never coincide, whatever the bounds. */
  lemma MessagesDiffer(minLength: int, maxLength: int)
    ensures TooShort(minLength) != TooLong(maxLength)
  {
    assert TooShort(minLength)[6] == TooShortPrefix[6];
    assert TooLong(maxLength)[6] == TooLongPrefix[6];
  }
}
