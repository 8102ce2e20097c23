/** Three ways to read a decimal `int` from a string view. All skip leading
    characters from " \t\n\r\f\v". `parseIntCxx17` then takes one optional sign and
    accumulates digits until the first non-digit, returning 0 when there are none.
    The two C++23 variants skip one optional `+` and hand the rest to
    `std::from_chars`; they return an empty optional, or an `errc`, when it fails. */
module ParseInt {
  import opened Common

  /** Space, tab, newline, carriage return, form feed and vertical tab. */
  const WhiteSpaceChars: string := [' ', '\t', '\n', '\r', 12 as char, 11 as char]

  predicate IsDigit(ch: char) {
    '0' <= ch <= '9'
  }

  function DigitValue(ch: char): (r: nat)
    requires IsDigit(ch)
    ensures r < 10
  {
    (ch as int) - ('0' as int)
  }

  predicate AllDigits(ds: string) {
    forall i :: 0 <= i < |ds| ==> IsDigit(ds[i])
  }

  /** The decimal value of a run of digits, most significant first. */
  function DigitsValue(ds: string): (r: nat)
    requires AllDigits(ds)
  {
    if |ds| == 0 then 0 else DigitsValue(ds[..|ds| - 1]) * 10 + DigitValue(ds[|ds| - 1])
  }

  /** A longer run of digits has at least the value of its prefix, so the accumulator
      only grows in magnitude. */
  lemma {:induction false} DigitsValuePrefix(ds: string, k: nat)
    requires AllDigits(ds)
    requires k <= |ds|
    ensures DigitsValue(ds[..k]) <= DigitsValue(ds)
    decreases |ds| - k
  {
    if k < |ds| {
      var init := ds[..|ds| - 1];
      assert ds[..k] == init[..k];
      DigitsValuePrefix(init, k);
    } else {
      assert ds[..k] == ds;
    }
  }

  /** `find_first_not_of(chars, from)`: the first index at or after `from` holding a
      character outside `chars`, or `|s|` (for `npos`) when there is none. */
  function FindFirstNotOf(s: string, chars: string, from: nat): (r: nat)
    requires from <= |s|
    ensures from <= r <= |s|
    decreases |s| - from
  {
    if from == |s| || s[from] !in chars then from else FindFirstNotOf(s, chars, from + 1)
  }

  /** Everything `FindFirstNotOf` skips is in `chars`, and what it stops at is not. */
  lemma {:induction false} FindFirstNotOfSkips(s: string, chars: string, from: nat)
    requires from <= |s|
    ensures forall j :: from <= j < FindFirstNotOf(s, chars, from) ==> s[j] in chars
    ensures FindFirstNotOf(s, chars, from) < |s| ==> s[FindFirstNotOf(s, chars, from)] !in chars
    decreases |s| - from
  {
    if from < |s| && s[from] in chars {
      FindFirstNotOfSkips(s, chars, from + 1);
    }
  }

  /** The end of the run of digits that starts at `from`. */
  function DigitRunEnd(s: string, from: nat): (r: nat)
    requires from <= |s|
    ensures from <= r <= |s|
    ensures forall j :: from <= j < r ==> IsDigit(s[j])
    ensures AllDigits(s[from..r])
    ensures r < |s| ==> !IsDigit(s[r])
    decreases |s| - from
  {
    if from == |s| || !IsDigit(s[from]) then from else DigitRunEnd(s, from + 1)
  }

  /** Where `parseIntCxx17` starts reading digits, and the sign it has read. */
  function DigitsStart(str: string, start: nat): (nat, int)
    requires start < |str|
  {
    if str[start] == '-' || str[start] == '+' then (start + 1, if str[start] == '-' then -1 else 1)
    else (start, 1)
  }

  /** `v` with the sign `sign` (1 or -1) applied. */
  function ApplySign(sign: int, v: int): int {
    if sign < 0 then -v else v
  }

  /** What `parseIntCxx17` computes: 0 for an empty or all-blank view, otherwise the sign
      times the value of the digits that follow the blanks and at most one sign. */
  function ParseIntSpec(str: string): int {
    var start := FindFirstNotOf(str, WhiteSpaceChars, 0);
    if start == |str| then 0
    else
      var (index, sign) := DigitsStart(str, start);
      ApplySign(sign, DigitsValue(str[index..DigitRunEnd(str, index)]))
  }

  /** `parseIntCxx17`. C++ signed overflow is undefined, so the result must fit in an
      `int`; then, the accumulator being the sign times the value of a prefix of the
      digits, no step on the way overflows either (this is how `-2147483648` is reached
      without ever holding `2147483648`). */
  method ParseIntCxx17(str: string) returns (val: int)
    requires InInt32(ParseIntSpec(str))
    ensures val == ParseIntSpec(str)
  {
    var start := FindFirstNotOf(str, WhiteSpaceChars, 0);
    if start == |str| {
      return 0;
    }
    var sign := 1;
    var index := start;
    if str[start] == '-' || str[start] == '+' {
      sign := if str[start] == '-' then -1 else 1;
      index := index + 1;
    }
    val := AccumulateDigits(str, index, sign);
  }

  /** The digit loop of `parseIntCxx17` from `first`: the accumulator starts at 0 and,
      for each digit, is multiplied by ten and the signed digit added, until the first
      non-digit or the end of the view. Its result is the sign times the value of the
      whole digit run. */
  method AccumulateDigits(str: string, first: nat, sign: int) returns (val: int)
    requires first <= |str| && (sign == 1 || sign == -1)
    requires InInt32(ApplySign(sign, DigitsValue(str[first..DigitRunEnd(str, first)])))
    ensures val == ApplySign(sign, DigitsValue(str[first..DigitRunEnd(str, first)]))
  {
    ghost var end := DigitRunEnd(str, first);
    var index := first;
    val := 0;
    while index < |str|
      invariant first <= index <= end
      invariant AllDigits(str[first..index])
      invariant val == ApplySign(sign, DigitsValue(str[first..index]))
      decreases |str| - index
    {
      var ch := str[index];
      if ch < '0' || ch > '9' {
        break;
      }
      AccumulateDigit(str, first, index, sign);
      PrefixFits(str, first, index + 1, end, sign);
      val := val * 10 + sign * ((ch as int) - ('0' as int));
      index := index + 1;
    }
  }

  /** One step of the loop: the accumulator times ten plus the signed digit is the sign
      times the value of the run one digit longer. */
  lemma AccumulateDigit(str: string, first: nat, index: nat, sign: int)
    requires first <= index < |str| && (sign == 1 || sign == -1)
    requires AllDigits(str[first..index]) && IsDigit(str[index])
    ensures AllDigits(str[first..index + 1])
    ensures ApplySign(sign, DigitsValue(str[first..index + 1])) == ApplySign(sign, DigitsValue(str[first..index])) * 10 + sign * DigitValue(str[index])
  {
    assert str[first..index + 1][..index - first] == str[first..index];
  }

  /** While the whole run fits in an `int`, so does the value of every prefix of it. */
  lemma PrefixFits(str: string, first: nat, index: nat, end: nat, sign: int)
    requires first <= index <= end <= |str| && (sign == 1 || sign == -1)
    requires AllDigits(str[first..end])
    requires InInt32(ApplySign(sign, DigitsValue(str[first..end])))
    ensures AllDigits(str[first..index])
    ensures InInt32(ApplySign(sign, DigitsValue(str[first..index])))
  {
    DigitsValuePrefix(str[first..end], index - first);
    assert str[first..end][..index - first] == str[first..index];
  }

  /** `std::errc`: `errc{}` for success and the two codes `from_chars` reports. */
  datatype Errc = NoError | InvalidArgument | ResultOutOfRange

  /** What `std::from_chars` returns: the position after the characters it consumed, the
      error code, and the value written back to its out-parameter. */
  datatype FromCharsResult = FromCharsResult(ptr: nat, ec: Errc, value: int)

  /** `std::from_chars` into an `int` in base 10, by the contract of
      [charconv.from.chars] in the C++ standard: it matches an optional `-` followed by
      one or more digits, with no leading blanks and no `+`. With no match it reports
      `invalid_argument`, consumes nothing and leaves `value` alone; with a match whose
      value is not an `int` it reports `result_out_of_range`, consumes the match and
      leaves `value` alone; otherwise it stores the value and consumes the match. */
  function FromChars(s: string, value: int): (r: FromCharsResult)
    ensures r.ptr <= |s|
    ensures r.ec == NoError ==> InInt32(r.value)
    ensures r.ec != NoError ==> r.value == value
    ensures r.ec == InvalidArgument <==> r.ptr == 0
  {
    var first := if |s| > 0 && s[0] == '-' then 1 else 0;
    var end := DigitRunEnd(s, first);
    if end == first then FromCharsResult(0, InvalidArgument, value)
    else
      var v := ApplySign(if first == 1 then -1 else 1, DigitsValue(s[first..end]));
      if InInt32(v) then FromCharsResult(end, NoError, v) else FromCharsResult(end, ResultOutOfRange, value)
  }

  /** Where the C++23 variants hand over to `from_chars`: after the blanks and one
      optional `+`. */
  function FromCharsStart(str: string, start: nat): (r: nat)
    requires start < |str|
    ensures start <= r <= |str|
  {
    if str[start] == '+' then start + 1 else start
  }

  /** `maybeParseIntCxx23`. */
  function MaybeParseIntCxx23(str: string): (r: Option<int>)
    ensures r.Some? ==> InInt32(r.value)
  {
    var start := FindFirstNotOf(str, WhiteSpaceChars, 0);
    if start == |str| then None
    else
      var res := FromChars(str[FromCharsStart(str, start)..], 0);
      if res.ec == NoError then Some(res.value) else None
  }

  /** `errorOrParseIntCxx23`: as `maybeParseIntCxx23`, but a failure says why. */
  function ErrorOrParseIntCxx23(str: string): (r: Result<int, Errc>)
    ensures r.Ok? ==> InInt32(r.value)
    ensures r.Err? ==> r.error != NoError
  {
    var start := FindFirstNotOf(str, WhiteSpaceChars, 0);
    if start == |str| then Err(InvalidArgument)
    else
      var res := FromChars(str[FromCharsStart(str, start)..], 0);
      if res.ec == NoError then Ok(res.value) else Err(res.ec)
  }

  /** The two C++23 variants succeed on the same inputs with the same value. */
  lemma VariantsAgree(str: string)
    ensures MaybeParseIntCxx23(str).Some? <==> ErrorOrParseIntCxx23(str).Ok?
    ensures MaybeParseIntCxx23(str).Some? ==> MaybeParseIntCxx23(str).value == ErrorOrParseIntCxx23(str).value
  {
  }

  /** The text that `parseIntCxx17` reads as a number: after the blanks comes an
      optional sign and then at least one digit. */
  ghost predicate StartsNumber(str: string) {
    var start := FindFirstNotOf(str, WhiteSpaceChars, 0);
    start < |str| && DigitsStart(str, start).0 < |str| && IsDigit(str[DigitsStart(str, start).0])
  }

  /** On text that starts a number and whose value fits in an `int`, all three parsers
      return the same value. */
  lemma ParsersAgree(str: string)
    requires StartsNumber(str) && InInt32(ParseIntSpec(str))
    ensures MaybeParseIntCxx23(str) == Some(ParseIntSpec(str))
    ensures ErrorOrParseIntCxx23(str) == Ok(ParseIntSpec(str))
  {
    var start := FindFirstNotOf(str, WhiteSpaceChars, 0);
    var (index, sign) := DigitsStart(str, start);
    var end := DigitRunEnd(str, index);
    var fs := FromCharsStart(str, start);
    var s := str[fs..];
    assert index - fs == if |s| > 0 && s[0] == '-' then 1 else 0;
    DigitRunShift(str, fs, index);
    SliceOfSuffix(str, fs, index - fs, end - fs);
  }

  /** A slice of a suffix is a slice of the whole. */
  lemma SliceOfSuffix(str: string, offset: nat, lo: nat, hi: nat)
    requires offset <= |str| && lo <= hi <= |str| - offset
    ensures str[offset..][lo..hi] == str[offset + lo..offset + hi]
  {
  }

  /** The digit run of a suffix is the digit run of the whole, shifted. */
  lemma {:induction false} DigitRunShift(str: string, offset: nat, from: nat)
    requires offset <= from <= |str|
    ensures DigitRunEnd(str[offset..], from - offset) == DigitRunEnd(str, from) - offset
    decreases |str| - from
  {
    if from < |str| && IsDigit(str[from]) {
      DigitRunShift(str, offset, from + 1);
    }
  }

  /** `errorOrParseIntCxx23` fails with `invalid_argument` exactly when no digits follow
      the blanks, the optional `+` and the optional `-`, and with
      `result_out_of_range` when they do but their value is not an `int`. */
  lemma ErrorKinds(str: string)
    ensures ErrorOrParseIntCxx23(str) == Err(InvalidArgument) <==>
      var start := FindFirstNotOf(str, WhiteSpaceChars, 0);
      start == |str| || !HasDigitsAt(str[FromCharsStart(str, start)..])
    ensures ErrorOrParseIntCxx23(str) == Err(ResultOutOfRange) ==> !InInt32(FromCharsValue(str))
  {
  }

  /** An optional `-` and then a digit. */
  predicate HasDigitsAt(s: string) {
    var first := if |s| > 0 && s[0] == '-' then 1 else 0;
    first < |s| && IsDigit(s[first])
  }

  /** The value `from_chars` reads after the blanks and the optional `+`, whether or not
      it fits. */
  function FromCharsValue(str: string): int {
    var start := FindFirstNotOf(str, WhiteSpaceChars, 0);
    if start == |str| then 0
    else
      var s := str[FromCharsStart(str, start)..];
      var first := if |s| > 0 && s[0] == '-' then 1 else 0;
      ApplySign(if first == 1 then -1 else 1, DigitsValue(s[first..DigitRunEnd(s, first)]))
  }
  /** The value of the characters `s[lo..hi]` read as decimal digits, by index; on
      literal text it evaluates without building slices. */
  function RunValue(s: string, lo: nat, hi: nat): int
    requires lo <= hi <= |s|
    decreases hi - lo
  {
    if hi == lo then 0 else RunValue(s, lo, hi - 1) * 10 + ((s[hi - 1] as int) - ('0' as int))
  }

  /** `DigitsValue` of a slice is its `RunValue`. */
  lemma {:induction false} SliceValue(s: string, lo: nat, hi: nat)
    requires lo <= hi <= |s| && AllDigits(s[lo..hi])
    ensures DigitsValue(s[lo..hi]) == RunValue(s, lo, hi)
    decreases hi - lo
  {
    if hi > lo {
      assert s[lo..hi][..hi - 1 - lo] == s[lo..hi - 1];
      SliceValue(s, lo, hi - 1);
    }
  }

  /** Digits up to the end of the text make one run. */
  lemma {:induction false} RunToEnd(str: string, from: nat)
    requires from <= |str| && AllDigits(str[from..])
    ensures DigitRunEnd(str, from) == |str|
    decreases |str| - from
  {
    if from < |str| {
      assert IsDigit(str[from..][0]);
      assert str[from + 1..] == str[from..][1..];
      RunToEnd(str, from + 1);
    }
  }

  /** Text made of an optional sign at its start and digits after it up to its end is
      read as the signed value of those digits. */
  lemma SignedDigits(str: string, first: nat, sign: int)
    requires first < |str| && AllDigits(str[first..])
    requires || (first == 0 && sign == 1)
             || (first == 1 && str[0] == '-' && sign == -1)
             || (first == 1 && str[0] == '+' && sign == 1)
    ensures StartsNumber(str)
    ensures ParseIntSpec(str) == ApplySign(sign, RunValue(str, first, |str|))
  {
    assert IsDigit(str[first..][0]);
    assert FindFirstNotOf(str, WhiteSpaceChars, 0) == 0;
    assert DigitsStart(str, 0) == (first, sign);
    RunToEnd(str, first);
    SliceValue(str, first, |str|);
  }

  /** The `static_assert`s on "123": all three parsers read 123. */
  lemma ExamplePlain()
    ensures ParseIntSpec("123") == 123
    ensures MaybeParseIntCxx23("123") == Some(123) && ErrorOrParseIntCxx23("123") == Ok(123)
  {
    SignedDigits("123", 0, 1);
    ParsersAgree("123");
  }

  /** The `static_assert`s on "+123": all three parsers read 123. */
  lemma ExamplePlusSign()
    ensures ParseIntSpec("+123") == 123
    ensures MaybeParseIntCxx23("+123") == Some(123) && ErrorOrParseIntCxx23("+123") == Ok(123)
  {
    SignedDigits("+123", 1, 1);
    ParsersAgree("+123");
  }

  /** The `static_assert`s on "-123": all three parsers read -123. */
  lemma ExampleMinusSign()
    ensures ParseIntSpec("-123") == -123
    ensures MaybeParseIntCxx23("-123") == Some(-123) && ErrorOrParseIntCxx23("-123") == Ok(-123)
  {
    SignedDigits("-123", 1, -1);
    ParsersAgree("-123");
  }

  /** The `static_assert`s on "   456   ": all three parsers read 456. */
  lemma ExampleBlanks()
    ensures ParseIntSpec("   456   ") == 456
    ensures MaybeParseIntCxx23("   456   ") == Some(456) && ErrorOrParseIntCxx23("   456   ") == Ok(456)
  {
    SliceValue("   456   ", 3, 6);
    ParsersAgree("   456   ");
  }

  /** The `static_assert`s on "2147483647": all three parsers read 2147483647. */
  lemma ExampleInt32Max()
    ensures ParseIntSpec("2147483647") == 2147483647
    ensures MaybeParseIntCxx23("2147483647") == Some(2147483647) && ErrorOrParseIntCxx23("2147483647") == Ok(2147483647)
  {
    SignedDigits("2147483647", 0, 1);
    ParsersAgree("2147483647");
  }

  /** The `static_assert`s on "-2147483648": all three parsers read -2147483648. */
  lemma ExampleInt32Min()
    ensures ParseIntSpec("-2147483648") == -2147483648
    ensures MaybeParseIntCxx23("-2147483648") == Some(-2147483648) && ErrorOrParseIntCxx23("-2147483648") == Ok(-2147483648)
  {
    SignedDigits("-2147483648", 1, -1);
    ParsersAgree("-2147483648");
  }

  /** Text whose first character is neither blank, nor a sign, nor a digit holds no
      number: `parseIntCxx17` returns 0 and the C++23 variants fail with
      `invalid_argument`. */
  lemma LeadingNonDigit(str: string)
    requires |str| > 0 && str[0] !in WhiteSpaceChars
    requires str[0] != '+' && str[0] != '-' && !IsDigit(str[0])
    ensures ParseIntSpec(str) == 0
    ensures MaybeParseIntCxx23(str) == None && ErrorOrParseIntCxx23(str) == Err(InvalidArgument)
  {
    assert FindFirstNotOf(str, WhiteSpaceChars, 0) == 0;
    assert DigitRunEnd(str, 0) == 0;
    assert str[0..] == str;
  }

  /** The `static_assert`s on "abc123def": no number, so 0 and the invalid-argument error. */
  lemma ExampleLettersFirst()
    ensures ParseIntSpec("abc123def") == 0
    ensures MaybeParseIntCxx23("abc123def") == None && ErrorOrParseIntCxx23("abc123def") == Err(InvalidArgument)
  {
    LeadingNonDigit("abc123def");
  }

  /** The `static_assert`s on "": no number, so 0 and the invalid-argument error. */
  lemma ExampleEmpty()
    ensures ParseIntSpec("") == 0
    ensures MaybeParseIntCxx23("") == None && ErrorOrParseIntCxx23("") == Err(InvalidArgument)
  {
  }

  /** The `static_assert`s on "abcdef": no number, so 0 and the invalid-argument error. */
  lemma ExampleNoDigits()
    ensures ParseIntSpec("abcdef") == 0
    ensures MaybeParseIntCxx23("abcdef") == None && ErrorOrParseIntCxx23("abcdef") == Err(InvalidArgument)
  {
    LeadingNonDigit("abcdef");
  }

  /** `errorOrParseIntCxx23` reports a value beyond the `int` range; `parseIntCxx17` on
      the same text would overflow, which the C++ leaves undefined. */
  lemma ExampleOutOfRange()
    ensures ErrorOrParseIntCxx23("9999999999") == Err(ResultOutOfRange)
    ensures !InInt32(ParseIntSpec("9999999999"))
  {
    SignedDigits("9999999999", 0, 1);
    assert "9999999999"[0..] == "9999999999";
  }

  /** The `static_assert`s on `parseIntCxx17` itself. */
  method Cxx17Examples() returns (r: seq<int>)
    ensures r == [123, 123, -123, 456, 0, 0, 0, 2147483647, -2147483648]
  {
    ExamplePlain();
    ExamplePlusSign();
    ExampleMinusSign();
    ExampleBlanks();
    ExampleLettersFirst();
    ExampleEmpty();
    ExampleNoDigits();
    ExampleInt32Max();
    ExampleInt32Min();
    var a := ParseIntCxx17("123");
    var b := ParseIntCxx17("+123");
    var c := ParseIntCxx17("-123");
    var d := ParseIntCxx17("   456   ");
    var e := ParseIntCxx17("abc123def");
    var f := ParseIntCxx17("");
    var g := ParseIntCxx17("abcdef");
    var h := ParseIntCxx17("2147483647");
    var i := ParseIntCxx17("-2147483648");
    r := [a, b, c, d, e, f, g, h, i];
  }
}
