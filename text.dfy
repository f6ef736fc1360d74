/** The few pieces of java.lang.String, Character, Integer and commons-lang
    StringUtils that the configuration, bean and paging helpers depend on,
    stated over `seq<char>`. Only ASCII case mapping and ASCII decimal digits
    are modelled. */
module Text {
  import opened Wrappers

  /** Java's `int`: the range of a boxed Integer. */
  newtype int32 = x: int | -0x8000_0000 <= x < 0x8000_0000

  /** Character.isWhitespace: the Unicode space, line and paragraph
      separators other than the no-break spaces, plus the ASCII controls
      TAB, LF, VT, FF, CR and FS, GS, RS, US. */
  predicate IsWhitespace(c: char)
  {
    c == ' ' || ('\t' <= c <= '\r') || ('\U{1C}' <= c <= '\U{1F}')
    || c == '\U{1680}' || ('\U{2000}' <= c <= '\U{2006}') || ('\U{2008}' <= c <= '\U{200A}')
    || c == '\U{2028}' || c == '\U{2029}' || c == '\U{205F}' || c == '\U{3000}'
  }

  /** StringUtils.isBlank: null, empty, or whitespace only. */
  predicate IsBlank(s: Option<string>)
  {
    s.None? || forall i :: 0 <= i < |s.value| ==> IsWhitespace(s.value[i])
  }

  predicate StartsWith(s: string, prefix: string)
  {
    |prefix| <= |s| && s[..|prefix|] == prefix
  }

  /** String.trim drops every leading and trailing character at or below
      U+0020. */
  function Trim(s: string): (t: string)
    ensures |t| <= |s|
    ensures t != [] ==> ' ' < t[0] && ' ' < t[|t| - 1]
  {
    TrimEnd(TrimStart(s))
  }

  function TrimStart(s: string): (t: string)
    ensures |t| <= |s| && t == s[|s| - |t|..]
    ensures t != [] ==> ' ' < t[0]
    ensures forall i :: 0 <= i < |s| - |t| ==> s[i] <= ' '
  {
    if s == [] || ' ' < s[0] then s else TrimStart(s[1..])
  }

  function TrimEnd(s: string): (t: string)
    ensures |t| <= |s| && t == s[..|t|]
    ensures t != [] ==> ' ' < t[|t| - 1]
    ensures forall i :: |t| <= i < |s| ==> s[i] <= ' '
  {
    if s == [] || ' ' < s[|s| - 1] then s else TrimEnd(s[..|s| - 1])
  }

  /** `s.trim().length() > 0` holds exactly when some character of `s` is
      above U+0020. */
  lemma TrimNonEmpty(s: string)
    ensures |Trim(s)| > 0 <==> exists i :: 0 <= i < |s| && ' ' < s[i]
  {
    var a := TrimStart(s);
    TrimStartNonEmpty(s);
    if a != [] {
      assert ' ' < a[0];
    }
  }

  lemma TrimStartNonEmpty(s: string)
    ensures TrimStart(s) != [] <==> exists i :: 0 <= i < |s| && ' ' < s[i]
  {
    var a := TrimStart(s);
    var d := |s| - |a|;
    if exists i :: 0 <= i < |s| && ' ' < s[i] {
      var i :| 0 <= i < |s| && ' ' < s[i];
      assert d <= i;
    }
    if a != [] {
      assert s[d] == a[0];
    }
  }

  /** String.toUpperCase on one character, for the ASCII letters. */
  function ToUpper(c: char): (u: char)
    ensures 'a' <= c <= 'z' ==> 'A' <= u <= 'Z' && u as int == c as int - 32
    ensures !('a' <= c <= 'z') ==> u == c
  {
    if 'a' <= c <= 'z' then (c as int - 32) as char else c
  }

  function ToLower(c: char): (l: char)
    ensures 'A' <= c <= 'Z' ==> 'a' <= l <= 'z' && l as int == c as int + 32
    ensures !('A' <= c <= 'Z') ==> l == c
  {
    if 'A' <= c <= 'Z' then (c as int + 32) as char else c
  }

  /** String.indexOf(char): the first index holding `c`, or -1. */
  function IndexOf(s: string, c: char): (r: int)
    ensures r == -1 <==> c !in s
    ensures r != -1 ==> 0 <= r < |s| && s[r] == c && c !in s[..r]
  {
    if s == [] then -1
    else if s[0] == c then 0
    else
      var k := IndexOf(s[1..], c);
      if k == -1 then -1
      else
        assert s[..k + 1] == [s[0]] + s[1..][..k];
        k + 1
  }

  predicate IsDigit(c: char)
  {
    '0' <= c <= '9'
  }

  predicate AllDigits(s: string)
  {
    forall i :: 0 <= i < |s| ==> IsDigit(s[i])
  }

  function DigitValue(c: char): nat
    requires IsDigit(c)
  {
    c as int - '0' as int
  }

  function DigitChar(d: nat): (c: char)
    requires d < 10
    ensures IsDigit(c) && c as int - '0' as int == d
  {
    ('0' as int + d) as char
  }

  /** The decimal digits of `n`, most significant first, without leading
      zeros. */
  function Digits(n: nat): (s: string)
    ensures s != []
    ensures AllDigits(s)
  {
    if n < 10 then [DigitChar(n)] else Digits(n / 10) + [DigitChar(n % 10)]
  }

  /** Integer.toString / String.valueOf(int). */
  function DecimalString(i: int): (s: string)
    ensures s != []
    ensures i < 0 <==> s[0] == '-'
  {
    if i < 0 then "-" + Digits(-i) else Digits(i)
  }

  /** The value of a string of decimal digits. */
  function DigitsValue(s: string): nat
    requires AllDigits(s)
  {
    if s == [] then 0
    else DigitsValue(s[..|s| - 1]) * 10 + DigitValue(s[|s| - 1])
  }

  lemma {:induction false} DigitsRoundTrip(n: nat)
    ensures DigitsValue(Digits(n)) == n
  {
    if n >= 10 {
      var s := Digits(n);
      assert s[..|s| - 1] == Digits(n / 10);
      DigitsRoundTrip(n / 10);
    }
  }

  datatype NumberFormatException = NumberFormatException(input: string)

  /** The length of the optional leading sign Integer.parseInt accepts. */
  function SignLength(s: string): nat
  {
    if s != [] && (s[0] == '-' || s[0] == '+') then 1 else 0
  }

  /** Integer.parseInt(s, 10) (and Integer.valueOf): an optional sign, then at
      least one digit, and the value must fit in an int. */
  function ParseInt(s: string): (r: Result<int32, NumberFormatException>)
    ensures r.Ok? <==> SignLength(s) < |s| && AllDigits(s[SignLength(s)..])
                       && -0x8000_0000 <= Signed(s) < 0x8000_0000
    ensures r.Ok? ==> r.value as int == Signed(s)
  {
    var digits := s[SignLength(s)..];
    if digits == [] || !AllDigits(digits) then Err(NumberFormatException(s))
    else
      var v := Signed(s);
      if -0x8000_0000 <= v < 0x8000_0000 then Ok(v as int32) else Err(NumberFormatException(s))
  }

  /** The signed value of an optional sign followed by digits. */
  function Signed(s: string): int
    requires AllDigits(s[SignLength(s)..])
  {
    var n: int := DigitsValue(s[SignLength(s)..]);
    if s != [] && s[0] == '-' then -n else n
  }

  /** Parsing the decimal form of any int gives the int back. */
  lemma ParseDecimal(i: int32)
    ensures ParseInt(DecimalString(i as int)) == Ok(i)
  {
    var s := DecimalString(i as int);
    if i < 0 {
      DigitsRoundTrip(-(i as int));
      assert s[1..] == Digits(-(i as int));
    } else {
      DigitsRoundTrip(i as int);
      assert s[0..] == s;
    }
  }
}
