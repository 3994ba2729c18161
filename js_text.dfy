/** The string operations the carousel's custom ids rely on, with their
    JavaScript meaning: rendering a non-negative integer in a template
    literal, `String.prototype.split` on a one-character separator, and
    `parseInt` without a radix. */
module JsText {
  import opened Wrappers

  predicate IsDigit(c: char)
  {
    '0' <= c <= '9'
  }

  predicate AllDigits(s: string)
  {
    forall i :: 0 <= i < |s| ==> IsDigit(s[i])
  }

  function DigitChar(d: nat): (c: char)
    requires d < 10
    ensures IsDigit(c) && c as int - '0' as int == d
  {
    ('0' as int + d) as char
  }

  /** `${n}` for a non-negative integer: its decimal digits, without a
      leading zero unless n is 0. */
  function DecimalString(n: nat): (s: string)
    ensures |s| > 0 && AllDigits(s)
    ensures |s| > 1 ==> s[0] != '0'
    decreases n
  {
    if n < 10 then [DigitChar(n)] else DecimalString(n / 10) + [DigitChar(n % 10)]
  }

  /** The value of `c` as a digit of any radix up to 36 (0-9, then a-z or
      A-Z), if it is one. */
  function DigitValue(c: char): (d: Option<nat>)
    ensures d.Some? ==> d.value < 36
    ensures IsDigit(c) ==> d == Some(c as int - '0' as int)
  {
    if '0' <= c <= '9' then Some(c as int - '0' as int)
    else if 'a' <= c <= 'z' then Some(c as int - 'a' as int + 10)
    else if 'A' <= c <= 'Z' then Some(c as int - 'A' as int + 10)
    else None
  }

  predicate IsRadixDigit(c: char, radix: nat)
  {
    DigitValue(c).Some? && DigitValue(c).value < radix
  }

  /** `v` moved up one digit position. Kept as its own function so that
      the multiplication by a variable radix stays out of the solver's view
      where only the digit structure matters. */
  function ScaleByRadix(v: nat, radix: nat): nat
  {
    v * radix
  }

  /** The numeric value of a string of radix digits, most significant first. */
  function RadixValue(s: string, radix: nat): nat
    requires forall i :: 0 <= i < |s| ==> IsRadixDigit(s[i], radix)
  {
    if s == [] then 0
    else
      var init, last := s[..|s| - 1], s[|s| - 1];
      assert IsRadixDigit(last, radix);
      assert forall i :: 0 <= i < |init| ==> init[i] == s[i];
      ScaleByRadix(RadixValue(init, radix), radix) + DigitValue(last).value
  }

  /** The length of the longest prefix of `s` made of radix digits. */
  function DigitRunLength(s: string, radix: nat): (k: nat)
    ensures k <= |s|
    ensures forall i :: 0 <= i < k ==> IsRadixDigit(s[i], radix)
    ensures k < |s| ==> !IsRadixDigit(s[k], radix)
  {
    if s != [] && IsRadixDigit(s[0], radix) then 1 + DigitRunLength(s[1..], radix) else 0
  }

  /** The white space `parseInt` skips: tab, line tabulation, form feed,
      space, no-break space, byte order mark, line and paragraph separators,
      line feed, carriage return, and the other Unicode space separators. */
  predicate IsWhiteSpace(c: char)
  {
    || c == '\t' || c == '\U{0B}' || c == '\U{0C}' || c == ' ' || c == '\U{A0}' || c == '\U{FEFF}'
    || c == '\n' || c == '\r' || c == '\U{2028}' || c == '\U{2029}'
    || c == '\U{1680}' || ('\U{2000}' <= c <= '\U{200A}') || c == '\U{202F}' || c == '\U{205F}' || c == '\U{3000}'
  }

  function TrimStart(s: string): (t: string)
    ensures |t| <= |s| && t == s[|s| - |t|..]
    ensures t != [] ==> !IsWhiteSpace(t[0])
  {
    if s != [] && IsWhiteSpace(s[0]) then TrimStart(s[1..]) else s
  }

  /** `parseInt(s)` with no radix: leading white space is skipped, then an
      optional sign; the magnitude follows. NaN is None. */
  function ParseInt(s: string): (r: Option<int>)
    ensures r.Some? ==> exists i :: 0 <= i < |s| && IsDigit(s[i])
    ensures r.Some? ==> TrimStart(s) != [] && (if TrimStart(s)[0] == '-' then r.value <= 0 else r.value >= 0)
  {
    var t := TrimStart(s);
    var negative := t != [] && t[0] == '-';
    var u := if t != [] && (t[0] == '-' || t[0] == '+') then t[1..] else t;
    assert u == s[|s| - |u|..];
    match ParseMagnitude(u)
    case None => None
    case Some(m) =>
      assert IsDigit(s[|s| - |u|]);
      Some(if negative then -m else m)
  }

  /** The unsigned part of `parseInt`: a "0x"/"0X" prefix selects radix 16
      (otherwise 10); the longest run of digits that follows is the value,
      and with no digit the result is NaN (None). */
  function ParseMagnitude(u: string): (r: Option<int>)
    ensures r.Some? ==> r.value >= 0 && u != [] && IsDigit(u[0])
    ensures u != [] && IsDigit(u[0]) && !(|u| >= 2 && u[0] == '0' && (u[1] == 'x' || u[1] == 'X')) ==> r.Some?
  {
    var hex := |u| >= 2 && u[0] == '0' && (u[1] == 'x' || u[1] == 'X');
    var radix := if hex then 16 else 10;
    var digits := if hex then u[2..] else u;
    var k := DigitRunLength(digits, radix);
    if k == 0 then None else Some(RadixValue(digits[..k], radix))
  }

  lemma {:induction false} DecimalValue(n: nat)
    ensures forall i :: 0 <= i < |DecimalString(n)| ==> IsRadixDigit(DecimalString(n)[i], 10)
    ensures RadixValue(DecimalString(n), 10) == n
    decreases n
  {
    var s := DecimalString(n);
    if n >= 10 {
      DecimalValue(n / 10);
      assert s[..|s| - 1] == DecimalString(n / 10);
    }
  }

  /** A string made only of radix digits is one digit run. */
  lemma {:induction false} DigitRunOfDigits(s: string, radix: nat)
    requires forall i :: 0 <= i < |s| ==> IsRadixDigit(s[i], radix)
    ensures DigitRunLength(s, radix) == |s|
    decreases |s|
  {
    if s != [] {
      DigitRunOfDigits(s[1..], radix);
    }
  }

  lemma TrimStartOfDigit(s: string)
    requires s != [] && IsDigit(s[0])
    ensures TrimStart(s) == s
  {
    assert !IsWhiteSpace(s[0]);
  }

  lemma {:induction false} MagnitudeOfDigits(s: string)
    requires s != [] && (|s| > 1 ==> s[0] != '0')
    requires forall i :: 0 <= i < |s| ==> IsRadixDigit(s[i], 10)
    ensures ParseMagnitude(s) == Some(RadixValue(s, 10))
  {
    DigitRunOfDigits(s, 10);
    assert s[..|s|] == s;
  }

  /** `parseInt` of a digit string without a leading zero is its value. */
  lemma ParseIntOfDigits(s: string)
    requires s != [] && IsDigit(s[0]) && (|s| > 1 ==> s[0] != '0')
    requires forall i :: 0 <= i < |s| ==> IsRadixDigit(s[i], 10)
    ensures ParseInt(s) == Some(RadixValue(s, 10))
  {
    TrimStartOfDigit(s);
    MagnitudeOfDigits(s);
    assert s[0] != '-' && s[0] != '+';
  }

  /** `parseInt` reads back the decimal rendering of every non-negative
      integer. */
  lemma ParseIntDecimal(n: nat)
    ensures ParseInt(DecimalString(n)) == Some(n)
  {
    DecimalValue(n);
    ParseIntOfDigits(DecimalString(n));
  }

  /** `s.split(sep)` for a one-character separator: the pieces between
      separators, in order; there is always at least one. */
  function Split(s: string, sep: char): (parts: seq<string>)
    ensures |parts| >= 1
    ensures forall i :: 0 <= i < |parts| ==> sep !in parts[i]
    decreases |s|
  {
    if s == [] then [""]
    else
      var rest := Split(s[1..], sep);
      if s[0] == sep then [""] + rest else [[s[0]] + rest[0]] + rest[1..]
  }

  /** The first piece of `split` is the text before the first separator:
      a prefix of `s` that ends at a separator or at the end of `s`; there
      is one piece exactly when `s` has no separator. */
  lemma {:induction false} SplitFirstPiece(s: string, sep: char)
    ensures var parts := Split(s, sep);
      && (|parts| == 1 <==> sep !in s)
      && |parts[0]| <= |s| && parts[0] == s[..|parts[0]|]
      && (|parts[0]| < |s| ==> s[|parts[0]|] == sep)
    decreases |s|
  {
    if s != [] {
      SplitFirstPiece(s[1..], sep);
      assert sep in s <==> s[0] == sep || sep in s[1..];
      if s[0] == sep {
        SplitAtSeparator(s[1..], sep);
        assert [sep] + s[1..] == s;
      } else {
        SplitAtOther(s[0], s[1..], sep);
        assert [s[0]] + s[1..] == s;
      }
    }
  }

  /** `parts.join(sep)`. */
  function Join(parts: seq<string>, sep: char): string
    requires |parts| >= 1
  {
    if |parts| == 1 then parts[0] else parts[0] + [sep] + Join(parts[1..], sep)
  }

  /** Splitting loses nothing: joining the pieces gives back the string. */
  lemma {:induction false} JoinSplit(s: string, sep: char)
    ensures Join(Split(s, sep), sep) == s
    decreases |s|
  {
    if s != [] {
      JoinSplit(s[1..], sep);
      var rest := Split(s[1..], sep);
      if s[0] != sep && |rest| > 1 {
        assert Split(s, sep)[1..] == rest[1..];
      }
    }
  }

  /** A string without the separator is one piece. */
  lemma {:induction false} SplitWithoutSeparator(s: string, sep: char)
    requires sep !in s
    ensures Split(s, sep) == [s]
    decreases |s|
  {
    if s != [] {
      SplitWithoutSeparator(s[1..], sep);
      assert [s[0]] + s[1..] == s;
    }
  }

  /** Splitting a string that starts with the separator. */
  lemma SplitAtSeparator(t: string, sep: char)
    ensures Split([sep] + t, sep) == [""] + Split(t, sep)
  {
    assert ([sep] + t)[1..] == t;
  }

  /** Splitting a string that starts with another character: it joins the
      first piece. */
  lemma SplitAtOther(c: char, t: string, sep: char)
    requires c != sep
    ensures var rest := Split(t, sep); Split([c] + t, sep) == [[c] + rest[0]] + rest[1..]
  {
    assert ([c] + t)[1..] == t;
  }

  /** A separator-free prefix followed by the separator is the first piece. */
  lemma {:induction false} SplitAfterPrefix(x: string, sep: char, y: string)
    requires sep !in x
    ensures Split(x + [sep] + y, sep) == [x] + Split(y, sep)
    decreases |x|
  {
    if x == [] {
      assert x + [sep] + y == [sep] + y;
      SplitAtSeparator(y, sep);
    } else {
      var tail := x[1..] + [sep] + y;
      assert sep !in x[1..];
      SplitAfterPrefix(x[1..], sep, y);
      var rest := Split(tail, sep);
      assert rest[0] == x[1..] && rest[1..] == Split(y, sep);
      assert x + [sep] + y == [x[0]] + tail;
      SplitAtOther(x[0], tail, sep);
      assert [x[0]] + x[1..] == x;
    }
  }
}
