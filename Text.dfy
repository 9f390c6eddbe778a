/** The Python `str` operations the application relies on, over ASCII text:
    case mapping, `title`, `strip`, `startswith`/`endswith`, `find`, slicing,
    `split` and `rsplit` with a limit of one, `replace` with the empty string,
    and the conversions between integers and decimal text done by f-strings
    and by `int()`. */
module Text {
  import opened Wrappers

  predicate IsUpper(c: char) { 'A' <= c <= 'Z' }
  predicate IsLower(c: char) { 'a' <= c <= 'z' }
  predicate IsLetter(c: char) { IsUpper(c) || IsLower(c) }
  predicate IsDigit(c: char) { '0' <= c <= '9' }

  /** The ASCII white space that `int()` skips around a number. */
  predicate IsSpace(c: char) {
    c == ' ' || c == '\t' || c == '\n' || c == '\r' || c == '\U{B}' || c == '\U{C}'
  }

  /** The ASCII characters that `str.strip()` removes: those above and the
      four separators 0x1c to 0x1f, which `str.isspace()` also counts. */
  predicate IsStripSpace(c: char) {
    IsSpace(c) || '\U{1C}' <= c <= '\U{1F}'
  }

  /** White space in the wide sense of `str.strip()` or the narrow one of `int()`. */
  predicate Blank(c: char, wide: bool) {
    if wide then IsStripSpace(c) else IsSpace(c)
  }

  function LowerChar(c: char): char { if IsUpper(c) then (c as int + 32) as char else c }
  function UpperChar(c: char): char { if IsLower(c) then (c as int - 32) as char else c }

  /** Text that `str.lower()` leaves unchanged. */
  predicate IsLowerText(s: string) { forall i :: 0 <= i < |s| ==> !IsUpper(s[i]) }

  // ---------------------------------------------------------------- case

  /** `s.lower()` */
  function Lower(s: string): (r: string)
    ensures |r| == |s|
    ensures forall i :: 0 <= i < |s| ==> r[i] == LowerChar(s[i])
  {
    if s == [] then [] else [LowerChar(s[0])] + Lower(s[1..])
  }

  /** Lower-cased text has no capital letter left in it. */
  lemma LowerIsLowerText(s: string)
    ensures IsLowerText(Lower(s))
  {
  }

  /** Lower-casing is idempotent: text without capitals is its own lower case. */
  lemma LowerOfLowerText(s: string)
    requires IsLowerText(s)
    ensures Lower(s) == s
  {
  }

  /** `s.title()`: a letter that follows a letter is lower-cased, every other
      letter is upper-cased, and all other characters are kept. */
  function Title(s: string): (r: string)
    ensures |r| == |s|
    ensures forall i :: 0 <= i < |s| && !IsLetter(s[i]) ==> r[i] == s[i]
    ensures forall i :: 0 <= i < |s| && IsLetter(s[i]) && (i == 0 || !IsLetter(s[i - 1])) ==> r[i] == UpperChar(s[i])
    ensures forall i :: 0 < i < |s| && IsLetter(s[i]) && IsLetter(s[i - 1]) ==> r[i] == LowerChar(s[i])
  {
    TitleAfter(s, false)
  }

  /** `Title` of a suffix; `afterLetter` says whether the character before it is a letter. */
  function TitleAfter(s: string, afterLetter: bool): (r: string)
    ensures |r| == |s|
    ensures forall i :: 0 <= i < |s| && !IsLetter(s[i]) ==> r[i] == s[i]
    ensures |s| > 0 && IsLetter(s[0]) ==> r[0] == if afterLetter then LowerChar(s[0]) else UpperChar(s[0])
    ensures forall i :: 0 < i < |s| && IsLetter(s[i]) ==>
      r[i] == if IsLetter(s[i - 1]) then LowerChar(s[i]) else UpperChar(s[i])
  {
    if s == [] then []
    else
      var c := s[0];
      [if !IsLetter(c) then c else if afterLetter then LowerChar(c) else UpperChar(c)]
        + TitleAfter(s[1..], IsLetter(c))
  }

  // ---------------------------------------------------------------- strip

  /** The number of blanks `s` starts with. */
  function LeadingBlanks(s: string, wide: bool): (n: nat)
    ensures n <= |s|
    ensures forall k :: 0 <= k < n ==> Blank(s[k], wide)
    ensures n < |s| ==> !Blank(s[n], wide)
    decreases |s|
  {
    if s != [] && Blank(s[0], wide) then 1 + LeadingBlanks(s[1..], wide) else 0
  }

  /** Scanning down from `hi` but not below `lo`, where the trailing blanks of
      `s[lo..hi]` begin. */
  function TrailingFrom(s: string, lo: nat, hi: nat, wide: bool): (n: nat)
    requires lo <= hi <= |s|
    ensures lo <= n <= hi
    ensures forall k :: n <= k < hi ==> Blank(s[k], wide)
    ensures lo < n ==> !Blank(s[n - 1], wide)
    decreases hi
  {
    if lo < hi && Blank(s[hi - 1], wide) then TrailingFrom(s, lo, hi - 1, wide) else hi
  }

  /** `s[i..j]` is an infix of `s` with only blanks outside it. */
  predicate BlanksAround(s: string, i: int, j: int, wide: bool) {
    && 0 <= i <= j <= |s|
    && (forall k :: 0 <= k < i ==> Blank(s[k], wide))
    && (forall k :: j <= k < |s| ==> Blank(s[k], wide))
  }

  /** The text without its leading and trailing white space: the infix of `s`
      that is left once every blank at either end is removed, so it neither
      starts nor ends with a blank. */
  function StripWith(s: string, wide: bool): (r: string)
    ensures exists i, j :: BlanksAround(s, i, j, wide) && r == s[i..j]
    ensures r != [] ==> !Blank(r[0], wide) && !Blank(r[|r| - 1], wide)
    ensures (forall k :: 0 <= k < |s| ==> !Blank(s[k], wide)) ==> r == s
  {
    var i := LeadingBlanks(s, wide);
    var j := TrailingFrom(s, i, |s|, wide);
    assert BlanksAround(s, i, j, wide);
    s[i..j]
  }

  /** `s.strip()` */
  function Strip(s: string): (r: string)
    ensures exists i, j :: BlanksAround(s, i, j, true) && r == s[i..j]
    ensures r != [] ==> !IsStripSpace(r[0]) && !IsStripSpace(r[|r| - 1])
    ensures (forall k :: 0 <= k < |s| ==> !IsStripSpace(s[k])) ==> r == s
  {
    StripWith(s, true)
  }

  // ---------------------------------------------------------------- search

  predicate StartsWith(s: string, prefix: string) { |prefix| <= |s| && s[..|prefix|] == prefix }
  predicate EndsWith(s: string, suffix: string) { |suffix| <= |s| && s[|s| - |suffix|..] == suffix }

  /** `s.find(c)`: the first index of `c`, or -1 when there is none. */
  function Find(s: string, c: char): (r: int)
    ensures -1 <= r < |s|
    ensures r == -1 <==> c !in s
    ensures 0 <= r ==> s[r] == c && c !in s[..r]
  {
    if s == [] then -1
    else if s[0] == c then 0
    else
      var k := Find(s[1..], c);
      if k == -1 then -1 else k + 1
  }

  /** A Python index for a slice bound, clamped into `[0, len]`. */
  function SliceBound(n: int, len: nat): (r: nat)
    ensures r <= len
  {
    if n < 0 then (if n + len < 0 then 0 else n + len) else if n > len then len else n
  }

  /** `s[a:b]` with Python's rules for negative and out-of-range bounds. */
  function PySlice(s: string, a: int, b: int): (r: string)
    ensures 0 <= a <= b <= |s| ==> r == s[a..b]
    ensures |r| <= |s|
  {
    var i, j := SliceBound(a, |s|), SliceBound(b, |s|);
    if i < j then s[i..j] else []
  }

  /** `s.split(c, 1)` unpacked into two parts: `None` when `c` does not
      occur, which is where the unpacking raises `ValueError`. */
  function SplitOnce(s: string, c: char): (r: Option<(string, string)>)
    ensures r.None? <==> c !in s
    ensures r.Some? ==> s == r.value.0 + [c] + r.value.1 && c !in r.value.0
  {
    var k := Find(s, c);
    if k == -1 then None else Some((s[..k], s[k + 1..]))
  }

  /** `s.rsplit(c, 1)[1]`: the text after the last `c`. */
  function RSplitTail(s: string, c: char): (r: string)
    requires c in s
    ensures c !in r
    ensures |r| < |s| && s[|s| - |r| - 1] == c && s[|s| - |r|..] == r
  {
    if s[|s| - 1] == c then []
    else RSplitTail(s[..|s| - 1], c) + [s[|s| - 1]]
  }

  /** `s.replace(p, '')`: every occurrence of `p`, scanned left to right, removed. */
  function RemoveAll(s: string, p: string): (r: string)
    requires p != []
    ensures |r| <= |s|
    decreases |s|
  {
    if |s| < |p| then s
    else if s[..|p|] == p then RemoveAll(s[|p|..], p)
    else [s[0]] + RemoveAll(s[1..], p)
  }

  /** Text that cannot hold `p` (it lacks `p`'s last character) is left as it is. */
  lemma {:induction false} RemoveAllAbsent(s: string, p: string)
    requires p != [] && p[|p| - 1] !in s
    ensures RemoveAll(s, p) == s
  {
    if |s| >= |p| {
      assert s[|p| - 1] in s;
      assert s[..|p|] != p by { assert s[..|p|][|p| - 1] == s[|p| - 1]; }
      RemoveAllAbsent(s[1..], p);
      assert [s[0]] + s[1..] == s;
    }
  }

  /** A leading occurrence is removed, and so is every later one. */
  lemma RemoveAllPrefix(p: string, s: string)
    requires p != []
    ensures RemoveAll(p + s, p) == RemoveAll(s, p)
  {
    assert (p + s)[..|p|] == p;
    assert (p + s)[|p|..] == s;
  }

  // ---------------------------------------------------------------- numbers

  predicate AllDigits(s: string) { forall i :: 0 <= i < |s| ==> IsDigit(s[i]) }

  function DigitValue(c: char): nat
    requires IsDigit(c)
  {
    c as int - '0' as int
  }

  function DigitChar(d: nat): (c: char)
    requires d < 10
    ensures IsDigit(c) && DigitValue(c) == d
  {
    ('0' as int + d) as char
  }

  /** The number a string of decimal digits denotes. */
  function DigitsValue(s: string): nat
    requires AllDigits(s)
    decreases |s|
  {
    if s == [] then 0 else 10 * DigitsValue(s[..|s| - 1]) + DigitValue(s[|s| - 1])
  }

  /** The decimal text of `n`, as `str(n)` and f-strings write it. */
  function NatToString(n: nat): (r: string)
    ensures |r| > 0 && AllDigits(r)
    ensures |r| > 1 ==> r[0] != '0'
  {
    if n < 10 then [DigitChar(n)] else NatToString(n / 10) + [DigitChar(n % 10)]
  }

  /** Reading the decimal text of `n` gives `n` back. */
  lemma {:induction false} NatToStringValue(n: nat)
    ensures DigitsValue(NatToString(n)) == n
  {
    if n >= 10 {
      NatToStringValue(n / 10);
      var s := NatToString(n);
      assert s[..|s| - 1] == NatToString(n / 10);
    }
  }

  /** Distinct numbers have distinct decimal texts. */
  lemma NatToStringInjective(m: nat, n: nat)
    requires NatToString(m) == NatToString(n)
    ensures m == n
  {
    NatToStringValue(m);
    NatToStringValue(n);
  }

  /** Decimal digits in groups separated by single underscores, as `int()` accepts them. */
  predicate IsDigitGroups(s: string) {
    && |s| > 0 && IsDigit(s[0]) && IsDigit(s[|s| - 1])
    && (forall i :: 0 <= i < |s| ==> IsDigit(s[i]) || s[i] == '_')
    && (forall i :: 0 <= i < |s| - 1 && s[i] == '_' ==> IsDigit(s[i + 1]))
  }

  function DropUnderscores(s: string): (r: string)
    ensures (forall i :: 0 <= i < |s| ==> IsDigit(s[i]) || s[i] == '_') ==> AllDigits(r)
    ensures AllDigits(s) ==> r == s
  {
    if s == [] then [] else (if s[0] == '_' then [] else [s[0]]) + DropUnderscores(s[1..])
  }

  /** CPython's default bound on the digits `int()` converts from text
      (`sys.get_int_max_str_digits()`): underscores do not count, leading
      zeros do. */
  const MaxStrDigits: nat := 4300

  /** Digit groups whose digits stay within that bound. */
  predicate IsIntDigits(s: string) {
    IsDigitGroups(s) && |DropUnderscores(s)| <= MaxStrDigits
  }

  function ParseUnsigned(s: string): Option<nat> {
    if IsIntDigits(s) then Some(DigitsValue(DropUnderscores(s))) else None
  }

  /** `int(s)` for base-ten text: surrounding white space, an optional sign,
      then digit groups of at most MaxStrDigits digits; `None` where Python
      raises `ValueError`. */
  function ParseInt(s: string): (r: Option<int>)
    ensures r.Some? && r.value < 0 ==> |StripWith(s, false)| > 0 && StripWith(s, false)[0] == '-'
  {
    var t := StripWith(s, false);
    if t == [] then None
    else if t[0] == '-' then
      match ParseUnsigned(t[1..])
      case Some(n) => Some(0 - n as int)
      case None => None
    else if t[0] == '+' then
      match ParseUnsigned(t[1..])
      case Some(n) => Some(n)
      case None => None
    else
      match ParseUnsigned(t)
      case Some(n) => Some(n)
      case None => None
  }

  /** What `int()` accepts: white space (the narrow set) around an optional
      sign and digit groups of at most MaxStrDigits digits, and only a minus
      sign gives a negative value. */
  lemma ParseIntSyntax(s: string)
    ensures var t := StripWith(s, false);
      && (ParseInt(s).Some? <==> IsIntDigits(t) || (|t| > 0 && (t[0] == '-' || t[0] == '+') && IsIntDigits(t[1..])))
      && (ParseInt(s).Some? && ParseInt(s).value < 0 ==> t[0] == '-')
  {
  }

  /** `int(str(n)) == n`, and `int('-' + str(n)) == -n`. */
  lemma ParseIntRoundTrip(n: nat)
    requires |NatToString(n)| <= MaxStrDigits
    ensures ParseInt(NatToString(n)) == Some(n)
    ensures ParseInt("-" + NatToString(n)).Some? && ParseInt("-" + NatToString(n)).value == -(n as int)
  {
    var d := NatToString(n);
    NatToStringValue(n);
    ParseDigits(d);
    ParseNegativeDigits(d);
  }

  /** `int()` reads plain decimal digits as their value. */
  lemma ParseDigits(d: string)
    requires 0 < |d| <= MaxStrDigits && AllDigits(d)
    ensures ParseInt(d) == Some(DigitsValue(d))
  {
    UnsignedDigits(d);
  }

  /** `int()` reads a minus sign followed by decimal digits as the negated value. */
  lemma ParseNegativeDigits(d: string)
    requires 0 < |d| <= MaxStrDigits && AllDigits(d)
    ensures ParseInt("-" + d).Some? && ParseInt("-" + d).value == -(DigitsValue(d) as int)
  {
    UnsignedDigits(d);
    var m := "-" + d;
    NoSpaceStrip(m);
    assert m[0] == '-' && m[1..] == d;
  }

  /** `int()` refuses plain decimal digits past MaxStrDigits of them,
      however small their value (leading zeros count). */
  lemma TooManyDigitsRefused(d: string)
    requires |d| > MaxStrDigits && AllDigits(d)
    ensures ParseInt(d).None?
    ensures ParseInt("-" + d).None?
  {
    assert DropUnderscores(d) == d;
    assert !IsIntDigits(d);
    assert ParseUnsigned(d).None?;
    NoSpaceStrip(d);
    assert d[0] != '-' && d[0] != '+';
    var m := "-" + d;
    NoSpaceStrip(m);
    assert m[0] == '-' && m[1..] == d;
  }

  /** A larger number has a decimal text at least as long. */
  lemma {:induction false} NatToStringLengthMonotone(a: nat, b: nat)
    requires a <= b
    ensures |NatToString(a)| <= |NatToString(b)|
    decreases b
  {
    if a >= 10 {
      NatToStringLengthMonotone(a / 10, b / 10);
    }
  }

  /** `int()` refuses a lone character that is no digit, sign or white space. */
  lemma ParseRefusesNonDigit(c: char)
    requires !IsDigit(c) && !IsSpace(c) && c != '-' && c != '+'
    ensures ParseInt([c]).None?
  {
    assert !Blank([c][0], false);
    assert StripWith([c], false) == [c];
    assert !IsDigitGroups([c]);
  }

  lemma UnsignedDigits(d: string)
    requires 0 < |d| <= MaxStrDigits && AllDigits(d)
    ensures StripWith(d, false) == d
    ensures ParseUnsigned(d) == Some(DigitsValue(d))
  {
    NoSpaceStrip(d);
    assert DropUnderscores(d) == d;
    assert IsDigitGroups(d);
  }

  lemma NoSpaceStrip(s: string)
    requires forall k :: 0 < k < |s| ==> IsDigit(s[k])
    requires |s| > 0 ==> !IsSpace(s[0])
    ensures StripWith(s, false) == s
  {
    assert forall k :: 0 <= k < |s| ==> !Blank(s[k], false);
  }
}
