/**
 * The parts of Rust's `str` API the sources rely on, over `seq<char>` (a `char`
 * is a Unicode scalar value, like Rust's). Byte offsets of the Rust code become
 * character offsets here; every split in the sources falls on a character
 * boundary, so the two agree.
 */
module Text {
  import opened Wrappers

  /** Rust's `char::is_whitespace`: the Unicode White_Space property. */
  predicate IsWhitespace(c: char) {
    ('\t' <= c <= '\r') || c == ' ' || c == '\U{85}' || c == '\U{A0}' || c == '\U{1680}'
    || ('\U{2000}' <= c <= '\U{200A}') || c == '\U{2028}' || c == '\U{2029}'
    || c == '\U{202F}' || c == '\U{205F}' || c == '\U{3000}'
  }

  predicate AllWhitespace(s: string) {
    forall i :: 0 <= i < |s| ==> IsWhitespace(s[i])
  }

  /** The first position of `s[i..end]` that is not whitespace, or `end`. */
  function SkipWs(s: string, i: nat, end: nat): (r: nat)
    requires i <= end <= |s|
    ensures i <= r <= end
    decreases end - i
  {
    if i == end || !IsWhitespace(s[i]) then i else SkipWs(s, i + 1, end)
  }

  lemma {:induction false} SkipWsSkips(s: string, i: nat, end: nat)
    requires i <= end <= |s|
    ensures AllWhitespace(s[i..SkipWs(s, i, end)])
    ensures SkipWs(s, i, end) < end ==> !IsWhitespace(s[SkipWs(s, i, end)])
    decreases end - i
  {
    if i < end && IsWhitespace(s[i]) {
      SkipWsSkips(s, i + 1, end);
      assert s[i..SkipWs(s, i, end)] == [s[i]] + s[i + 1..SkipWs(s, i + 1, end)];
    }
  }

  /** The position just past the last character of `s[start..j]` that is not whitespace, or `start`. */
  function SkipWsBack(s: string, start: nat, j: nat): (r: nat)
    requires start <= j <= |s|
    ensures start <= r <= j
    decreases j - start
  {
    if j == start || !IsWhitespace(s[j - 1]) then j else SkipWsBack(s, start, j - 1)
  }

  lemma {:induction false} SkipWsBackSkips(s: string, start: nat, j: nat)
    requires start <= j <= |s|
    ensures AllWhitespace(s[SkipWsBack(s, start, j)..j])
    ensures SkipWsBack(s, start, j) > start ==> !IsWhitespace(s[SkipWsBack(s, start, j) - 1])
    decreases j - start
  {
    if j > start && IsWhitespace(s[j - 1]) {
      SkipWsBackSkips(s, start, j - 1);
      assert s[SkipWsBack(s, start, j)..j] == s[SkipWsBack(s, start, j - 1)..j - 1] + [s[j - 1]];
    }
  }

  /** `str::trim_start`: drops the leading whitespace and nothing else. */
  function TrimStart(s: string): string {
    s[SkipWs(s, 0, |s|)..]
  }

  /** What `TrimStart` drops is whitespace, and what it keeps starts with none. */
  lemma TrimStartSpec(s: string)
    ensures |TrimStart(s)| <= |s|
    ensures AllWhitespace(s[..|s| - |TrimStart(s)|])
    ensures TrimStart(s) == [] || !IsWhitespace(TrimStart(s)[0])
  {
    SkipWsSkips(s, 0, |s|);
  }

  /** `str::trim_end`: drops the trailing whitespace and nothing else. */
  function TrimEnd(s: string): string {
    s[..SkipWsBack(s, 0, |s|)]
  }

  /** What `TrimEnd` drops is whitespace, and what it keeps ends with none. */
  lemma TrimEndSpec(s: string)
    ensures |TrimEnd(s)| <= |s|
    ensures AllWhitespace(s[|TrimEnd(s)|..])
    ensures TrimEnd(s) == [] || !IsWhitespace(TrimEnd(s)[|TrimEnd(s)| - 1])
  {
    SkipWsBackSkips(s, 0, |s|);
  }

  /** `str::trim`. */
  function Trim(s: string): string {
    TrimEnd(TrimStart(s))
  }

  /** What `trim` keeps neither starts nor ends with whitespace. */
  lemma TrimEnds(s: string)
    ensures Trim(s) == [] || (!IsWhitespace(Trim(s)[0]) && !IsWhitespace(Trim(s)[|Trim(s)| - 1]))
  {
    var a := TrimStart(s);
    TrimStartSpec(s);
    TrimEndSpec(a);
    if Trim(s) != [] {
      assert Trim(s)[0] == a[0];
    }
  }

  /** A string without whitespace at either end is its own trim. */
  lemma TrimUnchanged(s: string)
    requires s == [] || (!IsWhitespace(s[0]) && !IsWhitespace(s[|s| - 1]))
    ensures TrimStart(s) == s && TrimEnd(s) == s && Trim(s) == s
  {
    if s != [] {
      var a := TrimStart(s);
      assert |a| == |s|;
      var b := TrimEnd(s);
      assert |b| == |s|;
    }
  }

  /** Whitespace before a string that does not start with whitespace is what `trim_start` drops. */
  lemma TrimStartPadded(p: string, t: string)
    requires AllWhitespace(p) && (t == [] || !IsWhitespace(t[0]))
    ensures TrimStart(p + t) == t
  {
    var s := p + t;
    var r := TrimStart(s);
    TrimStartSpec(s);
    assert forall k :: 0 <= k < |p| ==> s[k] == p[k];
    assert t != [] ==> s[|p|] == t[0];
    assert |r| == |t|;
    assert r == s[|p|..] == t;
  }

  /** Whitespace after a string that does not end with whitespace is what `trim_end` drops. */
  lemma TrimEndPadded(t: string, q: string)
    requires AllWhitespace(q) && (t == [] || !IsWhitespace(t[|t| - 1]))
    ensures TrimEnd(t + q) == t
  {
    var s := t + q;
    var r := TrimEnd(s);
    TrimEndSpec(s);
    assert forall k :: |t| <= k < |s| ==> s[k] == q[k - |t|];
    assert t != [] ==> s[|t| - 1] == t[|t| - 1];
    assert |r| == |t|;
    assert r == s[..|t|] == t;
  }

  /** `trim` drops exactly the whitespace around a string that has none at its ends. */
  lemma TrimPadded(p: string, m: string, q: string)
    requires AllWhitespace(p) && AllWhitespace(q)
    requires m == [] || (!IsWhitespace(m[0]) && !IsWhitespace(m[|m| - 1]))
    ensures Trim(p + m + q) == m
  {
    if m == [] {
      assert p + m + q == (p + q) + [];
      TrimStartPadded(p + q, []);
      TrimEndPadded([], []);
    } else {
      assert p + m + q == p + (m + q);
      TrimStartPadded(p, m + q);
      TrimEndPadded(m, q);
    }
  }

  /** Trimming twice is trimming once. */
  lemma TrimIdempotent(s: string)
    ensures Trim(Trim(s)) == Trim(s)
  {
    var a := TrimStart(s);
    var b := TrimEnd(a);
    TrimStartSpec(s);
    TrimEndSpec(a);
    assert b == [] || b[0] == a[0];
    assert TrimStart(b) == b;
  }

  /** Trimming removes only whitespace: a non-whitespace character is in `s` iff it is in `Trim(s)`. */
  lemma TrimKeepsChar(s: string, c: char)
    requires !IsWhitespace(c)
    ensures c in s <==> c in Trim(s)
  {
    var a := TrimStart(s);
    var b := TrimEnd(a);
    TrimStartSpec(s);
    TrimEndSpec(a);
    DropWhitespace(s[..|s| - |a|], a, c);
    assert s == s[..|s| - |a|] + a;
    AppendWhitespace(b, a[|b|..], c);
    assert a == b + a[|b|..];
  }

  lemma DropWhitespace(p: string, a: string, c: char)
    requires AllWhitespace(p) && !IsWhitespace(c)
    ensures c in p + a <==> c in a
  {
    NotInWhitespace(p, c);
  }

  lemma AppendWhitespace(b: string, q: string, c: char)
    requires AllWhitespace(q) && !IsWhitespace(c)
    ensures c in b + q <==> c in b
  {
    NotInWhitespace(q, c);
  }

  lemma NotInWhitespace(p: string, c: char)
    requires AllWhitespace(p) && !IsWhitespace(c)
    ensures c !in p
  {
    forall i | 0 <= i < |p| ensures p[i] != c {
      assert IsWhitespace(p[i]);
    }
  }

  /** `pat` occurs in `s` starting at offset `i`. */
  predicate OccursAt(s: string, pat: string, i: int) {
    0 <= i && i + |pat| <= |s| && s[i..i + |pat|] == pat
  }

  /** The first occurrence of `pat` in `s` at or after `from`. */
  function FindFrom(s: string, pat: string, from: nat): (r: Option<nat>)
    requires from <= |s|
    ensures r.Some? ==> from <= r.value && OccursAt(s, pat, r.value)
    ensures r.Some? ==> forall j :: from <= j < r.value ==> !OccursAt(s, pat, j)
    ensures r.None? ==> forall j :: from <= j ==> !OccursAt(s, pat, j)
    decreases |s| - from
  {
    if OccursAt(s, pat, from) then Some(from)
    else if from + |pat| >= |s| then None
    else FindFrom(s, pat, from + 1)
  }

  /** `str::find` with a string pattern. */
  function Find(s: string, pat: string): Option<nat> {
    FindFrom(s, pat, 0)
  }

  predicate Contains(s: string, pat: string) {
    Find(s, pat).Some?
  }

  /** `str::split_once`: the text before and after the first occurrence of `pat`. */
  function SplitOnce(s: string, pat: string): (r: Option<(string, string)>)
    ensures r.Some? <==> Find(s, pat).Some?
    ensures r.Some? ==> s == r.value.0 + pat + r.value.1 && |r.value.0| == Find(s, pat).value
  {
    match Find(s, pat)
    case None => None
    case Some(i) =>
      assert s == s[..i] + s[i..i + |pat|] + s[i + |pat|..];
      Some((s[..i], s[i + |pat|..]))
  }

  /**
   * When the first character of `pat` does not occur in `a`, the first
   * occurrence of `pat` in `a + pat + b` is the one right after `a`.
   */
  lemma FindAfterPrefix(a: string, pat: string, b: string)
    requires pat != [] && pat[0] !in a
    ensures Find(a + pat + b, pat) == Some(|a|)
    ensures SplitOnce(a + pat + b, pat) == Some((a, b))
  {
    var s := a + pat + b;
    assert s[|a|..|a| + |pat|] == pat;
    assert OccursAt(s, pat, |a|);
    var r := FindFrom(s, pat, 0);
    assert r.Some? && r.value <= |a|;
    assert s[..|a|] == a && s[|a| + |pat|..] == b;
  }

  /** The index of the first character of `s` that is `a` or `b` (`str::find([a, b])`). */
  function FindEither(s: string, a: char, b: char): (r: Option<nat>)
    ensures r.Some? ==> r.value < |s| && (s[r.value] == a || s[r.value] == b)
    ensures r.Some? ==> forall j :: 0 <= j < r.value ==> s[j] != a && s[j] != b
    ensures r.None? ==> forall j :: 0 <= j < |s| ==> s[j] != a && s[j] != b
  {
    if s == [] then None
    else if s[0] == a || s[0] == b then Some(0)
    else match FindEither(s[1..], a, b)
      case None => None
      case Some(i) => Some(i + 1)
  }

  /** The index of the last occurrence of `c` in `s` (used by `str::rsplit_once`). */
  function RFindChar(s: string, c: char): (r: Option<nat>)
    ensures r.Some? ==> r.value < |s| && s[r.value] == c
    ensures r.Some? ==> forall j :: r.value < j < |s| ==> s[j] != c
    ensures r.None? ==> forall j :: 0 <= j < |s| ==> s[j] != c
    decreases |s|
  {
    if s == [] then None
    else if s[|s| - 1] == c then Some(|s| - 1)
    else RFindChar(s[..|s| - 1], c)
  }

  /** `str::rsplit_once` with a character: the text around the last `c`. */
  function RSplitOnceChar(s: string, c: char): (r: Option<(string, string)>)
    ensures r.Some? <==> c in s
    ensures r.Some? ==> s == r.value.0 + [c] + r.value.1 && c !in r.value.1
  {
    match RFindChar(s, c)
    case None => None
    case Some(i) =>
      assert s == s[..i] + [c] + s[i + 1..];
      Some((s[..i], s[i + 1..]))
  }

  function StripPrefix(s: string, prefix: string): (r: Option<string>)
    ensures r.Some? <==> |prefix| <= |s| && s[..|prefix|] == prefix
    ensures r.Some? ==> s == prefix + r.value
  {
    if |prefix| <= |s| && s[..|prefix|] == prefix then
      assert s == prefix + s[|prefix|..];
      Some(s[|prefix|..])
    else None
  }

  function StripSuffix(s: string, suffix: string): (r: Option<string>)
    ensures r.Some? <==> |suffix| <= |s| && s[|s| - |suffix|..] == suffix
    ensures r.Some? ==> s == r.value + suffix
  {
    if |suffix| <= |s| && s[|s| - |suffix|..] == suffix then
      assert s == s[..|s| - |suffix|] + suffix;
      Some(s[..|s| - |suffix|])
    else None
  }

  predicate StartsWith(s: string, prefix: string) {
    |prefix| <= |s| && s[..|prefix|] == prefix
  }

  predicate EndsWith(s: string, suffix: string) {
    |suffix| <= |s| && s[|s| - |suffix|..] == suffix
  }

  /** `str::replace(a, b)` for single characters. */
  function ReplaceChar(s: string, a: char, b: char): (r: string)
    ensures |r| == |s|
    ensures forall i :: 0 <= i < |s| ==> r[i] == if s[i] == a then b else s[i]
  {
    if s == [] then [] else [if s[0] == a then b else s[0]] + ReplaceChar(s[1..], a, b)
  }

  /** `str::trim_start_matches(c)`. */
  function TrimStartChar(s: string, c: char): string
    decreases |s|
  {
    if s != [] && s[0] == c then TrimStartChar(s[1..], c) else s
  }

  /** `TrimStartChar` drops a run of `c` from the front, and what it keeps does not start with `c`. */
  lemma {:induction false} TrimStartCharSpec(s: string, c: char)
    ensures |TrimStartChar(s, c)| <= |s| && TrimStartChar(s, c) == s[|s| - |TrimStartChar(s, c)|..]
    ensures forall i :: 0 <= i < |s| - |TrimStartChar(s, c)| ==> s[i] == c
    ensures TrimStartChar(s, c) == [] || TrimStartChar(s, c)[0] != c
    decreases |s|
  {
    if s != [] && s[0] == c {
      TrimStartCharSpec(s[1..], c);
    }
  }

  /** `str::trim_end_matches(c)`. */
  function TrimEndChar(s: string, c: char): string
    decreases |s|
  {
    if s != [] && s[|s| - 1] == c then TrimEndChar(s[..|s| - 1], c) else s
  }

  /** `TrimEndChar` drops a run of `c` from the back, and what it keeps does not end with `c`. */
  lemma {:induction false} TrimEndCharSpec(s: string, c: char)
    ensures |TrimEndChar(s, c)| <= |s| && TrimEndChar(s, c) == s[..|TrimEndChar(s, c)|]
    ensures forall i :: |TrimEndChar(s, c)| <= i < |s| ==> s[i] == c
    ensures TrimEndChar(s, c) == [] || TrimEndChar(s, c)[|TrimEndChar(s, c)| - 1] != c
    decreases |s|
  {
    if s != [] && s[|s| - 1] == c {
      TrimEndCharSpec(s[..|s| - 1], c);
    }
  }

  /** `str::trim_matches(c)`. */
  function TrimChar(s: string, c: char): string {
    TrimEndChar(TrimStartChar(s, c), c)
  }

  /** What `TrimChar` keeps neither starts nor ends with `c`. */
  lemma TrimCharEnds(s: string, c: char)
    ensures TrimChar(s, c) == [] || (TrimChar(s, c)[0] != c && TrimChar(s, c)[|TrimChar(s, c)| - 1] != c)
  {
    var t := TrimStartChar(s, c);
    TrimStartCharSpec(s, c);
    TrimEndCharSpec(t, c);
  }

  /** `[..].join(sep)`. */
  function Join(parts: seq<string>, sep: string): string
    decreases |parts|
  {
    if |parts| == 0 then ""
    else if |parts| == 1 then parts[0]
    else parts[0] + sep + Join(parts[1..], sep)
  }

  /** `str::split(c)`: the pieces between occurrences of `c`, at least one. */
  function Split(s: string, c: char): (r: seq<string>)
    ensures |r| >= 1
    ensures forall i :: 0 <= i < |r| ==> c !in r[i]
    ensures Join(r, [c]) == s
    decreases |s|
  {
    match FindChar(s, c)
    case None => [s]
    case Some(i) =>
      var rest := Split(s[i + 1..], c);
      assert s == s[..i] + [c] + s[i + 1..];
      [s[..i]] + rest
  }

  /** A separator that occurs in `s` splits it into two or more pieces. */
  lemma SplitAtLeastTwo(s: string, c: char)
    requires c in s
    ensures |Split(s, c)| >= 2
  {
  }

  /** A string without the separator is a single piece. */
  lemma SplitWithout(s: string, c: char)
    requires c !in s
    ensures Split(s, c) == [s]
  {
  }

  /** The index of the first occurrence of `c` in `s`. */
  function FindChar(s: string, c: char): (r: Option<nat>)
    ensures r.Some? ==> r.value < |s| && s[r.value] == c
    ensures r.Some? ==> forall j :: 0 <= j < r.value ==> s[j] != c
    ensures r.None? ==> c !in s
  {
    if s == [] then None
    else if s[0] == c then Some(0)
    else match FindChar(s[1..], c)
      case None => None
      case Some(i) => Some(i + 1)
  }

  /** `a..=b` is `a`, then `..`, then `=b`. */
  lemma InclusiveSplit(x: string, y: string)
    ensures x + "..=" + y == x + ".." + ("=" + y)
  {
    assert "..=" == ".." + "=";
  }

  /** A range text with one side empty. */
  lemma EmptySide(x: string)
    ensures x + ".." == x + ".." + "" && ".." + x == "" + ".." + x
  {
  }

  // ----- numbers -----

  predicate IsDigit(c: char) { '0' <= c <= '9' }

  function DigitValue(c: char): nat
    requires IsDigit(c)
  {
    c as int - '0' as int
  }

  predicate AllDigits(s: string) {
    forall i :: 0 <= i < |s| ==> IsDigit(s[i])
  }

  /** The value of a string of decimal digits. */
  function DecimalValue(s: string): nat
    requires AllDigits(s)
    decreases |s|
  {
    if s == [] then 0 else 10 * DecimalValue(s[..|s| - 1]) + DigitValue(s[|s| - 1])
  }

  /** The digits after an optional `+`, or after a `-` when negative values exist (`lo < 0`). */
  function Unsigned(s: string, lo: int): string {
    if s != [] && (s[0] == '+' || (s[0] == '-' && lo < 0)) then s[1..] else s
  }

  /**
   * Rust's `FromStr` for an integer type whose values are `lo..=hi`: an optional
   * `+` (or `-` when the type is signed) and at least one decimal digit; a value
   * outside the type's range is an overflow error.
   */
  function ParseInt(s: string, lo: int, hi: int): (r: Option<int>)
    ensures r.Some? ==> lo <= r.value <= hi
  {
    var digits := Unsigned(s, lo);
    if digits == [] || !AllDigits(digits) then None
    else
      var v := if s[0] == '-' && lo < 0 then -(DecimalValue(digits) as int) else DecimalValue(digits);
      if lo <= v <= hi then Some(v) else None
  }

  /** Text an integer parser accepts is a sign or digit followed by digits. */
  lemma ParseIntChars(s: string, lo: int, hi: int)
    requires ParseInt(s, lo, hi).Some?
    ensures s != [] && IsDigit(s[|s| - 1])
    ensures forall i :: 0 <= i < |s| ==> IsDigit(s[i]) || (i == 0 && (s[i] == '+' || s[i] == '-'))
  {
    var digits := Unsigned(s, lo);
    assert AllDigits(digits) && digits != [];
    if digits != s {
      forall i | 1 <= i < |s| ensures IsDigit(s[i]) {
        assert s[i] == digits[i - 1];
      }
    }
  }

  function DigitChar(d: nat): (c: char)
    requires d < 10
    ensures IsDigit(c) && DigitValue(c) == d
  {
    ('0' as int + d) as char
  }

  /** Decimal digits of a natural number, without leading zeros. */
  function NatToDecimal(n: nat): (r: string)
    ensures |r| >= 1 && forall i :: 0 <= i < |r| ==> IsDigit(r[i])
    ensures DecimalValue(r) == n
    ensures |r| > 1 ==> r[0] != '0'
  {
    if n < 10 then [DigitChar(n)]
    else
      var p := NatToDecimal(n / 10);
      var r := p + [DigitChar(n % 10)];
      assert r[..|r| - 1] == p;
      r
  }

  /** Rust's `Display` for an integer: a `-` sign for negative values, then the digits. */
  function IntToDecimal(n: int): string {
    if n < 0 then "-" + NatToDecimal(-n) else NatToDecimal(n)
  }

  /** A printed integer is a `-` sign (for negative values) followed by digits. */
  lemma IntToDecimalChars(n: int)
    ensures |IntToDecimal(n)| >= 1
    ensures forall i :: 0 <= i < |IntToDecimal(n)| ==> IsDigit(IntToDecimal(n)[i]) || (i == 0 && IntToDecimal(n)[i] == '-')
    ensures IsDigit(IntToDecimal(n)[|IntToDecimal(n)| - 1])
  {
  }

  /** Printing an integer of a type and parsing it back gives the same value. */
  lemma ParseIntToDecimal(n: int, lo: int, hi: int)
    requires lo <= n <= hi
    ensures ParseInt(IntToDecimal(n), lo, hi) == Some(n)
  {
    var s := IntToDecimal(n);
    if n < 0 {
      assert s[1..] == NatToDecimal(-n);
    }
  }

  predicate IsHexDigit(c: char) { IsDigit(c) || 'a' <= c <= 'f' || 'A' <= c <= 'F' }

  function HexDigitValue(c: char): (v: nat)
    requires IsHexDigit(c)
    ensures v < 16
  {
    if IsDigit(c) then DigitValue(c)
    else if 'a' <= c <= 'f' then c as int - 'a' as int + 10
    else c as int - 'A' as int + 10
  }

  function HexValue(s: string): nat
    requires forall i :: 0 <= i < |s| ==> IsHexDigit(s[i])
    decreases |s|
  {
    if s == [] then 0 else 16 * HexValue(s[..|s| - 1]) + HexDigitValue(s[|s| - 1])
  }

  /** `u32::from_str_radix(s, 16)`: an optional `+`, at least one hex digit, at most `u32::MAX`. */
  function ParseHexU32(s: string): (r: Option<nat>)
    ensures r.Some? ==> r.value < 0x1_0000_0000
  {
    var digits := if s != [] && s[0] == '+' then s[1..] else s;
    if digits == [] || exists i :: 0 <= i < |digits| && !IsHexDigit(digits[i]) then None
    else if HexValue(digits) < 0x1_0000_0000 then Some(HexValue(digits))
    else None
  }

  /** `char::from_u32`: code points outside the surrogate block, up to U+10FFFF. */
  predicate IsScalarValue(n: int) {
    0 <= n < 0xD800 || 0xE000 <= n < 0x11_0000
  }
}
