// The plural keys of the `load_locales` macro: a plural key is `_`, an `i64`,
// or a range `a..b` / `a..=b` with either side optional. The end of the range is
// always stored inclusive.
module MacroPlural {
  import opened Wrappers
  import opened Text

  const I64Min: int := -0x8000_0000_0000_0000
  const I64Max: int := 0x7FFF_FFFF_FFFF_FFFF

  datatype Plural =
    | Exact(n: int)
    | Range(start: Option<int>, end: Option<int>)
    | Fallback

  /** `Error::InvalidPlural`, with the text that failed to parse. */
  datatype PluralError = InvalidPlural(localeName: string, localeKey: string, plural: string)

  /** `s.parse::<i64>()`. */
  function ParseI64(localeName: string, localeKey: string, s: string): (r: Result<int, PluralError>)
    ensures r.Ok? ==> I64Min <= r.value <= I64Max
    ensures r.Err? ==> r.error == InvalidPlural(localeName, localeKey, s)
  {
    match ParseInt(s, I64Min, I64Max)
    case Some(n) => Ok(n)
    case None => Err(InvalidPlural(localeName, localeKey, s))
  }

  /** `i64::checked_sub(1)`. */
  function CheckedPred(n: int): Option<int> {
    if n - 1 < I64Min then None else Some(n - 1)
  }

  /** The end of a range as written: empty (none), `=b` (inclusive) or `b`
    * (exclusive, stored as `b - 1`). */
  function ParseEnd(localeName: string, localeKey: string, end: string): Result<Option<int>, PluralError>
  {
    if end == [] then Ok(None)
    else match StripPrefix(end, "=")
      case Some(e) =>
        (match ParseI64(localeName, localeKey, TrimStart(e))
         case Ok(b) => Ok(Some(b))
         case Err(err) => Err(err))
      case None =>
        match ParseI64(localeName, localeKey, end)
        case Ok(b) => Ok(CheckedPred(b))
        case Err(err) => Err(err)
  }

  /** The start of a range: empty (none) or an `i64`. */
  function ParseStart(localeName: string, localeKey: string, start: string): Result<Option<int>, PluralError>
  {
    if start == [] then Ok(None)
    else match ParseI64(localeName, localeKey, start)
      case Ok(a) => Ok(Some(a))
      case Err(e) => Err(e)
  }

  /** The two sides of a `..`, each trimmed. */
  function ParseRange(localeName: string, localeKey: string, start: string, end: string): Result<Plural, PluralError>
  {
    match ParseStart(localeName, localeKey, Trim(start))
    case Err(e) => Err(e)
    case Ok(a) =>
      match ParseEnd(localeName, localeKey, Trim(end))
      case Err(e) => Err(e)
      case Ok(b) => Ok(Range(a, b))
  }

  /** `Plural::new`. */
  function New(localeName: string, localeKey: string, s: string): Result<Plural, PluralError>
  {
    var s := Trim(s);
    if s == "_" then Ok(Fallback)
    else match SplitOnce(s, "..")
      case Some((start, end)) => ParseRange(localeName, localeKey, start, end)
      case None =>
        match ParseI64(localeName, localeKey, s)
        case Ok(n) => Ok(Exact(n))
        case Err(e) => Err(e)
  }

  /** The count values the generated match arm accepts (`n`, `a..=b`, `a..`, `_`). */
  predicate Matches(p: Plural, n: int) {
    match p
    case Exact(v) => n == v
    case Range(start, end) =>
      (start.None? || start.value <= n) && (end.None? || n <= end.value)
    case Fallback => true
  }

  /** A range with both ends accepts the counts between them, ends included. */
  lemma BoundedAccepts(a: int, b: int, n: int)
    ensures Matches(Range(Some(a), Some(b)), n) <==> a <= n <= b
  {
  }

  /** The text of a number: no `.`, no `=` in front, nothing to trim. */
  predicate Number(x: string) {
    ParseInt(x, I64Min, I64Max).Some?
  }

  lemma NumberShape(x: string)
    requires Number(x)
    ensures x != [] && '.' !in x && Trim(x) == x && TrimStart(x) == x && StripPrefix(x, "=").None?
    ensures x[0] != '_' && x != "_"
  {
    ParseIntChars(x, I64Min, I64Max);
    TrimUnchanged(x);
    assert '.' !in x by {
      forall i | 0 <= i < |x| ensures x[i] != '.' {
      }
    }
  }

  /** A side of a range: empty, a number, or (for the end) `=` and a number. */
  predicate Side(x: string) {
    x == [] || Number(x) || (x[0] == '=' && Number(x[1..]))
  }

  /** The start of a range: nothing to trim, no `.`, no whitespace in front. */
  lemma StartShape(a: string)
    requires a == [] || Number(a)
    ensures Trim(a) == a && '.' !in a
    ensures a != [] ==> !IsWhitespace(a[0])
  {
    if a != [] {
      NumberShape(a);
    }
  }

  /** The end of a range: nothing to trim, no whitespace behind. */
  lemma EndShape(b: string)
    requires Side(b)
    ensures Trim(b) == b
    ensures b != [] ==> !IsWhitespace(b[|b| - 1])
  {
    if b != [] {
      if Number(b) {
        NumberShape(b);
      } else {
        NumberShape(b[1..]);
        assert b[|b| - 1] == b[1..][|b[1..]| - 1];
        TrimUnchanged(b);
      }
    }
  }

  /** The text `a..b` of two sides: already trimmed, not `_`, and split at its `..`. */
  lemma DotsText(a: string, b: string)
    requires a == [] || Number(a)
    requires Side(b)
    ensures Trim(a + ".." + b) == a + ".." + b && a + ".." + b != "_"
    ensures SplitOnce(a + ".." + b, "..") == Some((a, b))
    ensures Trim(a) == a && Trim(b) == b
  {
    StartShape(a);
    EndShape(b);
    var s := a + ".." + b;
    assert s[0] == if a != [] then a[0] else '.';
    assert s[|s| - 1] == if b != [] then b[|b| - 1] else '.';
    TrimUnchanged(s);
    FindAfterPrefix(a, "..", b);
    assert s != "_";
  }

  /** `New` on `a .. b`: both sides are parsed on their own. */
  lemma SplitsAtDots(l: string, k: string, a: string, b: string)
    requires a == [] || Number(a)
    requires Side(b)
    ensures New(l, k, a + ".." + b) == ParseRange(l, k, a, b)
    ensures Trim(a) == a && Trim(b) == b
  {
    DotsText(a, b);
  }

  /** `=b` is the inclusive end `b`. */
  lemma InclusiveEnd(l: string, k: string, y: string, b: int)
    requires ParseInt(y, I64Min, I64Max) == Some(b)
    ensures Side("=" + y) && ParseEnd(l, k, "=" + y) == Ok(Some(b))
  {
    assert ("=" + y)[1..] == y;
    NumberShape(y);
    assert StripPrefix("=" + y, "=") == Some(y);
  }

  /** `"_"`, surrounded by any whitespace, is the fallback. */
  lemma FallbackText(s: string)
    requires Trim(s) == "_"
    ensures forall l, k :: New(l, k, s) == Ok(Fallback)
  {
  }

  /** A plain integer is `Exact`. */
  lemma ExactText(l: string, k: string, x: string, a: int)
    requires ParseInt(x, I64Min, I64Max) == Some(a)
    ensures New(l, k, x) == Ok(Exact(a))
  {
    NumberShape(x);
  }

  /** Text without `..` that is neither `_` nor an `i64` is an `InvalidPlural`
    * naming the trimmed text. */
  lemma InvalidText(l: string, k: string, s: string)
    requires Trim(s) != "_" && !Contains(Trim(s), "..") && ParseInt(Trim(s), I64Min, I64Max).None?
    ensures New(l, k, s) == Err(InvalidPlural(l, k, Trim(s)))
  {
  }

  /** `"a..b"` is `Range{a, b-1}`, so it accepts exactly `a <= n < b`. */
  lemma ExclusiveText(l: string, k: string, x: string, y: string, a: int, b: int, n: int)
    requires ParseInt(x, I64Min, I64Max) == Some(a) && ParseInt(y, I64Min, I64Max) == Some(b)
    requires b > I64Min
    ensures New(l, k, x + ".." + y) == Ok(Range(Some(a), Some(b - 1)))
    ensures Matches(Range(Some(a), Some(b - 1)), n) <==> a <= n < b
  {
    SplitsAtDots(l, k, x, y);
    NumberShape(x);
    NumberShape(y);
    BoundedAccepts(a, b - 1, n);
  }

  /** `"a..=b"` is `Range{a, b}`. */
  lemma InclusiveText(l: string, k: string, x: string, y: string, a: int, b: int, n: int)
    requires ParseInt(x, I64Min, I64Max) == Some(a) && ParseInt(y, I64Min, I64Max) == Some(b)
    ensures New(l, k, x + "..=" + y) == Ok(Range(Some(a), Some(b)))
    ensures Matches(Range(Some(a), Some(b)), n) <==> a <= n <= b
  {
    var e := "=" + y;
    assert x + "..=" + y == x + ".." + e;
    InclusiveEnd(l, k, y, b);
    SplitsAtDots(l, k, x, e);
    NumberShape(x);
    BoundedAccepts(a, b, n);
  }

  /** An empty end is no end: `"a.."` is `Range{a, None}`. */
  lemma OpenEndText(l: string, k: string, x: string, a: int)
    requires ParseInt(x, I64Min, I64Max) == Some(a)
    ensures New(l, k, x + "..") == Ok(Range(Some(a), None))
  {
    assert x + ".." == x + ".." + "";
    SplitsAtDots(l, k, x, "");
    NumberShape(x);
  }

  /** An empty start is no start: `"..=b"` is `Range{None, b}`. */
  lemma OpenStartInclusiveText(l: string, k: string, y: string, b: int)
    requires ParseInt(y, I64Min, I64Max) == Some(b)
    ensures New(l, k, "..=" + y) == Ok(Range(None, Some(b)))
  {
    assert "..=" + y == "" + ".." + ("=" + y);
    InclusiveEnd(l, k, y, b);
    SplitsAtDots(l, k, "", "=" + y);
  }

  /** `"..b"` is `Range{None, b-1}`. */
  lemma OpenStartText(l: string, k: string, y: string, b: int)
    requires ParseInt(y, I64Min, I64Max) == Some(b) && b > I64Min
    ensures New(l, k, ".." + y) == Ok(Range(None, Some(b - 1)))
  {
    assert ".." + y == "" + ".." + y;
    SplitsAtDots(l, k, "", y);
    NumberShape(y);
  }

  /** `".."` is the full range `Range{None, None}`, which accepts every count. */
  lemma FullText(l: string, k: string)
    ensures New(l, k, "..") == Ok(Range(None, None))
  {
    assert ".." == "" + ".." + "";
    SplitsAtDots(l, k, "", "");
  }

  /**
   * As written, an exclusive end at `i64::MIN` (the text
   * `-9223372036854775808`) has no predecessor, and `checked_sub` turns it into
   * no end at all: `"a..-9223372036854775808"`, which should accept nothing,
   * accepts every count from `a` up.
   */
  lemma ExclusiveEndAtMinimum(l: string, k: string, x: string, a: int)
    requires ParseInt(x, I64Min, I64Max) == Some(a)
    ensures New(l, k, x + ".." + IntToDecimal(I64Min)) == Ok(Range(Some(a), None))
    ensures Matches(Range(Some(a), None), a)
  {
    var y := IntToDecimal(I64Min);
    ParseIntToDecimal(I64Min, I64Min, I64Max);
    SplitsAtDots(l, k, x, y);
    NumberShape(x);
    NumberShape(y);
  }

  /** The end of a range with an exclusive end below `i64::MIN` rejected, as
    * the parser crate does with `InvalidBoundEnd`. */
  function ParseEndChecked(localeName: string, localeKey: string, end: string): Result<Option<int>, PluralError>
  {
    if end == [] then Ok(None)
    else match StripPrefix(end, "=")
      case Some(e) =>
        (match ParseI64(localeName, localeKey, TrimStart(e))
         case Ok(b) => Ok(Some(b))
         case Err(err) => Err(err))
      case None =>
        match ParseI64(localeName, localeKey, end)
        case Ok(b) => if b - 1 < I64Min then Err(InvalidPlural(localeName, localeKey, end)) else Ok(Some(b - 1))
        case Err(err) => Err(err)
  }

  function ParseRangeChecked(localeName: string, localeKey: string, start: string, end: string): Result<Plural, PluralError>
  {
    match ParseStart(localeName, localeKey, Trim(start))
    case Err(e) => Err(e)
    case Ok(a) =>
      match ParseEndChecked(localeName, localeKey, Trim(end))
      case Err(e) => Err(e)
      case Ok(b) => Ok(Range(a, b))
  }

  /** `Plural::new` with the exclusive end checked. */
  function NewChecked(localeName: string, localeKey: string, s: string): (r: Result<Plural, PluralError>)
  {
    var s := Trim(s);
    if s == "_" then Ok(Fallback)
    else match SplitOnce(s, "..")
      case Some((start, end)) => ParseRangeChecked(localeName, localeKey, start, end)
      case None =>
        match ParseI64(localeName, localeKey, s)
        case Ok(n) => Ok(Exact(n))
        case Err(e) => Err(e)
  }

  /** `NewChecked` on `a .. b`: both sides are parsed on their own. */
  lemma SplitsAtDotsChecked(l: string, k: string, a: string, b: string)
    requires a == [] || Number(a)
    requires Side(b)
    ensures NewChecked(l, k, a + ".." + b) == ParseRangeChecked(l, k, a, b)
  {
    DotsText(a, b);
  }

  /** A number as the start of a range is that start. */
  lemma StartNumber(l: string, k: string, x: string, a: int)
    requires ParseInt(x, I64Min, I64Max) == Some(a)
    ensures Trim(x) == x && ParseStart(l, k, x) == Ok(Some(a))
  {
    NumberShape(x);
  }

  /** With the check, a number `b` as an exclusive end is `b - 1`, or an error at `i64::MIN`. */
  lemma EndCheckedNumber(l: string, k: string, y: string, b: int)
    requires ParseInt(y, I64Min, I64Max) == Some(b)
    ensures Trim(y) == y
    ensures ParseEndChecked(l, k, y) == if b == I64Min then Err(InvalidPlural(l, k, y)) else Ok(Some(b - 1))
  {
    NumberShape(y);
  }

  /**
   * With the check, `"a..b"` is rejected when `b` is `i64::MIN`, and is
   * otherwise `Range{a, b-1}`, which accepts exactly `a <= n < b`.
   */
  lemma ExclusiveTextChecked(l: string, k: string, x: string, y: string, a: int, b: int, n: int)
    requires ParseInt(x, I64Min, I64Max) == Some(a) && ParseInt(y, I64Min, I64Max) == Some(b)
    ensures NewChecked(l, k, x + ".." + y)
      == if b == I64Min then Err(InvalidPlural(l, k, y)) else Ok(Range(Some(a), Some(b - 1)))
    ensures b != I64Min ==> (Matches(Range(Some(a), Some(b - 1)), n) <==> a <= n < b)
  {
    NumberShape(x);
    NumberShape(y);
    SplitsAtDotsChecked(l, k, x, y);
    StartNumber(l, k, x, a);
    EndCheckedNumber(l, k, y, b);
    BoundedAccepts(a, b - 1, n);
  }

  lemma CheckedEndAgrees(l: string, k: string, e: string)
    ensures ParseEndChecked(l, k, e) == ParseEnd(l, k, e)
      || (ParseEndChecked(l, k, e).Err? && ParseEnd(l, k, e) == Ok(None))
  {
  }

  /** The checked parser differs from the source only by rejecting a range
    * the source reads as having no end. */
  lemma CheckedAgrees(l: string, k: string, s: string)
    ensures NewChecked(l, k, s) == New(l, k, s)
      || (NewChecked(l, k, s).Err? && New(l, k, s).Ok? && New(l, k, s).value.Range? && New(l, k, s).value.end.None?)
  {
    var t := Trim(s);
    if t != "_" {
      match SplitOnce(t, "..")
      case Some((start, end)) =>
        CheckedEndAgrees(l, k, Trim(end));
        assert New(l, k, s) == ParseRange(l, k, start, end);
        assert NewChecked(l, k, s) == ParseRangeChecked(l, k, start, end);
      case None =>
    }
  }
}
