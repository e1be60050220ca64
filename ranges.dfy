/**
 * The range rule language of leptos_i18n_parser/src/parse_locales/ranges.rs over the
 * integer count types: parsing `"a..b"`, `"a..=b"`, `"x | y"` and `"_"`, matching a
 * count, and the fallback placement check.
 *
 * Numbers are unbounded integers kept inside the declared type's bounds.
 */
module Ranges {
  import opened Wrappers
  import opened Text

  /** The integer types a ranges value can count with (`RangeType` without the floats). */
  datatype RangeType = I8 | I16 | I32 | I64 | U8 | U16 | U32 | U64

  function Min(t: RangeType): int {
    match t
    case I8 => -0x80
    case I16 => -0x8000
    case I32 => -0x8000_0000
    case I64 => -0x8000_0000_0000_0000
    case _ => 0
  }

  function Max(t: RangeType): int {
    match t
    case I8 => 0x7F
    case I16 => 0x7FFF
    case I32 => 0x7FFF_FFFF
    case I64 => 0x7FFF_FFFF_FFFF_FFFF
    case U8 => 0xFF
    case U16 => 0xFFFF
    case U32 => 0xFFFF_FFFF
    case U64 => 0xFFFF_FFFF_FFFF_FFFF
  }

  predicate InType(n: int, t: RangeType) {
    Min(t) <= n <= Max(t)
  }

  /** `std::ops::Bound`. */
  datatype Bound = Included(v: int) | Excluded(v: int) | Unbounded

  datatype Range =
    | Exact(v: int)
    | Bounds(start: Option<int>, end: Bound)
    | Multiple(ranges: seq<Range>)
    | Fallback

  datatype RangeError =
    | RangeParse(range: string, rangeType: RangeType)
    | InvalidBoundEnd(range: string, rangeType: RangeType)
    | ImpossibleRange(range: string)

  /** Every number a range mentions is a value of type `t`. */
  predicate WellTyped(r: Range, t: RangeType) {
    match r
    case Exact(v) => InType(v, t)
    case Bounds(start, end) =>
      (start.Some? ==> InType(start.value, t)) && (!end.Unbounded? ==> InType(end.v, t))
    case Multiple(rs) => forall i :: 0 <= i < |rs| ==> WellTyped(rs[i], t)
    case Fallback => true
  }

  /** `do_match`. */
  predicate DoMatch(r: Range, n: int) {
    match r
    case Exact(v) => v == n
    case Bounds(start, end) =>
      !(start.Some? && start.value > n)
      && (match end
          case Included(e) => e >= n
          case Excluded(e) => e > n
          case Unbounded => true)
    case Multiple(rs) => AnyMatch(rs, n)
    case Fallback => true
  }

  /** `ranges.iter().any(|range| range.do_match(count))`. */
  predicate AnyMatch(rs: seq<Range>, n: int)
    decreases rs
  {
    if rs == [] then false
    else
      var r := rs[0];
      assert r in rs;
      DoMatch(r, n) || AnyMatch(rs[1..], n)
  }

  /** `Multiple` matches a count exactly when one of its parts does. */
  lemma {:induction false} AnyMatchIsExists(rs: seq<Range>, n: int)
    ensures AnyMatch(rs, n) <==> exists i :: 0 <= i < |rs| && DoMatch(rs[i], n)
    decreases |rs|
  {
    if rs != [] {
      AnyMatchIsExists(rs[1..], n);
      if exists i :: 0 <= i < |rs| && DoMatch(rs[i], n) {
        var i :| 0 <= i < |rs| && DoMatch(rs[i], n);
        if i > 0 {
          assert DoMatch(rs[1..][i - 1], n);
        }
      }
    }
  }

  /** `flatten`: a `Multiple` that has a `Fallback` part is a `Fallback`. */
  function Flatten(r: Range): (f: Range)
    ensures r.Multiple? && Fallback in r.ranges ==> f == Fallback
    ensures !(r.Multiple? && Fallback in r.ranges) ==> f == r
  {
    if r.Multiple? && Fallback in r.ranges then Fallback else r
  }

  /** `s.parse::<T>()`, reporting the text that failed. */
  function ParseNumber(s: string, t: RangeType): (r: Result<int, RangeError>)
    ensures r.Ok? <==> ParseInt(s, Min(t), Max(t)).Some?
    ensures r.Ok? ==> r.value == ParseInt(s, Min(t), Max(t)).value && InType(r.value, t)
    ensures r.Err? ==> r.error == RangeParse(s, t)
  {
    match ParseInt(s, Min(t), Max(t))
    case Some(v) => Ok(v)
    case None => Err(RangeParse(s, t))
  }

  /**
   * `range_end_bound` for integers: an exclusive end `e` is the inclusive end
   * `e - 1`, if that exists. A value of the type lies below `e` exactly when
   * it lies at or below that inclusive end, and when there is none no value
   * of the type lies below `e`.
   */
  function RangeEndBound(e: int, t: RangeType): (r: Option<Bound>)
    ensures r.Some? ==> r.value.Included?
    ensures forall n :: InType(n, t) ==> (r.Some? ==> (n < e <==> n <= r.value.v)) && (r.None? ==> !(n < e))
  {
    if Min(t) <= e - 1 then Some(Included(e - 1)) else None
  }

  /** The end of `start..end`, for the already trimmed text after `..`; `s` is the whole range. */
  function ParseEnd(s: string, end: string, t: RangeType): (r: Result<Bound, RangeError>)
    ensures r.Ok? && !r.value.Unbounded? ==> InType(r.value.v, t) && r.value.Included?
  {
    if end == [] then Ok(Unbounded)
    else match StripPrefix(end, "=")
      case Some(e) =>
        (match ParseNumber(TrimStart(e), t)
         case Ok(v) => Ok(Included(v))
         case Err(err) => Err(err))
      case None =>
        match ParseNumber(end, t)
        case Err(err) => Err(err)
        case Ok(v) =>
          match RangeEndBound(v, t)
          case Some(b) => Ok(b)
          case None => Err(InvalidBoundEnd(s, t))
  }

  /** A bounds range can match at least one count. */
  predicate Possible(start: Option<int>, end: Bound) {
    match (start, end)
    case (Some(a), Excluded(e)) => a < e
    case (Some(a), Included(e)) => a <= e
    case _ => true
  }

  /** A plain number: `Exact`. */
  function ParseExact(s: string, t: RangeType): (r: Result<Range, RangeError>)
    ensures r.Ok? ==> r.value.Exact? && InType(r.value.v, t)
  {
    match ParseNumber(s, t)
    case Ok(v) => Ok(Exact(v))
    case Err(err) => Err(err)
  }

  /** `start..end` with `start` and `end` as split from the trimmed range text `s`. */
  function ParseBounds(s: string, start: string, end: string, t: RangeType): (r: Result<Range, RangeError>)
    ensures r.Ok? ==> r.value.Bounds? && WellTyped(r.value, t) && Possible(r.value.start, r.value.end)
    ensures r.Ok? ==> r.value.end.Unbounded? || r.value.end.Included?
  {
    var start := Trim(start);
    var startR := if start == [] then Ok(None) else
      match ParseNumber(start, t)
      case Ok(v) => Ok(Some(v))
      case Err(err) => Err(err);
    if startR.Err? then Err(startR.error)
    else match ParseEnd(s, Trim(end), t)
      case Err(err) => Err(err)
      case Ok(end) =>
        if !Possible(startR.value, end) then Err(ImpossibleRange(s))
        else Ok(Bounds(startR.value, end))
  }

  /** The text of a fallback range. */
  predicate IsFallbackText(s: string) {
    Trim(s) == "_" || Trim(s) == ".."
  }

  /** `Range::new` for a range without `|`. */
  function ParsePiece(s: string, t: RangeType): (r: Result<Range, RangeError>)
    ensures r.Ok? ==> WellTyped(r.value, t) && !r.value.Multiple?
    ensures r.Ok? && r.value.Bounds? ==> Possible(r.value.start, r.value.end)
    ensures r.Ok? && r.value.Bounds? ==> r.value.end.Unbounded? || r.value.end.Included?
    ensures r == Ok(Fallback) <==> IsFallbackText(s)
  {
    var s := Trim(s);
    if s == "_" || s == ".." then Ok(Fallback)
    else match SplitOnce(s, "..")
      case None => ParseExact(s, t)
      case Some((start, end)) => ParseBounds(s, start, end, t)
  }

  /** `.map(Self::new).collect::<Result<Vec<_>>>()`: the first error, or every range. */
  function ParseAll(pieces: seq<string>, t: RangeType): (r: Result<seq<Range>, RangeError>)
    ensures r.Ok? ==> |r.value| == |pieces|
    ensures r.Ok? ==> forall i :: 0 <= i < |pieces| ==> ParsePiece(pieces[i], t) == Ok(r.value[i])
    ensures r.Err? ==> exists i :: 0 <= i < |pieces| && ParsePiece(pieces[i], t) == Err(r.error)
  {
    if pieces == [] then Ok([])
    else match ParsePiece(pieces[0], t)
      case Err(err) => Err(err)
      case Ok(first) =>
        match ParseAll(pieces[1..], t)
        case Err(err) => Err(err)
        case Ok(rest) => Ok([first] + rest)
  }

  /**
   * `Range::new`. The source checks for `_` and `..` before looking for `|`; a text
   * with a `|` is neither, so testing for `|` first and leaving the fallback test to
   * `ParsePiece` gives the same result. The lemmas below state what it computes.
   */
  function New(s: string, t: RangeType): Result<Range, RangeError> {
    var s' := Trim(s);
    if '|' in s' then
      match ParseAll(Split(s', '|'), t)
      case Err(err) => Err(err)
      case Ok(rs) => Ok(Flatten(Multiple(rs)))
    else
      ParsePiece(s, t)
  }

  /** Every number in a parsed range is a value of the declared type. */
  lemma NewWellTyped(s: string, t: RangeType)
    requires New(s, t).Ok?
    ensures WellTyped(New(s, t).value, t)
  {
    if '|' in Trim(s) {
      var rs := ParseAll(Split(Trim(s), '|'), t).value;
      assert forall i :: 0 <= i < |rs| ==> WellTyped(rs[i], t);
    }
  }

  /** A range without `|` is parsed as a single piece. */
  lemma NewSingle(s: string, t: RangeType)
    requires '|' !in s
    ensures New(s, t) == ParsePiece(s, t)
  {
    TrimKeepsChar(s, '|');
  }

  /** `"_"`, `".."` and their padded forms parse to `Fallback`. */
  lemma NewFallbackText(s: string, t: RangeType)
    requires IsFallbackText(s)
    ensures New(s, t) == Ok(Fallback)
  {
    assert '|' !in Trim(s);
  }

  /**
   * A successfully parsed `x | y | ...` is `Fallback` exactly when one of its parts
   * is `_` or `..`; otherwise it is a `Multiple` with one range per part.
   */
  lemma MultipleFallback(s: string, t: RangeType)
    requires New(s, t).Ok? && '|' in Trim(s)
    ensures New(s, t).value == Fallback <==>
      exists i :: 0 <= i < |Split(Trim(s), '|')| && IsFallbackText(Split(Trim(s), '|')[i])
    ensures New(s, t).value != Fallback ==>
      New(s, t).value == Multiple(ParseAll(Split(Trim(s), '|'), t).value)
      && |New(s, t).value.ranges| == |Split(Trim(s), '|')| >= 2
  {
    var pieces := Split(Trim(s), '|');
    var rs := ParseAll(pieces, t).value;
    assert New(s, t).value == Flatten(Multiple(rs));
    PiecesFallback(pieces, t, rs);
    SplitAtLeastTwo(Trim(s), '|');
  }

  lemma PiecesFallback(pieces: seq<string>, t: RangeType, rs: seq<Range>)
    requires ParseAll(pieces, t) == Ok(rs)
    ensures Fallback in rs <==> exists i :: 0 <= i < |pieces| && IsFallbackText(pieces[i])
  {
    if Fallback in rs {
      var i :| 0 <= i < |rs| && rs[i] == Fallback;
      assert ParsePiece(pieces[i], t) == Ok(Fallback);
    }
    if exists i :: 0 <= i < |pieces| && IsFallbackText(pieces[i]) {
      var i :| 0 <= i < |pieces| && IsFallbackText(pieces[i]);
      assert ParsePiece(pieces[i], t) == Ok(rs[i]);
    }
  }

  /** One side of a `..` range text: no `|`, no `.`, and no whitespace at its ends. */
  predicate PlainSide(x: string) {
    '|' !in x && '.' !in x && (x == [] || (!IsWhitespace(x[0]) && !IsWhitespace(x[|x| - 1])))
  }

  /** The text of a number the type accepts is a plain side that trims to itself and has no `=` prefix. */
  lemma NumberText(x: string, t: RangeType)
    requires ParseNumber(x, t).Ok?
    ensures PlainSide(x) && x != [] && Trim(x) == x && TrimStart(x) == x && StripPrefix(x, "=") == None
  {
    ParseIntChars(x, Min(t), Max(t));
    TrimUnchanged(x);
  }

  /** The same number after `=`, the text of an inclusive end, is a plain side too. */
  lemma InclusiveEndText(x: string, t: RangeType)
    requires ParseNumber(x, t).Ok?
    ensures PlainSide("=" + x)
  {
    ParseIntChars(x, Min(t), Max(t));
    var e := "=" + x;
    assert e[|e| - 1] == x[|x| - 1];
    assert '|' !in e && '.' !in e;
  }

  /** `New` on `a + ".." + b` splits at the `..` right after `a`. */
  lemma NewSplitsAfterStart(a: string, b: string, t: RangeType)
    requires PlainSide(a) && PlainSide(b) && (a != [] || b != [])
    ensures New(a + ".." + b, t) == ParseBounds(a + ".." + b, a, b, t)
  {
    var s := a + ".." + b;
    assert s[0] == if a != [] then a[0] else '.';
    assert s[|s| - 1] == if b != [] then b[|b| - 1] else '.';
    TrimUnchanged(s);
    FindAfterPrefix(a, "..", b);
    assert '|' !in s;
    NewSingle(s, t);
    assert |s| >= 3 && s != "_" && s != "..";
    assert SplitOnce(s, "..") == Some((a, b));
  }

  /** An end without `=` is exclusive: `e` becomes `Included(e - 1)`, unless `e` is the type's minimum. */
  lemma EndExclusive(s: string, y: string, t: RangeType, b: int)
    requires ParseNumber(y, t) == Ok(b)
    ensures ParseEnd(s, y, t) == if Min(t) < b then Ok(Included(b - 1)) else Err(InvalidBoundEnd(s, t))
  {
    NumberText(y, t);
  }

  /** An end written `=e` is inclusive. */
  lemma EndInclusive(s: string, y: string, t: RangeType, b: int)
    requires ParseNumber(y, t) == Ok(b)
    ensures ParseEnd(s, "=" + y, t) == Ok(Included(b))
  {
    NumberText(y, t);
    assert ("=" + y)[..1] == "=" && ("=" + y)[1..] == y;
  }

  lemma InclusiveEndTrims(y: string, t: RangeType)
    requires ParseNumber(y, t).Ok?
    ensures Trim("=" + y) == "=" + y
  {
    ParseIntChars(y, Min(t), Max(t));
    var e := "=" + y;
    assert e[|e| - 1] == y[|y| - 1];
    TrimUnchanged(e);
  }

  /** `ParseBounds` with a start: the range, unless it is impossible. */
  lemma BoundsWithStart(s: string, x: string, y: string, t: RangeType, a: int, e: Bound)
    requires ParseNumber(x, t) == Ok(a) && x != [] && Trim(x) == x && ParseEnd(s, Trim(y), t) == Ok(e)
    ensures ParseBounds(s, x, y, t) == if Possible(Some(a), e) then Ok(Bounds(Some(a), e)) else Err(ImpossibleRange(s))
  {
  }

  /** `ParseBounds` without a start. */
  lemma BoundsWithoutStart(s: string, y: string, t: RangeType, e: Bound)
    requires ParseEnd(s, Trim(y), t) == Ok(e)
    ensures ParseBounds(s, "", y, t) == Ok(Bounds(None, e))
  {
    assert Trim("") == "";
  }

  /** What a bounds range matches. */
  lemma BoundsMatch(start: Option<int>, end: Bound, n: int)
    ensures DoMatch(Bounds(start, end), n) <==>
      (start.None? || start.value <= n) && (end.Included? ==> n <= end.v) && (end.Excluded? ==> n < end.v)
  {
  }

  /**
   * For integers, `"a..b"` is `a..=b-1`. `x` and `y` are any texts the type parses
   * as `a` and `b` (`"3"`, `"+3"`, ...).
   */
  lemma ExclusiveRange(x: string, y: string, t: RangeType, a: int, b: int)
    requires ParseNumber(x, t) == Ok(a) && ParseNumber(y, t) == Ok(b) && a < b
    ensures New(x + ".." + y, t) == Ok(Bounds(Some(a), Included(b - 1)))
  {
    NumberText(x, t);
    NumberText(y, t);
    NewSplitsAfterStart(x, y, t);
    EndExclusive(x + ".." + y, y, t, b);
    BoundsWithStart(x + ".." + y, x, y, t, a, Included(b - 1));
  }

  /** So `"a..b"` matches exactly the counts `a <= n < b`. */
  lemma ExclusiveRangeMatches(x: string, y: string, t: RangeType, a: int, b: int, n: int)
    requires ParseNumber(x, t) == Ok(a) && ParseNumber(y, t) == Ok(b) && a < b
    ensures New(x + ".." + y, t).Ok?
    ensures DoMatch(New(x + ".." + y, t).value, n) <==> a <= n < b
  {
    ExclusiveRange(x, y, t, a, b);
    BoundsMatch(Some(a), Included(b - 1), n);
  }

  /** `New` on `a..=b` splits after `a` and reads `=b` as the inclusive end `b`. */
  lemma InclusiveParts(x: string, y: string, t: RangeType, b: int)
    requires ParseNumber(x, t).Ok? && ParseNumber(y, t) == Ok(b)
    ensures New(x + "..=" + y, t) == ParseBounds(x + "..=" + y, x, "=" + y, t)
    ensures ParseEnd(x + "..=" + y, Trim("=" + y), t) == Ok(Included(b))
  {
    NumberText(x, t);
    InclusiveEndText(y, t);
    InclusiveSplit(x, y);
    NewSplitsAfterStart(x, "=" + y, t);
    InclusiveEndTrims(y, t);
    EndInclusive(x + "..=" + y, y, t, b);
  }

  /** `"a..=b"` is `Bounds{a, Included(b)}`. */
  lemma InclusiveRange(x: string, y: string, t: RangeType, a: int, b: int)
    requires ParseNumber(x, t) == Ok(a) && ParseNumber(y, t) == Ok(b) && a <= b
    ensures New(x + "..=" + y, t) == Ok(Bounds(Some(a), Included(b)))
  {
    InclusiveParts(x, y, t, b);
    NumberText(x, t);
    BoundsWithStart(x + "..=" + y, x, "=" + y, t, a, Included(b));
  }

  /** So `"a..=b"` matches exactly the counts `a <= n <= b`. */
  lemma InclusiveRangeMatches(x: string, y: string, t: RangeType, a: int, b: int, n: int)
    requires ParseNumber(x, t) == Ok(a) && ParseNumber(y, t) == Ok(b) && a <= b
    ensures New(x + "..=" + y, t).Ok?
    ensures DoMatch(New(x + "..=" + y, t).value, n) <==> a <= n <= b
  {
    InclusiveRange(x, y, t, a, b);
    BoundsMatch(Some(a), Included(b), n);
  }

  /** `"a.."` has no end: it matches every count from `a` on. */
  lemma OpenEndRange(x: string, t: RangeType, a: int, n: int)
    requires ParseNumber(x, t) == Ok(a)
    ensures New(x + "..", t) == Ok(Bounds(Some(a), Unbounded))
    ensures DoMatch(New(x + "..", t).value, n) <==> a <= n
  {
    NumberText(x, t);
    NewSplitsAfterStart(x, "", t);
    EmptySide(x);
    assert Trim("") == "";
    BoundsWithStart(x + "..", x, "", t, a, Unbounded);
    BoundsMatch(Some(a), Unbounded, n);
  }

  /** `"..b"` has no start: it matches every count below `b`. */
  lemma OpenStartRange(y: string, t: RangeType, b: int, n: int)
    requires ParseNumber(y, t) == Ok(b) && Min(t) < b
    ensures New(".." + y, t) == Ok(Bounds(None, Included(b - 1)))
    ensures DoMatch(New(".." + y, t).value, n) <==> n < b
  {
    NumberText(y, t);
    NewSplitsAfterStart("", y, t);
    EmptySide(y);
    EndExclusive(".." + y, y, t, b);
    BoundsWithoutStart(".." + y, y, t, Included(b - 1));
    BoundsMatch(None, Included(b - 1), n);
  }

  /** An exclusive end at or below the start is an `ImpossibleRange`. */
  lemma ImpossibleExclusive(x: string, y: string, t: RangeType, a: int, b: int)
    requires ParseNumber(x, t) == Ok(a) && ParseNumber(y, t) == Ok(b) && Min(t) < b <= a
    ensures New(x + ".." + y, t) == Err(ImpossibleRange(x + ".." + y))
  {
    NumberText(x, t);
    NumberText(y, t);
    NewSplitsAfterStart(x, y, t);
    EndExclusive(x + ".." + y, y, t, b);
    BoundsWithStart(x + ".." + y, x, y, t, a, Included(b - 1));
  }

  /** An inclusive end below the start is an `ImpossibleRange`. */
  lemma ImpossibleInclusive(x: string, y: string, t: RangeType, a: int, b: int)
    requires ParseNumber(x, t) == Ok(a) && ParseNumber(y, t) == Ok(b) && b < a
    ensures New(x + "..=" + y, t) == Err(ImpossibleRange(x + "..=" + y))
  {
    InclusiveParts(x, y, t, b);
    NumberText(x, t);
    BoundsWithStart(x + "..=" + y, x, "=" + y, t, a, Included(b));
  }

  /** The lowest value of an integer type cannot end a `..` range: `InvalidBoundEnd`. */
  lemma EndAtTypeMinimum(x: string, y: string, t: RangeType, a: int)
    requires ParseNumber(x, t) == Ok(a) && ParseNumber(y, t) == Ok(Min(t))
    ensures New(x + ".." + y, t) == Err(InvalidBoundEnd(x + ".." + y, t))
  {
    NumberText(x, t);
    NumberText(y, t);
    NewSplitsAfterStart(x, y, t);
    EndExclusive(x + ".." + y, y, t, Min(t));
  }

  /** A parsed range matches at least one value of its type: no rule is dead. */
  lemma ParsedRangeCanMatch(s: string, t: RangeType)
    requires New(s, t).Ok?
    ensures CanMatch(New(s, t).value, t)
  {
    if '|' !in Trim(s) {
      TrimKeepsChar(s, '|');
      NewSingle(s, t);
      PieceCanMatch(s, t);
    } else {
      MultipleFallback(s, t);
      if New(s, t).value != Fallback {
        MultipleCanMatch(Split(Trim(s), '|'), t, New(s, t).value.ranges);
      } else {
        FallbackCanMatch(t);
      }
    }
  }

  lemma FallbackCanMatch(t: RangeType)
    ensures CanMatch(Fallback, t)
  {
    assert DoMatch(Fallback, 0) && InType(0, t);
  }

  /** Some value of type `t` matches `r`. */
  ghost predicate CanMatch(r: Range, t: RangeType) {
    exists n :: InType(n, t) && DoMatch(r, n)
  }

  lemma MultipleCanMatch(pieces: seq<string>, t: RangeType, rs: seq<Range>)
    requires ParseAll(pieces, t) == Ok(rs) && pieces != []
    ensures CanMatch(Multiple(rs), t)
  {
    PieceCanMatch(pieces[0], t);
    var n :| InType(n, t) && DoMatch(rs[0], n);
    assert DoMatch(Multiple(rs), n);
  }

  lemma PieceCanMatch(s: string, t: RangeType)
    requires ParsePiece(s, t).Ok?
    ensures CanMatch(ParsePiece(s, t).value, t)
  {
    var r := ParsePiece(s, t).value;
    match r
    case Exact(v) => assert DoMatch(r, v);
    case Fallback => assert DoMatch(r, 0) && InType(0, t);
    case Bounds(start, end) =>
      if start.Some? {
        assert DoMatch(r, start.value);
      } else if end.Included? {
        assert DoMatch(r, end.v);
      } else {
        assert DoMatch(r, 0) && InType(0, t);
      }
  }

  /** A `Fallback`, or a `Multiple` that has one among its parts. */
  predicate HasFallback(r: Range) {
    r.Fallback? || (r.Multiple? && Fallback in r.ranges)
  }

  /** `ranges.iter().rev().skip(1).any(..)`: some entry other than the last has a fallback. */
  predicate FallbackBeforeLast<V>(ranges: seq<(Range, V)>)
    ensures FallbackBeforeLast(ranges) <==> exists i :: 0 <= i < |ranges| - 1 && HasFallback(ranges[i].0)
  {
    if |ranges| <= 1 then false
    else HasFallback(ranges[0].0) || (assert forall i :: 1 <= i < |ranges| ==> ranges[1..][i - 1] == ranges[i];
                                      FallbackBeforeLast(ranges[1..]))
  }

  /** `ranges.iter().filter(|(range, _)| matches!(range, Range::Fallback)).count()`. */
  function CountFallbacks<V>(ranges: seq<(Range, V)>): (c: nat)
    ensures c == 0 <==> forall i :: 0 <= i < |ranges| ==> !ranges[i].0.Fallback?
    ensures c <= 1 <==> forall i, j :: 0 <= i < j < |ranges| && ranges[i].0.Fallback? ==> !ranges[j].0.Fallback?
    ensures c <= |ranges|
  {
    if ranges == [] then 0
    else
      var rest := CountFallbacks(ranges[1..]);
      assert forall i :: 1 <= i < |ranges| ==> ranges[1..][i - 1] == ranges[i];
      if ranges[0].0.Fallback? then 1 + rest else rest
  }

  /** `check_de_inner` over the integer types: a misplaced fallback, and the number of fallbacks. */
  function CheckDeInner<V>(ranges: seq<(Range, V)>): (r: (bool, nat))
    ensures r.0 <==> exists i :: 0 <= i < |ranges| - 1 && HasFallback(ranges[i].0)
    ensures r.1 <= 1 <==> forall i, j :: 0 <= i < j < |ranges| && ranges[i].0.Fallback? ==> !ranges[j].0.Fallback?
  {
    (FallbackBeforeLast(ranges), CountFallbacks(ranges))
  }

  /**
   * Ranges that pass the check have at most one fallback and it is the last entry,
   * so every entry before the last only matches the counts it names.
   */
  lemma CheckedFallbackIsLast<V>(ranges: seq<(Range, V)>, i: nat)
    requires !CheckDeInner(ranges).0 && CheckDeInner(ranges).1 <= 1
    requires i < |ranges| && HasFallback(ranges[i].0)
    ensures i == |ranges| - 1
    ensures forall j :: 0 <= j < |ranges| - 1 ==> !HasFallback(ranges[j].0)
  {
  }

  /** The first entry, in declared order, whose range matches `n` (`find_value`). */
  function FirstMatch<V>(ranges: seq<(Range, V)>, n: int): (r: Option<nat>)
    ensures r.Some? ==> r.value < |ranges| && DoMatch(ranges[r.value].0, n)
    ensures r.Some? ==> forall j :: 0 <= j < r.value ==> !DoMatch(ranges[j].0, n)
    ensures r.None? ==> forall j :: 0 <= j < |ranges| ==> !DoMatch(ranges[j].0, n)
  {
    if ranges == [] then None
    else if DoMatch(ranges[0].0, n) then Some(0)
    else match FirstMatch(ranges[1..], n)
      case None => None
      case Some(i) => Some(i + 1)
  }

  /** When the last entry is a `Fallback`, some entry always matches. */
  lemma FallbackLastAlwaysMatches<V>(ranges: seq<(Range, V)>, n: int)
    requires ranges != [] && ranges[|ranges| - 1].0 == Fallback
    ensures FirstMatch(ranges, n).Some?
  {
    assert DoMatch(ranges[|ranges| - 1].0, n);
  }
}
