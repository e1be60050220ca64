// The text clean-up the rendering tests apply to server-rendered HTML before
// comparing it: hydration noise (comments, `data-hk` attributes) is cut out and
// `&#xHEX;` character references are decoded.
module TestRendering {
  import opened Wrappers
  import opened Text

  /** `Some(prefix + x)` for `Some(x)`; a panic (`None`) stays a panic. */
  function Prefixed(prefix: string, r: Option<string>): Option<string> {
    match r
    case None => None
    case Some(x) => Some(prefix + x)
  }

  /**
   * What `remove_noise` returns: the text with every `start`…`end` span cut
   * out, each span ending at the first `end` after its `start`. `None` stands
   * for the panic of a `start` with no `end` after it. Both callers pass fixed,
   * non-empty delimiters; the model asks for a non-empty `end` (with an empty
   * `start` as well, the source would loop for ever).
   */
  function StripNoise(s: string, start: string, end: string): (r: Option<string>)
    requires |end| > 0
    decreases |s|
  {
    match SplitOnce(s, start)
    case None => Some(s)
    case Some((before, rest)) =>
      match SplitOnce(rest, end)
      case None => None
      case Some((_, after)) => Prefixed(before, StripNoise(after, start, end))
  }

  lemma PrefixedTwice(a: string, b: string, r: Option<string>)
    ensures Prefixed(a, Prefixed(b, r)) == Prefixed(a + b, r)
  {
    if r.Some? {
      assert a + (b + r.value) == (a + b) + r.value;
    }
  }

  /** One span cut out of text whose first `start` is closed. */
  lemma StripStep(s: string, start: string, end: string, before: string, rest: string)
    requires |end| > 0 && SplitOnce(s, start) == Some((before, rest))
    ensures SplitOnce(rest, end).None? ==> StripNoise(s, start, end) == None
    ensures SplitOnce(rest, end).Some? ==>
      StripNoise(s, start, end) == Prefixed(before, StripNoise(SplitOnce(rest, end).value.1, start, end))
  {
  }

  /** `remove_noise`. */
  method RemoveNoise(s: string, start: string, end: string) returns (r: Option<string>)
    requires |end| > 0
    ensures r == StripNoise(s, start, end)
  {
    var first := SplitOnce(s, start);
    if first.None? {
      return Some(s);
    }
    var output := first.value.0;
    var closing := SplitOnce(first.value.1, end);
    StripStep(s, start, end, output, first.value.1);
    if closing.None? {
      return None;
    }
    var rest := closing.value.1;
    while true
      invariant StripNoise(s, start, end) == Prefixed(output, StripNoise(rest, start, end))
      decreases |rest|
    {
      var next := SplitOnce(rest, start);
      if next.None? {
        break;
      }
      var closing' := SplitOnce(next.value.1, end);
      StripStep(rest, start, end, next.value.0, next.value.1);
      if closing'.None? {
        return None;
      }
      PrefixedTwice(output, next.value.0, StripNoise(closing'.value.1, start, end));
      output := output + next.value.0;
      rest := closing'.value.1;
    }
    return Some(output + rest);
  }

  /** `remove_html_comments`. */
  method RemoveHtmlComments(s: string) returns (r: Option<string>)
    ensures r == StripNoise(s, "<!--", "-->")
  {
    r := RemoveNoise(s, "<!--", "-->");
  }

  /** `remove_hk`. */
  method RemoveHk(s: string) returns (r: Option<string>)
    ensures r == StripNoise(s, " data-hk=\"", "\"")
  {
    r := RemoveNoise(s, " data-hk=\"", "\"");
  }

  /** Text with noise spans inserted: `first`, then for each pair a span
    * `start + noise + end` followed by the next piece of text. */
  function WithNoise(first: string, spans: seq<(string, string)>, start: string, end: string): string
    decreases |spans|
  {
    if |spans| == 0 then first
    else first + start + spans[0].0 + end + WithNoise(spans[0].1, spans[1..], start, end)
  }

  /** The text pieces alone, in order. */
  function Pieces(first: string, spans: seq<(string, string)>): string
    decreases |spans|
  {
    if |spans| == 0 then first else first + Pieces(spans[0].1, spans[1..])
  }

  /** Text in which `start` cannot begin. */
  predicate Clear(s: string, start: string) {
    start != [] && start[0] !in s
  }

  /**
   * Cutting the noise out of text into which spans were inserted gives back
   * the text pieces, in order, provided the text does not itself start a
   * delimiter and no span holds its own `end`.
   */
  lemma {:induction false} StripInsertedNoise(first: string, spans: seq<(string, string)>, start: string, end: string)
    requires |end| > 0 && Clear(first, start)
    requires forall k :: 0 <= k < |spans| ==> Clear(spans[k].1, start) && Clear(spans[k].0, end)
    ensures StripNoise(WithNoise(first, spans, start, end), start, end) == Some(Pieces(first, spans))
    decreases |spans|
  {
    if |spans| > 0 {
      var rest := WithNoise(spans[0].1, spans[1..], start, end);
      assert WithNoise(first, spans, start, end) == first + start + (spans[0].0 + end + rest);
      FindAfterPrefix(first, start, spans[0].0 + end + rest);
      assert spans[0].0 + end + rest == spans[0].0 + end + rest;
      FindAfterPrefix(spans[0].0, end, rest);
      StripInsertedNoise(spans[0].1, spans[1..], start, end);
    }
  }

  /** Text without a `start` delimiter is returned unchanged. */
  lemma NoStartUnchanged(s: string, start: string, end: string)
    requires |end| > 0 && !Contains(s, start)
    ensures StripNoise(s, start, end) == Some(s)
  {
  }

  /** A `start` with no `end` after it is a panic. */
  lemma UnclosedPanics(before: string, after: string, start: string, end: string)
    requires |end| > 0 && Clear(before, start) && !Contains(after, end)
    ensures StripNoise(before + start + after, start, end) == None
  {
    FindAfterPrefix(before, start, after);
  }

  /** `split_html_special_char`: the text before the first `&#x`, the character
    * its hexadecimal code stands for up to the next `;`, and the text after. */
  function SplitHtmlSpecialChar(s: string): (r: Option<(string, char, string)>)
    ensures r.Some? ==> |r.value.2| < |s|
  {
    match SplitOnce(s, "&#x")
    case None => None
    case Some((before, rest)) =>
      match SplitOnce(rest, ";")
      case None => None
      case Some((code, after)) =>
        match ParseHexU32(code)
        case None => None
        case Some(n) => if IsScalarValue(n) then Some((before, n as char, after)) else None
  }

  /** What `decode_special_chars` returns: character references replaced one
    * after the other, up to the first that is not a valid one. */
  function Decode(s: string): string
    decreases |s|
  {
    match SplitHtmlSpecialChar(s)
    case None => s
    case Some((before, c, after)) => before + [c] + Decode(after)
  }

  lemma DecodeStep(s: string)
    requires SplitHtmlSpecialChar(s).Some?
    ensures Decode(s) == SplitHtmlSpecialChar(s).value.0 + [SplitHtmlSpecialChar(s).value.1]
      + Decode(SplitHtmlSpecialChar(s).value.2)
  {
  }

  /** One more reference decoded behind the text `r` already produced. */
  lemma DecodeAppend(r: string, rest: string, piece: string, after: string)
    requires SplitHtmlSpecialChar(rest).Some?
    requires piece == SplitHtmlSpecialChar(rest).value.0 + [SplitHtmlSpecialChar(rest).value.1]
    requires after == SplitHtmlSpecialChar(rest).value.2
    ensures r + Decode(rest) == (r + piece) + Decode(after)
  {
    DecodeStep(rest);
  }

  /** Text without a valid reference at its first `&#x` decodes to itself. */
  lemma DecodeNone(s: string)
    requires SplitHtmlSpecialChar(s).None?
    ensures Decode(s) == s
  {
  }

  /** `decode_special_chars`. */
  method DecodeSpecialChars(s: string) returns (r: string)
    ensures r == Decode(s)
  {
    var first := SplitHtmlSpecialChar(s);
    if first.None? {
      DecodeNone(s);
      return s;
    }
    r := first.value.0 + [first.value.1];
    var rest := first.value.2;
    DecodeAppend("", s, r, rest);
    while true
      invariant Decode(s) == r + Decode(rest)
      decreases |rest|
    {
      var next := SplitHtmlSpecialChar(rest);
      if next.None? {
        DecodeNone(rest);
        break;
      }
      var piece := next.value.0 + [next.value.1];
      DecodeAppend(r, rest, piece, next.value.2);
      r := r + piece;
      rest := next.value.2;
    }
    r := r + rest;
  }

  /** Lower-case hexadecimal digit. */
  function HexChar(d: nat): (c: char)
    requires d < 16
    ensures IsHexDigit(c) && HexDigitValue(c) == d
  {
    if d < 10 then ('0' as int + d) as char else ('a' as int + d - 10) as char
  }

  /** Hexadecimal digits of a natural number. */
  function NatToHex(n: nat): (r: string)
    ensures |r| >= 1 && forall i :: 0 <= i < |r| ==> IsHexDigit(r[i])
    ensures HexValue(r) == n
  {
    if n < 16 then [HexChar(n)]
    else
      var p := NatToHex(n / 16);
      var r := p + [HexChar(n % 16)];
      assert r[..|r| - 1] == p;
      r
  }

  /** The character reference `&#xHEX;` for `c`. */
  function Reference(c: char): string {
    "&#x" + NatToHex(c as nat) + ";"
  }

  /** Every character of `t` written as a character reference. */
  function EscapeAll(t: string): string
    decreases |t|
  {
    if |t| == 0 then "" else Reference(t[0]) + EscapeAll(t[1..])
  }

  /** A reference at the front of the text is decoded to its character. */
  lemma SplitReference(c: char, after: string)
    ensures SplitHtmlSpecialChar(Reference(c) + after) == Some(("", c, after))
  {
    var h := NatToHex(c as nat);
    assert Reference(c) + after == "" + "&#x" + (h + ";" + after);
    FindAfterPrefix("", "&#x", h + ";" + after);
    assert ';' !in h by {
      forall i | 0 <= i < |h| ensures h[i] != ';' {
        assert IsHexDigit(h[i]);
      }
    }
    FindAfterPrefix(h, ";", after);
    assert h[0] != '+' by {
      assert IsHexDigit(h[0]);
    }
  }

  /** Decoding text in which every character was written as a reference gives
    * the text back. */
  lemma {:induction false} DecodeEscapeAll(t: string)
    ensures Decode(EscapeAll(t)) == t
    decreases |t|
  {
    if |t| > 0 {
      var tail := EscapeAll(t[1..]);
      assert EscapeAll(t) == Reference(t[0]) + tail;
      DecodeReferenceFront(t[0], tail);
      DecodeEscapeAll(t[1..]);
      assert t == [t[0]] + t[1..];
    }
  }

  /** A reference in front of some text decodes to its character in front of
    * the decoded text. */
  lemma DecodeReferenceFront(c: char, after: string)
    ensures Decode(Reference(c) + after) == [c] + Decode(after)
  {
    SplitReference(c, after);
    DecodeStep(Reference(c) + after);
  }

  /** Text without `&#x` decodes to itself. */
  lemma DecodeWithoutReference(s: string)
    requires !Contains(s, "&#x")
    ensures Decode(s) == s
  {
  }

  /** A `&#x` sequence that is not a valid reference stops decoding: the rest
    * is kept as it is, later references included. */
  lemma DecodeStopsAtInvalid(before: string, code: string, after: string)
    requires '&' !in before && ';' !in code
    requires ParseHexU32(code).None?
    ensures Decode(before + "&#x" + code + ";" + after) == before + "&#x" + code + ";" + after
  {
    var s := before + "&#x" + code + ";" + after;
    assert s == before + "&#x" + (code + ";" + after);
    FindAfterPrefix(before, "&#x", code + ";" + after);
    FindAfterPrefix(code, ";", after);
  }
}
