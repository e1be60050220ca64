// The translation fixture the end-to-end tests use (examples/utils/src/index.ts):
// the browser's locale is matched against the known locales by dropping
// `-` subtags from the end (the "lookup" scheme of section 3.4 of RFC 4647),
// and `t` looks a key up in the current locale and fills its `{{ name }}`
// placeholders.
module Fixture {
  import opened Wrappers
  import opened Text

  /** A locale's translations, by key. */
  type Table = map<string, string>

  /** The longest prefix of `parts`, by number of parts, whose `-`-joined text
    * is a known key. */
  function LongestKnownPrefix(parts: seq<string>, keys: set<string>): (r: Option<nat>)
    ensures r.Some? ==>
      1 <= r.value <= |parts| && Join(parts[..r.value], "-") in keys
      && forall j :: r.value < j <= |parts| ==> Join(parts[..j], "-") !in keys
    ensures r.None? ==> forall j :: 1 <= j <= |parts| ==> Join(parts[..j], "-") !in keys
    decreases |parts|
  {
    if |parts| == 0 then None
    else if Join(parts, "-") in keys then
      assert parts[..|parts|] == parts;
      Some(|parts|)
    else
      var shorter := parts[..|parts| - 1];
      assert forall j :: 1 <= j <= |shorter| ==> shorter[..j] == parts[..j];
      assert parts[..|parts|] == parts;
      LongestKnownPrefix(shorter, keys)
  }

  /** What `match_locale` returns: the longest known `-`-prefix of the
    * locale, else the default. */
  function MatchLocale(locale: string, keys: set<string>, default: string): string {
    var parts := Split(locale, '-');
    match LongestKnownPrefix(parts, keys)
    case Some(k) => Join(parts[..k], "-")
    case None => default
  }

  /** The result is a known locale, or the default when no prefix is known. */
  lemma MatchLocaleKnownOrDefault(locale: string, keys: set<string>, default: string)
    ensures MatchLocale(locale, keys, default) in keys
      || (MatchLocale(locale, keys, default) == default
          && forall j :: 1 <= j <= |Split(locale, '-')| ==> Join(Split(locale, '-')[..j], "-") !in keys)
  {
  }

  /** A known locale is matched as it is. */
  lemma MatchLocaleExact(locale: string, keys: set<string>, default: string)
    requires locale in keys
    ensures MatchLocale(locale, keys, default) == locale
  {
    var parts := Split(locale, '-');
    assert parts[..|parts|] == parts;
    var r := LongestKnownPrefix(parts, keys);
    assert r.Some? && r.value == |parts|;
  }

  /** `match_locale`: the loop pops the last part until the joined parts
    * name a locale. */
  method MatchLocaleLoop(locale: string, locales: map<string, Table>, default: string) returns (r: string)
    ensures r == MatchLocale(locale, locales.Keys, default)
  {
    var all := Split(locale, '-');
    var parts := all;
    while |parts| > 0
      invariant parts == all[..|parts|]
      invariant LongestKnownPrefix(all, locales.Keys) == LongestKnownPrefix(parts, locales.Keys)
    {
      var key := Join(parts, "-");
      if key in locales {
        return key;
      }
      parts := parts[..|parts| - 1];
    }
    return default;
  }

  /** JavaScript's `\s`: white space and line terminators. */
  predicate IsJsSpace(c: char) {
    ('\t' <= c <= '\r') || c == ' ' || c == '\U{A0}' || c == '\U{1680}'
    || ('\U{2000}' <= c <= '\U{200A}') || c == '\U{2028}' || c == '\U{2029}'
    || c == '\U{202F}' || c == '\U{205F}' || c == '\U{3000}' || c == '\U{FEFF}'
  }

  /** Lower case for the ASCII letters. */
  function LowerAscii(c: char): char {
    if 'A' <= c <= 'Z' then (c as int + 32) as char else c
  }

  /** Equal up to the case of ASCII letters. */
  predicate SameIgnoringCase(a: string, b: string) {
    |a| == |b| && forall i :: 0 <= i < |a| ==> LowerAscii(a[i]) == LowerAscii(b[i])
  }

  /** The first position at or after `i` that is not `\s`. */
  function SkipSpaces(s: string, i: nat): (r: nat)
    requires i <= |s|
    ensures i <= r <= |s| && (r == |s| || !IsJsSpace(s[r]))
    ensures forall k :: i <= k < r ==> IsJsSpace(s[k])
    decreases |s| - i
  {
    if i < |s| && IsJsSpace(s[i]) then SkipSpaces(s, i + 1) else i
  }

  /** Where a match of `{{\s*key\s*}}` (case-insensitive) at the start of `s`
    * ends. */
  function MatchAt(s: string, key: string): (r: Option<nat>)
    ensures r.Some? ==> 4 <= r.value <= |s| && s[..2] == "{{" && s[r.value - 2..r.value] == "}}"
  {
    if |s| < 2 || s[..2] != "{{" then None
    else
      var j := SkipSpaces(s, 2);
      if j + |key| > |s| || !SameIgnoringCase(s[j..j + |key|], key) then None
      else
        var k := SkipSpaces(s, j + |key|);
        if k + 2 <= |s| && s[k..k + 2] == "}}" then Some(k + 2) else None
  }

  /** `String.replace` with the global pattern `{{\s*key\s*}}`: each match,
    * scanning left to right, is replaced by `val`; the replacement is not
    * scanned again. */
  function ReplaceAll(s: string, key: string, val: string): string
    decreases |s|
  {
    if s == [] then []
    else match MatchAt(s, key)
      case Some(end) => val + ReplaceAll(s[end..], key, val)
      case None => [s[0]] + ReplaceAll(s[1..], key, val)
  }

  /** A string that does not start with `{` keeps its first character. */
  lemma ReplaceStep(s: string, key: string, val: string)
    requires s != [] && s[0] != '{'
    ensures ReplaceAll(s, key, val) == [s[0]] + ReplaceAll(s[1..], key, val)
  {
    if |s| >= 2 {
      assert s[..2][0] == s[0];
    }
  }

  /** A character other than `{` in front of a string is kept as it is. */
  lemma ReplaceHead(c: char, rest: string, key: string, val: string)
    requires c != '{'
    ensures ReplaceAll([c] + rest, key, val) == [c] + ReplaceAll(rest, key, val)
  {
    var s := [c] + rest;
    ReplaceStep(s, key, val);
    assert s[1..] == rest;
  }

  /** A string is its first character followed by the rest. */
  lemma HeadThenRest(a: string, x: string)
    requires a != []
    ensures a + x == [a[0]] + (a[1..] + x)
  {
    assert a == [a[0]] + a[1..];
  }

  /** No character of `s` opens a placeholder. */
  predicate NoBrace(s: string) {
    forall i :: 0 <= i < |s| ==> s[i] != '{'
  }

  /** Text without `{` has no placeholder and is left alone. */
  lemma {:induction false} ReplaceLiteral(a: string, b: string, key: string, val: string)
    requires NoBrace(a)
    ensures ReplaceAll(a + b, key, val) == a + ReplaceAll(b, key, val)
    decreases |a|
  {
    if a != [] {
      var t := a[1..];
      ReplaceLiteral(t, b, key, val);
      HeadThenRest(a, b);
      ReplaceHead(a[0], t + b, key, val);
      HeadThenRest(a, ReplaceAll(b, key, val));
    } else {
      assert a + b == b;
    }
  }

  /** The text of a placeholder: `{{`, padding, the name, padding, `}}`. */
  function Placeholder(w1: string, name: string, w2: string): string {
    "{{" + (w1 + (name + (w2 + "}}")))
  }

  /** A placeholder, in any case and with any `\s` padding, matches in full. */
  lemma PlaceholderMatches(w1: string, name: string, w2: string, rest: string, key: string)
    requires forall i :: 0 <= i < |w1| ==> IsJsSpace(w1[i])
    requires forall i :: 0 <= i < |w2| ==> IsJsSpace(w2[i])
    requires key != [] && SameIgnoringCase(name, key) && !IsJsSpace(name[0])
    ensures MatchAt(Placeholder(w1, name, w2) + rest, key) == Some(|Placeholder(w1, name, w2)|)
  {
    var s := Placeholder(w1, name, w2) + rest;
    var j := 2 + |w1|;
    var k := j + |name|;
    var e := k + |w2|;
    PlaceholderLayout(w1, name, w2, rest);
    assert s[j] == name[0];
    SkipTo(s, 2, j);
    assert s[e] == '}';
    SkipTo(s, k, e);
  }

  /** Where the parts of a placeholder sit in the text. */
  lemma PlaceholderLayout(w1: string, name: string, w2: string, rest: string)
    ensures var s := Placeholder(w1, name, w2) + rest;
      var j := 2 + |w1|; var k := j + |name|; var e := k + |w2|;
      |s| == e + 2 + |rest| && s[..2] == "{{" && s[j..k] == name && s[e..e + 2] == "}}"
      && (forall i :: 2 <= i < j ==> s[i] == w1[i - 2])
      && (forall i :: k <= i < e ==> s[i] == w2[i - k])
  {
    var s := Placeholder(w1, name, w2) + rest;
    var j := 2 + |w1|;
    var k := j + |name|;
    var e := k + |w2|;
    assert s == "{{" + w1 + name + w2 + "}}" + rest;
  }

  /** Every placeholder for the key is replaced by the value. */
  lemma ReplacePlaceholder(w1: string, name: string, w2: string, rest: string, key: string, val: string)
    requires forall i :: 0 <= i < |w1| ==> IsJsSpace(w1[i])
    requires forall i :: 0 <= i < |w2| ==> IsJsSpace(w2[i])
    requires key != [] && SameIgnoringCase(name, key) && !IsJsSpace(name[0])
    ensures ReplaceAll(Placeholder(w1, name, w2) + rest, key, val) == val + ReplaceAll(rest, key, val)
  {
    var p := Placeholder(w1, name, w2);
    PlaceholderMatches(w1, name, w2, rest, key);
    assert (p + rest)[|p|..] == rest;
  }

  /** Skipping from `i` stops at `j` when everything between is `\s` and
    * `s[j]` is not. */
  lemma {:induction false} SkipTo(s: string, i: nat, j: nat)
    requires i <= j < |s| && !IsJsSpace(s[j])
    requires forall k :: i <= k < j ==> IsJsSpace(s[k])
    ensures SkipSpaces(s, i) == j
    decreases j - i
  {
    if i < j {
      SkipTo(s, i + 1, j);
    }
  }

  /** The arguments applied in turn: later ones also see what earlier ones
    * put in. */
  function Interpolate(value: string, args: seq<(string, string)>): string
    decreases |args|
  {
    if |args| == 0 then value else Interpolate(ReplaceAll(value, args[0].0, args[0].1), args[1..])
  }

  /** A translation without `{` is returned as stored, whatever the arguments. */
  lemma {:induction false} InterpolateLiteral(value: string, args: seq<(string, string)>)
    requires NoBrace(value)
    ensures Interpolate(value, args) == value
    decreases |args|
  {
    if |args| > 0 {
      ReplaceLiteral(value, [], args[0].0, args[0].1);
      assert value + [] == value;
      InterpolateLiteral(value, args[1..]);
    }
  }

  /** The recorded call of a locale-change callback: which callback, the
    * locale it was given, and the locale the fixture reported at that time. */
  datatype Notification = Notification(callback: nat, argument: string, current: string)

  /**
   * The `I18n` fixture: the current locale, the translations of every locale,
   * and the registered locale-change callback. Callbacks are outside the
   * model; they are named by a number, and each call is recorded.
   */
  class I18n {
    var currentLocale: string
    var locales: map<string, Table>
    var localeChangeCb: Option<nat>
    var notifications: seq<Notification>

    /** The current locale is one of the locales (`keyof L`). */
    ghost predicate Valid()
      reads this
    {
      currentLocale in locales
    }

    /** `constructor`: the locale is matched against the known ones. */
    constructor (locales: map<string, Table>, defaultLocale: string, locale: string)
      requires defaultLocale in locales
      ensures Valid()
      ensures this.locales == locales && localeChangeCb.None? && notifications == []
      ensures currentLocale == MatchLocale(locale, locales.Keys, defaultLocale)
    {
      var current := MatchLocaleLoop(locale, locales, defaultLocale);
      MatchLocaleKnownOrDefault(locale, locales.Keys, defaultLocale);
      currentLocale := current;
      this.locales := locales;
      localeChangeCb := None;
      notifications := [];
    }

    /** The translation `t` gives. */
    function Translation(key: string, args: seq<(string, string)>): (r: string)
      reads this
      requires Valid()
      ensures key !in locales[currentLocale] || locales[currentLocale][key] == "" ==> r == key
    {
      var table := locales[currentLocale];
      if key !in table || table[key] == "" then key
      else Interpolate(table[key], args)
    }

    /** `t`: a missing or empty translation gives the key; otherwise each
      * argument's placeholders are replaced in turn. */
    method T(key: string, args: seq<(string, string)>) returns (r: string)
      requires Valid()
      ensures r == Translation(key, args)
    {
      var table := locales[currentLocale];
      if key !in table || table[key] == "" {
        return key;
      }
      var value := table[key];
      var i := 0;
      while i < |args|
        invariant 0 <= i <= |args|
        invariant Interpolate(table[key], args) == Interpolate(value, args[i..])
      {
        assert args[i..][1..] == args[i + 1..];
        value := ReplaceAll(value, args[i].0, args[i].1);
        i := i + 1;
      }
      r := value;
    }

    /** `get_locale`, and the `locale` getter. */
    function GetLocale(): (r: string)
      reads this
      requires Valid()
      ensures r in locales
    {
      currentLocale
    }

    /** `set_locale`: the locale is switched first, so the callback, if any,
      * sees the new locale already. */
    method SetLocale(newLocale: string)
      requires Valid() && newLocale in locales
      modifies this
      ensures Valid() && currentLocale == newLocale
      ensures locales == old(locales) && localeChangeCb == old(localeChangeCb)
      ensures localeChangeCb.None? ==> notifications == old(notifications)
      ensures localeChangeCb.Some? ==>
        notifications == old(notifications) + [Notification(localeChangeCb.value, newLocale, newLocale)]
    {
      currentLocale := newLocale;
      if localeChangeCb.Some? {
        notifications := notifications + [Notification(localeChangeCb.value, newLocale, GetLocale())];
      }
    }

    /** `on_locale_change`: the callback replaces any earlier one. */
    method OnLocaleChange(cb: nat)
      requires Valid()
      modifies this
      ensures Valid() && localeChangeCb == Some(cb)
      ensures currentLocale == old(currentLocale) && locales == old(locales) && notifications == old(notifications)
    {
      localeChangeCb := Some(cb);
    }
  }
}
