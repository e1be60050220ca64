// The catalog-wide helpers of the locale loader: the string indexer that
// numbers a locale's distinct strings, the base locale a regional or scripted
// locale falls back to, the fallback chosen for each locale, and the set of
// foreign-key paths collected while parsing.
module Catalog {
  import opened Wrappers
  import opened Keys
  import opened SortedMaps
  import opened Diagnostics
  import opened LangId

  // `StringIndexer`.

  /** The strings in the order they were first seen, each once. */
  function Dedup(pushed: seq<string>): (r: seq<string>)
    decreases |pushed|
  {
    if pushed == [] then []
    else
      var before := Dedup(pushed[..|pushed| - 1]);
      if pushed[|pushed| - 1] in before then before else before + [pushed[|pushed| - 1]]
  }

  /** No string occurs twice. */
  predicate Distinct(strings: seq<string>) {
    forall i, j :: 0 <= i < j < |strings| ==> strings[i] != strings[j]
  }

  /** The first position of a string in a sequence that holds it. */
  function FirstIndex(pushed: seq<string>, s: string): (r: nat)
    requires s in pushed
    ensures r < |pushed| && pushed[r] == s && s !in pushed[..r]
  {
    if pushed[0] == s then 0
    else
      var r := FirstIndex(pushed[1..], s);
      assert pushed[..r + 1] == [pushed[0]] + pushed[1..][..r];
      r + 1
  }

  /**
   * The distinct strings: each once, exactly the strings pushed, and in the
   * order of their first push.
   */
  lemma {:induction false} DedupFirstSeen(pushed: seq<string>)
    ensures Distinct(Dedup(pushed))
    ensures forall s :: s in Dedup(pushed) <==> s in pushed
    ensures forall i, j :: 0 <= i < j < |Dedup(pushed)| ==>
              FirstIndex(pushed, Dedup(pushed)[i]) < FirstIndex(pushed, Dedup(pushed)[j])
    decreases |pushed|
  {
    if pushed != [] {
      var init := pushed[..|pushed| - 1];
      var last := pushed[|pushed| - 1];
      DedupFirstSeen(init);
      assert pushed == init + [last];
      var d := Dedup(pushed);
      forall s | s in init
        ensures FirstIndex(pushed, s) == FirstIndex(init, s)
      {
        FirstIndexPrefix(init, last, s);
      }
      if last !in init {
        assert FirstIndex(pushed, last) == |init| by {
          assert pushed[..|init|] == init;
        }
        forall i, j | 0 <= i < j < |d|
          ensures FirstIndex(pushed, d[i]) < FirstIndex(pushed, d[j])
        {
          assert d[i] in Dedup(init);
          if j < |d| - 1 {
            assert d[j] in Dedup(init);
          }
        }
      }
    }
  }

  lemma FirstIndexPrefix(init: seq<string>, last: string, s: string)
    requires s in init
    ensures FirstIndex(init + [last], s) == FirstIndex(init, s)
  {
    var k := FirstIndex(init, s);
    var m := FirstIndex(init + [last], s);
    assert forall j :: 0 <= j < k ==> init[j] != s by {
      forall j | 0 <= j < k ensures init[j] != s { assert init[..k][j] == init[j]; }
    }
    assert forall j :: 0 <= j < m ==> (init + [last])[j] != s by {
      forall j | 0 <= j < m ensures (init + [last])[j] != s { assert (init + [last])[..m][j] == (init + [last])[j]; }
    }
    assert (init + [last])[k] == s;
  }

  /**
   * `StringIndexer`: the strings of a locale, numbered in order of first
   * appearance. `pushed` records every string handed to `push_str`.
   */
  class StringIndexer {
    var current: map<string, nat>
    var acc: seq<string>
    ghost var pushed: seq<string>

    /** Every string in `acc` is indexed at its position, and `acc` holds the strings pushed so far, each once. */
    ghost predicate Valid()
      reads this
    {
      && acc == Dedup(pushed)
      && (forall s :: s in current ==> current[s] < |acc| && acc[current[s]] == s)
      && (forall i :: 0 <= i < |acc| ==> acc[i] in current)
    }

    /** `StringIndexer::default`. */
    constructor ()
      ensures Valid() && acc == [] && pushed == []
    {
      current := map[];
      acc := [];
      pushed := [];
    }

    /**
     * `push_str`: a string seen before keeps its index; a new one is
     * appended and gets the previous number of strings.
     */
    method PushStr(s: string) returns (i: nat)
      requires Valid()
      modifies this
      ensures Valid() && pushed == old(pushed) + [s]
      ensures s in old(current) ==> acc == old(acc) && current == old(current) && i == old(current)[s]
      ensures s !in old(current) ==> acc == old(acc) + [s] && current == old(current)[s := i] && i == |old(acc)|
      ensures i < |acc| && acc[i] == s
    {
      DedupFirstSeen(pushed);
      assert (pushed + [s])[..|pushed + [s]| - 1] == pushed;
      if s in current {
        i := current[s];
        pushed := pushed + [s];
      } else {
        assert s !in acc;
        i := |acc|;
        acc := acc + [s];
        current := current[s := i];
        pushed := pushed + [s];
      }
    }

    /** `get_strings`: the distinct strings pushed, in order of first push. */
    function GetStrings(): (r: seq<string>)
      requires Valid()
      reads this
      ensures r == Dedup(pushed)
      ensures forall s :: s in current ==> r[current[s]] == s
    {
      acc
    }
  }

  // Base locales and fallbacks.

  /** An `icu_locale::Locale`: its language identifier and its extensions. */
  datatype IcuLocale = IcuLocale(id: LanguageIdentifier, extensions: seq<string>)

  /** A locale with a language and nothing else. */
  predicate BareLanguage(l: IcuLocale) {
    l.extensions == [] && l.id.variants == [] && l.id.script.None? && l.id.region.None?
  }

  /** A locale with an extension, a variant or a script. */
  predicate Decorated(l: IcuLocale) {
    l.extensions != [] || l.id.variants != [] || l.id.script.Some?
  }

  /** The locale with the given language and region and nothing else. */
  function Plain(language: string, region: Option<string>): IcuLocale {
    IcuLocale(LanguageIdentifier(language, None, region, []), [])
  }

  /** The first key, in key order, whose locale is `target`. */
  function FirstWith(icu: seq<Entry<IcuLocale>>, target: IcuLocale): (r: Option<Key>)
    ensures r.None? <==> forall i :: 0 <= i < |icu| ==> icu[i].value != target
    ensures r.Some? ==> exists i :: 0 <= i < |icu| && icu[i] == Entry(r.value, target)
    decreases |icu|
  {
    if icu == [] then None
    else if icu[0].value == target then Some(icu[0].key)
    else
      var r := FirstWith(icu[1..], target);
      assert forall i :: 0 < i < |icu| ==> icu[i] == icu[1..][i - 1];
      r
  }

  /**
   * `find_base_default`: none for a bare language; otherwise, for a locale
   * with an extension, a variant or a script, the locale with its language
   * and region alone, else the locale with its language alone. A locale
   * missing from the map panics.
   */
  function BaseDefault(icu: seq<Entry<IcuLocale>>, locale: Key): (r: Result<Option<Key>, Error>)
  {
    match Get(icu, locale)
    case None => Err(Panic("find_base_default"))
    case Some(l) =>
      if BareLanguage(l) then Ok(None)
      else if Decorated(l) && FirstWith(icu, Plain(l.id.language, l.id.region)).Some? then
        Ok(FirstWith(icu, Plain(l.id.language, l.id.region)))
      else Ok(FirstWith(icu, Plain(l.id.language, None)))
  }

  /** The first key, in key order, whose locale is `target`, by a scan over the map. */
  method ScanFor(icu: seq<Entry<IcuLocale>>, target: IcuLocale) returns (r: Option<Key>)
    ensures r == FirstWith(icu, target)
  {
    var i := 0;
    while i < |icu|
      invariant i <= |icu|
      invariant FirstWith(icu[i..], target) == FirstWith(icu, target)
    {
      assert icu[i..][1..] == icu[i + 1..];
      if icu[i].value == target {
        return Some(icu[i].key);
      }
      i := i + 1;
    }
    assert icu[i..] == [];
    return None;
  }

  /** `find_base_default` as the source runs it, with its two scans. */
  method FindBaseDefault(icu: seq<Entry<IcuLocale>>, locale: Key) returns (r: Result<Option<Key>, Error>)
    ensures r == BaseDefault(icu, locale)
  {
    var found := Get(icu, locale);
    if found.None? {
      return Err(Panic("find_base_default"));
    }
    var l := found.value;
    if BareLanguage(l) {
      return Ok(None);
    }
    if Decorated(l) {
      var withRegion := ScanFor(icu, Plain(l.id.language, l.id.region));
      if withRegion.Some? {
        return Ok(withRegion);
      }
    }
    var languageOnly := ScanFor(icu, Plain(l.id.language, None));
    return Ok(languageOnly);
  }

  /**
   * A base default is a locale of the map with the same language and no
   * script, variant or extension; it keeps the region only for a locale
   * with an extension, a variant or a script, and it is never the locale
   * itself. A bare language has none.
   */
  lemma BaseDefaultIsBase(icu: seq<Entry<IcuLocale>>, locale: Key)
    requires Sorted(icu) && HasKey(icu, locale)
    ensures BaseDefault(icu, locale).Ok?
    ensures BareLanguage(Get(icu, locale).value) ==> BaseDefault(icu, locale) == Ok(None)
    ensures BaseDefault(icu, locale) != Ok(Some(locale))
    ensures BaseDefault(icu, locale).Ok? && BaseDefault(icu, locale).value.Some? ==>
              var l := Get(icu, locale).value;
              var b := Get(icu, BaseDefault(icu, locale).value.value);
              && b.Some? && b.value.extensions == [] && b.value.id.variants == [] && b.value.id.script.None?
              && b.value.id.language == l.id.language
              && (b.value.id.region.Some? ==> Decorated(l) && b.value.id.region == l.id.region)
  {
    var l := Get(icu, locale).value;
    var r := BaseDefault(icu, locale);
    if r.Ok? && r.value.Some? {
      var k := r.value.value;
      var target := if Decorated(l) && FirstWith(icu, Plain(l.id.language, l.id.region)).Some?
                    then Plain(l.id.language, l.id.region) else Plain(l.id.language, None);
      var i :| 0 <= i < |icu| && icu[i] == Entry(k, target);
      GetSortedAt(icu, i);
    }
  }

  /** In a sorted map, the entry at a position is what `Get` finds for its key. */
  lemma GetSortedAt<V>(m: seq<Entry<V>>, i: nat)
    requires Sorted(m) && i < |m|
    ensures Get(m, m[i].key) == Some(m[i].value)
    decreases i
  {
    if i > 0 {
      assert m[0].key != m[i].key by {
        KeyOrderIsTotal(m[0].key, m[0].key, m[0].key);
      }
      assert m[1..][i - 1] == m[i];
      GetSortedAt(m[1..], i - 1);
    }
  }

  /**
   * A decorated locale prefers a base with its region: whenever the map has
   * the locale with its language and region alone, that one is chosen over
   * the language alone.
   */
  lemma BaseDefaultPrefersRegion(icu: seq<Entry<IcuLocale>>, locale: Key, i: nat)
    requires HasKey(icu, locale) && Decorated(Get(icu, locale).value)
    requires i < |icu| && icu[i].value == Plain(Get(icu, locale).value.id.language, Get(icu, locale).value.id.region)
    ensures BaseDefault(icu, locale) == Ok(FirstWith(icu, icu[i].value))
    ensures BaseDefault(icu, locale).value.Some?
  {
  }

  /** `DefaultTo`: the locale a locale's missing keys come from, and whether it was chosen explicitly. */
  datatype DefaultTo = Explicit(locale: Key) | Implicit(locale: Key)

  /**
   * `get_locale_fallback`: the locale's configured extension, else its base
   * default, else the default locale (explicitly when key warnings are
   * suppressed). The base default is only looked for when there is no
   * extension.
   */
  function LocaleFallback(extensions: seq<Entry<Key>>, icu: seq<Entry<IcuLocale>>, defaultLocale: Key, locale: Key,
                          suppressKeyWarnings: bool)
    : (r: Result<DefaultTo, Error>)
  {
    match Get(extensions, locale)
    case Some(k) => Ok(Explicit(k))
    case None =>
      match BaseDefault(icu, locale)
      case Err(e) => Err(e)
      case Ok(Some(k)) => Ok(Explicit(k))
      case Ok(None) => Ok(if suppressKeyWarnings then Explicit(defaultLocale) else Implicit(defaultLocale))
  }

  /**
   * The fallback order: an extension wins; without one, a base default;
   * without either, the default locale, implicit unless key warnings are
   * suppressed. Only the base lookup can fail.
   */
  lemma LocaleFallbackOrder(extensions: seq<Entry<Key>>, icu: seq<Entry<IcuLocale>>, defaultLocale: Key, locale: Key,
                            suppressKeyWarnings: bool)
    ensures HasKey(extensions, locale) ==>
              LocaleFallback(extensions, icu, defaultLocale, locale, suppressKeyWarnings) == Ok(Explicit(Get(extensions, locale).value))
    ensures !HasKey(extensions, locale) && BaseDefault(icu, locale).Err? ==>
              LocaleFallback(extensions, icu, defaultLocale, locale, suppressKeyWarnings).Err?
    ensures !HasKey(extensions, locale) && BaseDefault(icu, locale).Ok? && BaseDefault(icu, locale).value.Some? ==>
              LocaleFallback(extensions, icu, defaultLocale, locale, suppressKeyWarnings) == Ok(Explicit(BaseDefault(icu, locale).value.value))
    ensures !HasKey(extensions, locale) && BaseDefault(icu, locale) == Ok(None) ==>
              LocaleFallback(extensions, icu, defaultLocale, locale, suppressKeyWarnings).Ok?
              && LocaleFallback(extensions, icu, defaultLocale, locale, suppressKeyWarnings).value.locale == defaultLocale
              && (LocaleFallback(extensions, icu, defaultLocale, locale, suppressKeyWarnings).value.Implicit? <==> !suppressKeyWarnings)
    ensures LocaleFallback(extensions, icu, defaultLocale, locale, suppressKeyWarnings).Err? ==> !HasKey(icu, locale)
  {
  }

  // `ForeignKeysPaths`.

  /** `ForeignKeysPaths`: the (locale, key path) pairs holding a foreign key. */
  class ForeignKeysPaths {
    var paths: set<(Key, KeyPath)>

    /** `ForeignKeysPaths::new`. */
    constructor ()
      ensures paths == {}
    {
      paths := {};
    }

    /** `push_path`: records a pair; recording it again changes nothing. */
    method PushPath(locale: Key, path: KeyPath)
      modifies this
      ensures paths == old(paths) + {(locale, path)}
      ensures (locale, path) in old(paths) ==> paths == old(paths)
    {
      paths := paths + {(locale, path)};
    }

    /** `into_inner`: the pairs recorded. */
    function IntoInner(): (r: set<(Key, KeyPath)>)
      reads this
      ensures forall p :: p in r <==> p in paths
    {
      paths
    }
  }
}
