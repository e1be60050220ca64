// Locale negotiation: which of the available locales serve a list of requested
// language identifiers, after the filtering of Unicode TR35 section 4.4 (an exact
// match first, then the available locales read as ranges, where a missing
// subtag matches anything).
module LangId {
  import opened Wrappers

  /** A BCP 47 language identifier. */
  datatype LanguageIdentifier = LanguageIdentifier(
    language: string,
    script: Option<string>,
    region: Option<string>,
    variants: seq<string>)
  {
    /** `Language::is_unknown`: the `und` subtag. */
    predicate IsUnknown() { language == "und" }
  }

  /** `lang_matches`: an unknown language on a side read as a range matches any. */
  predicate LangMatches(lhs: string, rhs: string, selfAsRange: bool, otherAsRange: bool) {
    (selfAsRange && lhs == "und") || (otherAsRange && rhs == "und") || lhs == rhs
  }

  /** `subtag_matches`: a missing subtag on a side read as a range matches any. */
  predicate SubtagMatches(a: Option<string>, b: Option<string>, asRange1: bool, asRange2: bool) {
    (asRange1 && a.None?) || (asRange2 && b.None?) || a == b
  }

  /** `subtags_match`: no variants on a side read as a range match any. */
  predicate SubtagsMatch(a: seq<string>, b: seq<string>, asRange1: bool, asRange2: bool) {
    (asRange1 && a == []) || (asRange2 && b == []) || a == b
  }

  /** `lang_id_matches`: all four parts match. */
  predicate LangIdMatches(lhs: LanguageIdentifier, rhs: LanguageIdentifier, selfAsRange: bool, otherAsRange: bool) {
    LangMatches(lhs.language, rhs.language, selfAsRange, otherAsRange)
    && SubtagMatches(lhs.script, rhs.script, selfAsRange, otherAsRange)
    && SubtagMatches(lhs.region, rhs.region, selfAsRange, otherAsRange)
    && SubtagsMatch(lhs.variants, rhs.variants, selfAsRange, otherAsRange)
  }

  /** With neither side read as a range, matching is equality. */
  lemma ExactMatchIsEquality(a: LanguageIdentifier, b: LanguageIdentifier)
    ensures LangIdMatches(a, b, false, false) <==> a == b
  {
  }

  /** Reading a side as a range only adds matches. */
  lemma RangeWidens(a: LanguageIdentifier, b: LanguageIdentifier)
    ensures LangIdMatches(a, b, false, false) ==> LangIdMatches(a, b, true, false)
  {
  }

  /** Read as a range, `de` matches every German identifier. */
  lemma BareLanguageRange(a: LanguageIdentifier, b: LanguageIdentifier)
    requires a.script.None? && a.region.None? && a.variants == []
    ensures LangIdMatches(a, b, true, false) <==> a.language == "und" || a.language == b.language
  {
  }

  /** The available locales one strategy moves to the output, in order. */
  function Matched<L>(available: seq<L>, asLangid: L -> LanguageIdentifier, req: LanguageIdentifier, selfAsRange: bool): seq<L>
  {
    if |available| == 0 then []
    else
      var head := if LangIdMatches(asLangid(available[0]), req, selfAsRange, false) then [available[0]] else [];
      head + Matched(available[1..], asLangid, req, selfAsRange)
  }

  /** The available locales one strategy keeps, in order. */
  function Kept<L>(available: seq<L>, asLangid: L -> LanguageIdentifier, req: LanguageIdentifier, selfAsRange: bool): seq<L>
  {
    if |available| == 0 then []
    else
      var head := if LangIdMatches(asLangid(available[0]), req, selfAsRange, false) then [] else [available[0]];
      head + Kept(available[1..], asLangid, req, selfAsRange)
  }

  /** A strategy splits the available locales: nothing is lost or duplicated. */
  lemma {:induction false} SplitPartitions<L>(available: seq<L>, asLangid: L -> LanguageIdentifier, req: LanguageIdentifier, selfAsRange: bool)
    ensures multiset(Kept(available, asLangid, req, selfAsRange)) + multiset(Matched(available, asLangid, req, selfAsRange))
      == multiset(available)
  {
    if |available| > 0 {
      SplitPartitions(available[1..], asLangid, req, selfAsRange);
      assert available == [available[0]] + available[1..];
    }
  }

  /** Every locale a strategy moves to the output matches the request. */
  lemma {:induction false} MatchedMatch<L>(available: seq<L>, asLangid: L -> LanguageIdentifier, req: LanguageIdentifier, selfAsRange: bool, x: L)
    requires x in Matched(available, asLangid, req, selfAsRange)
    ensures x in available && LangIdMatches(asLangid(x), req, selfAsRange, false)
  {
    if x != available[0] || !LangIdMatches(asLangid(available[0]), req, selfAsRange, false) {
      MatchedMatch(available[1..], asLangid, req, selfAsRange, x);
    }
  }

  /** The output of one request and the locales left for the next ones: exact
    * matches first, then the remaining locales read as ranges. */
  function Serve<L>(available: seq<L>, asLangid: L -> LanguageIdentifier, req: LanguageIdentifier): (seq<L>, seq<L>)
  {
    var exact := Matched(available, asLangid, req, false);
    var left := Kept(available, asLangid, req, false);
    (exact + Matched(left, asLangid, req, true), Kept(left, asLangid, req, true))
  }

  /** What `filter_matches` outputs after the given requests, request by request. */
  function Filter<L>(requested: seq<LanguageIdentifier>, available: seq<L>, asLangid: L -> LanguageIdentifier): seq<L>
  {
    if |requested| == 0 then []
    else
      var (out, left) := Serve(available, asLangid, requested[0]);
      out + Filter(requested[1..], left, asLangid)
  }

  /** One more available locale tested by a strategy, behind the locales
    * `kept` and `matched` so far. */
  lemma TestOne<L>(available: seq<L>, i: nat, asLangid: L -> LanguageIdentifier, req: LanguageIdentifier, selfAsRange: bool,
                   m: bool, kept: seq<L>, matched: seq<L>)
    requires i < |available| && m == LangIdMatches(asLangid(available[i]), req, selfAsRange, false)
    ensures kept + Kept(available[i..], asLangid, req, selfAsRange)
      == (if m then kept else kept + [available[i]]) + Kept(available[i + 1..], asLangid, req, selfAsRange)
    ensures matched + Matched(available[i..], asLangid, req, selfAsRange)
      == (if m then matched + [available[i]] else matched) + Matched(available[i + 1..], asLangid, req, selfAsRange)
  {
    assert available[i..][1..] == available[i + 1..];
    var k := Kept(available[i + 1..], asLangid, req, selfAsRange);
    var t := Matched(available[i + 1..], asLangid, req, selfAsRange);
    if m {
      assert matched + ([available[i]] + t) == (matched + [available[i]]) + t;
    } else {
      assert kept + ([available[i]] + k) == (kept + [available[i]]) + k;
    }
  }

  /** The `retain` of one strategy. */
  method TestStrategy<L>(available: seq<L>, asLangid: L -> LanguageIdentifier, req: LanguageIdentifier, selfAsRange: bool)
    returns (kept: seq<L>, matched: seq<L>)
    ensures kept == Kept(available, asLangid, req, selfAsRange)
    ensures matched == Matched(available, asLangid, req, selfAsRange)
  {
    kept := [];
    matched := [];
    var i := 0;
    while i < |available|
      invariant 0 <= i <= |available|
      invariant Kept(available, asLangid, req, selfAsRange) == kept + Kept(available[i..], asLangid, req, selfAsRange)
      invariant Matched(available, asLangid, req, selfAsRange) == matched + Matched(available[i..], asLangid, req, selfAsRange)
    {
      var m := LangIdMatches(asLangid(available[i]), req, selfAsRange, false);
      TestOne(available, i, asLangid, req, selfAsRange, m, kept, matched);
      if m {
        matched := matched + [available[i]];
      } else {
        kept := kept + [available[i]];
      }
      i := i + 1;
    }
  }

  /** `filter_matches`. */
  method FilterMatches<L>(requested: seq<LanguageIdentifier>, available: seq<L>, asLangid: L -> LanguageIdentifier)
    returns (supported: seq<L>)
    ensures supported == Filter(requested, available, asLangid)
  {
    supported := [];
    var availableLocales := available;
    var i := 0;
    while i < |requested|
      invariant 0 <= i <= |requested|
      invariant Filter(requested, available, asLangid) == supported + Filter(requested[i..], availableLocales, asLangid)
    {
      assert requested[i..][1..] == requested[i + 1..];
      var req := requested[i];
      var kept, exact := TestStrategy(availableLocales, asLangid, req, false);
      supported := supported + exact;
      availableLocales := kept;
      var kept', ranged := TestStrategy(availableLocales, asLangid, req, true);
      supported := supported + ranged;
      availableLocales := kept';
      i := i + 1;
    }
  }

  /** What is output and what is left make up the available locales: none is
    * output more often than it is available, because a matched one is removed. */
  lemma {:induction false} OutputFromAvailable<L>(requested: seq<LanguageIdentifier>, available: seq<L>, asLangid: L -> LanguageIdentifier)
    ensures multiset(Filter(requested, available, asLangid)) <= multiset(available)
  {
    if |requested| > 0 {
      var req := requested[0];
      var left := Kept(available, asLangid, req, false);
      SplitPartitions(available, asLangid, req, false);
      SplitPartitions(left, asLangid, req, true);
      OutputFromAvailable(requested[1..], Kept(left, asLangid, req, true), asLangid);
    }
  }

  /** With distinct available locales, no locale is output twice. */
  lemma OutputDistinct<L>(requested: seq<LanguageIdentifier>, available: seq<L>, asLangid: L -> LanguageIdentifier, x: L)
    requires multiset(available)[x] <= 1
    ensures multiset(Filter(requested, available, asLangid))[x] <= 1
  {
    OutputFromAvailable(requested, available, asLangid);
  }

  /** What one request outputs matches it, at least as a range. */
  lemma ServedMatches<L>(available: seq<L>, asLangid: L -> LanguageIdentifier, req: LanguageIdentifier, x: L)
    requires x in Serve(available, asLangid, req).0
    ensures LangIdMatches(asLangid(x), req, true, false)
  {
    var exact := Matched(available, asLangid, req, false);
    var left := Kept(available, asLangid, req, false);
    if x in exact {
      MatchedMatch(available, asLangid, req, false, x);
      RangeWidens(asLangid(x), req);
    } else {
      MatchedMatch(left, asLangid, req, true, x);
    }
  }

  /** Every output locale matches some request, at least as a range. */
  lemma {:induction false} OutputMatches<L>(requested: seq<LanguageIdentifier>, available: seq<L>, asLangid: L -> LanguageIdentifier, x: L)
    requires x in Filter(requested, available, asLangid)
    ensures exists j :: 0 <= j < |requested| && LangIdMatches(asLangid(x), requested[j], true, false)
  {
    var (out, left) := Serve(available, asLangid, requested[0]);
    if x in out {
      ServedMatches(available, asLangid, requested[0], x);
    } else {
      OutputMatches(requested[1..], left, asLangid, x);
      var j :| 0 <= j < |requested[1..]| && LangIdMatches(asLangid(x), requested[1..][j], true, false);
      assert requested[1..][j] == requested[j + 1];
    }
  }

  /** Every locale a strategy keeps is available and fails the request. */
  lemma {:induction false} KeptMiss<L>(available: seq<L>, asLangid: L -> LanguageIdentifier, req: LanguageIdentifier, selfAsRange: bool, x: L)
    requires x in Kept(available, asLangid, req, selfAsRange)
    ensures x in available && !LangIdMatches(asLangid(x), req, selfAsRange, false)
  {
    if x != available[0] || LangIdMatches(asLangid(available[0]), req, selfAsRange, false) {
      KeptMiss(available[1..], asLangid, req, selfAsRange, x);
    }
  }

  /** A strategy either moves an available locale to the output or keeps it. */
  lemma MatchedOrKept<L>(available: seq<L>, asLangid: L -> LanguageIdentifier, req: LanguageIdentifier, selfAsRange: bool, x: L)
    requires x in available
    ensures x in Matched(available, asLangid, req, selfAsRange) || x in Kept(available, asLangid, req, selfAsRange)
  {
    SplitPartitions(available, asLangid, req, selfAsRange);
    assert x in multiset(available);
  }

  /** An available locale that matches a request, at least as a range, is output. */
  lemma {:induction false} FilterComplete<L>(requested: seq<LanguageIdentifier>, available: seq<L>, asLangid: L -> LanguageIdentifier, x: L, j: nat)
    requires x in available && j < |requested| && LangIdMatches(asLangid(x), requested[j], true, false)
    ensures x in Filter(requested, available, asLangid)
  {
    var req := requested[0];
    var left := Kept(available, asLangid, req, false);
    var (out, rest) := Serve(available, asLangid, req);
    MatchedOrKept(available, asLangid, req, false, x);
    if x in left {
      MatchedOrKept(left, asLangid, req, true, x);
      if x in Kept(left, asLangid, req, true) {
        KeptMiss(left, asLangid, req, true, x);
        assert requested[1..][j - 1] == requested[j];
        FilterComplete(requested[1..], rest, asLangid, x, j - 1);
      }
    }
  }

  /** `find_match`: the first filtered locale, else the default one. */
  function FindMatch<L>(requested: seq<LanguageIdentifier>, available: seq<L>, asLangid: L -> LanguageIdentifier, default: L): L
  {
    var found := Filter(requested, available, asLangid);
    if |found| > 0 then found[0] else default
  }

  /** The first available locale equal to the request. */
  function FirstEqual<L>(available: seq<L>, asLangid: L -> LanguageIdentifier, req: LanguageIdentifier): (r: Option<nat>)
    ensures r.Some? ==> r.value < |available| && asLangid(available[r.value]) == req
    ensures r.Some? ==> forall j :: 0 <= j < r.value ==> asLangid(available[j]) != req
    ensures r.None? ==> forall j :: 0 <= j < |available| ==> asLangid(available[j]) != req
  {
    if |available| == 0 then None
    else if asLangid(available[0]) == req then Some(0)
    else match FirstEqual(available[1..], asLangid, req)
      case None => None
      case Some(i) => Some(i + 1)
  }

  /** The exact matches start with the first available locale equal to the request. */
  lemma {:induction false} ExactHead<L>(available: seq<L>, asLangid: L -> LanguageIdentifier, req: LanguageIdentifier)
    requires FirstEqual(available, asLangid, req).Some?
    ensures |Matched(available, asLangid, req, false)| > 0
    ensures Matched(available, asLangid, req, false)[0] == available[FirstEqual(available, asLangid, req).value]
  {
    ExactMatchIsEquality(asLangid(available[0]), req);
    if asLangid(available[0]) != req {
      ExactHead(available[1..], asLangid, req);
    }
  }

  /** When some available locale is exactly the first request, `find_match`
    * returns the first such locale in available order. */
  lemma FindMatchPrefersExact<L>(requested: seq<LanguageIdentifier>, available: seq<L>, asLangid: L -> LanguageIdentifier, default: L)
    requires |requested| > 0 && FirstEqual(available, asLangid, requested[0]).Some?
    ensures FindMatch(requested, available, asLangid, default) == available[FirstEqual(available, asLangid, requested[0]).value]
  {
    ExactHead(available, asLangid, requested[0]);
  }

  /** Without a match, `find_match` falls back to the default locale. */
  lemma FindMatchDefault<L>(requested: seq<LanguageIdentifier>, available: seq<L>, asLangid: L -> LanguageIdentifier, default: L)
    requires forall x, j :: x in available && 0 <= j < |requested| ==> !LangIdMatches(asLangid(x), requested[j], true, false)
    ensures FindMatch(requested, available, asLangid, default) == default
  {
    var found := Filter(requested, available, asLangid);
    if |found| > 0 {
      OutputFromAvailable(requested, available, asLangid);
      assert found[0] in multiset(found);
      assert found[0] in available;
      OutputMatches(requested, available, asLangid, found[0]);
      assert false;
    }
  }

  /** When some available locale matches a request, `find_match` returns the
    * first filtered locale and not the default. */
  lemma FindMatchFound<L>(requested: seq<LanguageIdentifier>, available: seq<L>, asLangid: L -> LanguageIdentifier, default: L, x: L, j: nat)
    requires x in available && j < |requested| && LangIdMatches(asLangid(x), requested[j], true, false)
    ensures |Filter(requested, available, asLangid)| > 0
    ensures FindMatch(requested, available, asLangid, default) == Filter(requested, available, asLangid)[0]
  {
    FilterComplete(requested, available, asLangid, x, j);
  }

  /** A locale that is its own language identifier. */
  function Identity(l: LanguageIdentifier): LanguageIdentifier { l }

  /**
   * The shape of the hierarchy example `de`, `en-US`, `de-DE`, `de-CH`: no
   * scripts or variants, a bare language, one locale of another language and
   * two regions of the bare language.
   */
  predicate HierarchyLocales(de: LanguageIdentifier, enUS: LanguageIdentifier, deDE: LanguageIdentifier, deCH: LanguageIdentifier) {
    && de.script.None? && enUS.script.None? && deDE.script.None? && deCH.script.None?
    && de.variants == [] && enUS.variants == [] && deDE.variants == [] && deCH.variants == []
    && de.region.None? && enUS.region.Some? && deDE.region.Some? && deCH.region.Some?
    && de.language != "und" && enUS.language != "und" && deDE.language == de.language && deCH.language == de.language
    && enUS.language != de.language && deCH.region != deDE.region
  }

  /** One step of a strategy over the front locale. */
  lemma StrategyStep<L>(x: L, rest: seq<L>, asLangid: L -> LanguageIdentifier, req: LanguageIdentifier, selfAsRange: bool)
    ensures LangIdMatches(asLangid(x), req, selfAsRange, false) ==>
      Matched([x] + rest, asLangid, req, selfAsRange) == [x] + Matched(rest, asLangid, req, selfAsRange)
      && Kept([x] + rest, asLangid, req, selfAsRange) == Kept(rest, asLangid, req, selfAsRange)
    ensures !LangIdMatches(asLangid(x), req, selfAsRange, false) ==>
      Matched([x] + rest, asLangid, req, selfAsRange) == Matched(rest, asLangid, req, selfAsRange)
      && Kept([x] + rest, asLangid, req, selfAsRange) == [x] + Kept(rest, asLangid, req, selfAsRange)
  {
    assert ([x] + rest)[1..] == rest;
  }

  /** Which of the four locales `de-DE` selects, exactly and as a range. */
  lemma HierarchyMatches(de: LanguageIdentifier, enUS: LanguageIdentifier, deDE: LanguageIdentifier, deCH: LanguageIdentifier)
    requires HierarchyLocales(de, enUS, deDE, deCH)
    ensures LangIdMatches(deDE, deDE, false, false)
    ensures !LangIdMatches(de, deDE, false, false) && !LangIdMatches(enUS, deDE, false, false)
    ensures !LangIdMatches(deCH, deDE, false, false)
    ensures LangIdMatches(de, deDE, true, false)
    ensures !LangIdMatches(enUS, deDE, true, false) && !LangIdMatches(deCH, deDE, true, false)
  {
  }

  /** The exact pass of `"de-DE"` over `de, en-US, de-DE, de-CH`. */
  lemma HierarchyExact(de: LanguageIdentifier, enUS: LanguageIdentifier, deDE: LanguageIdentifier, deCH: LanguageIdentifier)
    requires HierarchyLocales(de, enUS, deDE, deCH)
    ensures Matched([de, enUS, deDE, deCH], Identity, deDE, false) == [deDE]
    ensures Kept([de, enUS, deDE, deCH], Identity, deDE, false) == [de, enUS, deCH]
  {
    HierarchyMatches(de, enUS, deDE, deCH);
    StrategyStep(deCH, [], Identity, deDE, false);
    StrategyStep(deDE, [deCH], Identity, deDE, false);
    StrategyStep(enUS, [deDE, deCH], Identity, deDE, false);
    StrategyStep(de, [enUS, deDE, deCH], Identity, deDE, false);
    assert [de, enUS, deDE, deCH] == [de] + [enUS, deDE, deCH];
    assert [enUS, deDE, deCH] == [enUS] + [deDE, deCH];
    assert [deDE, deCH] == [deDE] + [deCH];
    assert [deCH] == [deCH] + [];
  }

  /** The range pass of `"de-DE"` over what the exact pass left. */
  lemma HierarchyRange(de: LanguageIdentifier, enUS: LanguageIdentifier, deDE: LanguageIdentifier, deCH: LanguageIdentifier)
    requires HierarchyLocales(de, enUS, deDE, deCH)
    ensures Matched([de, enUS, deCH], Identity, deDE, true) == [de]
  {
    HierarchyMatches(de, enUS, deDE, deCH);
    StrategyStep(deCH, [], Identity, deDE, true);
    StrategyStep(enUS, [deCH], Identity, deDE, true);
    StrategyStep(de, [enUS, deCH], Identity, deDE, true);
    assert [de, enUS, deCH] == [de] + [enUS, deCH];
    assert [enUS, deCH] == [enUS] + [deCH];
    assert [deCH] == [deCH] + [];
  }

  /** `"de-DE"` over `de, en-US, de-DE, de-CH` gives `de-DE` (exact), then `de`
    * (`de` read as a range). */
  lemma HierarchyExample(de: LanguageIdentifier, enUS: LanguageIdentifier, deDE: LanguageIdentifier, deCH: LanguageIdentifier)
    requires HierarchyLocales(de, enUS, deDE, deCH)
    ensures Filter([deDE], [de, enUS, deDE, deCH], Identity) == [deDE, de]
  {
    HierarchyExact(de, enUS, deDE, deCH);
    HierarchyRange(de, enUS, deDE, deCH);
    var served := Serve([de, enUS, deDE, deCH], Identity, deDE);
    assert served.0 == [deDE, de];
    assert [deDE][1..] == [];
  }
}
