/**
 * The search for `<name attrs>…</name>` and `<name/>` components in a
 * translation string (`find_opening_tag`, `find_closing_tag` and
 * `find_valid_component` of parse_locales/parsed_value.rs).
 *
 * Both searches walk the same tags: the first `<` from some offset and the
 * first `>` after it, then again after that `>`. `TagsFrom` lists them once,
 * and each search is a recursion over that list, proved equal to the scanning
 * loop of the source.
 */
module Tags {
  import opened Wrappers
  import opened Text
  import opened Keys

  /** `s.ends_with('/')`. */
  predicate EndsWithSlash(s: string) {
    |s| > 0 && s[|s| - 1] == '/'
  }

  /**
   * A tag at `open`..`close`: the first `<` from `start` and the first `>`
   * after it.
   */
  predicate TagAt(value: string, start: nat, open: nat, close: nat) {
    start <= open < close < |value| && value[open] == '<' && value[close] == '>'
    && (forall i :: start <= i < open ==> value[i] != '<')
    && (forall i :: open < i < close ==> value[i] != '>')
  }

  /** The first position of `c` at or after `i` (`value[i..].find(c)`, made absolute). */
  function IndexFrom(value: string, c: char, i: nat): (r: Option<nat>)
    requires i <= |value|
    ensures r.Some? ==> i <= r.value < |value| && value[r.value] == c
    decreases |value| - i
  {
    if i == |value| then None
    else if value[i] == c then Some(i)
    else IndexFrom(value, c, i + 1)
  }

  /** No `c` comes before the one `IndexFrom` finds. */
  lemma {:induction false} IndexFromFirst(value: string, c: char, i: nat)
    requires i <= |value| && IndexFrom(value, c, i).Some?
    ensures forall j :: i <= j < IndexFrom(value, c, i).value ==> value[j] != c
    decreases |value| - i
  {
    if value[i] != c {
      IndexFromFirst(value, c, i + 1);
    }
  }

  /** The first occurrence found by position is the one `IndexFrom` finds. */
  lemma {:induction false} IndexFromFinds(value: string, c: char, i: nat, k: nat)
    requires i <= k < |value| && value[k] == c
    requires forall j :: i <= j < k ==> value[j] != c
    ensures IndexFrom(value, c, i) == Some(k)
    decreases k - i
  {
    if i < k {
      IndexFromFinds(value, c, i + 1, k);
    }
  }

  /** `value[lo..hi].trim()`, by position. */
  function Trimmed(value: string, lo: nat, hi: nat): string
    requires lo <= hi <= |value|
  {
    var s := SkipWs(value, lo, hi);
    value[s..SkipWsBack(value, s, hi)]
  }

  /** Trimming by position is Rust's `trim` of the slice. */
  lemma {:induction false} TrimmedIsTrim(value: string, lo: nat, hi: nat)
    requires lo <= hi <= |value|
    ensures Trimmed(value, lo, hi) == Trim(value[lo..hi])
  {
    var s := SkipWs(value, lo, hi);
    var e := SkipWsBack(value, s, hi);
    SkipWsSkips(value, lo, hi);
    SkipWsBackSkips(value, s, hi);
    SliceInThree(value, lo, s, e, hi);
    assert e > s ==> value[s..e][0] == value[s];
    TrimPadded(value[lo..s], value[s..e], value[e..hi]);
  }

  lemma SliceInThree(value: string, lo: nat, s: nat, e: nat, hi: nat)
    requires lo <= s <= e <= hi <= |value|
    ensures value[lo..hi] == value[lo..s] + value[s..e] + value[e..hi]
  {
    assert value[lo..hi] == value[lo..s] + value[s..hi];
    assert value[s..hi] == value[s..e] + value[e..hi];
  }

  /** Skipping whitespace by position is Rust's `trim_start` of the slice. */
  lemma {:induction false} TrimmedStartIsTrimStart(value: string, lo: nat, hi: nat)
    requires lo <= hi <= |value|
    ensures value[SkipWs(value, lo, hi)..hi] == TrimStart(value[lo..hi])
  {
    var s := SkipWs(value, lo, hi);
    SkipWsSkips(value, lo, hi);
    assert value[lo..hi] == value[lo..s] + value[s..hi];
    TrimStartPadded(value[lo..s], value[s..hi]);
  }

  /** The positions of the next `<` from `start` and of the first `>` after it. */
  function NextTag(value: string, start: nat): (r: Option<(nat, nat)>)
    requires start <= |value|
    ensures r.Some? ==> start <= r.value.0 < r.value.1 < |value|
    ensures r.Some? ==> value[r.value.0] == '<' && value[r.value.1] == '>'
  {
    match IndexFrom(value, '<', start)
    case None => None
    case Some(open) =>
      match IndexFrom(value, '>', open)
      case None => None
      case Some(close) => Some((open, close))
  }

  /** `NextTag` finds the first `<` and the first `>` after it. */
  lemma {:induction false} NextTagFirst(value: string, start: nat)
    requires start <= |value| && NextTag(value, start).Some?
    ensures TagAt(value, start, NextTag(value, start).value.0, NextTag(value, start).value.1)
  {
    IndexFromFirst(value, '<', start);
    IndexFromFirst(value, '>', NextTag(value, start).value.0);
  }

  /** A tag found by position is the one `NextTag` finds. */
  lemma {:induction false} NextTagIsTagAt(value: string, start: nat, open: nat, close: nat)
    requires TagAt(value, start, open, close)
    ensures NextTag(value, start) == Some((open, close))
  {
    IndexFromFinds(value, '<', start, open);
    IndexFromFinds(value, '>', open, close);
  }

  /**
   * The content of the tag at `open`..`close` as `find_opening_tag` reads
   * it: the text between `<` and `>`, without its final `/` when it has one,
   * trimmed, and whether it had one.
   */
  function OpeningAt(value: string, open: nat, close: nat): (string, bool)
    requires open < close <= |value|
  {
    var raw := value[open + 1..close];
    if EndsWithSlash(raw) then (Trim(raw[..|raw| - 1]), true) else (Trim(raw), false)
  }

  /**
   * An opening tag: the text before its `<`, its trimmed content (without a
   * self-closing `/`), the text after its `>`, and the offset just past `>`.
   */
  datatype OpeningTag = OpeningTag(before: string, content: string, after: string, skip: nat, selfClosing: bool)

  /** `find_opening_tag`: the first `<` and the first `>` after it. */
  function FindOpeningTag(value: string): (r: Option<OpeningTag>)
    ensures r.Some? ==> |r.value.before| < r.value.skip <= |value|
    ensures r.Some? ==> r.value.before == value[..|r.value.before|] && r.value.after == value[r.value.skip..]
    ensures r.Some? ==> TagAt(value, 0, |r.value.before|, r.value.skip - 1)
    ensures r.None? ==> NextTag(value, 0).None?
  {
    match NextTag(value, 0)
    case None => None
    case Some((open, close)) =>
      NextTagFirst(value, 0);
      var (content, selfClosing) := OpeningAt(value, open, close);
      Some(OpeningTag(value[..open], content, value[close + 1..], close + 1, selfClosing))
  }

  /** What a tag is, from its trimmed content. */
  datatype TagKind = SelfClosingTag | ClosingOf(name: string) | OpeningOf(name: string)

  /** A content ending in `/` is self-closing; one starting with `/` closes the name after it. */
  function Kind(content: string): TagKind {
    if EndsWithSlash(content) then SelfClosingTag
    else if |content| >= 1 && content[0] == '/' then ClosingOf(TrimStart(content[1..]))
    else OpeningOf(content)
  }

  /** `Kind` of `value[lo..hi]`, by position. */
  function KindAt(value: string, lo: nat, hi: nat): TagKind
    requires lo <= hi <= |value|
  {
    if hi > lo && value[hi - 1] == '/' then SelfClosingTag
    else if hi > lo && value[lo] == '/' then ClosingOf(value[SkipWs(value, lo + 1, hi)..hi])
    else OpeningOf(value[lo..hi])
  }

  lemma {:induction false} KindAtIsKind(value: string, lo: nat, hi: nat)
    requires lo <= hi <= |value|
    ensures KindAt(value, lo, hi) == Kind(value[lo..hi])
  {
    var content := value[lo..hi];
    if hi > lo {
      assert content[0] == value[lo] && content[|content| - 1] == value[hi - 1];
      assert content[1..] == value[lo + 1..hi];
      TrimmedStartIsTrimStart(value, lo + 1, hi);
    }
  }

  /** What the tag at `open`..`close` is, by position. */
  function TagKindAt(value: string, open: nat, close: nat): TagKind
    requires open < close <= |value|
  {
    var lo := SkipWs(value, open + 1, close);
    KindAt(value, lo, SkipWsBack(value, lo, close))
  }

  /** Classifying by position is classifying the trimmed text between `<` and `>`. */
  lemma {:induction false} TagKindAtIsKind(value: string, open: nat, close: nat)
    requires open < close <= |value|
    ensures TagKindAt(value, open, close) == Kind(Trim(value[open + 1..close]))
  {
    var lo := SkipWs(value, open + 1, close);
    TrimmedIsTrim(value, open + 1, close);
    KindAtIsKind(value, lo, SkipWsBack(value, lo, close));
  }

  /** A tag of a string: where its `<` and `>` are, and what it is. */
  datatype Tok = Tok(open: nat, close: nat, kind: TagKind)

  /** Every tag lies within the string. */
  predicate InValue(value: string, toks: seq<Tok>) {
    forall i :: 0 <= i < |toks| ==> toks[i].open < toks[i].close < |value|
  }

  /** The tags of `value` from `start` on, in order. */
  function TagsFrom(value: string, start: nat): (r: seq<Tok>)
    requires start <= |value|
    ensures InValue(value, r)
    ensures forall i :: 0 <= i < |r| ==> start <= r[i].open
    decreases |value| - start
  {
    match NextTag(value, start)
    case None => []
    case Some((open, close)) => [Tok(open, close, TagKindAt(value, open, close))] + TagsFrom(value, close + 1)
  }

  /** The tags from `start` are the next tag and the tags after it. */
  lemma {:induction false} TagsFromStep(value: string, start: nat)
    requires start <= |value| && NextTag(value, start).Some?
    ensures var (open, close) := NextTag(value, start).value;
      var toks := TagsFrom(value, start);
      toks != [] && toks[0] == Tok(open, close, TagKindAt(value, open, close))
      && toks[1..] == TagsFrom(value, close + 1)
  {
  }

  /**
   * Each tag of the list is the first `<` after the previous tag's `>` (after
   * `start` for the first one) and the first `>` after that `<`.
   */
  lemma {:induction false} TagsFromAreTags(value: string, start: nat, i: nat)
    requires start <= |value| && i < |TagsFrom(value, start)|
    ensures var toks := TagsFrom(value, start);
      TagAt(value, if i == 0 then start else toks[i - 1].close + 1, toks[i].open, toks[i].close)
    decreases i
  {
    var (open, close) := NextTag(value, start).value;
    if i == 0 {
      NextTagFirst(value, start);
    } else {
      TagsFromAreTags(value, close + 1, i - 1);
      var toks := TagsFrom(value, start);
      assert toks[1..] == TagsFrom(value, close + 1);
    }
  }

  /** Every later tag opens after the first tag's `>`. */
  lemma {:induction false} TagsFromOrdered(value: string, start: nat)
    requires start <= |value|
    ensures var toks := TagsFrom(value, start);
      forall i :: 0 < i < |toks| ==> toks[0].close < toks[i].open
  {
    var toks := TagsFrom(value, start);
    if toks != [] {
      TagsFromStep(value, start);
      assert forall i :: 0 < i < |toks| ==> toks[i] == toks[1..][i - 1];
    }
  }

  /** Each tag of the list is classified by the text between its `<` and `>`. */
  lemma {:induction false} TagsFromKinds(value: string, start: nat, i: nat)
    requires start <= |value| && i < |TagsFrom(value, start)|
    ensures var toks := TagsFrom(value, start);
      toks[i].kind == TagKindAt(value, toks[i].open, toks[i].close)
    decreases i
  {
    TagsFromStep(value, start);
    if i > 0 {
      var close := NextTag(value, start).value.1;
      TagsFromKinds(value, close + 1, i - 1);
      var toks := TagsFrom(value, start);
      assert toks[i] == TagsFrom(value, close + 1)[i - 1];
    }
  }

  /**
   * The search for the tag closing `key` meets a tag of the given kind at the
   * given depth: `None` when it is the tag sought, else the depth to go on at.
   */
  function Step(kind: TagKind, key: string, depth: nat): Option<nat> {
    match kind
    case SelfClosingTag => Some(depth)
    case ClosingOf(name) =>
      if name != key then Some(depth)
      else if depth == 0 then None
      else Some(depth - 1)
    case OpeningOf(name) => if name == key then Some(depth + 1) else Some(depth)
  }

  /**
   * The tag that closes `key` at the given depth: a self-closing tag is
   * skipped, a tag opening `key` goes one level deeper, and a tag closing
   * `key` ends the search at depth 0 and goes one level up otherwise.
   */
  function ClosingIn(toks: seq<Tok>, key: string, depth: nat): (r: Option<Tok>)
    ensures r.Some? ==> r.value.kind == ClosingOf(key)
  {
    if toks == [] then None
    else match Step(toks[0].kind, key, depth)
      case None => Some(toks[0])
      case Some(d) => ClosingIn(toks[1..], key, d)
  }

  /** The tag found is one of the tags. */
  lemma {:induction false} ClosingInMember(toks: seq<Tok>, key: string, depth: nat)
    requires ClosingIn(toks, key, depth).Some?
    ensures ClosingIn(toks, key, depth).value in toks
  {
    if Step(toks[0].kind, key, depth).Some? {
      ClosingInMember(toks[1..], key, Step(toks[0].kind, key, depth).value);
    }
  }

  /** How many more tags open `key` than close it. */
  function Net(toks: seq<Tok>, key: string): int {
    if toks == [] then 0
    else
      var last := toks[|toks| - 1].kind;
      Net(toks[..|toks| - 1], key) + (if last == OpeningOf(key) then 1 else if last == ClosingOf(key) then -1 else 0)
  }

  lemma {:induction false} NetFirst(toks: seq<Tok>, key: string, n: nat)
    requires 0 < n <= |toks|
    ensures Net(toks[..n], key) == Net([toks[0]], key) + Net(toks[1..][..n - 1], key)
  {
    if n > 1 {
      NetFirst(toks, key, n - 1);
      assert toks[..n][..n - 1] == toks[..n - 1];
      assert toks[1..][..n - 1][..n - 2] == toks[1..][..n - 2];
    } else {
      assert toks[..1] == [toks[0]];
      assert toks[1..][..0] == [];
    }
  }

  /**
   * The matching closing tag: `key` is closed at tag `i` when, counting from
   * `depth` open levels, the tags before `i` leave none open, and every earlier
   * tag closing `key` still had a level open to close.
   */
  lemma {:induction false} ClosingInFinds(toks: seq<Tok>, key: string, depth: nat, i: nat)
    requires i < |toks| && toks[i].kind == ClosingOf(key)
    requires depth + Net(toks[..i], key) == 0
    requires forall j :: 0 <= j < i && toks[j].kind == ClosingOf(key) ==> depth + Net(toks[..j], key) > 0
    ensures ClosingIn(toks, key, depth) == Some(toks[i])
    decreases i
  {
    assert toks[..0] == [];
    if i > 0 {
      var k := toks[0].kind;
      NetFirst(toks, key, i);
      assert Net([toks[0]], key) == if k == OpeningOf(key) then 1 else if k == ClosingOf(key) then -1 else 0 by {
        assert [toks[0]][..0] == [];
      }
      var d := depth + Net([toks[0]], key);
      assert k == ClosingOf(key) ==> depth > 0 by {
        if k == ClosingOf(key) {
          assert toks[..0] == [];
        }
      }
      assert Step(k, key, depth) == Some(d);
      forall j | 0 <= j < i - 1 && toks[1..][j].kind == ClosingOf(key)
        ensures d + Net(toks[1..][..j], key) > 0
      {
        NetFirst(toks, key, j + 1);
      }
      ClosingInFinds(toks[1..], key, d, i - 1);
    }
  }

  /** The matching closing tag: its key, the text before it and the text after it. */
  datatype ClosingTag = ClosingTag(key: Key, before: string, after: string)

  /** The key of a component named `name`: `comp_name`. */
  function ComponentKey(name: string): (r: Option<Key>)
    ensures r == NewKey("comp_" + name)
  {
    NewKey("comp_" + name)
  }

  /** `find_closing_tag`, specified: none when `comp_key` is not a valid key. */
  function FindClosingTag(value: string, key: string): (r: Option<ClosingTag>)
    ensures r.Some? ==> ComponentKey(key) == Some(r.value.key)
    ensures r.Some? ==> |r.value.before| + |r.value.after| < |value|
    ensures r.Some? ==> r.value.before == value[..|r.value.before|]
    ensures r.Some? ==> r.value.after == value[|value| - |r.value.after|..]
  {
    match ComponentKey(key)
    case None => None
    case Some(k) =>
      match ClosingIn(TagsFrom(value, 0), key, 0)
      case None => None
      case Some(t) =>
        ClosingInBounds(value, key);
        Some(ClosingTag(k, value[..t.open], value[t.close + 1..]))
  }

  /** The tag `ClosingIn` finds lies within the string. */
  lemma ClosingInBounds(value: string, key: string)
    requires ClosingIn(TagsFrom(value, 0), key, 0).Some?
    ensures var t := ClosingIn(TagsFrom(value, 0), key, 0).value; t.open < t.close < |value|
  {
    ClosingInMember(TagsFrom(value, 0), key, 0);
  }

  /** The tag `ClosingIn` finds among the tags of `value` closes `key`. */
  lemma {:induction false} ClosingInIsClosing(value: string, key: string, t: Tok)
    requires ClosingIn(TagsFrom(value, 0), key, 0) == Some(t)
    ensures t.open < t.close < |value| && value[t.open] == '<' && value[t.close] == '>'
    ensures TagKindAt(value, t.open, t.close) == ClosingOf(key)
  {
    var toks := TagsFrom(value, 0);
    ClosingInMember(toks, key, 0);
    var i :| 0 <= i < |toks| && toks[i] == t;
    TagsFromAreTags(value, 0, i);
    TagsFromKinds(value, 0, i);
  }

  /** The text before and after the closing tag found are those of the tag `ClosingIn` finds. */
  lemma {:induction false} FindClosingTagSlices(value: string, key: string)
    requires FindClosingTag(value, key).Some?
    ensures var c := FindClosingTag(value, key).value;
      var t := ClosingIn(TagsFrom(value, 0), key, 0).value;
      t.open < t.close < |value| && c.before == value[..t.open] && c.after == value[t.close + 1..]
  {
    ClosingInBounds(value, key);
  }

  /**
   * `c` is what `</key>` at `open`..`close` gives: a `<` and a `>` around
   * the name, up to whitespace, and the text before the `<` and after the `>`.
   */
  predicate ClosesAt(value: string, c: ClosingTag, key: string, open: nat, close: nat) {
    open < close < |value| && value[open] == '<' && value[close] == '>'
    && c.before == value[..open] && c.after == value[close + 1..]
    && Kind(Trim(value[open + 1..close])) == ClosingOf(key)
  }

  /**
   * The closing tag found is a tag `</key>`, up to whitespace, and the text
   * around it is what comes before its `<` and after its `>`.
   */
  lemma {:induction false} FindClosingTagCloses(value: string, key: string)
    requires FindClosingTag(value, key).Some?
    ensures exists open: nat, close: nat :: ClosesAt(value, FindClosingTag(value, key).value, key, open, close)
  {
    var c := FindClosingTag(value, key).value;
    var t := ClosingIn(TagsFrom(value, 0), key, 0).value;
    ClosingInIsClosing(value, key, t);
    FindClosingTagSlices(value, key);
    TagKindAtIsKind(value, t.open, t.close);
    assert ClosesAt(value, c, key, t.open, t.close);
  }

  /** `FindClosingTag` from its two stages: the key and the tag `ClosingIn` finds. */
  lemma FindClosingTagFound(value: string, key: string, k: Key, t: Tok)
    requires ComponentKey(key) == Some(k) && ClosingIn(TagsFrom(value, 0), key, 0) == Some(t)
    requires t.open < t.close < |value|
    ensures FindClosingTag(value, key) == Some(ClosingTag(k, value[..t.open], value[t.close + 1..]))
  {
    assert FindClosingTag(value, key).Some?;
    FindClosingTagSlices(value, key);
    var c := FindClosingTag(value, key).value;
    assert c.key == k;
    assert c == ClosingTag(k, value[..t.open], value[t.close + 1..]);
  }

  /**
   * The loop of `find_closing_tag`: from each `>` on, the next `<` and the
   * first `>` after it make a tag, and the running depth decides whether it
   * is the one sought.
   */
  method ClosingTagScan(value: string, key: string) returns (r: Option<Tok>)
    ensures r == ClosingIn(TagsFrom(value, 0), key, 0)
  {
    var depth := 0;
    var searchStart := 0;
    while true
      invariant searchStart <= |value|
      invariant ClosingIn(TagsFrom(value, 0), key, 0) == ClosingIn(TagsFrom(value, searchStart), key, depth)
      decreases |value| - searchStart
    {
      var found, openIdx, closeIdx := NextTagScan(value, searchStart);
      if !found {
        ClosingInNoTag(value, searchStart, key, depth);
        return None;
      }
      // the trimmed content between `<` and `>` decides: a self-closing tag
      // is skipped, `</key>` closes at depth 0 and goes up otherwise, and
      // `<key>` goes one level deeper
      var kind := TagKindAt(value, openIdx, closeIdx);
      ClosingInNextTag(value, searchStart, openIdx, closeIdx, kind, key, depth);
      searchStart := closeIdx + 1;
      match Step(kind, key, depth)
      case None =>
        return Some(Tok(openIdx, closeIdx, kind));
      case Some(d) =>
        depth := d;
    }
  }

  /** With no tag left, no tag closes `key`. */
  lemma {:induction false} ClosingInNoTag(value: string, start: nat, key: string, depth: nat)
    requires start <= |value| && NextTag(value, start).None?
    ensures ClosingIn(TagsFrom(value, start), key, depth) == None
  {
  }

  /** The search for the closing tag from `start` decides at the next tag or goes on after it. */
  lemma {:induction false} ClosingInNextTag(value: string, start: nat, open: nat, close: nat, kind: TagKind, key: string, depth: nat)
    requires start <= |value| && NextTag(value, start) == Some((open, close)) && kind == TagKindAt(value, open, close)
    ensures close + 1 <= |value|
    ensures Step(kind, key, depth).None? ==> ClosingIn(TagsFrom(value, start), key, depth) == Some(Tok(open, close, kind))
    ensures Step(kind, key, depth).Some? ==>
      ClosingIn(TagsFrom(value, start), key, depth) == ClosingIn(TagsFrom(value, close + 1), key, Step(kind, key, depth).value)
  {
    TagsFromStep(value, start);
    var toks := TagsFrom(value, start);
    assert toks[0] == Tok(open, close, kind);
    assert toks[1..] == TagsFrom(value, close + 1);
  }

  /** `find_closing_tag`: the key `comp_key` first, then the scan. */
  method FindClosingTagScan(value: string, key: string) returns (r: Option<ClosingTag>)
    ensures r == FindClosingTag(value, key)
  {
    var keyIdent := ComponentKey(key);
    if keyIdent.None? {
      return None;
    }
    var closing := ClosingTagScan(value, key);
    if closing.None? {
      return None;
    }
    var t := closing.value;
    ClosingInBounds(value, key);
    FindClosingTagFound(value, key, keyIdent.value, t);
    return Some(ClosingTag(keyIdent.value, value[..t.open], value[t.close + 1..]));
  }

  /**
   * A component found in a translation: its key, the non-empty text before,
   * between and after its tags, and the raw attribute text.
   */
  datatype ComponentMatch = ComponentMatch(key: Key, before: Option<string>, between: Option<string>, after: Option<string>, attrs: string)

  /** `Some(s)` unless `s` is empty. */
  function NonEmpty(s: string): (r: Option<string>)
    ensures r.Some? <==> s != []
    ensures r.Some? ==> r.value == s
  {
    if s == [] then None else Some(s)
  }

  /**
   * The name and attribute text of a tag's content: split at the first space,
   * the attributes trimmed at the start; none for an empty content.
   */
  function TagName(content: string): (r: Option<(string, string)>)
    ensures r.None? <==> content == []
    ensures r.Some? ==> ' ' !in r.value.0
  {
    match FindChar(content, ' ')
    case Some(i) =>
      assert forall j :: 0 <= j < i ==> content[..i][j] == content[j];
      Some((content[..i], TrimStart(content[i + 1..])))
    case None => if content == [] then None else Some((content, ""))
  }

  /**
   * What the search does at an opening tag: it finds a component (the tag is
   * self-closing, or its closing tag is found), stops (the tag is empty, or a
   * self-closing tag's name is not a valid key), or passes over it.
   */
  datatype TagOutcome = Found(m: ComponentMatch) | Stop | PassOver

  /** The outcome of the search at the tag at `open`..`close`. */
  function ComponentAt(value: string, open: nat, close: nat): (r: TagOutcome)
    requires open < close < |value|
    ensures r.Found? ==> r.m.before == NonEmpty(value[..open])
    ensures r.Found? && r.m.between.Some? ==> |r.m.between.value| < |value|
    ensures r.Found? && r.m.after.Some? ==> |r.m.after.value| < |value|
  {
    var (content, selfClosing) := OpeningAt(value, open, close);
    match TagName(content)
    case None => Stop
    case Some((name, attrs)) =>
      var after := value[close + 1..];
      if selfClosing then
        match ComponentKey(name)
        case None => Stop
        case Some(k) => Found(ComponentMatch(k, NonEmpty(value[..open]), None, NonEmpty(after), attrs))
      else match FindClosingTag(after, name)
        case Some(c) =>
          assert c.after == value[|value| - |c.after|..];
          Found(ComponentMatch(c.key, NonEmpty(value[..open]), NonEmpty(c.before), NonEmpty(c.after), attrs))
        case None => PassOver
  }

  /**
   * The first component among the tags `toks` of `value`: the search stops at
   * the first tag that gives a component or stops it, passing over the others.
   */
  function ComponentIn(value: string, toks: seq<Tok>): (r: Option<ComponentMatch>)
    requires InValue(value, toks)
    ensures r.Some? && r.value.before.Some? ==> |r.value.before.value| < |value|
    ensures r.Some? && r.value.between.Some? ==> |r.value.between.value| < |value|
    ensures r.Some? && r.value.after.Some? ==> |r.value.after.value| < |value|
  {
    if toks == [] then None
    else match ComponentAt(value, toks[0].open, toks[0].close)
      case Found(m) => Some(m)
      case Stop => None
      case PassOver => ComponentIn(value, toks[1..])
  }

  /** `find_valid_component`, specified over the tags of the text. */
  function FindValidComponent(value: string): (r: Option<ComponentMatch>)
    ensures r.Some? && r.value.before.Some? ==> |r.value.before.value| < |value|
    ensures r.Some? && r.value.between.Some? ==> |r.value.between.value| < |value|
    ensures r.Some? && r.value.after.Some? ==> |r.value.after.value| < |value|
  {
    ComponentIn(value, TagsFrom(value, 0))
  }

  /** A text without a `<` has no tag, hence no component. */
  lemma NoTagNoComponent(value: string)
    requires '<' !in value
    ensures FindValidComponent(value) == None
  {
    IndexFromMissing(value, '<', 0);
  }

  /** A character that does not occur is not found from anywhere. */
  lemma {:induction false} IndexFromMissing(value: string, c: char, i: nat)
    requires i <= |value| && c !in value
    ensures IndexFrom(value, c, i) == None
    decreases |value| - i
  {
    if i < |value| {
      IndexFromMissing(value, c, i + 1);
    }
  }

  /** The body of `find_valid_component`'s loop, at the tag at `open`..`close`. */
  method ComponentAtScan(value: string, open: nat, close: nat) returns (r: TagOutcome)
    requires open < close < |value|
    ensures r == ComponentAt(value, open, close)
  {
    var (content, selfClosing) := OpeningAt(value, open, close);
    var name := TagName(content);
    if name.None? {
      return Stop;
    }
    var (key, attrs) := name.value;
    var after := value[close + 1..];
    if selfClosing {
      var keyIdent := ComponentKey(key);
      if keyIdent.None? {
        return Stop;
      }
      return Found(ComponentMatch(keyIdent.value, NonEmpty(value[..open]), None, NonEmpty(after), attrs));
    }
    var closing := FindClosingTagScan(after, key);
    if closing.None? {
      return PassOver;
    }
    var c := closing.value;
    return Found(ComponentMatch(c.key, NonEmpty(value[..open]), NonEmpty(c.before), NonEmpty(c.after), attrs));
  }

  /** The search over the tags from `start` on finds nothing when there is no tag. */
  lemma ComponentInNoTag(value: string, start: nat)
    requires start <= |value| && NextTag(value, start).None?
    ensures ComponentIn(value, TagsFrom(value, start)) == None
  {
  }

  /** The search over the tags from `start` on looks at the next tag first. */
  lemma ComponentInNextTag(value: string, start: nat, open: nat, close: nat)
    requires start <= |value| && NextTag(value, start) == Some((open, close))
    ensures close + 1 <= |value|
    ensures ComponentIn(value, TagsFrom(value, start)) ==
      match ComponentAt(value, open, close)
      case Found(m) => Some(m)
      case Stop => None
      case PassOver => ComponentIn(value, TagsFrom(value, close + 1))
  {
    TagsFromStep(value, start);
    var toks := TagsFrom(value, start);
    assert toks[0] == Tok(open, close, TagKindAt(value, open, close));
    assert toks[1..] == TagsFrom(value, close + 1);
  }

  /** `find_valid_component`: the loop that passes over unclosed tags. */
  /** The next tag from `start`, as `find` locates its `<` and then its `>`. */
  method NextTagScan(value: string, start: nat) returns (found: bool, open: nat, close: nat)
    requires start <= |value|
    ensures found <==> NextTag(value, start).Some?
    ensures found ==> NextTag(value, start) == Some((open, close))
  {
    var tag := NextTag(value, start);
    found := tag.Some?;
    if found {
      open, close := tag.value.0, tag.value.1;
    } else {
      open, close := 0, 0;
    }
  }

  method FindValidComponentScan(value: string) returns (r: Option<ComponentMatch>)
    ensures r == FindValidComponent(value)
  {
    var skipSum := 0;
    while true
      invariant skipSum <= |value|
      invariant FindValidComponent(value) == ComponentIn(value, TagsFrom(value, skipSum))
      decreases |value| - skipSum
    {
      var found, open, close := NextTagScan(value, skipSum);
      if !found {
        ComponentInNoTag(value, skipSum);
        return None;
      }
      ComponentInNextTag(value, skipSum, open, close);
      var outcome := ComponentAtScan(value, open, close);
      match outcome
      case Found(m) =>
        return Some(m);
      case Stop =>
        return None;
      case PassOver =>
        skipSum := close + 1;
    }
  }

  /** Tags passed over do not change what the search finds: it goes on with the tags after them. */
  lemma {:induction false} PassedOverSkipped(value: string, toks: seq<Tok>, i: nat)
    requires InValue(value, toks) && i <= |toks|
    requires forall j :: 0 <= j < i ==> ComponentAt(value, toks[j].open, toks[j].close).PassOver?
    ensures ComponentIn(value, toks) == ComponentIn(value, toks[i..])
    decreases i
  {
    if i > 0 {
      assert ComponentAt(value, toks[0].open, toks[0].close).PassOver?;
      assert forall j :: 0 <= j < i - 1 ==> toks[1..][j] == toks[j + 1];
      assert toks[1..][i - 1..] == toks[i..];
      PassedOverSkipped(value, toks[1..], i - 1);
    }
  }

  /**
   * A self-closing tag is never passed over: it gives a component, with
   * nothing between its tags, exactly when it has a name that makes a valid
   * key, and stops the search otherwise.
   */
  lemma {:induction false} SelfClosingComponent(value: string, open: nat, close: nat)
    requires open < close < |value| && OpeningAt(value, open, close).1
    ensures var r := ComponentAt(value, open, close);
      var name := TagName(OpeningAt(value, open, close).0);
      !r.PassOver?
      && (r.Found? <==> name.Some? && ComponentKey(name.value.0).Some?)
      && (r.Found? ==> r.m.key == ComponentKey(name.value.0).value && r.m.between.None?
                       && r.m.after == NonEmpty(value[close + 1..]))
  {
  }

  /** Every component found among tags opening at or after `lo` has at least `lo` characters before it. */
  lemma {:induction false} ComponentInBefore(value: string, toks: seq<Tok>, lo: nat)
    requires InValue(value, toks) && forall i :: 0 <= i < |toks| ==> lo <= toks[i].open
    requires ComponentIn(value, toks).Some? && lo > 0
    ensures exists open: nat :: lo <= open <= |value| && ComponentIn(value, toks).value.before == Some(value[..open])
  {
    if ComponentAt(value, toks[0].open, toks[0].close).PassOver? {
      ComponentInBefore(value, toks[1..], lo);
    }
  }

  /**
   * The search passes over a tag exactly when it opens a named component
   * whose closing tag is not found in the text after it.
   */
  lemma {:induction false} ComponentAtPassOver(value: string, open: nat, close: nat)
    requires open < close < |value|
    ensures var (content, selfClosing) := OpeningAt(value, open, close);
      ComponentAt(value, open, close).PassOver? <==>
        !selfClosing && TagName(content).Some? && FindClosingTag(value[close + 1..], TagName(content).value.0).None?
  {
  }

  /** A prefix of the text is a prefix of every longer prefix. */
  lemma PrefixOfPrefix(value: string, n: nat, m: nat)
    requires n <= m <= |value|
    ensures value[..n] <= value[..m]
  {
    assert value[..n] == value[..m][..n];
  }

  /**
   * A tag passed over is not lost: the search goes on with the tags after
   * it, and a component found among them has that tag's text in what comes
   * before it.
   */
  lemma {:induction false} UnclosedTagPassedOver(value: string, toks: seq<Tok>)
    requires InValue(value, toks) && toks != [] && ComponentAt(value, toks[0].open, toks[0].close).PassOver?
    requires forall i :: 0 < i < |toks| ==> toks[0].close < toks[i].open
    ensures ComponentIn(value, toks) == ComponentIn(value, toks[1..])
    ensures ComponentIn(value, toks).Some? ==>
      ComponentIn(value, toks).value.before.Some? &&
      value[..toks[0].close + 1] <= ComponentIn(value, toks).value.before.value
  {
    LaterComponentAfterTag(value, toks);
  }

  /** A component found among the tags after the first one has that tag's text before it. */
  lemma LaterComponentAfterTag(value: string, toks: seq<Tok>)
    requires InValue(value, toks) && toks != []
    requires forall i :: 0 < i < |toks| ==> toks[0].close < toks[i].open
    ensures ComponentIn(value, toks[1..]).Some? ==>
      ComponentIn(value, toks[1..]).value.before.Some? &&
      value[..toks[0].close + 1] <= ComponentIn(value, toks[1..]).value.before.value
  {
    var r := ComponentIn(value, toks[1..]);
    if r.Some? {
      ComponentInBefore(value, toks[1..], toks[0].close + 1);
      var open: nat :| toks[0].close + 1 <= open <= |value| && r.value.before == Some(value[..open]);
      PrefixOfPrefix(value, toks[0].close + 1, open);
    }
  }
}
