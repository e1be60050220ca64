/**
 * `ParsedValue::new` of the locale parser (parse_locales/parsed_value.rs): a
 * translation string is split into literal text, `{{ var }}` placeholders,
 * `$t(key, {args})` references to other keys and `<tag>..</tag>` components.
 *
 * The parser's context is a value: the diagnostics it pushes into the sink
 * and the foreign-key registration it makes are returned alongside the
 * result (`Parsed`), in the order they happen.
 */
module Parsing {
  import opened Wrappers
  import opened Text
  import opened Keys
  import opened Diagnostics
  import opened Values
  import opened Tags
  import Formatters

  /** The JSON decoder of a foreign key's `{..}` arguments: the object's entries in key order. */
  type ArgsDecoder = string -> Option<seq<(string, Literal)>>

  predicate ShorterStrings(args: seq<(string, Literal)>, n: nat) {
    forall i :: 0 <= i < |args| && args[i].1.LitString? ==> |args[i].1.s| < n
  }

  /** A decoded string argument is shorter than the JSON text it was read from (its quotes at least are gone). */
  ghost predicate ValidDecoder(decode: ArgsDecoder) {
    forall s {:trigger decode(s)} :: decode(s).Some? ==> ShorterStrings(decode(s).value, |s|)
  }

  /** `Context`: where the value is, the registered formatters and the JSON decoder. */
  datatype Context = Context(locale: Key, keyPath: KeyPath, formatters: map<string, Formatters.Parser>, decode: ArgsDecoder)

  /**
   * The outcome of a parse: the value or the error, the errors pushed into
   * the diagnostics sink on the way, and whether the key path was registered
   * in `ForeignKeysPaths` (which `ForeignKey::new` does).
   */
  datatype Parsed<T> = Parsed(result: Result<T, Error>, emitted: seq<Error>, registered: bool)

  /** What one of the three searches of `new` gives: no match, with what it emitted before giving up, or a parse. */
  datatype Attempt = NoMatch(emitted: seq<Error>) | Match(parsed: Parsed<ParsedValue>)

  /** The message of the `UnexpectedToken` errors of foreign-key arguments. */
  const Malformed: string := "malformed foreign key"

  /** The literal a text stands for when nothing in it parses. */
  function Lit(s: string): ParsedValue {
    LiteralValue(LitString(s, None))
  }

  /** A pattern whose first character does not occur in `s` is not found in it. */
  lemma NoCharNoFind(s: string, pat: string)
    requires pat != [] && pat[0] !in s
    ensures Find(s, pat) == None && SplitOnce(s, pat) == None
  {
  }

  // ---------------------------------------------------------------------
  // Formatter arguments and key paths

  /** One `name: value` (or bare `name`) argument, trimmed. */
  function ArgPair(s: string): (string, Option<string>) {
    match SplitOnce(s, ":")
    case Some((a, b)) => (Trim(a), Some(Trim(b)))
    case None => (Trim(s), None)
  }

  /**
   * `parse_formatter_args`: `name(a: x; b)` gives the trimmed name and the
   * `;`-separated arguments; text without a `(` and a later `)` is a bare
   * name. What follows the last `)` is ignored.
   */
  function ParseFormatterArgs(s: string): (string, Formatters.Args) {
    match SplitOnce(s, "(")
    case None => (Trim(s), [])
    case Some((name, rest)) =>
      match RSplitOnceChar(rest, ')')
      case None => (Trim(s), [])
      case Some((args, _)) =>
        var parts := Split(args, ';');
        (Trim(name), seq(|parts|, i requires 0 <= i < |parts| => ArgPair(parts[i])))
  }

  /** Without a `(`, the whole text is the formatter's name and there are no arguments. */
  lemma ParseFormatterArgsBare(s: string)
    requires '(' !in s
    ensures ParseFormatterArgs(s) == (Trim(s), [])
  {
    NoCharNoFind(s, "(");
  }

  /** The last occurrence of `c` in `x + [c] + y` is the one after `x` when `y` has none. */
  lemma RSplitAfterLast(x: string, c: char, y: string)
    requires c !in y
    ensures RSplitOnceChar(x + [c] + y, c) == Some((x, y))
  {
    var s := x + [c] + y;
    assert s[|x|] == c;
    var i := RFindChar(s, c).value;
    if i < |x| {
      assert false;
    }
    assert s[..|x|] == x && s[|x| + 1..] == y;
  }

  /** `name(args)rest`: the name is trimmed and the arguments are the `;`-separated pieces of `args`. */
  lemma {:induction false} ParseFormatterArgsCall(n: string, args: string, rest: string)
    requires '(' !in n && ')' !in rest
    ensures var (name, parsed) := ParseFormatterArgs(n + "(" + args + ")" + rest);
      name == Trim(n) && |parsed| == |Split(args, ';')|
      && forall i :: 0 <= i < |parsed| ==> parsed[i] == ArgPair(Split(args, ';')[i])
  {
    var s := n + "(" + args + ")" + rest;
    FindAfterPrefix(n, "(", args + ")" + rest);
    assert s == n + "(" + (args + ")" + rest);
    RSplitAfterLast(args, ')', rest);
    assert args + ")" + rest == args + [')'] + rest;
  }

  /** `parse_formatter`: the formatter the registry makes of the placeholder's formatter text. */
  function ParseFormatter(s: string, ctx: Context): (Formatters.ValueFormatter, seq<Error>) {
    var (name, args) := ParseFormatterArgs(s);
    Formatters.ParseIn(ctx.formatters, ctx.locale, ctx.keyPath, name, args)
  }

  /** `f` over every element, stopping at the first that gives `None`. */
  function CollectAll<A, B>(f: A -> Option<B>, xs: seq<A>): Option<seq<B>> {
    if xs == [] then Some([])
    else match f(xs[0])
      case None => None
      case Some(y) =>
        match CollectAll(f, xs[1..])
        case None => None
        case Some(ys) => Some([y] + ys)
  }

  /** Elements that each map to the matching value collect to those values. */
  lemma {:induction false} CollectAllSome<A, B>(f: A -> Option<B>, xs: seq<A>, ys: seq<B>)
    requires |xs| == |ys| && forall i :: 0 <= i < |xs| ==> f(xs[i]) == Some(ys[i])
    ensures CollectAll(f, xs) == Some(ys)
    decreases |xs|
  {
    if xs != [] {
      assert forall i :: 0 <= i < |xs| - 1 ==> f(xs[1..][i]) == Some(ys[1..][i]) by {
        forall i | 0 <= i < |xs| - 1
          ensures f(xs[1..][i]) == Some(ys[1..][i])
        {
          assert xs[1..][i] == xs[i + 1];
        }
      }
      CollectAllSome(f, xs[1..], ys[1..]);
      assert f(xs[0]) == Some(ys[0]);
      assert ys == [ys[0]] + ys[1..];
    }
  }

  /** `Key::new` over every piece, as the loop of `parse_key_path` does: all of them must be keys. */
  function NewKeys(parts: seq<string>): Option<seq<Key>> {
    CollectAll(NewKey, parts)
  }

  /**
   * Collecting succeeds exactly when no element gives `None`, and then holds
   * each element's value in order: one failure anywhere is the whole result.
   */
  lemma {:induction false} CollectAllExact<A, B>(f: A -> Option<B>, xs: seq<A>)
    ensures CollectAll(f, xs).Some? <==> forall i :: 0 <= i < |xs| ==> f(xs[i]).Some?
    ensures CollectAll(f, xs).Some? ==>
              |CollectAll(f, xs).value| == |xs|
              && forall i :: 0 <= i < |xs| ==> f(xs[i]) == Some(CollectAll(f, xs).value[i])
    decreases |xs|
  {
    if xs != [] {
      var t := xs[1..];
      CollectAllExact(f, t);
      assert forall i :: 1 <= i < |xs| ==> xs[i] == t[i - 1];
      if f(xs[0]).Some? && CollectAll(f, t).Some? {
        var ys := CollectAll(f, t).value;
        assert CollectAll(f, xs) == Some([f(xs[0]).value] + ys);
      }
    }
  }

  /**
   * The loop of `parse_key_path`: the pieces make keys exactly when every
   * piece makes a key (one piece that fails, as in `a..b` or `a.1b`, gives
   * none), and then the keys are those of the pieces, in order.
   */
  lemma NewKeysExact(parts: seq<string>)
    ensures NewKeys(parts).Some? <==> forall i :: 0 <= i < |parts| ==> NewKey(parts[i]).Some?
    ensures NewKeys(parts).Some? ==>
              |NewKeys(parts).value| == |parts|
              && forall i :: 0 <= i < |parts| ==> NewKey(parts[i]) == Some(NewKeys(parts).value[i])
  {
    CollectAllExact(NewKey, parts);
  }

  /**
   * `parse_key_path`: an optional `namespace:` prefix (up to the first `:`),
   * then `.`-separated keys; every piece must make a key.
   */
  function ParseKeyPath(path: string): Option<KeyPath> {
    match SplitOnce(path, ":")
    case Some((ns, rest)) =>
      (match NewKey(ns)
       case None => None
       case Some(n) => ParsePath(Some(n), rest))
    case None => ParsePath(None, path)
  }

  /** The `.`-separated keys of a path, in the given namespace. */
  function ParsePath(namespace: Option<Key>, path: string): (r: Option<KeyPath>)
    ensures r.Some? ==> r.value.namespace == namespace
  {
    match NewKeys(Split(path, '.'))
    case None => None
    case Some(ks) => Some(KeyPath(namespace, ks))
  }

  /** The first separator of `a + [c] + b`, when `a` has none, cuts off `a`. */
  lemma SplitCons(a: string, c: char, b: string)
    requires c !in a
    ensures Split(a + [c] + b, c) == [a] + Split(b, c)
  {
    var s := a + [c] + b;
    assert s[|a|] == c;
    assert forall j :: 0 <= j < |a| ==> s[j] == a[j];
    assert FindChar(s, c) == Some(|a|);
    assert s[..|a|] == a && s[|a| + 1..] == b;
  }

  /** Splitting pieces joined by a separator they do not hold gives the pieces back. */
  lemma {:induction false} SplitJoin(parts: seq<string>, c: char)
    requires |parts| >= 1 && forall i :: 0 <= i < |parts| ==> c !in parts[i]
    ensures Split(Join(parts, [c]), c) == parts
    decreases |parts|
  {
    if |parts| == 1 {
      SplitWithout(parts[0], c);
    } else {
      SplitJoin(parts[1..], c);
      SplitCons(parts[0], c, Join(parts[1..], [c]));
      assert parts == [parts[0]] + parts[1..];
    }
  }

  /** Valid key names with no separator in them. */
  predicate PlainKeys(ks: seq<Key>) {
    forall i :: 0 <= i < |ks| ==> NewKey(ks[i].name) == Some(ks[i]) && '.' !in ks[i].name && ':' !in ks[i].name
  }

  /** Pieces that each make the matching key make all those keys. */
  lemma NewKeysAll(parts: seq<string>, ks: seq<Key>)
    requires |parts| == |ks| && forall i :: 0 <= i < |parts| ==> NewKey(parts[i]) == Some(ks[i])
    ensures NewKeys(parts) == Some(ks)
  {
    CollectAllSome(NewKey, parts, ks);
  }

  /** The names of valid keys make those keys again. */
  lemma NewKeysOfNames(ks: seq<Key>)
    requires PlainKeys(ks)
    ensures NewKeys(Names(ks)) == Some(ks)
  {
    NewKeysAll(Names(ks), ks);
  }

  /** A dotted path of plain keys reads back as those keys. */
  lemma ParsePathOfJoin(namespace: Option<Key>, ks: seq<Key>)
    requires |ks| >= 1 && PlainKeys(ks)
    ensures ParsePath(namespace, Join(Names(ks), ['.'])) == Some(KeyPath(namespace, ks))
  {
    NewKeysOfNames(ks);
    PlainNames(ks);
    ParsePathOfPieces(namespace, Names(ks), ks);
  }

  /** The names of plain keys hold no `.` and no `:`. */
  lemma PlainNames(ks: seq<Key>)
    requires PlainKeys(ks)
    ensures forall i :: 0 <= i < |Names(ks)| ==> '.' !in Names(ks)[i] && ':' !in Names(ks)[i]
  {
    var names := Names(ks);
    forall i | 0 <= i < |names|
      ensures '.' !in names[i] && ':' !in names[i]
    {
      assert names[i] == ks[i].name;
    }
  }

  /** Pieces without a `.` that make keys, joined by `.`, read back as those keys. */
  lemma ParsePathOfPieces(namespace: Option<Key>, names: seq<string>, ks: seq<Key>)
    requires |names| >= 1 && (forall i :: 0 <= i < |names| ==> '.' !in names[i]) && NewKeys(names) == Some(ks)
    ensures ParsePath(namespace, Join(names, ['.'])) == Some(KeyPath(namespace, ks))
  {
    var path := Join(names, ['.']);
    SplitJoin(names, '.');
    ParsePathOfSplit(namespace, path, names, ks);
  }

  /** A path whose `.`-pieces make keys reads back as those keys. */
  lemma ParsePathOfSplit(namespace: Option<Key>, path: string, names: seq<string>, ks: seq<Key>)
    requires Split(path, '.') == names && NewKeys(names) == Some(ks)
    ensures ParsePath(namespace, path) == Some(KeyPath(namespace, ks))
  {
  }

  /** The path `a.b.c` of valid keys reads back as those keys, with no namespace. */
  lemma ParseKeyPathOfJoin(ks: seq<Key>)
    requires |ks| >= 1 && PlainKeys(ks)
    ensures ParseKeyPath(Join(Names(ks), ['.'])) == Some(KeyPath(None, ks))
  {
    ParsePathOfJoin(None, ks);
    PlainNames(ks);
    JoinHasNo(Names(ks), '.', ':');
    ParseKeyPathWithoutNamespace(Join(Names(ks), ['.']));
  }

  /** A path without a `:` has no namespace. */
  lemma ParseKeyPathWithoutNamespace(path: string)
    requires ':' !in path
    ensures ParseKeyPath(path) == ParsePath(None, path)
  {
    NoCharNoFind(path, ":");
  }

  /** The path `ns:a.b.c` of valid keys reads back as those keys in the namespace. */
  lemma ParseKeyPathOfJoinInNamespace(ns: Key, ks: seq<Key>)
    requires |ks| >= 1 && PlainKeys(ks)
    requires NewKey(ns.name) == Some(ns) && ':' !in ns.name
    ensures ParseKeyPath(ns.name + ":" + Join(Names(ks), ['.'])) == Some(KeyPath(Some(ns), ks))
  {
    ParsePathOfJoin(Some(ns), ks);
    FindAfterPrefix(ns.name, ":", Join(Names(ks), ['.']));
  }

  /** A join holds no character that neither its pieces nor its separator hold. */
  lemma {:induction false} JoinHasNo(parts: seq<string>, sep: char, c: char)
    requires sep != c && forall i :: 0 <= i < |parts| ==> c !in parts[i]
    ensures c !in Join(parts, [sep])
    decreases |parts|
  {
    if |parts| > 1 {
      JoinHasNo(parts[1..], sep, c);
    }
  }

  // ---------------------------------------------------------------------
  // Foreign-key arguments

  /**
   * Where the `{..}` argument object of a foreign key ends, scanning from `i`
   * at brace depth `depth`: the index of the `}` that brings the depth back
   * to zero, `Err` at a `}` that closes nothing, `None` when the text ends
   * first.
   */
  function ArgsEnd(s: string, i: nat, depth: nat): (r: Result<Option<nat>, ()>)
    requires i <= |s|
    ensures r.Ok? && r.value.Some? ==> i <= r.value.value < |s| && s[r.value.value] == '}'
    decreases |s| - i
  {
    if i == |s| then Ok(None)
    else if s[i] == '{' then ArgsEnd(s, i + 1, depth + 1)
    else if s[i] == '}' then
      if depth == 0 then Err(())
      else if depth == 1 then Ok(Some(i))
      else ArgsEnd(s, i + 1, depth - 1)
    else ArgsEnd(s, i + 1, depth)
  }

  /** The loop of `parse_foreign_key_args` over the characters, tracking the depth. */
  method ArgsEndScan(s: string) returns (r: Result<Option<nat>, ()>)
    ensures r == ArgsEnd(s, 0, 0)
  {
    var depth := 0;
    var i := 0;
    while i < |s|
      invariant i <= |s|
      invariant ArgsEnd(s, i, depth) == ArgsEnd(s, 0, 0)
    {
      if s[i] == '{' {
        depth := depth + 1;
      } else if s[i] == '}' {
        if depth == 0 {
          return Err(());
        }
        depth := depth - 1;
        if depth == 0 {
          return Ok(Some(i));
        }
      }
      i := i + 1;
    }
    return Ok(None);
  }

  /**
   * At depth zero the scan fails exactly when the first brace it meets is a
   * `}`: a `}` without an open `{`.
   */
  lemma {:induction false} ArgsEndUnbalanced(s: string, i: nat)
    requires i <= |s|
    ensures ArgsEnd(s, i, 0).Err? <==> exists k :: i <= k < |s| && s[k] == '}' && forall j :: i <= j < k ==> s[j] != '{' && s[j] != '}'
    decreases |s| - i
  {
    if i < |s| && s[i] != '{' && s[i] != '}' {
      ArgsEndUnbalanced(s, i + 1);
      if ArgsEnd(s, i + 1, 0).Err? {
        var k :| i + 1 <= k < |s| && s[k] == '}' && forall j :: i + 1 <= j < k ==> s[j] != '{' && s[j] != '}';
        assert forall j :: i <= j < k ==> s[j] != '{' && s[j] != '}';
      }
    } else if i < |s| && s[i] == '{' {
      assert ArgsEnd(s, i, 0) == ArgsEnd(s, i + 1, 1);
      ArgsEndNeverFailsInside(s, i + 1, 1);
    }
  }

  /** Inside an open `{` the scan never fails. */
  lemma {:induction false} ArgsEndNeverFailsInside(s: string, i: nat, depth: nat)
    requires i <= |s| && depth >= 1
    ensures ArgsEnd(s, i, depth).Ok?
    decreases |s| - i
  {
    if i < |s| {
      if s[i] == '{' {
        ArgsEndNeverFailsInside(s, i + 1, depth + 1);
      } else if s[i] == '}' {
        if depth > 1 {
          ArgsEndNeverFailsInside(s, i + 1, depth - 1);
        }
      } else {
        ArgsEndNeverFailsInside(s, i + 1, depth);
      }
    }
  }

  /**
   * The argument object and the text after the `)` that must follow it
   * (spaces allowed before it). A `}` closing nothing, an object that is
   * never closed, or a missing `)` are all `UnexpectedToken`.
   */
  function SplitArgs(s: string, ctx: Context): (r: Result<(string, string), Error>)
    ensures r.Err? ==> r.error == UnexpectedToken(ctx.locale, ctx.keyPath, Malformed)
    ensures r.Ok? <==> ArgsEnd(s, 0, 0).Ok? && ArgsEnd(s, 0, 0).value.Some?
                       && StartsWith(TrimStart(s[ArgsEnd(s, 0, 0).value.value + 1..]), ")")
    ensures r.Ok? ==> var j := ArgsEnd(s, 0, 0).value.value;
                      r.value.0 == s[..j + 1] && TrimStart(s[j + 1..]) == ")" + r.value.1
    ensures r.Ok? ==> |r.value.0| <= |s| && |r.value.1| < |s|
  {
    match ArgsEnd(s, 0, 0)
    case Err(_) => Err(UnexpectedToken(ctx.locale, ctx.keyPath, Malformed))
    case Ok(None) => Err(UnexpectedToken(ctx.locale, ctx.keyPath, Malformed))
    case Ok(Some(j)) =>
      match StripPrefix(TrimStart(s[j + 1..]), ")")
      case None => Err(UnexpectedToken(ctx.locale, ctx.keyPath, Malformed))
      case Some(after) => Ok((s[..j + 1], after))
  }

  /** The number of UTF-8 bytes of a character. */
  function Utf8Len(c: char): nat {
    if c as int < 0x80 then 1 else if c as int < 0x800 then 2 else if c as int < 0x1_0000 then 3 else 4
  }

  /**
   * `parse_foreign_key_args` before the decoding, as written: when no `}`
   * closes the object the split index stays 0, so `split_at(1)` panics on an
   * empty text or one whose first character takes several bytes, and
   * otherwise cuts after the first character.
   */
  function SplitArgsAsWritten(s: string, ctx: Context): Result<(string, string), Error> {
    match ArgsEnd(s, 0, 0)
    case Err(_) => Err(UnexpectedToken(ctx.locale, ctx.keyPath, Malformed))
    case Ok(found) =>
      var index := if found.Some? then found.value else 0;
      if index + 1 > |s| || Utf8Len(s[index]) > 1 then Err(Panic("split_at"))
      else
        match StripPrefix(TrimStart(s[index + 1..]), ")")
        case None => Err(UnexpectedToken(ctx.locale, ctx.keyPath, Malformed))
        case Some(after) => Ok((s[..index + 1], after))
  }

  /** As written, arguments that stop before any character (`$t(key,` at the end of the text) make the parser panic. */
  lemma SplitArgsAsWrittenPanics(ctx: Context)
    ensures SplitArgsAsWritten("", ctx) == Err(Panic("split_at"))
  {
  }

  /** As written, an unclosed object whose first character is not ASCII makes the parser panic too. */
  lemma SplitArgsAsWrittenPanicsOnWideChar(s: string, ctx: Context)
    requires |s| >= 1 && s[0] as int >= 0x80 && '}' !in s
    ensures SplitArgsAsWritten(s, ctx) == Err(Panic("split_at"))
  {
    assert ArgsEnd(s, 0, 0).Ok? && ArgsEnd(s, 0, 0).value.None? by {
      ArgsEndNoClose(s, 0, 0);
    }
  }

  /**
   * As written, an unclosed object whose first character is ASCII is cut
   * after that character: `$t(k,x)` decodes `x` alone and, as `x` is no JSON
   * object, reports `InvalidForeignKeyArgs`; corrected, it is `UnexpectedToken`.
   */
  lemma SplitArgsAsWrittenCutsUnclosed(s: string, ctx: Context)
    requires ValidDecoder(ctx.decode)
    requires |s| >= 1 && s[0] as int < 0x80 && '}' !in s && StartsWith(TrimStart(s[1..]), ")")
    ensures SplitArgsAsWritten(s, ctx).Ok? && SplitArgsAsWritten(s, ctx).value.0 == s[..1]
    ensures ctx.decode(s[..1]).None? ==>
              ParseForeignKeyArgsAsWritten(s, ctx).result == Err(InvalidForeignKeyArgs(ctx.locale, ctx.keyPath))
    ensures SplitArgs(s, ctx) == Err(UnexpectedToken(ctx.locale, ctx.keyPath, Malformed))
    ensures ParseForeignKeyArgs(s, ctx).result == Err(UnexpectedToken(ctx.locale, ctx.keyPath, Malformed))
  {
    ArgsEndNoClose(s, 0, 0);
  }

  /** Without a `}` the scan reaches the end. */
  lemma {:induction false} ArgsEndNoClose(s: string, i: nat, depth: nat)
    requires i <= |s| && '}' !in s
    ensures ArgsEnd(s, i, depth) == Ok(None)
    decreases |s| - i
  {
    if i < |s| {
      ArgsEndNoClose(s, i + 1, if s[i] == '{' then depth + 1 else depth);
    }
  }

  /** Where the two agree: once a closing `}` is found, the corrected split is the written one. */
  lemma SplitArgsAgree(s: string, ctx: Context)
    requires ArgsEnd(s, 0, 0).Ok? && ArgsEnd(s, 0, 0).value.Some?
    ensures SplitArgs(s, ctx) == SplitArgsAsWritten(s, ctx)
  {
  }

  // ---------------------------------------------------------------------
  // The parser

  /** The key an argument is passed under: `var_` and the trimmed JSON key. */
  function ArgName(key: string): string {
    "var_" + Trim(key)
  }

  /** The items a parse contributes to a component's bloc: a bloc's items, any other value alone. */
  function Items(v: ParsedValue): seq<ParsedValue> {
    if v.Bloc? then v.values else [v]
  }

  /** `parse_attributes`: no attribute text gives no attributes; attribute text is not supported yet (`todo!`). */
  function ParseAttributes(attrs: string): (r: Result<seq<Attribute>, Error>)
    ensures r.Ok? <==> attrs == []
    ensures r.Ok? ==> r.value == []
  {
    if attrs == [] then Ok([]) else Err(Panic("parse_attributes"))
  }

  /**
   * `Bloc[before, found, after]` once `prior` is done: `before` is parsed,
   * then `after`; the first error wins.
   */
  function Around(prior: seq<Error>, registered: bool, before: Parsed<ParsedValue>, found: ParsedValue, after: Parsed<ParsedValue>): (r: Parsed<ParsedValue>)
    ensures r.result.Ok? <==> before.result.Ok? && after.result.Ok?
    ensures r.result.Ok? ==> r.result.value == Bloc([before.result.value, found, after.result.value])
    ensures r.registered == (registered || before.registered || (before.result.Ok? && after.registered))
  {
    if before.result.Err? then Parsed(Err(before.result.error), prior + before.emitted, registered || before.registered)
    else if after.result.Err? then Parsed(Err(after.result.error), prior + before.emitted + after.emitted, registered || before.registered || after.registered)
    else Parsed(Ok(Bloc([before.result.value, found, after.result.value])), prior + before.emitted + after.emitted, registered || before.registered || after.registered)
  }

  /**
   * The bloc `find_component` builds once the text around the component is
   * parsed: the items before it, the component with its inner value and
   * attributes, and the items of what follows; the first error wins.
   */
  function ComponentBloc(before: Parsed<seq<ParsedValue>>, m: ComponentMatch, inner: Option<Parsed<ParsedValue>>, after: Option<Parsed<ParsedValue>>): (r: Parsed<ParsedValue>)
    ensures r.result.Ok? <==> before.result.Ok? && (inner.Some? ==> inner.value.result.Ok?) && m.attrs == []
                              && (after.Some? ==> after.value.result.Ok?)
    ensures r.result.Ok? ==> r.result.value.Bloc? && |r.result.value.values| > |before.result.value|
                             && r.result.value.values[..|before.result.value|] == before.result.value
    ensures r.result.Ok? ==>
              r.result.value == Bloc(before.result.value + [Component(m.key, if inner.Some? then Some(inner.value.result.value) else None, [])]
                                     + (if after.Some? then Items(after.value.result.value) else []))
              && r.registered == (before.registered || (inner.Some? && inner.value.registered) || (after.Some? && after.value.registered))
  {
    if before.result.Err? then Parsed(Err(before.result.error), before.emitted, before.registered)
    else
      var emitted := before.emitted + (if inner.Some? then inner.value.emitted else []);
      var registered := before.registered || (inner.Some? && inner.value.registered);
      if inner.Some? && inner.value.result.Err? then Parsed(Err(inner.value.result.error), emitted, registered)
      else match ParseAttributes(m.attrs)
        case Err(e) => Parsed(Err(e), emitted, registered)
        case Ok(attributes) =>
          var comp := Component(m.key, if inner.Some? then Some(inner.value.result.value) else None, attributes);
          if after.None? then Parsed(Ok(Bloc(before.result.value + [comp])), emitted, registered)
          else if after.value.result.Err? then Parsed(Err(after.value.result.error), emitted + after.value.emitted, registered || after.value.registered)
          else Parsed(Ok(Bloc(before.result.value + [comp] + Items(after.value.result.value))), emitted + after.value.emitted, registered || after.value.registered)
  }

  /**
   * `find_valid_variable` once the placeholder's text is cut out: `name,
   * formatter` parses the formatter first (its errors are pushed even when
   * the name then makes no key); the key is `var_` and the trimmed name.
   */
  function ValidVariable(ident: string, ctx: Context): (Option<ParsedValue>, seq<Error>) {
    match SplitOnce(ident, ",")
    case Some((name, fmt)) =>
      var (formatter, errs) := ParseFormatter(fmt, ctx);
      (match NewKey("var_" + Trim(name))
       case None => (None, errs)
       case Some(k) => (Some(Variable(k, formatter)), errs))
    case None =>
      match NewKey("var_" + ident)
      case None => (None, [])
      case Some(k) => (Some(Variable(k, Formatters.NoFormatter)), [])
  }

  /** Where `find_valid_variable` cuts a text: before the first `{{`, up to the next `}}`, and after it. */
  datatype VariableSite = VariableSite(before: string, ident: string, after: string)

  /** The `{{ .. }}` placeholder of a text, if it has one; the text around it is shorter than the text. */
  function LocateVariable(value: string): (r: Option<VariableSite>)
    ensures r.Some? ==> |r.value.before| < |value| && |r.value.after| < |value|
  {
    match SplitOnce(value, "{{")
    case None => None
    case Some((before, rest)) =>
      match SplitOnce(rest, "}}")
      case None => None
      case Some((ident, after)) => Some(VariableSite(before, ident, after))
  }

  /** Where `find_foreign_key` cuts a text: before `$t(`, the key path, whether a `,` (rather than a `)`) ends it, and the text after that. */
  datatype ForeignKeySite = ForeignKeySite(before: string, target: KeyPath, withArgs: bool, tail: string)

  /**
   * The `$t(path` of a text, if it has one whose path parses: the path runs
   * from the first `$t(` to the first `,` or `)` after it.
   */
  function LocateForeignKey(value: string): (r: Option<ForeignKeySite>)
    ensures r.Some? ==> |r.value.before| < |value| && |r.value.tail| < |value|
  {
    match SplitOnce(value, "$t(")
    case None => None
    case Some((before, rest)) =>
      match FindEither(rest, ',', ')')
      case None => None
      case Some(i) =>
        match ParseKeyPath(rest[..i])
        case None => None
        case Some(target) => Some(ForeignKeySite(before, target, rest[i] == ',', rest[i + 1..]))
  }

  /** The items of a parse, as the component's bloc takes them. */
  function ItemsOf(p: Parsed<ParsedValue>): (r: Parsed<seq<ParsedValue>>)
    ensures r.emitted == p.emitted && r.registered == p.registered
    ensures r.result.Ok? <==> p.result.Ok?
  {
    Parsed(if p.result.Ok? then Ok(Items(p.result.value)) else Err(p.result.error), p.emitted, p.registered)
  }

  /**
   * `ParsedValue::new`: a component if there is one, else a foreign key,
   * else a variable, else the whole text as one literal.
   */
  function New(value: string, ctx: Context): (r: Parsed<ParsedValue>)
    requires ValidDecoder(ctx.decode)
    ensures r.result.Ok? ==> r.result.value.Bloc? || r.result.value == Lit(value)
    decreases |value|, 4
  {
    match FindComponent(value, ctx)
    case Match(p) => p
    case NoMatch(_) =>
      match FindForeignKey(value, ctx)
      case Match(p) => p
      case NoMatch(_) =>
        match FindVariable(value, ctx)
        case Match(p) => p
        case NoMatch(errs) => Parsed(Ok(Lit(value)), errs, false)
  }

  /** `find_component`, with the text before the component parsed like the rest. */
  function FindComponent(value: string, ctx: Context): (r: Attempt)
    requires ValidDecoder(ctx.decode)
    ensures r.NoMatch? ==> r.emitted == []
    ensures r.Match? && r.parsed.result.Ok? ==> r.parsed.result.value.Bloc?
    decreases |value|, 3
  {
    match FindValidComponent(value)
    case None => NoMatch([])
    case Some(m) =>
      var before := if m.before.Some? then ItemsOf(New(m.before.value, ctx)) else Parsed(Ok([]), [], false);
      var inner := if m.between.Some? then Some(New(m.between.value, ctx)) else None;
      var after := if m.after.Some? then Some(New(m.after.value, ctx)) else None;
      Match(ComponentBloc(before, m, inner, after))
  }

  /** `find_foreign_key`: `$t(path)` or `$t(path, {args})`, with the text around it parsed. */
  function FindForeignKey(value: string, ctx: Context): (r: Attempt)
    requires ValidDecoder(ctx.decode)
    ensures r.NoMatch? ==> r.emitted == []
    ensures r.Match? && r.parsed.result.Ok? ==> r.parsed.result.value.Bloc? && r.parsed.registered
    decreases |value|, 3
  {
    match LocateForeignKey(value)
    case None => NoMatch([])
    case Some(site) =>
      if site.withArgs then
        var a := ParseForeignKeyArgs(site.tail, ctx);
        match a.result
        case Err(e) => Match(Parsed(Err(e), a.emitted, a.registered))
        case Ok((args, after)) =>
          Match(Around(a.emitted, true, New(site.before, ctx), ForeignKeyValue(NotSet(site.target, args)), New(after, ctx)))
      else
        Match(Around([], true, New(site.before, ctx), ForeignKeyValue(NotSet(site.target, map[])), New(site.tail, ctx)))
  }

  /** `find_variable`: `{{ name }}` or `{{ name, formatter }}`, with the text around it parsed. */
  function FindVariable(value: string, ctx: Context): (r: Attempt)
    requires ValidDecoder(ctx.decode)
    ensures r.Match? && r.parsed.result.Ok? ==> r.parsed.result.value.Bloc? && |r.parsed.result.value.values| == 3
    decreases |value|, 3
  {
    match LocateVariable(value)
    case None => NoMatch([])
    case Some(site) =>
      match ValidVariable(Trim(site.ident), ctx)
      case (None, errs) => NoMatch(errs)
      case (Some(found), errs) => Match(Around(errs, false, New(site.before, ctx), found, New(site.after, ctx)))
  }

  /**
   * `parse_foreign_key_args`: the argument object, then the `)`, then the
   * object decoded; gives the arguments and the text after the `)`.
   */
  function ParseForeignKeyArgs(s: string, ctx: Context): (r: Parsed<(map<string, ParsedValue>, string)>)
    requires ValidDecoder(ctx.decode)
    ensures r.result.Ok? ==> |r.result.value.1| < |s|
    decreases |s|, 2
  {
    match SplitArgs(s, ctx)
    case Err(e) => Parsed(Err(e), [], false)
    case Ok((obj, after)) =>
      var p := ParseArgsObject(obj, ctx);
      Parsed(if p.result.Ok? then Ok((p.result.value, after)) else Err(p.result.error), p.emitted, p.registered)
  }

  /**
   * `parse_foreign_key_args_inner`: a text that does not decode is
   * `InvalidForeignKeyArgs`; string arguments are parsed, the others kept.
   */
  function ParseArgsObject(obj: string, ctx: Context): (r: Parsed<map<string, ParsedValue>>)
    requires ValidDecoder(ctx.decode)
    ensures ctx.decode(obj).None? ==> r == Parsed(Err(InvalidForeignKeyArgs(ctx.locale, ctx.keyPath)), [], false)
    ensures r.result.Ok? ==> ctx.decode(obj).Some?
                             && r.result.value.Keys == set j | 0 <= j < |ctx.decode(obj).value| :: ArgName(ctx.decode(obj).value[j].0)
    decreases |obj|, 1
  {
    match ctx.decode(obj)
    case None => Parsed(Err(InvalidForeignKeyArgs(ctx.locale, ctx.keyPath)), [], false)
    case Some(entries) => ParseArgValues(|obj|, entries, 0, map[], [], false, ctx)
  }

  /**
   * The loop of `parse_foreign_key_args_inner` from the `i`-th entry on, its
   * string arguments shorter than `bound`; a later key overwrites an earlier
   * one.
   */
  function ParseArgValues(bound: nat, entries: seq<(string, Literal)>, i: nat, acc: map<string, ParsedValue>,
                          emitted: seq<Error>, registered: bool, ctx: Context): (r: Parsed<map<string, ParsedValue>>)
    requires ValidDecoder(ctx.decode) && ShorterStrings(entries, bound) && i <= |entries|
    ensures r.result.Ok? ==> r.result.value.Keys == acc.Keys + set j | i <= j < |entries| :: ArgName(entries[j].0)
    decreases bound, 0, |entries| - i
  {
    if i == |entries| then Parsed(Ok(acc), emitted, registered)
    else
      var (key, arg) := entries[i];
      if arg.LitString? then
        var p := New(arg.s, ctx);
        if p.result.Err? then Parsed(Err(p.result.error), emitted + p.emitted, registered || p.registered)
        else ParseArgValues(bound, entries, i + 1, acc[ArgName(key) := p.result.value], emitted + p.emitted, registered || p.registered, ctx)
      else ParseArgValues(bound, entries, i + 1, acc[ArgName(key) := LiteralValue(arg)], emitted, registered, ctx)
  }

  /** `parse_foreign_key_args` as written, with the panicking split. */
  function ParseForeignKeyArgsAsWritten(s: string, ctx: Context): Parsed<(map<string, ParsedValue>, string)>
    requires ValidDecoder(ctx.decode)
  {
    match SplitArgsAsWritten(s, ctx)
    case Err(e) => Parsed(Err(e), [], false)
    case Ok((obj, after)) =>
      var p := ParseArgsObject(obj, ctx);
      Parsed(if p.result.Ok? then Ok((p.result.value, after)) else Err(p.result.error), p.emitted, p.registered)
  }

  /** `find_component` as written: the text before the component is kept as one literal, unparsed. */
  function FindComponentAsWritten(value: string, ctx: Context): Attempt
    requires ValidDecoder(ctx.decode)
  {
    match FindValidComponent(value)
    case None => NoMatch([])
    case Some(m) =>
      var before := Parsed(Ok(if m.before.Some? then [Lit(m.before.value)] else []), [], false);
      var inner := if m.between.Some? then Some(New(m.between.value, ctx)) else None;
      var after := if m.after.Some? then Some(New(m.after.value, ctx)) else None;
      Match(ComponentBloc(before, m, inner, after))
  }

  // ---------------------------------------------------------------------
  // What `new` makes of a text

  /** Text in which none of the three searches can start: no `<`, no `$` and no `{`. */
  predicate Plain(s: string) {
    '<' !in s && '$' !in s && '{' !in s
  }

  /** Without a valid component, `find_component` gives up without a word. */
  lemma FindComponentNone(value: string, ctx: Context)
    requires ValidDecoder(ctx.decode) && FindValidComponent(value) == None
    ensures FindComponent(value, ctx) == NoMatch([])
  {
  }

  /** Without a `$t(` whose path parses, `find_foreign_key` gives up without a word. */
  lemma FindForeignKeyNone(value: string, ctx: Context)
    requires ValidDecoder(ctx.decode) && LocateForeignKey(value) == None
    ensures FindForeignKey(value, ctx) == NoMatch([])
  {
  }

  /** Without a `{{ .. }}`, `find_variable` gives up without a word. */
  lemma FindVariableNone(value: string, ctx: Context)
    requires ValidDecoder(ctx.decode) && LocateVariable(value) == None
    ensures FindVariable(value, ctx) == NoMatch([])
  {
  }

  /** A text in which no search matches is one literal, with what the variable search emitted. */
  lemma NewLiteral(value: string, ctx: Context, errs: seq<Error>)
    requires ValidDecoder(ctx.decode)
    requires FindComponent(value, ctx).NoMatch? && FindForeignKey(value, ctx).NoMatch?
    requires FindVariable(value, ctx) == NoMatch(errs)
    ensures New(value, ctx) == Parsed(Ok(Lit(value)), errs, false)
  {
  }

  /** No `$t(`, no foreign key. */
  lemma LocateForeignKeyMissing(value: string)
    requires Find(value, "$t(").None?
    ensures LocateForeignKey(value) == None
  {
  }

  /** No `{{`, no placeholder. */
  lemma LocateVariableMissing(value: string)
    requires Find(value, "{{").None?
    ensures LocateVariable(value) == None
  {
  }

  /** A text without a tag, a `$t(` or a `{{` is one literal, and parsing it emits nothing. */
  lemma NewPlainText(value: string, ctx: Context)
    requires ValidDecoder(ctx.decode)
    requires '<' !in value && Find(value, "$t(").None? && Find(value, "{{").None?
    ensures New(value, ctx) == Parsed(Ok(Lit(value)), [], false)
  {
    NoTagNoComponent(value);
    FindComponentNone(value, ctx);
    LocateForeignKeyMissing(value);
    FindForeignKeyNone(value, ctx);
    LocateVariableMissing(value);
    FindVariableNone(value, ctx);
    NewLiteral(value, ctx, []);
  }

  /** Plain text is one literal. */
  lemma NewPlain(value: string, ctx: Context)
    requires ValidDecoder(ctx.decode) && Plain(value)
    ensures New(value, ctx) == Parsed(Ok(Lit(value)), [], false)
  {
    NoCharNoFind(value, "$t(");
    NoCharNoFind(value, "{{");
    NewPlainText(value, ctx);
  }

  /** Regrouping the five parts of a text cut around a marker. */
  lemma Regroup(b: string, m: string, x: string, c: string, a: string)
    ensures b + m + x + c + a == b + m + (x + c + a)
  {
  }

  /** `b{{v}}a` is cut at its placeholder when `b` has no `{` and `v` no `}`. */
  lemma LocateVariableOf(b: string, v: string, a: string)
    requires '{' !in b && '}' !in v
    ensures LocateVariable(b + "{{" + v + "}}" + a) == Some(VariableSite(b, v, a))
  {
    FindAfterPrefix(v, "}}", a);
    Regroup(b, "{{", v, "}}", a);
    FindAfterPrefix(b, "{{", v + "}}" + a);
  }

  /** How the searches see `b{{v}}a` around plain text: no component, no foreign key, and this placeholder. */
  lemma VariableTextCut(b: string, v: string, a: string)
    requires Plain(b) && Plain(a) && '<' !in v && '$' !in v && '}' !in v
    ensures var value := b + "{{" + v + "}}" + a;
      FindValidComponent(value) == None && LocateForeignKey(value) == None && LocateVariable(value) == Some(VariableSite(b, v, a))
  {
    var value := b + "{{" + v + "}}" + a;
    assert '<' !in value && '$' !in value;
    NoTagNoComponent(value);
    NoCharNoFind(value, "$t(");
    LocateForeignKeyMissing(value);
    LocateVariableOf(b, v, a);
  }

  /** A placeholder without a formatter whose name makes `var_name` a key is that variable, with nothing emitted. */
  lemma ValidVariablePlain(v: string, k: Key, ctx: Context)
    requires ',' !in v && NewKey("var_" + Trim(v)) == Some(k)
    ensures ValidVariable(Trim(v), ctx) == (Some(Variable(k, Formatters.NoFormatter)), [])
  {
    TrimKeepsChar(v, ',');
    NoCharNoFind(Trim(v), ",");
  }

  /** A valid placeholder makes `find_variable` parse the text around it. */
  lemma FindVariableMatch(value: string, ctx: Context, site: VariableSite, found: ParsedValue, errs: seq<Error>)
    requires ValidDecoder(ctx.decode)
    requires LocateVariable(value) == Some(site) && ValidVariable(Trim(site.ident), ctx) == (Some(found), errs)
    ensures FindVariable(value, ctx) == Match(Around(errs, false, New(site.before, ctx), found, New(site.after, ctx)))
  {
  }

  /** With no component and no foreign key, the variable search decides. */
  lemma NewByVariable(value: string, ctx: Context, p: Parsed<ParsedValue>)
    requires ValidDecoder(ctx.decode)
    requires FindComponent(value, ctx).NoMatch? && FindForeignKey(value, ctx).NoMatch?
    requires FindVariable(value, ctx) == Match(p)
    ensures New(value, ctx) == p
  {
  }

  /**
   * `before {{ v }} after`, plain around a placeholder without a formatter,
   * is the bloc of the text before, the variable `var_v` and the text after
   * (the parser's `parse_variable` case).
   */
  lemma NewVariable(b: string, v: string, a: string, k: Key, ctx: Context)
    requires ValidDecoder(ctx.decode)
    requires Plain(b) && Plain(a) && '<' !in v && '$' !in v && '}' !in v && ',' !in v
    requires NewKey("var_" + Trim(v)) == Some(k)
    ensures New(b + "{{" + v + "}}" + a, ctx) == Parsed(Ok(Bloc([Lit(b), Variable(k, Formatters.NoFormatter), Lit(a)])), [], false)
  {
    ValidVariablePlain(v, k, ctx);
    NewValidVariable(b, v, a, Variable(k, Formatters.NoFormatter), ctx);
  }

  /** A placeholder accepted as `found`, without errors, between plain texts. */
  lemma NewValidVariable(b: string, v: string, a: string, found: ParsedValue, ctx: Context)
    requires ValidDecoder(ctx.decode)
    requires Plain(b) && Plain(a) && '<' !in v && '$' !in v && '}' !in v
    requires ValidVariable(Trim(v), ctx) == (Some(found), [])
    ensures New(b + "{{" + v + "}}" + a, ctx) == Parsed(Ok(Bloc([Lit(b), found, Lit(a)])), [], false)
  {
    VariableAround(b, v, a, found, ctx);
    NewPlain(b, ctx);
    NewPlain(a, ctx);
  }

  /** The parse of text holding one placeholder and nothing else to find is
    * the parse of the text around it, with the variable in between. */
  lemma VariableAround(b: string, v: string, a: string, found: ParsedValue, ctx: Context)
    requires ValidDecoder(ctx.decode)
    requires Plain(b) && Plain(a) && '<' !in v && '$' !in v && '}' !in v
    requires ValidVariable(Trim(v), ctx) == (Some(found), [])
    ensures New(b + "{{" + v + "}}" + a, ctx) == Around([], false, New(b, ctx), found, New(a, ctx))
  {
    var value := b + "{{" + v + "}}" + a;
    VariableTextCut(b, v, a);
    FindComponentNone(value, ctx);
    FindForeignKeyNone(value, ctx);
    FindVariableMatch(value, ctx, VariableSite(b, v, a), found, []);
    NewByVariable(value, ctx, Around([], false, New(b, ctx), found, New(a, ctx)));
  }

  /** The first `,` or `)` of `p + [c] + rest` is the `c` when `p` has neither. */
  lemma FindEitherAfter(p: string, c: char, rest: string)
    requires c == ',' || c == ')'
    requires ',' !in p && ')' !in p
    ensures FindEither(p + [c] + rest, ',', ')') == Some(|p|)
  {
    var s := p + [c] + rest;
    assert s[|p|] == c;
  }

  /** The key path, its end and what follows, in the text after `$t(`. */
  lemma KeyPathCut(p: string, c: char, rest: string)
    requires c == ',' || c == ')'
    requires ',' !in p && ')' !in p
    ensures var tail := p + [c] + rest;
      FindEither(tail, ',', ')') == Some(|p|) && tail[..|p|] == p && tail[|p|] == c && tail[|p| + 1..] == rest
  {
    FindEitherAfter(p, c, rest);
    var tail := p + [c] + rest;
    assert tail[..|p|] == p;
  }

  /** `b$t(` followed by `tail` is cut at that `$t(` when `b` has no `$`. */
  lemma LocateForeignKeyOf(b: string, p: string, c: char, rest: string, target: KeyPath)
    requires '$' !in b && ',' !in p && ')' !in p && (c == ',' || c == ')')
    requires ParseKeyPath(p) == Some(target)
    ensures LocateForeignKey(b + "$t(" + (p + [c] + rest)) == Some(ForeignKeySite(b, target, c == ',', rest))
  {
    FindAfterPrefix(b, "$t(", p + [c] + rest);
    KeyPathCut(p, c, rest);
  }

  /** How the searches see `b$t(p)a` around plain text: no component, and this reference without arguments. */
  lemma ForeignKeyTextCut(b: string, p: string, a: string, target: KeyPath)
    requires Plain(b) && Plain(a) && '<' !in p && ',' !in p && ')' !in p
    requires ParseKeyPath(p) == Some(target)
    ensures var value := b + "$t(" + (p + ")" + a);
      FindValidComponent(value) == None && LocateForeignKey(value) == Some(ForeignKeySite(b, target, false, a))
  {
    var value := b + "$t(" + (p + ")" + a);
    assert p + ")" + a == p + [')'] + a;
    assert '<' !in value;
    NoTagNoComponent(value);
    LocateForeignKeyOf(b, p, ')', a, target);
  }

  /** A `$t(path)` without arguments makes `find_foreign_key` register it and parse the text around it. */
  lemma FindForeignKeyBare(value: string, ctx: Context, site: ForeignKeySite)
    requires ValidDecoder(ctx.decode)
    requires LocateForeignKey(value) == Some(site) && !site.withArgs
    ensures FindForeignKey(value, ctx)
         == Match(Around([], true, New(site.before, ctx), ForeignKeyValue(NotSet(site.target, map[])), New(site.tail, ctx)))
  {
  }

  /** With no component, the foreign-key search decides when it matches. */
  lemma NewByForeignKey(value: string, ctx: Context, p: Parsed<ParsedValue>)
    requires ValidDecoder(ctx.decode)
    requires FindComponent(value, ctx).NoMatch? && FindForeignKey(value, ctx) == Match(p)
    ensures New(value, ctx) == p
  {
  }

  /**
   * `before $t(path) after`, plain around a reference without arguments, is
   * the bloc of the text before, the unresolved foreign key with no
   * arguments and the text after; the path is registered.
   */
  lemma NewForeignKey(b: string, p: string, a: string, target: KeyPath, ctx: Context)
    requires ValidDecoder(ctx.decode)
    requires Plain(b) && Plain(a) && '<' !in p && ',' !in p && ')' !in p
    requires ParseKeyPath(p) == Some(target)
    ensures New(b + "$t(" + (p + ")" + a), ctx)
         == Parsed(Ok(Bloc([Lit(b), ForeignKeyValue(NotSet(target, map[])), Lit(a)])), [], true)
  {
    var value := b + "$t(" + (p + ")" + a);
    ForeignKeyTextCut(b, p, a, target);
    FindComponentNone(value, ctx);
    FindForeignKeyBare(value, ctx, ForeignKeySite(b, target, false, a));
    NewPlain(b, ctx);
    NewPlain(a, ctx);
    NewByForeignKey(value, ctx, Around([], true, New(b, ctx), ForeignKeyValue(NotSet(target, map[])), New(a, ctx)));
  }

  /** A component, when there is one, decides: it is searched for first. */
  lemma NewByComponent(value: string, ctx: Context, p: Parsed<ParsedValue>)
    requires ValidDecoder(ctx.decode) && FindComponent(value, ctx) == Match(p)
    ensures New(value, ctx) == p
  {
  }

  /** What `find_component` builds from a valid component. */
  lemma FindComponentOf(value: string, ctx: Context, m: ComponentMatch)
    requires ValidDecoder(ctx.decode) && FindValidComponent(value) == Some(m)
    ensures FindComponent(value, ctx)
         == Match(ComponentBloc(if m.before.Some? then ItemsOf(New(m.before.value, ctx)) else Parsed(Ok([]), [], false), m,
                                if m.between.Some? then Some(New(m.between.value, ctx)) else None,
                                if m.after.Some? then Some(New(m.after.value, ctx)) else None))
  {
  }

  /** A component with attribute text is an error whatever surrounds it: attributes are not supported. */
  lemma NewComponentWithAttributes(value: string, ctx: Context)
    requires ValidDecoder(ctx.decode)
    requires FindValidComponent(value).Some? && FindValidComponent(value).value.attrs != []
    ensures New(value, ctx).result.Err?
  {
    FindComponentOf(value, ctx, FindValidComponent(value).value);
    NewByComponent(value, ctx, FindComponent(value, ctx).parsed);
  }

  /** The literal of an optional text, as `find_component` lists it. */
  function LitItems(s: Option<string>): seq<ParsedValue> {
    if s.Some? then [Lit(s.value)] else []
  }

  /** The items of an optional plain text, parsed. */
  lemma PlainItems(s: Option<string>, ctx: Context)
    requires ValidDecoder(ctx.decode) && (s.Some? ==> Plain(s.value))
    ensures s.Some? ==> ItemsOf(New(s.value, ctx)) == Parsed(Ok(LitItems(s)), [], false)
    ensures s.Some? ==> New(s.value, ctx) == Parsed(Ok(Lit(s.value)), [], false)
  {
    if s.Some? {
      NewPlain(s.value, ctx);
    }
  }

  /**
   * A component without attributes, plain text before, inside and after it,
   * is the bloc of the text before, the component holding its inner text and
   * the text after (the parser's `parse_comp` case, one component at a time).
   */
  lemma NewComponent(value: string, m: ComponentMatch, ctx: Context)
    requires ValidDecoder(ctx.decode)
    requires FindValidComponent(value) == Some(m) && m.attrs == []
    requires m.before.Some? ==> Plain(m.before.value)
    requires m.between.Some? ==> Plain(m.between.value)
    requires m.after.Some? ==> Plain(m.after.value)
    ensures New(value, ctx) == Parsed(Ok(Bloc(LitItems(m.before)
                                              + [Component(m.key, if m.between.Some? then Some(Lit(m.between.value)) else None, [])]
                                              + LitItems(m.after))), [], false)
  {
    FindComponentOf(value, ctx, m);
    PlainItems(m.before, ctx);
    PlainItems(m.between, ctx);
    PlainItems(m.after, ctx);
    ComponentBlocPlain(m);
    NewByComponent(value, ctx, FindComponent(value, ctx).parsed);
  }

  /** The bloc of a component without attributes around literal texts. */
  lemma ComponentBlocPlain(m: ComponentMatch)
    requires m.attrs == []
    ensures ComponentBloc(Parsed(Ok(LitItems(m.before)), [], false), m,
                          if m.between.Some? then Some(Parsed(Ok(Lit(m.between.value)), [], false)) else None,
                          if m.after.Some? then Some(Parsed(Ok(Lit(m.after.value)), [], false)) else None)
         == Parsed(Ok(Bloc(LitItems(m.before)
                           + [Component(m.key, if m.between.Some? then Some(Lit(m.between.value)) else None, [])]
                           + LitItems(m.after))), [], false)
  {
    var items := LitItems(m.before) + [Component(m.key, if m.between.Some? then Some(Lit(m.between.value)) else None, [])];
    if m.after.None? {
      assert items + LitItems(m.after) == items;
    }
  }

  /** A parse that succeeded with a bloc whose first items are `items`. */
  predicate BlocStartsWith(p: Parsed<ParsedValue>, items: seq<ParsedValue>) {
    p.result.Ok? && p.result.value.Bloc? && |items| <= |p.result.value.values| && p.result.value.values[..|items|] == items
  }

  /**
   * The text before a component is not searched as written: with
   * `bb {{ v }} ba` before the component, the written parser keeps the
   * placeholder as literal text where the corrected one makes it a variable.
   * Whether either succeeds depends on the rest alone.
   */
  lemma FindComponentBeforeVariable(value: string, m: ComponentMatch, bb: string, v: string, ba: string, k: Key, ctx: Context)
    requires ValidDecoder(ctx.decode)
    requires FindValidComponent(value) == Some(m) && m.before == Some(bb + "{{" + v + "}}" + ba)
    requires Plain(bb) && Plain(ba) && '<' !in v && '$' !in v && '}' !in v && ',' !in v
    requires NewKey("var_" + Trim(v)) == Some(k)
    ensures FindComponent(value, ctx).Match? && FindComponentAsWritten(value, ctx).Match?
    ensures FindComponent(value, ctx).parsed.result.Ok? <==> FindComponentAsWritten(value, ctx).parsed.result.Ok?
    ensures FindComponentAsWritten(value, ctx).parsed.result.Ok? ==>
              BlocStartsWith(FindComponentAsWritten(value, ctx).parsed, [Lit(bb + "{{" + v + "}}" + ba)])
    ensures FindComponent(value, ctx).parsed.result.Ok? ==>
              BlocStartsWith(FindComponent(value, ctx).parsed, [Lit(bb), Variable(k, Formatters.NoFormatter), Lit(ba)])
  {
    NewVariable(bb, v, ba, k, ctx);
    FindComponentOf(value, ctx, m);
  }

  // ---------------------------------------------------------------------
  // Registration of the foreign keys

  /** Whether a value, as `new` builds it, holds a foreign key: itself, an item of its bloc, or inside a component. */
  predicate HasForeignKey(v: ParsedValue) {
    match v
    case ForeignKeyValue(_) => true
    case Bloc(vs) => exists i | 0 <= i < |vs| :: HasForeignKey(vs[i])
    case Component(_, inner, _) => inner.Some? && HasForeignKey(inner.value)
    case _ => false
  }

  /** A bloc of two runs of items holds a foreign key when one of the runs does. */
  lemma HasForeignKeyConcat(xs: seq<ParsedValue>, ys: seq<ParsedValue>)
    ensures HasForeignKey(Bloc(xs + ys)) <==> HasForeignKey(Bloc(xs)) || HasForeignKey(Bloc(ys))
  {
    if HasForeignKey(Bloc(xs + ys)) {
      var i :| 0 <= i < |xs + ys| && HasForeignKey((xs + ys)[i]);
      if i < |xs| { assert xs[i] == (xs + ys)[i]; } else { assert ys[i - |xs|] == (xs + ys)[i]; }
    }
    if HasForeignKey(Bloc(xs)) {
      var i :| 0 <= i < |xs| && HasForeignKey(xs[i]);
      assert (xs + ys)[i] == xs[i];
    }
    if HasForeignKey(Bloc(ys)) {
      var i :| 0 <= i < |ys| && HasForeignKey(ys[i]);
      assert (xs + ys)[|xs| + i] == ys[i];
    }
  }

  /** The items of a value hold a foreign key exactly when the value does. */
  lemma HasForeignKeyItems(v: ParsedValue)
    ensures HasForeignKey(Bloc(Items(v))) <==> HasForeignKey(v)
  {
    if !v.Bloc? {
      assert Items(v)[0] == v;
    }
  }

  /** The bloc `[before, found, after]` holds a foreign key when one of the three does. */
  lemma HasForeignKeyAround(b: ParsedValue, found: ParsedValue, a: ParsedValue)
    ensures HasForeignKey(Bloc([b, found, a])) <==> HasForeignKey(b) || HasForeignKey(found) || HasForeignKey(a)
  {
    var vs := [b, found, a];
    assert vs[0] == b && vs[1] == found && vs[2] == a;
  }

  /**
   * `ForeignKey::new` pushes the key path onto the paths whose foreign keys
   * are resolved later: a value that parses registers its path exactly when
   * it holds a foreign key.
   */
  lemma {:induction false} NewRegistersForeignKeys(value: string, ctx: Context)
    requires ValidDecoder(ctx.decode)
    ensures RegistersFaithfully(New(value, ctx))
    decreases |value|, 1
  {
    match FindComponent(value, ctx)
    case Match(p) => FindComponentRegisters(value, ctx);
    case NoMatch(_) =>
      match FindForeignKey(value, ctx)
      case Match(p) => FindForeignKeyRegisters(value, ctx);
      case NoMatch(_) =>
        match FindVariable(value, ctx)
        case Match(p) => FindVariableRegisters(value, ctx);
        case NoMatch(errs) =>
    }

  /** A parse that, when it succeeds, registers its path exactly when its value holds a foreign key. */
  predicate RegistersFaithfully(p: Parsed<ParsedValue>) {
    p.result.Ok? ==> (p.registered <==> HasForeignKey(p.result.value))
  }

  /** `Around` without a registration of its own, around a value with no foreign key, keeps that correspondence. */
  lemma AroundRegisters(prior: seq<Error>, b: Parsed<ParsedValue>, found: ParsedValue, a: Parsed<ParsedValue>)
    requires !HasForeignKey(found) && RegistersFaithfully(b) && RegistersFaithfully(a)
    ensures RegistersFaithfully(Around(prior, false, b, found, a))
  {
    if b.result.Ok? && a.result.Ok? {
      HasForeignKeyAround(b.result.value, found, a.result.value);
    }
  }

  /** `ComponentBloc` keeps the correspondence of the parses it is built from. */
  lemma ComponentBlocRegisters(before: Parsed<ParsedValue>, useBefore: bool, m: ComponentMatch,
                               inner: Option<Parsed<ParsedValue>>, after: Option<Parsed<ParsedValue>>)
    requires useBefore ==> RegistersFaithfully(before)
    requires inner.Some? ==> RegistersFaithfully(inner.value)
    requires after.Some? ==> RegistersFaithfully(after.value)
    ensures var b := if useBefore then ItemsOf(before) else Parsed(Ok([]), [], false);
            var r := ComponentBloc(b, m, inner, after);
            r.result.Ok? ==> (r.registered <==> HasForeignKey(r.result.value))
  {
    var b := if useBefore then ItemsOf(before) else Parsed(Ok([]), [], false);
    var r := ComponentBloc(b, m, inner, after);
    if r.result.Ok? {
      var comp := Component(m.key, if inner.Some? then Some(inner.value.result.value) else None, []);
      var tail := if after.Some? then Items(after.value.result.value) else [];
      HasForeignKeyConcat(b.result.value + [comp], tail);
      HasForeignKeyConcat(b.result.value, [comp]);
      assert [comp][0] == comp;
      if useBefore {
        HasForeignKeyItems(before.result.value);
      }
      if after.Some? {
        HasForeignKeyItems(after.value.result.value);
      }
    }
  }

  /** The component case of `NewRegistersForeignKeys`. */
  lemma {:induction false} FindComponentRegisters(value: string, ctx: Context)
    requires ValidDecoder(ctx.decode) && FindComponent(value, ctx).Match?
    ensures RegistersFaithfully(FindComponent(value, ctx).parsed)
    decreases |value|, 0
  {
    var m := FindValidComponent(value).value;
    var before := if m.before.Some? then New(m.before.value, ctx) else Parsed(Ok(Lit("")), [], false);
    var inner := if m.between.Some? then Some(New(m.between.value, ctx)) else None;
    var after := if m.after.Some? then Some(New(m.after.value, ctx)) else None;
    if m.before.Some? {
      NewRegistersForeignKeys(m.before.value, ctx);
    }
    if m.between.Some? {
      NewRegistersForeignKeys(m.between.value, ctx);
    }
    if m.after.Some? {
      NewRegistersForeignKeys(m.after.value, ctx);
    }
    ComponentBlocRegisters(before, m.before.Some?, m, inner, after);
  }

  /** The foreign-key case of `NewRegistersForeignKeys`: the path is registered and the bloc holds the key. */
  lemma FindForeignKeyRegisters(value: string, ctx: Context)
    requires ValidDecoder(ctx.decode) && FindForeignKey(value, ctx).Match?
    ensures var p := FindForeignKey(value, ctx).parsed; p.result.Ok? ==> p.registered && HasForeignKey(p.result.value)
  {
    var site := LocateForeignKey(value).value;
    if site.withArgs {
      var a := ParseForeignKeyArgs(site.tail, ctx);
      if a.result.Ok? {
        var (args, after) := a.result.value;
        AroundForeignKey(a.emitted, New(site.before, ctx), ForeignKeyValue(NotSet(site.target, args)), New(after, ctx));
      }
    } else {
      AroundForeignKey([], New(site.before, ctx), ForeignKeyValue(NotSet(site.target, map[])), New(site.tail, ctx));
    }
  }

  /** A bloc built around a foreign key holds one. */
  lemma AroundForeignKey(prior: seq<Error>, b: Parsed<ParsedValue>, found: ParsedValue, a: Parsed<ParsedValue>)
    requires found.ForeignKeyValue?
    ensures var r := Around(prior, true, b, found, a); r.result.Ok? ==> HasForeignKey(r.result.value)
  {
    if b.result.Ok? && a.result.Ok? {
      HasForeignKeyAround(b.result.value, found, a.result.value);
    }
  }

  /** The variable case of `NewRegistersForeignKeys`: the texts around the placeholder decide. */
  lemma {:induction false} FindVariableRegisters(value: string, ctx: Context)
    requires ValidDecoder(ctx.decode) && FindVariable(value, ctx).Match?
    ensures RegistersFaithfully(FindVariable(value, ctx).parsed)
    decreases |value|, 0
  {
    var site := LocateVariable(value).value;
    var v := ValidVariable(Trim(site.ident), ctx);
    NewRegistersForeignKeys(site.before, ctx);
    NewRegistersForeignKeys(site.after, ctx);
    AroundRegisters(v.1, New(site.before, ctx), v.0.value, New(site.after, ctx));
  }

  /**
   * `parse_foreign_key_args` in full: the arguments are the decoded object
   * when the object is closed, followed by `)`, and decodes into values
   * that all parse; a malformed split is `UnexpectedToken`, an object that
   * does not decode `InvalidForeignKeyArgs`.
   */
  lemma ParseForeignKeyArgsOutcome(s: string, ctx: Context)
    requires ValidDecoder(ctx.decode)
    ensures var r := ParseForeignKeyArgs(s, ctx); var split := SplitArgs(s, ctx);
            && (split.Err? ==> r == Parsed(Err(UnexpectedToken(ctx.locale, ctx.keyPath, Malformed)), [], false))
            && (split.Ok? && ctx.decode(split.value.0).None? ==> r == Parsed(Err(InvalidForeignKeyArgs(ctx.locale, ctx.keyPath)), [], false))
            && (r.result.Ok? <==> split.Ok? && ParseArgsObject(split.value.0, ctx).result.Ok?)
            && (r.result.Ok? ==> r.result.value == (ParseArgsObject(split.value.0, ctx).result.value, split.value.1))
            && (r.result.Ok? ==> var j := ArgsEnd(s, 0, 0).value.value;
                                 TrimStart(s[j + 1..]) == ")" + r.result.value.1
                                 && ctx.decode(s[..j + 1]).Some?
                                 && r.result.value.0 == ParseArgsObject(s[..j + 1], ctx).result.value)
  {
  }
}
