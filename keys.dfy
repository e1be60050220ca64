/**
 * Translation keys and key paths (leptos_i18n_parser/src/utils/key.rs).
 *
 * A `Key` carries the trimmed name; the Rust identifier it stands for is derived
 * from the name (`-` becomes `_`), so a key is identified by its name alone, as
 * the source's `PartialEq`, `Hash` and `Ord` implementations require.
 */
module Keys {
  import opened Wrappers
  import opened Text

  datatype Key = Key(name: string)
  {
    /** The identifier the key is emitted as. */
    function Ident(): string {
      ReplaceChar(name, '-', '_')
    }
  }

  /** The words `syn` refuses to parse as an identifier. */
  const ReservedWords: seq<string> := [
    "_", "abstract", "as", "async", "await", "become", "box", "break", "const", "continue",
    "crate", "do", "dyn", "else", "enum", "extern", "false", "final", "fn", "for", "if",
    "impl", "in", "let", "loop", "macro", "match", "mod", "move", "mut", "override", "priv",
    "pub", "ref", "return", "Self", "self", "static", "struct", "super", "trait", "true",
    "try", "type", "typeof", "unsafe", "unsized", "use", "virtual", "where", "while", "yield"
  ]

  /** `s` is one of the reserved words from the `i`-th on. */
  predicate ReservedFrom(s: string, i: nat)
    decreases |ReservedWords| - i
  {
    i < |ReservedWords| && (ReservedWords[i] == s || ReservedFrom(s, i + 1))
  }

  predicate IsIdentStart(c: char) {
    'a' <= c <= 'z' || 'A' <= c <= 'Z' || c == '_'
  }

  predicate IsIdentContinue(c: char) {
    IsIdentStart(c) || IsDigit(c)
  }

  /** A Rust identifier `syn` accepts, restricted to ASCII. */
  predicate IsRustIdent(s: string) {
    |s| >= 1 && IsIdentStart(s[0])
    && (forall i :: 1 <= i < |s| ==> IsIdentContinue(s[i]))
    && !ReservedFrom(s, 0)
  }

  /**
   * `Key::new`: the trimmed name, provided its `-`-to-`_` form is an
   * identifier. A key's name is therefore never empty nor padded, and the
   * identifier it is emitted as holds no `-` and is one `syn` accepts.
   */
  function NewKey(s: string): (r: Option<Key>)
    ensures r.Some? <==> IsRustIdent(ReplaceChar(Trim(s), '-', '_'))
    ensures r.Some? ==> r.value.name == Trim(s)
    ensures r.Some? ==> r.value.name != [] && !IsWhitespace(r.value.name[0]) && !IsWhitespace(r.value.name[|r.value.name| - 1])
    ensures r.Some? ==> '-' !in r.value.Ident() && IsRustIdent(r.value.Ident())
  {
    var name := Trim(s);
    if IsRustIdent(ReplaceChar(name, '-', '_')) then
      TrimEnds(s);
      assert forall i :: 0 <= i < |ReplaceChar(name, '-', '_')| ==> ReplaceChar(name, '-', '_')[i] != '-';
      Some(Key(name))
    else None
  }

  /** A key's own name makes the same key again: `Key::new` is idempotent. */
  lemma NewKeyIdempotent(s: string, k: Key)
    requires NewKey(s) == Some(k)
    ensures NewKey(k.name) == Some(k)
  {
    TrimIdempotent(s);
  }

  /** Lexicographic order on strings; on Unicode scalar values it agrees with Rust's byte order of UTF-8. */
  predicate StrLess(a: string, b: string)
    decreases |a|
  {
    if a == [] then b != []
    else if b == [] then false
    else if a[0] == b[0] then StrLess(a[1..], b[1..])
    else a[0] < b[0]
  }

  lemma {:induction false} StrLessIrreflexive(a: string)
    ensures !StrLess(a, a)
    decreases |a|
  {
    if a != [] {
      StrLessIrreflexive(a[1..]);
    }
  }

  lemma {:induction false} StrLessTransitive(a: string, b: string, c: string)
    requires StrLess(a, b) && StrLess(b, c)
    ensures StrLess(a, c)
    decreases |a|
  {
    if a != [] && b != [] && c != [] && a[0] == b[0] && b[0] == c[0] {
      StrLessTransitive(a[1..], b[1..], c[1..]);
    }
  }

  lemma {:induction false} StrLessTotal(a: string, b: string)
    ensures a == b || StrLess(a, b) || StrLess(b, a)
    decreases |a|
  {
    if a != [] && b != [] && a[0] == b[0] {
      StrLessTotal(a[1..], b[1..]);
      if a[1..] == b[1..] {
        assert a == [a[0]] + a[1..] && b == [b[0]] + b[1..];
      }
    }
  }

  /** `Ord for Key`: keys compare by name. */
  predicate KeyLess(a: Key, b: Key) {
    StrLess(a.name, b.name)
  }

  /** Key order is a strict total order, so a `BTreeMap<Key, _>` has one iteration order. */
  lemma KeyOrderIsTotal(a: Key, b: Key, c: Key)
    ensures !KeyLess(a, a)
    ensures KeyLess(a, b) && KeyLess(b, c) ==> KeyLess(a, c)
    ensures a == b || KeyLess(a, b) || KeyLess(b, a)
    ensures a == b <==> a.name == b.name
  {
    StrLessIrreflexive(a.name);
    if KeyLess(a, b) && KeyLess(b, c) {
      StrLessTransitive(a.name, b.name, c.name);
    }
    StrLessTotal(a.name, b.name);
  }

  function Names(keys: seq<Key>): (r: seq<string>)
    ensures |r| == |keys| && forall i :: 0 <= i < |keys| ==> r[i] == keys[i].name
  {
    if keys == [] then [] else [keys[0].name] + Names(keys[1..])
  }

  /** A key path: an optional namespace and the keys leading to a value. */
  datatype KeyPath = KeyPath(namespace: Option<Key>, path: seq<Key>)
  {
    /** `push_key`. */
    function PushKey(k: Key): (r: KeyPath)
      ensures r.namespace == namespace && r.path == path + [k]
    {
      KeyPath(namespace, path + [k])
    }

    /** `pop_key`: the path without its last key, and that key. */
    function PopKey(): (r: (KeyPath, Option<Key>))
      ensures path == [] ==> r == (this, None)
      ensures path != [] ==> r.1.Some? && r.0.path + [r.1.value] == path && r.0.namespace == namespace
    {
      if path == [] then (this, None)
      else (KeyPath(namespace, path[..|path| - 1]), Some(path[|path| - 1]))
    }

    /** `Display`: `ns::` when there is a namespace, then the path joined by `.`. */
    function ToString(): string {
      (if namespace.Some? then namespace.value.name + "::" else "") + Join(Names(path), ".")
    }

    /** `to_string_with_key`. */
    function ToStringWithKey(k: Key): string {
      if namespace.None? && path == [] then k.name
      else
        var s := ToString();
        var s := if namespace.None? || path != [] then s + "." else s;
        s + k.name
    }
  }

  /** Pushing a key and popping it again restores the path and gives the key back. */
  lemma PushPopRoundTrip(p: KeyPath, k: Key)
    ensures p.PushKey(k).PopKey() == (p, Some(k))
  {
    assert (p.path + [k])[..|p.path|] == p.path;
  }

  lemma {:induction false} JoinSnoc(parts: seq<string>, x: string, sep: string)
    requires parts != []
    ensures Join(parts + [x], sep) == Join(parts, sep) + sep + x
    decreases |parts|
  {
    if |parts| == 1 {
      assert parts + [x] == [parts[0], x];
    } else {
      assert (parts + [x])[1..] == parts[1..] + [x];
      JoinSnoc(parts[1..], x, sep);
    }
  }

  /**
   * `to_string_with_key` prints the path the key would have once pushed: the bare
   * key at the root, `ns::key` right under a namespace, `..path.key` otherwise.
   */
  lemma ToStringWithKeyIsPushedPath(p: KeyPath, k: Key)
    ensures p.ToStringWithKey(k) == p.PushKey(k).ToString()
    ensures p.namespace.None? && p.path == [] ==> p.ToStringWithKey(k) == k.name
    ensures p.namespace.Some? && p.path == [] ==> p.ToStringWithKey(k) == p.namespace.value.name + "::" + k.name
  {
    assert Names(p.path + [k]) == Names(p.path) + [k.name];
    if p.path != [] {
      JoinSnoc(Names(p.path), k.name, ".");
    }
  }

  /** `impl Display for KeyPath`: writes the namespace, the first key, then `.key` for each other key. */
  method DisplayKeyPath(p: KeyPath) returns (s: string)
    ensures s == p.ToString()
  {
    s := "";
    if p.namespace.Some? {
      s := p.namespace.value.name + "::";
    }
    ghost var prefix := s;
    ghost var names := Names(p.path);
    if |p.path| > 0 {
      s := s + p.path[0].name;
      assert names[..1] == [p.path[0].name];
      var i := 1;
      while i < |p.path|
        invariant 1 <= i <= |p.path|
        invariant s == prefix + Join(names[..i], ".")
      {
        assert names[..i + 1] == names[..i] + [names[i]];
        JoinSnoc(names[..i], names[i], ".");
        s := s + "." + p.path[i].name;
        i := i + 1;
      }
      assert names[..i] == names;
    }
  }
}
