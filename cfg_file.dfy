// The `[package.metadata.leptos-i18n]` configuration (cfg_file.rs): the fields
// read from the manifest table, the default locale moved to the front of the
// locale list, and the check for repeated locales and namespaces.
module CfgFile {
  import opened Wrappers
  import opened Keys
  import opened Diagnostics

  datatype ConfigFile = ConfigFile(
    default: Key,
    locales: seq<Key>,
    nameSpaces: Option<seq<Key>>,
    localesDir: string,
    translationsUri: Option<string>)

  /** The first index holding `k`, as `iter().position` finds it. */
  function Position(s: seq<Key>, k: Key): (r: Option<nat>)
    ensures r.Some? ==> r.value < |s| && s[r.value] == k && forall j :: 0 <= j < r.value ==> s[j] != k
    ensures r.None? <==> k !in s
  {
    if |s| == 0 then None
    else if s[0] == k then Some(0)
    else match Position(s[1..], k)
      case None => None
      case Some(i) => Some(i + 1)
  }

  /** `slice::swap`. */
  function Swap(s: seq<Key>, i: nat, j: nat): (r: seq<Key>)
    requires i < |s| && j < |s|
    ensures |r| == |s| && multiset(r) == multiset(s)
    ensures r[i] == s[j] && r[j] == s[i]
    ensures forall k :: 0 <= k < |s| && k != i && k != j ==> r[k] == s[k]
  {
    s[i := s[j]][j := s[i]]
  }

  /** The locale list once the default is at the front: swapped there from its
    * first position, or appended and swapped there. */
  function DefaultFirst(locales: seq<Key>, default: Key): (r: seq<Key>)
    ensures |r| > 0 && r[0] == default
  {
    match Position(locales, default)
    case Some(i) => Swap(locales, 0, i)
    case None => Swap(locales + [default], 0, |locales|)
  }

  /** Moving the default to the front loses no locale, and adds the default
    * exactly when it was missing. */
  lemma DefaultFirstPermutes(locales: seq<Key>, default: Key)
    ensures default in locales ==> multiset(DefaultFirst(locales, default)) == multiset(locales)
    ensures default !in locales ==> multiset(DefaultFirst(locales, default)) == multiset(locales) + multiset{default}
  {
  }

  /** A list that already starts with the default is left as it is. */
  lemma DefaultAlreadyFirst(locales: seq<Key>, default: Key)
    requires |locales| > 0 && locales[0] == default
    ensures DefaultFirst(locales, default) == locales
  {
  }

  /** The locales after the first are those that followed, with the one the
    * default displaced moved into its place. */
  lemma DefaultFirstKeepsOthers(locales: seq<Key>, default: Key, j: nat)
    requires 0 < j < |locales| && locales[j] != default && default in locales
    requires Position(locales, default).value != j
    ensures DefaultFirst(locales, default)[j] == locales[j]
  {
  }

  /** The default moved to the front, by the source's swap. */
  method PutDefaultFirst(locales: seq<Key>, default: Key) returns (r: seq<Key>)
    ensures r == DefaultFirst(locales, default)
  {
    var i := 0;
    while i < |locales| && locales[i] != default
      invariant 0 <= i <= |locales|
      invariant forall j :: 0 <= j < i ==> locales[j] != default
    {
      i := i + 1;
    }
    if i < |locales| {
      r := locales[0 := locales[i]][i := locales[0]];
    } else {
      var len := |locales|;
      r := locales + [default];
      r := r[0 := r[len]][len := r[0]];
    }
  }

  /** The keys that occur more than once. */
  function Repeated(keys: seq<Key>): set<Key> {
    set k | k in keys && multiset(keys)[k] >= 2
  }

  predicate Distinct(keys: seq<Key>) {
    forall i, j :: 0 <= i < j < |keys| ==> keys[i] != keys[j]
  }

  lemma {:induction false} DistinctIffNoRepeat(keys: seq<Key>)
    ensures Distinct(keys) <==> Repeated(keys) == {}
  {
    if |keys| > 0 {
      var last := keys[|keys| - 1];
      var init := keys[..|keys| - 1];
      assert keys == init + [last];
      DistinctIffNoRepeat(init);
      if Distinct(keys) {
        assert last !in init by {
          forall i | 0 <= i < |init| ensures init[i] != last {
            assert keys[i] != keys[|keys| - 1];
          }
        }
        assert Repeated(init) == {} by {
          forall i, j | 0 <= i < j < |init| ensures init[i] != init[j] {
            assert keys[i] != keys[j];
          }
        }
        forall k | k in keys ensures multiset(keys)[k] < 2 {
          if k == last {
            assert multiset(init)[k] == 0;
          } else {
            assert k in init;
            assert k !in Repeated(init);
          }
        }
      } else {
        var i, j :| 0 <= i < j < |keys| && keys[i] == keys[j];
        if j < |keys| - 1 {
          assert init[i] == init[j];
          assert !Distinct(init);
          var k :| k in Repeated(init);
          assert multiset(keys)[k] >= multiset(init)[k];
          assert k in Repeated(keys);
        } else {
          assert init[i] == last;
          assert multiset(keys)[last] == multiset(init)[last] + 1;
          assert last in Repeated(keys);
        }
      }
    }
  }

  /** `contain_duplicates`: a key seen before is recorded as a duplicate. */
  method ContainDuplicates(keys: seq<Key>) returns (r: Option<set<Key>>)
    ensures r.None? <==> Distinct(keys)
    ensures r.Some? ==> r.value == Repeated(keys) && r.value != {}
  {
    var marked: set<Key> := {};
    var duplicates: Option<set<Key>> := None;
    var i := 0;
    while i < |keys|
      invariant 0 <= i <= |keys|
      invariant marked == set k | k in keys[..i]
      invariant duplicates.None? ==> Repeated(keys[..i]) == {}
      invariant duplicates.Some? ==> duplicates.value == Repeated(keys[..i]) && duplicates.value != {}
    {
      var key := keys[i];
      assert keys[..i + 1] == keys[..i] + [key];
      if key in marked {
        var d := if duplicates.None? then {} else duplicates.value;
        duplicates := Some(d + {key});
      } else {
        marked := marked + {key};
      }
      i := i + 1;
    }
    assert keys[..i] == keys;
    DistinctIffNoRepeat(keys);
    r := duplicates;
  }

  /** The checks `ConfigFile::new` applies once the table is read. */
  function Checked(cfg: ConfigFile): (r: Result<ConfigFile, Error>)
    ensures r.Ok? ==> |r.value.locales| > 0 && r.value.locales[0] == cfg.default && Distinct(r.value.locales)
    ensures r.Ok? <==> Distinct(DefaultFirst(cfg.locales, cfg.default)) && (cfg.nameSpaces.Some? ==> Distinct(cfg.nameSpaces.value))
    ensures r.Ok? ==> r.value == cfg.(locales := DefaultFirst(cfg.locales, cfg.default))
    ensures !Distinct(DefaultFirst(cfg.locales, cfg.default)) ==>
      r == Err(DuplicateLocalesInConfig(Repeated(DefaultFirst(cfg.locales, cfg.default))))
    ensures Distinct(DefaultFirst(cfg.locales, cfg.default)) && cfg.nameSpaces.Some? && !Distinct(cfg.nameSpaces.value) ==>
      r == Err(DuplicateNamespacesInConfig(Repeated(cfg.nameSpaces.value)))
  {
    var locales := DefaultFirst(cfg.locales, cfg.default);
    DistinctIffNoRepeat(locales);
    if Repeated(locales) != {} then Err(DuplicateLocalesInConfig(Repeated(locales)))
    else if cfg.nameSpaces.Some? then
      DistinctIffNoRepeat(cfg.nameSpaces.value);
      if Repeated(cfg.nameSpaces.value) != {} then Err(DuplicateNamespacesInConfig(Repeated(cfg.nameSpaces.value)))
      else Ok(cfg.(locales := locales))
    else Ok(cfg.(locales := locales))
  }

  /** Repeated locales are reported before repeated namespaces. */
  lemma LocaleDuplicatesFirst(cfg: ConfigFile)
    requires !Distinct(cfg.locales)
    ensures Checked(cfg).Err? && Checked(cfg).error.DuplicateLocalesInConfig?
  {
    var locales := DefaultFirst(cfg.locales, cfg.default);
    DistinctIffNoRepeat(cfg.locales);
    var k :| k in Repeated(cfg.locales);
    DefaultFirstPermutes(cfg.locales, cfg.default);
    assert multiset(locales)[k] >= multiset(cfg.locales)[k] >= 2;
    assert k in multiset(locales);
    assert k in Repeated(locales);
  }

  /** The part of `ConfigFile::new` after the manifest was read and decoded. */
  method CheckConfig(cfg: ConfigFile) returns (r: Result<ConfigFile, Error>)
    ensures r == Checked(cfg)
  {
    var locales := PutDefaultFirst(cfg.locales, cfg.default);
    var dups := ContainDuplicates(locales);
    DistinctIffNoRepeat(locales);
    if dups.Some? {
      return Err(DuplicateLocalesInConfig(dups.value));
    }
    if cfg.nameSpaces.Some? {
      var nsDups := ContainDuplicates(cfg.nameSpaces.value);
      if nsDups.Some? {
        return Err(DuplicateNamespacesInConfig(nsDups.value));
      }
      DistinctIffNoRepeat(cfg.nameSpaces.value);
    }
    return Ok(cfg.(locales := locales));
  }

  /** A value of the manifest table, as the field it is read into needs it. */
  datatype TomlValue = KeyValue(key: Key) | KeysValue(keys: seq<Key>) | StrValue(s: string) | OtherValue

  /** The decoding errors of `visit_map`. */
  datatype DeError = DuplicateField(field: string) | MissingField(field: string) | InvalidType(field: string)

  /** The fields filled so far. */
  datatype Fields = Fields(
    default: Option<Key>,
    locales: Option<seq<Key>>,
    nameSpaces: Option<seq<Key>>,
    localesDir: Option<string>,
    translationsUri: Option<string>)

  const NoFields := Fields(None, None, None, None, None)

  /** The field names `Field` recognises; any other is skipped. */
  const FieldNames: set<string> := {"default", "locales", "namespaces", "locales-dir", "translations-uri"}

  /** Whether the field `name` already holds a value. */
  function IsSet(f: Fields, name: string): bool {
    match name
    case "default" => f.default.Some?
    case "locales" => f.locales.Some?
    case "namespaces" => f.nameSpaces.Some?
    case "locales-dir" => f.localesDir.Some?
    case "translations-uri" => f.translationsUri.Some?
    case _ => false
  }

  /** `deser_field` for one entry: the value is decoded first, then a field
    * already set is a duplicate. */
  function Fill(f: Fields, name: string, v: TomlValue): (r: Result<Fields, DeError>)
    ensures name !in FieldNames ==> r == Ok(f)
    ensures name in FieldNames && IsSet(f, name) ==> r.Err?
    ensures r.Ok? ==> forall n :: IsSet(f, n) ==> IsSet(r.value, n)
    ensures r.Ok? && name in FieldNames ==> IsSet(r.value, name)
  {
    match name
    case "default" =>
      if !v.KeyValue? then Err(InvalidType(name))
      else if f.default.Some? then Err(DuplicateField(name)) else Ok(f.(default := Some(v.key)))
    case "locales" =>
      if !v.KeysValue? then Err(InvalidType(name))
      else if f.locales.Some? then Err(DuplicateField(name)) else Ok(f.(locales := Some(v.keys)))
    case "namespaces" =>
      if !v.KeysValue? then Err(InvalidType(name))
      else if f.nameSpaces.Some? then Err(DuplicateField(name)) else Ok(f.(nameSpaces := Some(v.keys)))
    case "locales-dir" =>
      if !v.StrValue? then Err(InvalidType(name))
      else if f.localesDir.Some? then Err(DuplicateField(name)) else Ok(f.(localesDir := Some(v.s)))
    case "translations-uri" =>
      if !v.StrValue? then Err(InvalidType(name))
      else if f.translationsUri.Some? then Err(DuplicateField(name)) else Ok(f.(translationsUri := Some(v.s)))
    case _ => Ok(f)
  }

  /** The fields after the entries, stopping at the first error. */
  function Visit(entries: seq<(string, TomlValue)>, f: Fields): Result<Fields, DeError>
    decreases |entries|
  {
    if |entries| == 0 then Ok(f)
    else match Fill(f, entries[0].0, entries[0].1)
      case Err(e) => Err(e)
      case Ok(g) => Visit(entries[1..], g)
  }

  /** The end of `visit_map`: `default` and `locales` are required, and the
    * locale directory defaults to `locales`. */
  function Finish(f: Fields): (r: Result<ConfigFile, DeError>)
    ensures f.default.None? ==> r == Err(MissingField("default"))
    ensures f.default.Some? && f.locales.None? ==> r == Err(MissingField("locales"))
    ensures r.Ok? ==> r.value.localesDir == (if f.localesDir.Some? then f.localesDir.value else "locales")
  {
    if f.default.None? then Err(MissingField("default"))
    else if f.locales.None? then Err(MissingField("locales"))
    else
      var dir := if f.localesDir.Some? then f.localesDir.value else "locales";
      Ok(ConfigFile(f.default.value, f.locales.value, f.nameSpaces, dir, f.translationsUri))
  }

  /** `visit_map` over the entries of the table, in order. */
  method VisitMap(entries: seq<(string, TomlValue)>) returns (r: Result<ConfigFile, DeError>)
    ensures r == match Visit(entries, NoFields) case Err(e) => Err(e) case Ok(f) => Finish(f)
  {
    var fields := NoFields;
    var i := 0;
    while i < |entries|
      invariant 0 <= i <= |entries|
      invariant Visit(entries, NoFields) == Visit(entries[i..], fields)
    {
      assert entries[i..][1..] == entries[i + 1..];
      var filled := Fill(fields, entries[i].0, entries[i].1);
      if filled.Err? {
        return Err(filled.error);
      }
      fields := filled.value;
      i := i + 1;
    }
    r := Finish(fields);
  }

  /** A field that is already set and comes again makes decoding fail. */
  lemma {:induction false} SetFieldAgainFails(entries: seq<(string, TomlValue)>, f: Fields, j: nat)
    requires j < |entries| && entries[j].0 in FieldNames && IsSet(f, entries[j].0)
    ensures Visit(entries, f).Err?
  {
    match Fill(f, entries[0].0, entries[0].1)
    case Err(_) =>
    case Ok(g) =>
      if j > 0 {
        SetFieldAgainFails(entries[1..], g, j - 1);
      }
  }

  /** A field given twice is refused (as a duplicate, or for an earlier error). */
  lemma {:induction false} RepeatedFieldFails(entries: seq<(string, TomlValue)>, f: Fields, i: nat, j: nat)
    requires i < j < |entries| && entries[i].0 == entries[j].0 && entries[i].0 in FieldNames
    ensures Visit(entries, f).Err?
  {
    match Fill(f, entries[0].0, entries[0].1)
    case Err(_) =>
    case Ok(g) =>
      if i == 0 {
        SetFieldAgainFails(entries[1..], g, j - 1);
      } else {
        RepeatedFieldFails(entries[1..], g, i - 1, j - 1);
      }
  }

  /** Unknown fields are skipped: inserting one anywhere changes nothing. */
  lemma {:induction false} UnknownFieldIgnored(entries: seq<(string, TomlValue)>, f: Fields, k: nat, name: string, v: TomlValue)
    requires k <= |entries| && name !in FieldNames
    ensures Visit(entries[..k] + [(name, v)] + entries[k..], f) == Visit(entries, f)
  {
    var e := entries[..k] + [(name, v)] + entries[k..];
    if k == 0 {
      assert e[1..] == entries;
    } else {
      assert e[0] == entries[0];
      assert e[1..] == entries[1..][..k - 1] + [(name, v)] + entries[1..][k - 1..];
      match Fill(f, entries[0].0, entries[0].1)
      case Err(_) =>
      case Ok(g) => UnknownFieldIgnored(entries[1..], g, k - 1, name, v);
    }
  }

  /** A decoded configuration had its `default` and `locales` fields given. */
  lemma {:induction false} DecodedHasRequired(entries: seq<(string, TomlValue)>, f: Fields)
    requires Visit(entries, f).Ok? && Finish(Visit(entries, f).value).Ok?
    ensures f.default.Some? || exists i :: 0 <= i < |entries| && entries[i].0 == "default"
    ensures f.locales.Some? || exists i :: 0 <= i < |entries| && entries[i].0 == "locales"
  {
    if |entries| > 0 {
      var g := Fill(f, entries[0].0, entries[0].1).value;
      DecodedHasRequired(entries[1..], g);
      if exists i :: 0 <= i < |entries[1..]| && entries[1..][i].0 == "default" {
        var i :| 0 <= i < |entries[1..]| && entries[1..][i].0 == "default";
        assert entries[i + 1].0 == "default";
      }
      if exists i :: 0 <= i < |entries[1..]| && entries[1..][i].0 == "locales" {
        var i :| 0 <= i < |entries[1..]| && entries[1..][i].0 == "locales";
        assert entries[i + 1].0 == "locales";
      }
    }
  }
}
