/**
 * The keys of a locale (parse_locales/locale.rs): looking a value up by key
 * path, recognising and merging the `key_form` keys of plurals, merging a
 * locale's keys against the default locale's, and the variables and
 * components an interpolated value needs.
 */
module Locales {
  import opened Wrappers
  import opened Text
  import opened Keys
  import opened SortedMaps
  import opened Ranges
  import opened Diagnostics
  import opened Values
  import Formatters
  import Plurals

  /** `Namespace`: a namespace's key and its locales. */
  datatype Namespace = Namespace(key: Key, locales: seq<Locale>)

  /** `LocalesOrNamespaces`: the locales, split in namespaces or not. */
  datatype LocalesOrNamespaces = NameSpaces(namespaces: seq<Namespace>) | LocaleList(locales: seq<Locale>)

  /** `Locale::get_value_at`: follows the path through subkeys. */
  function GetValueAt(l: Locale, path: seq<Key>): (r: Result<Option<ParsedValue>, Error>)
    ensures path == [] ==> r == Ok(None)
    ensures |path| == 1 ==> r == Ok(Get(l.keys, path[0]))
    decreases |path|
  {
    if path == [] then Ok(None)
    else match Get(l.keys, path[0])
      case None => Ok(None)
      case Some(v) =>
        if |path| == 1 then Ok(Some(v))
        else if !v.Subkeys? then Ok(None)
        else if v.locale.None? then Err(Panic("get_value_at"))
        else GetValueAt(v.locale.value, path[1..])
  }

  /** Where a lookup goes on from after the first part of a path gave `r`. */
  function Descend(r: Result<Option<ParsedValue>, Error>, rest: seq<Key>): Result<Option<ParsedValue>, Error> {
    if rest == [] then r
    else match r
      case Err(_) => r
      case Ok(None) => Ok(None)
      case Ok(Some(v)) =>
        if !v.Subkeys? then Ok(None)
        else if v.locale.None? then Err(Panic("get_value_at"))
        else GetValueAt(v.locale.value, rest)
  }

  /**
   * Looking up a path in two parts is looking up the first part, then the
   * rest inside the subkeys found: a value that is not subkeys ends the
   * lookup with nothing.
   */
  lemma {:induction false} GetValueAtAppend(l: Locale, p: seq<Key>, q: seq<Key>)
    requires p != []
    ensures GetValueAt(l, p + q) == Descend(GetValueAt(l, p), q)
    decreases |p|
  {
    if q == [] {
      assert p + q == p;
    } else {
      assert (p + q)[0] == p[0];
      if |p| > 1 {
        assert (p + q)[1..] == p[1..] + q;
        match Get(l.keys, p[0])
        case None =>
        case Some(v) =>
          if v.Subkeys? && v.locale.Some? {
            GetValueAtAppend(v.locale.value, p[1..], q);
          }
      } else {
        assert (p + q)[1..] == q;
      }
    }
  }

  /** The first locale with the given name. */
  function FindLocale(locales: seq<Locale>, name: Key): (r: Option<Locale>)
    ensures r.Some? ==> exists i :: 0 <= i < |locales| && locales[i] == r.value && r.value.name == name
    ensures r.None? ==> forall i :: 0 <= i < |locales| ==> locales[i].name != name
  {
    if locales == [] then None
    else if locales[0].name == name then Some(locales[0])
    else
      var r := FindLocale(locales[1..], name);
      if r.Some? then
        var i :| 0 <= i < |locales[1..]| && locales[1..][i] == r.value && r.value.name == name;
        assert locales[i + 1] == r.value;
        r
      else
        assert forall i :: 1 <= i < |locales| ==> locales[i] == locales[1..][i - 1];
        r
  }

  /** The first namespace with the given key. */
  function FindNamespace(namespaces: seq<Namespace>, key: Key): (r: Option<Namespace>)
    ensures r.Some? ==> exists i :: 0 <= i < |namespaces| && namespaces[i] == r.value && r.value.key == key
    ensures r.None? ==> forall i :: 0 <= i < |namespaces| ==> namespaces[i].key != key
  {
    if namespaces == [] then None
    else if namespaces[0].key == key then Some(namespaces[0])
    else
      var r := FindNamespace(namespaces[1..], key);
      if r.Some? then
        var i :| 0 <= i < |namespaces[1..]| && namespaces[1..][i] == r.value && r.value.key == key;
        assert namespaces[i + 1] == r.value;
        r
      else
        assert forall i :: 1 <= i < |namespaces| ==> namespaces[i] == namespaces[1..][i - 1];
        r
  }

  /**
   * `LocalesOrNamespaces::get_value_at`: the locale named `topLocale` (in the
   * path's namespace when there are namespaces), then the path inside it.
   */
  function LookUp(lon: LocalesOrNamespaces, topLocale: Key, path: KeyPath): (r: Result<Option<ParsedValue>, Error>)
    ensures path.namespace.None? && lon.NameSpaces? ==> r == Ok(None)
    ensures path.namespace.Some? && lon.LocaleList? ==> r == Ok(None)
    ensures path.path == [] ==> r == Ok(None)
  {
    var locale :=
      match (path.namespace, lon)
      case (None, NameSpaces(_)) => None
      case (Some(_), LocaleList(_)) => None
      case (None, LocaleList(locales)) => FindLocale(locales, topLocale)
      case (Some(target), NameSpaces(namespaces)) =>
        (match FindNamespace(namespaces, target)
         case None => None
         case Some(ns) => FindLocale(ns.locales, topLocale));
    if locale.None? then Ok(None) else GetValueAt(locale.value, path.path)
  }

  /** Without namespaces, a lookup searches the first locale of that name. */
  lemma LookUpInLocale(locales: seq<Locale>, i: nat, topLocale: Key, path: seq<Key>)
    requires i < |locales| && locales[i].name == topLocale
    requires forall j :: 0 <= j < i ==> locales[j].name != topLocale
    ensures LookUp(LocaleList(locales), topLocale, KeyPath(None, path)) == GetValueAt(locales[i], path)
  {
    FindLocaleFirst(locales, topLocale, i);
  }

  lemma {:induction false} FindLocaleFirst(locales: seq<Locale>, name: Key, i: nat)
    requires i < |locales| && locales[i].name == name
    requires forall j :: 0 <= j < i ==> locales[j].name != name
    ensures FindLocale(locales, name) == Some(locales[i])
    decreases i
  {
    if i > 0 {
      FindLocaleFirst(locales[1..], name, i - 1);
    }
  }

  /**
   * `is_possible_plural`: a key `base_form` or `base_ordinal_form` whose
   * value is neither ranges nor subkeys may be one form of plurals `base`.
   */
  function IsPossiblePlural(key: Key, value: ParsedValue): (r: Option<(string, PluralRuleType, PluralForm)>)
    ensures r.Some? ==> !value.RangesValue? && !value.Subkeys?
    ensures r.Some? ==> key.name == r.value.0 + (if r.value.1 == Ordinal then "_ordinal" else "") + "_" + Plurals.FormName(r.value.2)
  {
    if value.RangesValue? || value.Subkeys? then None
    else match RSplitOnceChar(key.name, '_')
      case None => None
      case Some((base, suffix)) =>
        var (b, ruleType) := match StripSuffix(base, "_ordinal")
          case Some(b) => (b, Ordinal)
          case None => (base, Cardinal);
        match Plurals.TryFromStr(suffix)
        case None => None
        case Some(form) => Some((b, ruleType, form))
  }

  /** A form name holds no `_`. */
  lemma NoUnderscoreInForm(f: PluralForm)
    ensures '_' !in Plurals.FormName(f)
  {
  }

  /** `rsplit_once` cuts at the separator written last. */
  lemma RSplitLast(a: string, b: string, c: char)
    requires c !in b
    ensures RSplitOnceChar(a + [c] + b, c) == Some((a, b))
  {
    var s := a + [c] + b;
    assert s[|a|] == c;
    assert s[..|a|] == a;
  }

  /**
   * The keys of plurals are recognised as such: `base_form` is a cardinal
   * form and `base_ordinal_form` an ordinal one.
   */
  lemma PossiblePluralRoundTrip(base: string, f: PluralForm, value: ParsedValue)
    requires !value.RangesValue? && !value.Subkeys?
    ensures !EndsWith(base, "_ordinal") ==>
              IsPossiblePlural(Key(base + "_" + Plurals.FormName(f)), value) == Some((base, Cardinal, f))
    ensures IsPossiblePlural(Key(base + "_ordinal" + "_" + Plurals.FormName(f)), value) == Some((base, Ordinal, f))
  {
    NoUnderscoreInForm(f);
    Plurals.TryFromStrRoundTrip(f);
    RSplitLast(base, Plurals.FormName(f), '_');
    assert base + "_" + Plurals.FormName(f) == base + ['_'] + Plurals.FormName(f);
    RSplitLast(base + "_ordinal", Plurals.FormName(f), '_');
    assert base + "_ordinal" + "_" + Plurals.FormName(f) == (base + "_ordinal") + ['_'] + Plurals.FormName(f);
    var o := StripSuffix(base + "_ordinal", "_ordinal");
    assert (base + "_ordinal")[|base + "_ordinal"| - 8..] == "_ordinal";
    assert o == Some(base);
  }

  /** `RangeOrPlural`: what a count variable counts for. */
  datatype RangeOrPlural = RangeCount(t: RangeType) | PluralCount

  /** `VarInfo`: the formatters a variable is used with and what it counts for. */
  datatype VarInfo = VarInfo(formatters: set<Formatters.ValueFormatter>, rangeCount: Option<RangeOrPlural>)

  const NoVarInfo := VarInfo({}, None)

  /**
   * The error `push_count` reports when a variable already counting for
   * `previous` is made to count for `ty`: none when it counted for nothing or
   * for the same thing, a mix of ranges and plurals, or two range types.
   */
  function CountConflict(previous: Option<RangeOrPlural>, ty: RangeOrPlural, keyPath: KeyPath): (r: Option<Error>)
    ensures r.None? <==> previous.None? || previous.value == ty
    ensures r.Some? && (previous.value.PluralCount? || ty.PluralCount?) ==> r.value == RangeAndPluralsMix(keyPath)
    ensures r.Some? && previous.value.RangeCount? && ty.RangeCount? ==> r.value == RangeTypeMissmatch(keyPath, previous.value.t, ty.t)
  {
    match (previous, ty)
    case (None, _) => None
    case (Some(PluralCount), PluralCount) => None
    case (Some(RangeCount(before)), RangeCount(after)) =>
      if before == after then None else Some(RangeTypeMissmatch(keyPath, before, after))
    case (Some(PluralCount), RangeCount(_)) => Some(RangeAndPluralsMix(keyPath))
    case (Some(RangeCount(_)), PluralCount) => Some(RangeAndPluralsMix(keyPath))
  }

  /** `InterpolationKeys`: the components and the variables an interpolated value uses. */
  class InterpolationKeys {
    var components: set<Key>
    var variables: map<Key, VarInfo>

    /** `InterpolationKeys::default()`. */
    constructor ()
      ensures components == {} && variables == map[]
    {
      components := {};
      variables := map[];
    }

    /** The information held on a variable, empty when it is not used yet. */
    function Info(key: Key): VarInfo
      reads this
    {
      if key in variables then variables[key] else NoVarInfo
    }

    /** `push_var`: the variable is used with this formatter too. */
    method PushVar(key: Key, formatter: Formatters.ValueFormatter)
      modifies this
      ensures components == old(components)
      ensures variables == old(variables)[key := VarInfo(old(Info(key)).formatters + {formatter}, old(Info(key)).rangeCount)]
    {
      var info := Info(key);
      variables := variables[key := VarInfo(info.formatters + {formatter}, info.rangeCount)];
    }

    /** `push_comp`. */
    method PushComp(key: Key)
      modifies this
      ensures components == old(components) + {key} && variables == old(variables)
    {
      components := components + {key};
    }

    /**
     * `push_count`: the variable now counts for `ty`, whatever it counted for
     * before; it is an error when that was something else. The key path is
     * taken from the caller with the error.
     */
    method PushCount(keyPath: KeyPath, ty: RangeOrPlural, countKey: Key) returns (r: Result<(), Error>, keyPathAfter: KeyPath)
      modifies this
      ensures components == old(components)
      ensures variables == old(variables)[countKey := VarInfo(old(Info(countKey)).formatters, Some(ty))]
      ensures r.Ok? <==> old(Info(countKey)).rangeCount.None? || old(Info(countKey)).rangeCount == Some(ty)
      ensures r.Err? ==> Some(r.error) == CountConflict(old(Info(countKey)).rangeCount, ty, keyPath)
      ensures keyPathAfter == if r.Ok? then keyPath else KeyPath(None, [])
    {
      var info := Info(countKey);
      variables := variables[countKey := VarInfo(info.formatters, Some(ty))];
      var conflict := CountConflict(info.rangeCount, ty, keyPath);
      if conflict.None? {
        r, keyPathAfter := Ok(()), keyPath;
      } else {
        r, keyPathAfter := Err(conflict.value), KeyPath(None, []);
      }
    }
  }

  /** `InterpolOrLit`: what a value needs to be displayed, keys to interpolate or a literal's type. */
  datatype InterpolOrLit = Interpol(keys: InterpolationKeys) | Lit(literalType: LiteralType)

  /** The place an `InterpolOrLit` is kept, updated in place. */
  class InterpolSlot {
    var value: InterpolOrLit

    constructor (value: InterpolOrLit)
      ensures this.value == value
    {
      this.value := value;
    }

    /**
     * `get_interpol_keys_mut`: the keys, a literal being turned into an
     * interpolation with no key first.
     */
    method GetInterpolKeysMut() returns (keys: InterpolationKeys)
      modifies this
      ensures old(value).Interpol? ==> keys == old(value).keys && value == old(value)
      ensures old(value).Lit? ==> fresh(keys) && keys.components == {} && keys.variables == map[] && value == Interpol(keys)
    {
      if value.Lit? {
        var empty := new InterpolationKeys();
        value := Interpol(empty);
      }
      keys := value.keys;
    }
  }

  // `Locale::merge_plurals`.

  /**
   * Where plurals are merged: the locale, the path of the keys being merged,
   * and whether the `plurals` feature is on.
   */
  datatype MergeSite = MergeSite(locale: Key, keyPath: KeyPath, pluralsEnabled: bool)

  /** A key `is_possible_plural` recognised: the key, its rule type and its value. */
  datatype Member = Member(key: Key, ruleType: PluralRuleType, value: ParsedValue)

  /** The keys recognised for one base, by form. */
  type Group = map<PluralForm, Member>

  /** `PluralForm` in the order it derives `Ord`. */
  const AllForms: seq<PluralForm> := [Zero, One, Two, Few, Many, Other]

  /** The count variable merged plurals get (`Key::count()`). */
  const CountKey := Key("var_count")

  /** The group of a base, empty when there is none yet. */
  function GroupOf(groups: seq<Entry<Group>>, base: string): Group {
    match Get(groups, Key(base))
    case None => map[]
    case Some(g) => g
  }

  /**
   * `possible_plurals.entry(base).or_default().insert(form, ..)` as written:
   * a member already recorded for that form is replaced.
   */
  function AddMemberAsWritten(groups: seq<Entry<Group>>, base: string, form: PluralForm, m: Member): (r: seq<Entry<Group>>)
    requires Sorted(groups)
    ensures Sorted(r)
    ensures GroupOf(r, base) == GroupOf(groups, base)[form := m]
    ensures forall b :: b != base ==> GroupOf(r, b) == GroupOf(groups, b)
  {
    Insert(groups, Key(base), GroupOf(groups, base)[form := m])
  }

  /**
   * Recording a member. Two keys of one base and one form can only be
   * `base_form` and `base_ordinal_form`, so a form already taken is a mix of
   * rule types. A group holds one member per form, so rather than lose one of
   * the two keys this is an error, even in a group that has no `other` and
   * would otherwise stay plain keys.
   */
  function AddMember(groups: seq<Entry<Group>>, base: string, form: PluralForm, m: Member, site: MergeSite): (r: Result<seq<Entry<Group>>, Error>)
    requires Sorted(groups)
    ensures r.Err? <==> form in GroupOf(groups, base)
    ensures r.Err? ==> r.error == ConflictingPluralRuleType(site.locale, site.keyPath.PushKey(Key(base)))
    ensures r.Ok? ==> Sorted(r.value) && GroupOf(r.value, base) == GroupOf(groups, base)[form := m]
    ensures r.Ok? ==> forall b :: b != base ==> GroupOf(r.value, b) == GroupOf(groups, b)
  {
    if form in GroupOf(groups, base) then Err(ConflictingPluralRuleType(site.locale, site.keyPath.PushKey(Key(base))))
    else Ok(AddMemberAsWritten(groups, base, form, m))
  }

  /** A member recorded by `AddMember` joins the members already there. */
  lemma AddMemberKeeps(groups: seq<Entry<Group>>, base: string, form: PluralForm, m: Member, site: MergeSite)
    requires Sorted(groups) && AddMember(groups, base, form, m, site).Ok?
    ensures |GroupOf(AddMember(groups, base, form, m, site).value, base)| == |GroupOf(groups, base)| + 1
    ensures forall f :: f in GroupOf(groups, base) ==>
              f in GroupOf(AddMember(groups, base, form, m, site).value, base)
              && GroupOf(AddMember(groups, base, form, m, site).value, base)[f] == GroupOf(groups, base)[f]
  {
  }

  /** Every member of the group from the forms `forms` on, inserted as a plain key. */
  function InsertMembers(kept: seq<Entry<ParsedValue>>, group: Group, forms: seq<PluralForm>): (r: seq<Entry<ParsedValue>>)
    requires Sorted(kept)
    ensures Sorted(r)
    decreases |forms|
  {
    if forms == [] then kept
    else
      var next := if forms[0] in group then Insert(kept, group[forms[0]].key, group[forms[0]].value) else kept;
      InsertMembers(next, group, forms[1..])
  }

  /** The forms of a group, in form order, with their values. */
  function FormsOf(group: Group, forms: seq<PluralForm>): (r: seq<(PluralForm, ParsedValue)>)
    ensures forall i :: 0 <= i < |r| ==> r[i].0 in group && r[i].0 in forms && r[i].1 == group[r[i].0].value
    decreases |forms|
  {
    if forms == [] then []
    else
      var rest := FormsOf(group, forms[1..]);
      if forms[0] in group then [(forms[0], group[forms[0]].value)] + rest else rest
  }

  /** Every form of the group that `forms` lists is among the merged forms. */
  lemma {:induction false} FormsOfComplete(group: Group, forms: seq<PluralForm>, f: PluralForm)
    requires f in group && f in forms
    ensures exists i :: 0 <= i < |FormsOf(group, forms)| && FormsOf(group, forms)[i].0 == f
    decreases |forms|
  {
    if forms[0] != f {
      FormsOfComplete(group, forms[1..], f);
      var i :| 0 <= i < |FormsOf(group, forms[1..])| && FormsOf(group, forms[1..])[i].0 == f;
      if forms[0] in group {
        assert FormsOf(group, forms)[i + 1].0 == f;
      } else {
        assert FormsOf(group, forms) == FormsOf(group, forms[1..]);
      }
    } else {
      assert FormsOf(group, forms)[0].0 == f;
    }
  }

  /** Whether some form's rule type differs from `other`'s. */
  predicate MixedRules(forms: Group, other: Member) {
    exists f :: f in forms && forms[f].ruleType != other.ruleType
  }

  /**
   * One group of possible plurals, into the locale's keys: a lone key, or
   * keys without `other`, stay plain keys; otherwise they become plurals at
   * the base key, with `other` and every other form, provided the base is a
   * key, plurals are enabled, the rule types agree and the base key is free.
   */
  function MergeGroup(kept: seq<Entry<ParsedValue>>, base: string, group: Group, site: MergeSite): (r: Result<seq<Entry<ParsedValue>>, Error>)
    requires Sorted(kept)
    ensures r.Ok? ==> Sorted(r.value)
    ensures |group| == 1 || Other !in group ==> r == Ok(InsertMembers(kept, group, AllForms))
  {
    if |group| == 1 || Other !in group then Ok(InsertMembers(kept, group, AllForms))
    else
      var other := group[Other];
      var forms := group - {Other};
      match NewKey(base)
      case None => Err(Panic("merge_plurals_1"))
      case Some(key) =>
        var path := site.keyPath.PushKey(key);
        if !site.pluralsEnabled then Err(DisabledPlurals(site.locale, path))
        else if MixedRules(forms, other) then Err(ConflictingPluralRuleType(site.locale, path))
        else if HasKey(kept, key) then Err(PluralsAtNormalKey(site.locale, path))
        else Ok(Insert(kept, key, PluralsValue(other.ruleType, CountKey, other.value, FormsOf(forms, AllForms))))
  }

  /** The groups from the `j`-th on, in base order, into the locale's keys. */
  function MergeGroups(kept: seq<Entry<ParsedValue>>, groups: seq<Entry<Group>>, j: nat, site: MergeSite): (r: Result<seq<Entry<ParsedValue>>, Error>)
    requires Sorted(kept) && j <= |groups|
    ensures r.Ok? ==> Sorted(r.value)
    decreases |groups| - j
  {
    if j == |groups| then Ok(kept)
    else match MergeGroup(kept, groups[j].key.name, groups[j].value, site)
      case Err(e) => Err(e)
      case Ok(next) => MergeGroups(next, groups, j + 1, site)
  }

  /** The `i`-th value of a locale after its own subkeys had their plurals merged. */
  function MergedValue(l: Locale, i: nat, site: MergeSite): (r: Result<ParsedValue, Error>)
    requires i < |l.keys|
    decreases l, 0, 0
  {
    var value := l.keys[i].value;
    assert l.keys[i] == Entry(l.keys[i].key, value);
    if value.Subkeys? && value.locale.Some? then
      var sub := value.locale.value;
      match MergePluralsOf(sub, site.(keyPath := site.keyPath.PushKey(l.keys[i].key)))
      case Err(e) => Err(e)
      case Ok(keys) => Ok(Subkeys(Some(Locale(sub.topLocaleName, sub.name, keys))))
    else Ok(value)
  }

  /**
   * The keys of a locale from the `i`-th on, each after its subkeys are
   * merged: a possible plural joins the group of its base, any other key is
   * kept.
   */
  function Classify(l: Locale, i: nat, kept: seq<Entry<ParsedValue>>, groups: seq<Entry<Group>>, site: MergeSite)
    : (r: Result<(seq<Entry<ParsedValue>>, seq<Entry<Group>>), Error>)
    requires i <= |l.keys| && Sorted(kept) && Sorted(groups)
    ensures r.Ok? ==> Sorted(r.value.0) && Sorted(r.value.1)
    decreases l, 1, |l.keys| - i
  {
    if i == |l.keys| then Ok((kept, groups))
    else
      var key := l.keys[i].key;
      match MergedValue(l, i, site)
      case Err(e) => Err(e)
      case Ok(value) =>
        match IsPossiblePlural(key, value)
        case None => Classify(l, i + 1, Insert(kept, key, value), groups, site)
        case Some((base, ruleType, form)) =>
          match AddMember(groups, base, form, Member(key, ruleType, value), site)
          case Err(e) => Err(e)
          case Ok(next) => Classify(l, i + 1, kept, next, site)
  }

  /** `Locale::merge_plurals`: the locale's keys with their plurals merged. */
  function MergePluralsOf(l: Locale, site: MergeSite): (r: Result<seq<Entry<ParsedValue>>, Error>)
    ensures r.Ok? ==> Sorted(r.value)
    decreases l, 2, 0
  {
    match Classify(l, 0, [], [], site)
    case Err(e) => Err(e)
    case Ok((kept, groups)) => MergeGroups(kept, groups, 0, site)
  }

  /**
   * `Locale::merge_plurals` as the source runs it: one pass over the keys in
   * order, merging subkeys first, then one pass over the groups in base order.
   */
  method MergePlurals(l: Locale, site: MergeSite) returns (r: Result<seq<Entry<ParsedValue>>, Error>)
    ensures r == MergePluralsOf(l, site)
    decreases l, 2
  {
    var classified := ClassifyKeys(l, site);
    if classified.Err? {
      return Err(classified.error);
    }
    var (kept, groups) := classified.value;
    var j := 0;
    while j < |groups|
      invariant j <= |groups| && Sorted(kept)
      invariant MergeGroups(kept, groups, j, site) == MergePluralsOf(l, site)
    {
      var next := MergeGroup(kept, groups[j].key.name, groups[j].value, site);
      if next.Err? {
        return Err(next.error);
      }
      kept := next.value;
      j := j + 1;
    }
    return Ok(kept);
  }

  /** The `i`-th value of a locale, its subkeys merged first. */
  method MergeValue(l: Locale, i: nat, site: MergeSite) returns (r: Result<ParsedValue, Error>)
    requires i < |l.keys|
    ensures r == MergedValue(l, i, site)
    decreases l, 0
  {
    var value := l.keys[i].value;
    assert l.keys[i] == Entry(l.keys[i].key, value);
    if value.Subkeys? && value.locale.Some? {
      var sub := value.locale.value;
      var merged := MergePlurals(sub, site.(keyPath := site.keyPath.PushKey(l.keys[i].key)));
      if merged.Err? {
        return Err(merged.error);
      }
      return Ok(Subkeys(Some(Locale(sub.topLocaleName, sub.name, merged.value))));
    }
    return Ok(value);
  }

  /** A key whose value fails to merge stops the first pass with that error. */
  lemma ClassifyFails(l: Locale, i: nat, kept: seq<Entry<ParsedValue>>, groups: seq<Entry<Group>>, site: MergeSite)
    requires i < |l.keys| && Sorted(kept) && Sorted(groups) && MergedValue(l, i, site).Err?
    ensures Classify(l, i, kept, groups, site) == Err(MergedValue(l, i, site).error)
  {
  }

  /** A key that is no possible plural is kept, with its merged value. */
  lemma ClassifyKept(l: Locale, i: nat, kept: seq<Entry<ParsedValue>>, groups: seq<Entry<Group>>, site: MergeSite, value: ParsedValue)
    requires i < |l.keys| && Sorted(kept) && Sorted(groups) && MergedValue(l, i, site) == Ok(value)
    requires IsPossiblePlural(l.keys[i].key, value).None?
    ensures Classify(l, i, kept, groups, site) == Classify(l, i + 1, Insert(kept, l.keys[i].key, value), groups, site)
  {
  }

  /** A possible plural joins the group of its base. */
  lemma ClassifyJoins(l: Locale, i: nat, kept: seq<Entry<ParsedValue>>, groups: seq<Entry<Group>>, site: MergeSite,
                      value: ParsedValue, base: string, ruleType: PluralRuleType, form: PluralForm)
    requires i < |l.keys| && Sorted(kept) && Sorted(groups) && MergedValue(l, i, site) == Ok(value)
    requires IsPossiblePlural(l.keys[i].key, value) == Some((base, ruleType, form))
    ensures var added := AddMember(groups, base, form, Member(l.keys[i].key, ruleType, value), site);
      Classify(l, i, kept, groups, site) == if added.Err? then Err(added.error) else Classify(l, i + 1, kept, added.value, site)
  {
  }

  /** The first pass of `Locale::merge_plurals`: the kept keys and the groups of possible plurals. */
  method ClassifyKeys(l: Locale, site: MergeSite) returns (r: Result<(seq<Entry<ParsedValue>>, seq<Entry<Group>>), Error>)
    ensures r == Classify(l, 0, [], [], site)
    decreases l, 1
  {
    var kept: seq<Entry<ParsedValue>> := [];
    var groups: seq<Entry<Group>> := [];
    var i := 0;
    ghost var want := Classify(l, 0, [], [], site);
    while i < |l.keys|
      invariant i <= |l.keys| && Sorted(kept) && Sorted(groups)
      invariant Classify(l, i, kept, groups, site) == want
    {
      var key := l.keys[i].key;
      var merged := MergeValue(l, i, site);
      if merged.Err? {
        ClassifyFails(l, i, kept, groups, site);
        return Err(merged.error);
      }
      var value := merged.value;
      match IsPossiblePlural(key, value) {
        case None =>
          ClassifyKept(l, i, kept, groups, site, value);
          kept := Insert(kept, key, value);
        case Some((base, ruleType, form)) =>
          ClassifyJoins(l, i, kept, groups, site, value, base, ruleType, form);
          var added := AddMember(groups, base, form, Member(key, ruleType, value), site);
          if added.Err? {
            assert Classify(l, i, kept, groups, site) == Err(added.error);
            return Err(added.error);
          }
          assert Classify(l, i, kept, groups, site) == Classify(l, i + 1, kept, added.value, site);
          groups := added.value;
      }
      i := i + 1;
    }
    return Ok((kept, groups));
  }

  /** No two members of a group share a key. */
  predicate DistinctMembers(group: Group) {
    forall f, g :: f in group && g in group && f != g ==> group[f].key != group[g].key
  }

  /**
   * Members inserted as plain keys: each member of a listed form is at its
   * own key with its value, and a key no such member has is unchanged.
   */
  lemma {:induction false} InsertMembersKeeps(kept: seq<Entry<ParsedValue>>, group: Group, forms: seq<PluralForm>)
    requires Sorted(kept) && DistinctMembers(group)
    ensures forall f :: f in group && f in forms ==> Get(InsertMembers(kept, group, forms), group[f].key) == Some(group[f].value)
    ensures forall k :: (forall f :: f in group && f in forms ==> group[f].key != k) ==>
              Get(InsertMembers(kept, group, forms), k) == Get(kept, k)
    decreases |forms|
  {
    if forms != [] {
      var next := if forms[0] in group then Insert(kept, group[forms[0]].key, group[forms[0]].value) else kept;
      InsertMembersKeeps(next, group, forms[1..]);
      assert InsertMembers(kept, group, forms) == InsertMembers(next, group, forms[1..]);
      forall f | f in group && f in forms
        ensures Get(InsertMembers(kept, group, forms), group[f].key) == Some(group[f].value)
      {
        if f !in forms[1..] {
          assert f == forms[0];
        }
      }
    }
  }

  /** Every plural form is listed in `AllForms`. */
  lemma AllFormsComplete(f: PluralForm)
    ensures f in AllForms
  {
    assert AllForms[0] == Zero && AllForms[1] == One && AllForms[2] == Two;
    assert AllForms[3] == Few && AllForms[4] == Many && AllForms[5] == Other;
  }

  /**
   * A group without `other`, or with a single key, leaves every one of its
   * keys as a plain key with its own value and touches no other key.
   */
  lemma MergeGroupKeepsKeys(kept: seq<Entry<ParsedValue>>, base: string, group: Group, site: MergeSite)
    requires Sorted(kept) && DistinctMembers(group)
    requires |group| == 1 || Other !in group
    ensures MergeGroup(kept, base, group, site).Ok?
    ensures forall f :: f in group ==> Get(MergeGroup(kept, base, group, site).value, group[f].key) == Some(group[f].value)
    ensures forall k :: (forall f :: f in group ==> group[f].key != k) ==>
              Get(MergeGroup(kept, base, group, site).value, k) == Get(kept, k)
  {
    InsertMembersKeeps(kept, group, AllForms);
    forall f | f in group {
      AllFormsComplete(f);
    }
  }

  /**
   * A group with `other` and another form fails exactly when its base is not
   * a key, plurals are disabled, its rule types differ, or its base is
   * already a plain key.
   */
  lemma MergeGroupFails(kept: seq<Entry<ParsedValue>>, base: string, group: Group, site: MergeSite)
    requires Sorted(kept) && |group| > 1 && Other in group
    ensures NewKey(base).None? ==> MergeGroup(kept, base, group, site) == Err(Panic("merge_plurals_1"))
    ensures NewKey(base).Some? && !site.pluralsEnabled ==>
              MergeGroup(kept, base, group, site) == Err(DisabledPlurals(site.locale, site.keyPath.PushKey(NewKey(base).value)))
    ensures NewKey(base).Some? && site.pluralsEnabled && (exists f :: f in group && group[f].ruleType != group[Other].ruleType) ==>
              MergeGroup(kept, base, group, site) == Err(ConflictingPluralRuleType(site.locale, site.keyPath.PushKey(NewKey(base).value)))
    ensures NewKey(base).Some? && site.pluralsEnabled && (forall f :: f in group ==> group[f].ruleType == group[Other].ruleType)
            && HasKey(kept, NewKey(base).value) ==>
              MergeGroup(kept, base, group, site) == Err(PluralsAtNormalKey(site.locale, site.keyPath.PushKey(NewKey(base).value)))
  {
    var forms := group - {Other};
    if exists f :: f in group && group[f].ruleType != group[Other].ruleType {
      var f :| f in group && group[f].ruleType != group[Other].ruleType;
      assert f in forms;
    }
  }

  /**
   * A group with `other` and another form that merges becomes one plurals
   * value at the trimmed base key: `other` is its fallback, every other form
   * is listed with its value (and nothing else is), its rule type is the
   * group's, its count is `var_count`, and no other key changes.
   */
  lemma MergeGroupMakesPlurals(kept: seq<Entry<ParsedValue>>, base: string, group: Group, site: MergeSite)
    requires Sorted(kept) && |group| > 1 && Other in group
    requires MergeGroup(kept, base, group, site).Ok?
    ensures NewKey(base).Some? && site.pluralsEnabled && !HasKey(kept, NewKey(base).value)
    ensures forall f :: f in group ==> group[f].ruleType == group[Other].ruleType
    ensures
      var r := MergeGroup(kept, base, group, site).value;
      var p := Get(r, NewKey(base).value);
      && p.Some? && p.value.PluralsValue?
      && p.value.ruleType == group[Other].ruleType
      && p.value.countKey == CountKey
      && p.value.other == group[Other].value
      && (forall i :: 0 <= i < |p.value.forms| ==>
            (p.value.forms[i].0 in group && p.value.forms[i].0 != Other && p.value.forms[i].1 == group[p.value.forms[i].0].value))
      && (forall f :: f in group && f != Other ==> exists i :: 0 <= i < |p.value.forms| && p.value.forms[i].0 == f)
    ensures forall k :: k != NewKey(base).value ==> Get(MergeGroup(kept, base, group, site).value, k) == Get(kept, k)
  {
    var forms := group - {Other};
    forall f | f in group && f != Other
      ensures exists i :: 0 <= i < |FormsOf(forms, AllForms)| && FormsOf(forms, AllForms)[i].0 == f
    {
      AllFormsComplete(f);
      FormsOfComplete(forms, AllForms, f);
    }
    forall f | f in group
      ensures group[f].ruleType == group[Other].ruleType
    {
      if f != Other {
        assert f in forms;
      }
    }
  }

  /** No key of the locale is a subkeys table or a possible plural. */
  predicate PlainKeys(l: Locale) {
    forall i :: 0 <= i < |l.keys| ==>
      !(l.keys[i].value.Subkeys? && l.keys[i].value.locale.Some?) && IsPossiblePlural(l.keys[i].key, l.keys[i].value).None?
  }

  lemma {:induction false} ClassifyPlain(l: Locale, i: nat, kept: seq<Entry<ParsedValue>>, site: MergeSite)
    requires i <= |l.keys| && Sorted(kept) && Sorted(l.keys) && PlainKeys(l)
    requires forall k :: Get(kept, k) == Get(l.keys[..i], k)
    ensures Classify(l, i, kept, [], site).Ok? && Classify(l, i, kept, [], site).value.1 == []
    ensures forall k :: Get(Classify(l, i, kept, [], site).value.0, k) == Get(l.keys, k)
    decreases |l.keys| - i
  {
    if i == |l.keys| {
      assert l.keys[..i] == l.keys;
    } else {
      var e := l.keys[i];
      assert MergedValue(l, i, site) == Ok(e.value);
      var next := Insert(kept, e.key, e.value);
      InsertNextOfSorted(l.keys, i, kept);
      ClassifyPlain(l, i + 1, next, site);
    }
  }

  /**
   * A locale (its keys in key order) with no subkeys and no key that looks
   * like a plural keeps exactly its keys.
   */
  lemma MergePluralsPlain(l: Locale, site: MergeSite)
    requires Sorted(l.keys) && PlainKeys(l)
    ensures MergePluralsOf(l, site).Ok?
    ensures forall k :: Get(MergePluralsOf(l, site).value, k) == Get(l.keys, k)
  {
    ClassifyPlain(l, 0, [], site);
  }

  // `Locale::merge`, at the level of keys: what the values' own merging
  // (`ParsedValue::merge`) does is not part of this model.

  /**
   * The locale's keys once every key the default locale's builder has is
   * present, a missing one as `Default`; a builder key the default locale
   * itself lacks panics.
   */
  function FillMissing(builder: seq<Key>, keys: seq<Entry<ParsedValue>>, defaults: seq<Entry<ParsedValue>>): (r: Result<seq<Entry<ParsedValue>>, Error>)
    requires Sorted(keys)
    ensures r.Ok? ==> Sorted(r.value)
    ensures r.Err? ==> r.error == Panic("merge_1")
    decreases |builder|
  {
    if builder == [] then Ok(keys)
    else if !HasKey(defaults, builder[0]) then Err(Panic("merge_1"))
    else FillMissing(builder[1..], if HasKey(keys, builder[0]) then keys else Insert(keys, builder[0], Default), defaults)
  }

  /** The `MissingKey` warnings, one per builder key the locale lacks, up to a key the default locale lacks. */
  function MissingWarnings(builder: seq<Key>, keys: seq<Entry<ParsedValue>>, defaults: seq<Entry<ParsedValue>>, top: Key, keyPath: KeyPath)
    : (r: seq<Warning>)
    requires Sorted(keys)
    decreases |builder|
  {
    if builder == [] || !HasKey(defaults, builder[0]) then []
    else if HasKey(keys, builder[0]) then MissingWarnings(builder[1..], keys, defaults, top, keyPath)
    else [MissingKey(top, keyPath.PushKey(builder[0]))] + MissingWarnings(builder[1..], Insert(keys, builder[0], Default), defaults, top, keyPath)
  }

  /** The `SurplusKey` warnings, one per key of the locale the builder lacks, in key order. */
  function SurplusWarnings(keys: seq<Entry<ParsedValue>>, builder: seq<Key>, top: Key, keyPath: KeyPath): (r: seq<Warning>)
    decreases |keys|
  {
    if keys == [] then []
    else
      var here := if keys[0].key in builder then [] else [SurplusKey(top, keyPath.PushKey(keys[0].key))];
      here + SurplusWarnings(keys[1..], builder, top, keyPath)
  }

  /**
   * `Locale::merge` on the locale's keys: the keys with every builder key
   * filled in, the warnings about missing keys, then about surplus keys.
   */
  method Merge(builder: seq<Key>, keys: seq<Entry<ParsedValue>>, defaults: seq<Entry<ParsedValue>>, top: Key, keyPath: KeyPath,
               diagnostics: Diagnostics)
    returns (r: Result<seq<Entry<ParsedValue>>, Error>)
    requires Sorted(keys)
    modifies diagnostics
    ensures r == FillMissing(builder, keys, defaults)
    ensures diagnostics.errors == old(diagnostics.errors)
    ensures r.Err? ==> diagnostics.warnings == old(diagnostics.warnings) + MissingWarnings(builder, keys, defaults, top, keyPath)
    ensures r.Ok? ==>
              diagnostics.warnings == old(diagnostics.warnings) + MissingWarnings(builder, keys, defaults, top, keyPath)
                                      + SurplusWarnings(r.value, builder, top, keyPath)
  {
    r := FillKeys(builder, keys, defaults, top, keyPath, diagnostics);
    if r.Ok? {
      WarnSurplus(r.value, builder, top, keyPath, diagnostics);
    }
  }

  /** The first loop of `Locale::merge`: every builder key filled in, with a warning for each missing one. */
  method FillKeys(builder: seq<Key>, keys: seq<Entry<ParsedValue>>, defaults: seq<Entry<ParsedValue>>, top: Key, keyPath: KeyPath,
                  diagnostics: Diagnostics)
    returns (r: Result<seq<Entry<ParsedValue>>, Error>)
    requires Sorted(keys)
    modifies diagnostics
    ensures r == FillMissing(builder, keys, defaults)
    ensures diagnostics.errors == old(diagnostics.errors)
    ensures diagnostics.warnings == old(diagnostics.warnings) + MissingWarnings(builder, keys, defaults, top, keyPath)
  {
    var current := keys;
    var rest := builder;
    while rest != []
      invariant Sorted(current)
      invariant FillMissing(rest, current, defaults) == FillMissing(builder, keys, defaults)
      invariant diagnostics.errors == old(diagnostics.errors)
      invariant diagnostics.warnings + MissingWarnings(rest, current, defaults, top, keyPath)
                == old(diagnostics.warnings) + MissingWarnings(builder, keys, defaults, top, keyPath)
      decreases |rest|
    {
      var key := rest[0];
      if !HasKey(defaults, key) {
        assert diagnostics.warnings + [] == diagnostics.warnings;
        return Err(Panic("merge_1"));
      }
      if !HasKey(current, key) {
        var w := MissingKey(top, keyPath.PushKey(key));
        var after := MissingWarnings(rest[1..], Insert(current, key, Default), defaults, top, keyPath);
        assert diagnostics.warnings + ([w] + after) == (diagnostics.warnings + [w]) + after;
        diagnostics.EmitWarning(w);
        current := Insert(current, key, Default);
      }
      rest := rest[1..];
    }
    assert diagnostics.warnings + [] == diagnostics.warnings;
    return Ok(current);
  }

  /** The second loop of `Locale::merge`: a warning for each key the builder lacks. */
  method WarnSurplus(keys: seq<Entry<ParsedValue>>, builder: seq<Key>, top: Key, keyPath: KeyPath, diagnostics: Diagnostics)
    modifies diagnostics
    ensures diagnostics.errors == old(diagnostics.errors)
    ensures diagnostics.warnings == old(diagnostics.warnings) + SurplusWarnings(keys, builder, top, keyPath)
  {
    var j := 0;
    while j < |keys|
      invariant j <= |keys|
      invariant diagnostics.errors == old(diagnostics.errors)
      invariant diagnostics.warnings + SurplusWarnings(keys[j..], builder, top, keyPath)
                == old(diagnostics.warnings) + SurplusWarnings(keys, builder, top, keyPath)
    {
      assert keys[j..][1..] == keys[j + 1..];
      var rest := SurplusWarnings(keys[j + 1..], builder, top, keyPath);
      if keys[j].key !in builder {
        var w := SurplusKey(top, keyPath.PushKey(keys[j].key));
        assert diagnostics.warnings + ([w] + rest) == (diagnostics.warnings + [w]) + rest;
        diagnostics.EmitWarning(w);
      } else {
        assert [] + rest == rest;
      }
      j := j + 1;
    }
    assert keys[j..] == [];
    assert diagnostics.warnings + [] == diagnostics.warnings;
  }

  /**
   * Filling in succeeds exactly when the default locale has every builder
   * key; then every builder key is present, the locale's own keys keep their
   * values, the added ones are `Default`, and no other key appears.
   */
  lemma {:induction false} FillMissingFills(builder: seq<Key>, keys: seq<Entry<ParsedValue>>, defaults: seq<Entry<ParsedValue>>)
    requires Sorted(keys)
    ensures FillMissing(builder, keys, defaults).Ok? <==> forall k :: k in builder ==> HasKey(defaults, k)
    ensures FillMissing(builder, keys, defaults).Ok? ==>
              forall k :: Get(FillMissing(builder, keys, defaults).value, k) ==
                if HasKey(keys, k) then Get(keys, k) else if k in builder then Some(Default) else None
    decreases |builder|
  {
    if builder != [] && HasKey(defaults, builder[0]) {
      var k0 := builder[0];
      var next := if HasKey(keys, k0) then keys else Insert(keys, k0, Default);
      FillMissingFills(builder[1..], next, defaults);
      assert forall k :: k in builder <==> k == k0 || k in builder[1..];
    } else if builder != [] {
      assert builder[0] in builder;
    }
  }

  /**
   * The missing-key warnings name exactly the builder keys the locale lacks,
   * once the default locale has every builder key.
   */
  lemma {:induction false} MissingWarningsExact(builder: seq<Key>, keys: seq<Entry<ParsedValue>>, defaults: seq<Entry<ParsedValue>>,
                                                top: Key, keyPath: KeyPath, w: Warning)
    requires Sorted(keys) && forall k :: k in builder ==> HasKey(defaults, k)
    ensures w in MissingWarnings(builder, keys, defaults, top, keyPath) <==>
              exists k :: k in builder && !HasKey(keys, k) && w == MissingKey(top, keyPath.PushKey(k))
    decreases |builder|
  {
    if builder != [] {
      var k0 := builder[0];
      assert forall k :: k in builder <==> k == k0 || k in builder[1..];
      var next := if HasKey(keys, k0) then keys else Insert(keys, k0, Default);
      MissingWarningsExact(builder[1..], next, defaults, top, keyPath, w);
      assert forall k :: HasKey(next, k) <==> HasKey(keys, k) || (k == k0 && !HasKey(keys, k0)) by {
        forall k
          ensures HasKey(next, k) <==> HasKey(keys, k) || (k == k0 && !HasKey(keys, k0))
        {
          assert Get(next, k).Some? <==> HasKey(next, k);
        }
      }
      if w in MissingWarnings(builder, keys, defaults, top, keyPath) && w != MissingKey(top, keyPath.PushKey(k0)) {
        var k :| k in builder[1..] && !HasKey(next, k) && w == MissingKey(top, keyPath.PushKey(k));
        assert !HasKey(keys, k);
      }
    }
  }

  /** The surplus-key warnings name exactly the keys the locale has and the builder lacks. */
  lemma {:induction false} SurplusWarningsExact(keys: seq<Entry<ParsedValue>>, builder: seq<Key>, top: Key, keyPath: KeyPath, w: Warning)
    ensures w in SurplusWarnings(keys, builder, top, keyPath) <==>
              exists k :: HasKey(keys, k) && k !in builder && w == SurplusKey(top, keyPath.PushKey(k))
    decreases |keys|
  {
    if keys != [] {
      SurplusWarningsExact(keys[1..], builder, top, keyPath, w);
      assert forall k :: HasKey(keys, k) <==> k == keys[0].key || HasKey(keys[1..], k) by {
        forall k
          ensures HasKey(keys, k) <==> k == keys[0].key || HasKey(keys[1..], k)
        {
          if HasKey(keys, k) && k != keys[0].key {
            var i :| 0 <= i < |keys| && keys[i].key == k;
            assert keys[1..][i - 1].key == k;
          }
          if HasKey(keys[1..], k) {
            var i :| 0 <= i < |keys| - 1 && keys[1..][i].key == k;
            assert keys[i + 1].key == k;
          }
        }
      }
    }
  }

  /**
   * `b_one` and `b_ordinal_one` are two different keys that are both possible
   * plurals of base `b` and form `one`.
   */
  lemma CardinalAndOrdinalCollide(base: string, f: PluralForm, v1: ParsedValue, v2: ParsedValue)
    requires !EndsWith(base, "_ordinal")
    requires !v1.RangesValue? && !v1.Subkeys? && !v2.RangesValue? && !v2.Subkeys?
    ensures IsPossiblePlural(Key(base + "_" + Plurals.FormName(f)), v1) == Some((base, Cardinal, f))
    ensures IsPossiblePlural(Key(base + "_ordinal" + "_" + Plurals.FormName(f)), v2) == Some((base, Ordinal, f))
    ensures Key(base + "_" + Plurals.FormName(f)) != Key(base + "_ordinal" + "_" + Plurals.FormName(f))
  {
    PossiblePluralRoundTrip(base, f, v1);
    PossiblePluralRoundTrip(base, f, v2);
    assert |base + "_" + Plurals.FormName(f)| < |base + "_ordinal" + "_" + Plurals.FormName(f)|;
  }

  /**
   * Two keys of one base and one form, as written: the second replaces the
   * first in their group, which then holds the second alone; such a group
   * is inserted as plain keys (`MergeGroupKeepsKeys`), so the first key is
   * gone from the locale. `AddMember` reports the second as a rule-type
   * conflict instead.
   */
  lemma AddMemberAsWrittenDrops(groups: seq<Entry<Group>>, base: string, f: PluralForm,
                                first: Member, second: Member, site: MergeSite)
    requires Sorted(groups) && GroupOf(groups, base) == map[]
    ensures var once := AddMemberAsWritten(groups, base, f, first);
            var twice := AddMemberAsWritten(once, base, f, second);
            && GroupOf(twice, base) == map[f := second]
            && AddMember(once, base, f, second, site) == Err(ConflictingPluralRuleType(site.locale, site.keyPath.PushKey(Key(base))))
  {
    assert map[f := first][f := second] == map[f := second];
  }
}
