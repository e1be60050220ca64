/**
 * `ParsedValue::populate` (parse_locales/parsed_value.rs) with the populate
 * functions of ranges (parse_locales/ranges.rs) and plurals
 * (parse_locales/plurals.rs): the value a foreign key points to is filled
 * with the arguments the foreign key gives. A variable named in the
 * arguments becomes the argument's value; a `var_count` argument selects a
 * range or a plural form, or renames the count variable.
 */
module Populating {
  import opened Wrappers
  import opened Keys
  import opened Ranges
  import opened Diagnostics
  import opened Values
  import Plurals

  /** The name of the argument that gives the count of ranges and plurals. */
  const CountArg := "var_count"

  /**
   * Where populating happens: the foreign key being resolved, the locale and
   * the key holding it, and the plural category the locale's rules give a
   * count (the plural rules themselves are not modelled).
   */
  datatype Site = Site(foreignKey: KeyPath, locale: Key, keyPath: KeyPath, category: (PluralRuleType, Literal) -> PluralForm)

  /** `populate`: the first error met, left to right, wins. */
  function Populate(v: ParsedValue, args: map<string, ParsedValue>, site: Site): (r: Result<ParsedValue, Error>)
    ensures v.Subkeys? ==> r == Err(InvalidForeignKey(site.foreignKey, site.locale, site.keyPath))
    decreases v, 3, 0
  {
    match v
    case Default => Ok(v)
    case ForeignKeyValue(_) => Ok(v)
    case LiteralValue(_) => Ok(v)
    case DummyValue(_) => Ok(v)
    case Variable(key, _) => if key.name in args then Ok(args[key.name]) else Ok(v)
    case Component(key, inner, _) =>
      var populatedInner :=
        if inner.None? then Ok(None)
        else (match Populate(inner.value, args, site)
              case Ok(x) => Ok(Some(x))
              case Err(e) => Err(e));
      if populatedInner.Err? then Err(populatedInner.error)
      else
        var attributes := PopulateAttributes(v, 0, args, site);
        if attributes.Err? then Err(attributes.error)
        else Ok(Component(key, populatedInner.value, attributes.value))
    case Bloc(_) =>
      var items := PopulateBloc(v, 0, args, site);
      if items.Err? then Err(items.error) else Ok(Bloc(items.value))
    case RangesValue(countKey, _, _) =>
      if CountArg in args then RangesWithCount(v, args[CountArg], args, site)
      else RangesWithNewKey(v, countKey, args, site)
    case PluralsValue(_, countKey, _, _) =>
      if CountArg in args then PluralsWithCount(v, args[CountArg], args, site)
      else PluralsWithNewKey(v, countKey, args, site)
    case Subkeys(_) => Err(InvalidForeignKey(site.foreignKey, site.locale, site.keyPath))
  }

  /** The items of a bloc from the `i`-th on, populated in order. */
  function PopulateBloc(v: ParsedValue, i: nat, args: map<string, ParsedValue>, site: Site): (r: Result<seq<ParsedValue>, Error>)
    requires v.Bloc? && i <= |v.values|
    ensures r.Ok? ==> |r.value| == |v.values| - i
    decreases v, 1, |v.values| - i
  {
    if i == |v.values| then Ok([])
    else match Populate(v.values[i], args, site)
      case Err(e) => Err(e)
      case Ok(x) =>
        match PopulateBloc(v, i + 1, args, site)
        case Err(e) => Err(e)
        case Ok(rest) => Ok([x] + rest)
  }

  /** `Attributes::populate` from the `i`-th attribute on: names kept, present values populated. */
  function PopulateAttributes(v: ParsedValue, i: nat, args: map<string, ParsedValue>, site: Site): (r: Result<seq<Attribute>, Error>)
    requires v.Component? && i <= |v.attributes|
    ensures r.Ok? ==> |r.value| == |v.attributes| - i
    ensures r.Ok? ==> forall j :: 0 <= j < |r.value| ==>
                        (r.value[j].key == v.attributes[i + j].key && r.value[j].value.Some? == v.attributes[i + j].value.Some?)
    decreases v, 1, |v.attributes| - i
  {
    if i == |v.attributes| then Ok([])
    else
      var attribute := v.attributes[i];
      var value :=
        if attribute.value.None? then Ok(None)
        else (match Populate(attribute.value.value, args, site)
              case Ok(x) => Ok(Some(x))
              case Err(e) => Err(e));
      if value.Err? then Err(value.error)
      else match PopulateAttributes(v, i + 1, args, site)
        case Err(e) => Err(e)
        case Ok(rest) => Ok([Attribute(attribute.key, value.value)] + rest)
  }

  /** `Ranges::populate_with_new_key`: every value populated, the ranges kept, the count renamed. */
  function RangesWithNewKey(v: ParsedValue, newKey: Key, args: map<string, ParsedValue>, site: Site): (r: Result<ParsedValue, Error>)
    requires v.RangesValue?
    ensures r.Ok? ==> r.value.RangesValue? && r.value.countKey == newKey && r.value.rangeType == v.rangeType
    ensures r.Ok? ==> |r.value.entries| == |v.entries| && forall j :: 0 <= j < |v.entries| ==> r.value.entries[j].0 == v.entries[j].0
    decreases v, 1, 0
  {
    match RangeEntries(v, 0, args, site)
    case Err(e) => Err(e)
    case Ok(entries) => Ok(RangesValue(newKey, v.rangeType, entries))
  }

  /** The entries of ranges from the `i`-th on, each value populated. */
  function RangeEntries(v: ParsedValue, i: nat, args: map<string, ParsedValue>, site: Site): (r: Result<seq<(Range, ParsedValue)>, Error>)
    requires v.RangesValue? && i <= |v.entries|
    ensures r.Ok? ==> |r.value| == |v.entries| - i && forall j :: 0 <= j < |r.value| ==> r.value[j].0 == v.entries[i + j].0
    decreases v, 0, |v.entries| - i
  {
    if i == |v.entries| then Ok([])
    else match Populate(v.entries[i].1, args, site)
      case Err(e) => Err(e)
      case Ok(x) =>
        match RangeEntries(v, i + 1, args, site)
        case Err(e) => Err(e)
        case Ok(rest) => Ok([(v.entries[i].0, x)] + rest)
  }

  /**
   * `Ranges::populate_with_count_arg` for ranges over an integer type: an
   * integer count selects the first matching range (or does not fit the
   * type), a bloc holding one variable or a variable renames the count, a
   * float count has the wrong type and anything else is no count at all.
   */
  function RangesWithCount(v: ParsedValue, count: ParsedValue, args: map<string, ParsedValue>, site: Site): (r: Result<ParsedValue, Error>)
    requires v.RangesValue?
    decreases v, 2, 0
  {
    match count
    case LiteralValue(Float(_)) =>
      Err(InvalidCountArgType(site.locale, site.keyPath, site.foreignKey, F64, v.rangeType))
    case LiteralValue(Unsigned(n)) => FindValue(v, n, args, site)
    case LiteralValue(Signed(n)) => FindValue(v, n, args, site)
    case Bloc(values) =>
      (match Plurals.CountVariable(values)
       case None => Err(InvalidCountArg(site.locale, site.keyPath, site.foreignKey))
       case Some(k) => RangesWithNewKey(v, k, args, site))
    case Variable(key, _) => RangesWithNewKey(v, key, args, site)
    case _ => Err(InvalidCountArg(site.locale, site.keyPath, site.foreignKey))
  }

  /**
   * `find_value` after the count is converted to the ranges' type: the value
   * of the first range that matches, populated. When no range matches, the
   * source reaches `unreachable!`.
   */
  function FindValue(v: ParsedValue, n: int, args: map<string, ParsedValue>, site: Site): (r: Result<ParsedValue, Error>)
    requires v.RangesValue?
    decreases v, 0, 0
  {
    if !InType(n, v.rangeType) then Err(CountArgOutsideRange(site.locale, site.keyPath, site.foreignKey))
    else match FirstMatch(v.entries, n)
      case None => Err(Panic("find_value"))
      case Some(i) => Populate(v.entries[i].1, args, site)
  }

  /** `Plurals::populate_with_new_key`: `other` then every form populated, the count renamed. */
  function PluralsWithNewKey(v: ParsedValue, newKey: Key, args: map<string, ParsedValue>, site: Site): (r: Result<ParsedValue, Error>)
    requires v.PluralsValue?
    ensures r.Ok? ==> r.value.PluralsValue? && r.value.countKey == newKey && r.value.ruleType == v.ruleType
    ensures r.Ok? ==> |r.value.forms| == |v.forms| && forall j :: 0 <= j < |v.forms| ==> r.value.forms[j].0 == v.forms[j].0
    decreases v, 1, 0
  {
    match Populate(v.other, args, site)
    case Err(e) => Err(e)
    case Ok(other) =>
      match PluralForms(v, 0, args, site)
      case Err(e) => Err(e)
      case Ok(forms) => Ok(PluralsValue(v.ruleType, newKey, other, forms))
  }

  /** The forms of plurals from the `i`-th on, each value populated. */
  function PluralForms(v: ParsedValue, i: nat, args: map<string, ParsedValue>, site: Site): (r: Result<seq<(PluralForm, ParsedValue)>, Error>)
    requires v.PluralsValue? && i <= |v.forms|
    ensures r.Ok? ==> |r.value| == |v.forms| - i && forall j :: 0 <= j < |r.value| ==> r.value[j].0 == v.forms[i + j].0
    decreases v, 0, |v.forms| - i
  {
    if i == |v.forms| then Ok([])
    else match Populate(v.forms[i].1, args, site)
      case Err(e) => Err(e)
      case Ok(x) =>
        match PluralForms(v, i + 1, args, site)
        case Err(e) => Err(e)
        case Ok(rest) => Ok([(v.forms[i].0, x)] + rest)
  }

  /**
   * `Plurals::populate_with_count_arg`: a numeric count selects the value of
   * its category's form, `other` when the plurals have no such form; a bloc
   * holding one variable or a variable renames the count; anything else is no
   * count at all.
   */
  function PluralsWithCount(v: ParsedValue, count: ParsedValue, args: map<string, ParsedValue>, site: Site): (r: Result<ParsedValue, Error>)
    requires v.PluralsValue?
    decreases v, 2, 0
  {
    match count
    case LiteralValue(l) =>
      if l.LitString? || l.Bool? then Err(InvalidCountArg(site.locale, site.keyPath, site.foreignKey))
      else
        var category := site.category(v.ruleType, l);
        var selected := Plurals.FormFor(v.forms, v.other, category);
        SelectedForm(v, category, selected);
        Populate(selected, args, site)
    case Bloc(values) =>
      (match Plurals.CountVariable(values)
       case None => Err(InvalidCountArg(site.locale, site.keyPath, site.foreignKey))
       case Some(k) => PluralsWithNewKey(v, k, args, site))
    case Variable(key, _) => PluralsWithNewKey(v, key, args, site)
    case _ => Err(InvalidCountArg(site.locale, site.keyPath, site.foreignKey))
  }

  /** The form a category selects is part of the plurals. */
  lemma SelectedForm(v: ParsedValue, category: PluralForm, selected: ParsedValue)
    requires v.PluralsValue? && selected == Plurals.FormFor(v.forms, v.other, category)
    ensures selected < v
  {
    if selected != v.other {
      var i :| 0 <= i < |v.forms| && v.forms[i] == (category, selected);
      assert selected < v.forms[i];
    }
  }

  /**
   * The arguments leave the value alone: no variable it holds is named in
   * them, it holds no ranges or plurals when they give a count, and no
   * subkeys. Foreign keys are not looked into, as `populate` does not.
   */
  predicate Untouched(v: ParsedValue, args: map<string, ParsedValue>)
    decreases v
  {
    match v
    case Variable(key, _) => key.name !in args
    case Component(_, inner, attributes) =>
      (inner.Some? ==> Untouched(inner.value, args))
      && forall i :: 0 <= i < |attributes| && attributes[i].value.Some? ==> Untouched(attributes[i].value.value, args)
    case Bloc(values) => forall i :: 0 <= i < |values| ==> Untouched(values[i], args)
    case RangesValue(_, _, entries) => CountArg !in args && forall i :: 0 <= i < |entries| ==> Untouched(entries[i].1, args)
    case PluralsValue(_, _, other, forms) =>
      CountArg !in args && Untouched(other, args) && forall i :: 0 <= i < |forms| ==> Untouched(forms[i].1, args)
    case Subkeys(_) => false
    case _ => true
  }

  /** Arguments that touch nothing give the value back unchanged. */
  lemma {:induction false} PopulateUntouched(v: ParsedValue, args: map<string, ParsedValue>, site: Site)
    requires Untouched(v, args)
    ensures Populate(v, args, site) == Ok(v)
    decreases v, 3, 0
  {
    match v
    case Component(_, inner, attributes) =>
      if inner.Some? {
        PopulateUntouched(inner.value, args, site);
      }
      AttributesUntouched(v, 0, args, site);
      assert attributes[0..] == attributes;
    case Bloc(values) =>
      BlocUntouched(v, 0, args, site);
      assert values[0..] == values;
    case RangesValue(_, _, entries) =>
      EntriesUntouched(v, 0, args, site);
      assert entries[0..] == entries;
    case PluralsValue(_, _, other, forms) =>
      PopulateUntouched(other, args, site);
      FormsUntouched(v, 0, args, site);
      assert forms[0..] == forms;
    case _ =>
  }

  lemma {:induction false} BlocUntouched(v: ParsedValue, i: nat, args: map<string, ParsedValue>, site: Site)
    requires v.Bloc? && i <= |v.values| && Untouched(v, args)
    ensures PopulateBloc(v, i, args, site) == Ok(v.values[i..])
    decreases v, 1, |v.values| - i
  {
    if i < |v.values| {
      PopulateUntouched(v.values[i], args, site);
      BlocUntouched(v, i + 1, args, site);
      assert v.values[i..] == [v.values[i]] + v.values[i + 1..];
    } else {
      assert v.values[i..] == [];
    }
  }

  lemma {:induction false} AttributesUntouched(v: ParsedValue, i: nat, args: map<string, ParsedValue>, site: Site)
    requires v.Component? && i <= |v.attributes| && Untouched(v, args)
    ensures PopulateAttributes(v, i, args, site) == Ok(v.attributes[i..])
    decreases v, 1, |v.attributes| - i
  {
    if i < |v.attributes| {
      if v.attributes[i].value.Some? {
        PopulateUntouched(v.attributes[i].value.value, args, site);
      }
      AttributesUntouched(v, i + 1, args, site);
      assert v.attributes[i..] == [v.attributes[i]] + v.attributes[i + 1..];
    } else {
      assert v.attributes[i..] == [];
    }
  }

  lemma {:induction false} EntriesUntouched(v: ParsedValue, i: nat, args: map<string, ParsedValue>, site: Site)
    requires v.RangesValue? && i <= |v.entries| && Untouched(v, args)
    ensures RangeEntries(v, i, args, site) == Ok(v.entries[i..])
    decreases v, 0, |v.entries| - i
  {
    if i < |v.entries| {
      PopulateUntouched(v.entries[i].1, args, site);
      EntriesUntouched(v, i + 1, args, site);
      assert v.entries[i..] == [v.entries[i]] + v.entries[i + 1..];
    } else {
      assert v.entries[i..] == [];
    }
  }

  lemma {:induction false} FormsUntouched(v: ParsedValue, i: nat, args: map<string, ParsedValue>, site: Site)
    requires v.PluralsValue? && i <= |v.forms| && Untouched(v, args)
    ensures PluralForms(v, i, args, site) == Ok(v.forms[i..])
    decreases v, 0, |v.forms| - i
  {
    if i < |v.forms| {
      PopulateUntouched(v.forms[i].1, args, site);
      FormsUntouched(v, i + 1, args, site);
      assert v.forms[i..] == [v.forms[i]] + v.forms[i + 1..];
    } else {
      assert v.forms[i..] == [];
    }
  }

  /** Holds subkeys somewhere `populate` looks. */
  predicate ReachesSubkeys(v: ParsedValue)
    decreases v
  {
    match v
    case Subkeys(_) => true
    case Component(_, inner, attributes) =>
      (inner.Some? && ReachesSubkeys(inner.value))
      || exists i :: 0 <= i < |attributes| && attributes[i].value.Some? && ReachesSubkeys(attributes[i].value.value)
    case Bloc(values) => exists i :: 0 <= i < |values| && ReachesSubkeys(values[i])
    case RangesValue(_, _, entries) => exists i :: 0 <= i < |entries| && ReachesSubkeys(entries[i].1)
    case PluralsValue(_, _, other, forms) =>
      ReachesSubkeys(other) || exists i :: 0 <= i < |forms| && ReachesSubkeys(forms[i].1)
    case _ => false
  }

  /** The error `populate` gives for subkeys. */
  function SubkeysError(site: Site): Error {
    InvalidForeignKey(site.foreignKey, site.locale, site.keyPath)
  }

  /**
   * Without a count, populating fails exactly when the value holds subkeys,
   * and then with `InvalidForeignKey`.
   */
  lemma {:induction false} PopulateFailsOnSubkeys(v: ParsedValue, args: map<string, ParsedValue>, site: Site)
    requires CountArg !in args
    ensures Populate(v, args, site).Ok? <==> !ReachesSubkeys(v)
    ensures Populate(v, args, site).Err? ==> Populate(v, args, site).error == SubkeysError(site)
    decreases v, 3, 0
  {
    match v
    case Component(_, _, _) =>
      ComponentFailsOnSubkeys(v, args, site);
    case Bloc(values) =>
      BlocFailsOnSubkeys(v, 0, args, site);
    case RangesValue(_, _, _) =>
      RangesFailOnSubkeys(v, args, site);
    case PluralsValue(_, _, _, _) =>
      PluralsFailOnSubkeys(v, args, site);
    case _ =>
  }

  lemma {:induction false} ComponentFailsOnSubkeys(v: ParsedValue, args: map<string, ParsedValue>, site: Site)
    requires v.Component? && CountArg !in args
    ensures Populate(v, args, site).Ok? <==> !ReachesSubkeys(v)
    ensures Populate(v, args, site).Err? ==> Populate(v, args, site).error == SubkeysError(site)
    decreases v, 2, 0
  {
    if v.inner.Some? {
      PopulateFailsOnSubkeys(v.inner.value, args, site);
    }
    AttributesFailOnSubkeys(v, 0, args, site);
  }

  lemma {:induction false} RangesFailOnSubkeys(v: ParsedValue, args: map<string, ParsedValue>, site: Site)
    requires v.RangesValue? && CountArg !in args
    ensures Populate(v, args, site).Ok? <==> !ReachesSubkeys(v)
    ensures Populate(v, args, site).Err? ==> Populate(v, args, site).error == SubkeysError(site)
    decreases v, 2, 0
  {
    assert Populate(v, args, site) == RangesWithNewKey(v, v.countKey, args, site);
    EntriesFailOnSubkeys(v, 0, args, site);
  }

  lemma {:induction false} PluralsFailOnSubkeys(v: ParsedValue, args: map<string, ParsedValue>, site: Site)
    requires v.PluralsValue? && CountArg !in args
    ensures Populate(v, args, site).Ok? <==> !ReachesSubkeys(v)
    ensures Populate(v, args, site).Err? ==> Populate(v, args, site).error == SubkeysError(site)
    decreases v, 2, 0
  {
    assert Populate(v, args, site) == PluralsWithNewKey(v, v.countKey, args, site);
    PopulateFailsOnSubkeys(v.other, args, site);
    FormsFailOnSubkeys(v, 0, args, site);
  }

  lemma {:induction false} BlocFailsOnSubkeys(v: ParsedValue, i: nat, args: map<string, ParsedValue>, site: Site)
    requires v.Bloc? && i <= |v.values| && CountArg !in args
    ensures PopulateBloc(v, i, args, site).Ok? <==> forall j :: i <= j < |v.values| ==> !ReachesSubkeys(v.values[j])
    ensures PopulateBloc(v, i, args, site).Err? ==> PopulateBloc(v, i, args, site).error == SubkeysError(site)
    decreases v, 1, |v.values| - i
  {
    if i < |v.values| {
      PopulateFailsOnSubkeys(v.values[i], args, site);
      BlocFailsOnSubkeys(v, i + 1, args, site);
    }
  }

  lemma {:induction false} AttributesFailOnSubkeys(v: ParsedValue, i: nat, args: map<string, ParsedValue>, site: Site)
    requires v.Component? && i <= |v.attributes| && CountArg !in args
    ensures PopulateAttributes(v, i, args, site).Ok? <==>
              forall j :: i <= j < |v.attributes| && v.attributes[j].value.Some? ==> !ReachesSubkeys(v.attributes[j].value.value)
    ensures PopulateAttributes(v, i, args, site).Err? ==> PopulateAttributes(v, i, args, site).error == SubkeysError(site)
    decreases v, 1, |v.attributes| - i
  {
    if i < |v.attributes| {
      if v.attributes[i].value.Some? {
        PopulateFailsOnSubkeys(v.attributes[i].value.value, args, site);
      }
      AttributesFailOnSubkeys(v, i + 1, args, site);
    }
  }

  lemma {:induction false} EntriesFailOnSubkeys(v: ParsedValue, i: nat, args: map<string, ParsedValue>, site: Site)
    requires v.RangesValue? && i <= |v.entries| && CountArg !in args
    ensures RangeEntries(v, i, args, site).Ok? <==> forall j :: i <= j < |v.entries| ==> !ReachesSubkeys(v.entries[j].1)
    ensures RangeEntries(v, i, args, site).Err? ==> RangeEntries(v, i, args, site).error == SubkeysError(site)
    decreases v, 0, |v.entries| - i
  {
    if i < |v.entries| {
      PopulateFailsOnSubkeys(v.entries[i].1, args, site);
      EntriesFailOnSubkeys(v, i + 1, args, site);
    }
  }

  lemma {:induction false} FormsFailOnSubkeys(v: ParsedValue, i: nat, args: map<string, ParsedValue>, site: Site)
    requires v.PluralsValue? && i <= |v.forms| && CountArg !in args
    ensures PluralForms(v, i, args, site).Ok? <==> forall j :: i <= j < |v.forms| ==> !ReachesSubkeys(v.forms[j].1)
    ensures PluralForms(v, i, args, site).Err? ==> PluralForms(v, i, args, site).error == SubkeysError(site)
    decreases v, 0, |v.forms| - i
  {
    if i < |v.forms| {
      PopulateFailsOnSubkeys(v.forms[i].1, args, site);
      FormsFailOnSubkeys(v, i + 1, args, site);
    }
  }

  /** The integer a literal count stands for. */
  function IntegerCount(l: Literal): (r: Option<int>)
    ensures r.Some? <==> l.Signed? || l.Unsigned?
  {
    match l
    case Signed(n) => Some(n)
    case Unsigned(n) => Some(n)
    case _ => None
  }

  /** With an integer count, populating ranges is `find_value`. */
  lemma RangesIntegerCount(v: ParsedValue, args: map<string, ParsedValue>, site: Site, n: int)
    requires v.RangesValue? && CountArg in args && args[CountArg].LiteralValue? && IntegerCount(args[CountArg].lit) == Some(n)
    ensures Populate(v, args, site) == FindValue(v, n, args, site)
  {
    assert Populate(v, args, site) == RangesWithCount(v, args[CountArg], args, site);
  }

  /** An integer count that fits the ranges' type selects the value of the first range matching it. */
  lemma RangesCountSelects(v: ParsedValue, args: map<string, ParsedValue>, site: Site, n: int, i: nat)
    requires v.RangesValue? && CountArg in args && args[CountArg].LiteralValue? && IntegerCount(args[CountArg].lit) == Some(n)
    requires InType(n, v.rangeType)
    requires i < |v.entries| && DoMatch(v.entries[i].0, n) && forall j :: 0 <= j < i ==> !DoMatch(v.entries[j].0, n)
    ensures Populate(v, args, site) == Populate(v.entries[i].1, args, site)
  {
    RangesIntegerCount(v, args, site, n);
    assert FirstMatch(v.entries, n) == Some(i);
  }

  /** An integer count the ranges' type cannot hold is `CountArgOutsideRange`. */
  lemma RangesCountOutside(v: ParsedValue, args: map<string, ParsedValue>, site: Site, n: int)
    requires v.RangesValue? && CountArg in args && args[CountArg].LiteralValue? && IntegerCount(args[CountArg].lit) == Some(n)
    requires !InType(n, v.rangeType)
    ensures Populate(v, args, site) == Err(CountArgOutsideRange(site.locale, site.keyPath, site.foreignKey))
  {
    RangesIntegerCount(v, args, site, n);
  }

  /**
   * An integer count that fits the type but matches no range reaches
   * `unreachable!`; ranges ending with a fallback always select one of their
   * values.
   */
  lemma RangesCountUnmatched(v: ParsedValue, args: map<string, ParsedValue>, site: Site, n: int)
    requires v.RangesValue? && CountArg in args && args[CountArg].LiteralValue? && IntegerCount(args[CountArg].lit) == Some(n)
    requires InType(n, v.rangeType)
    ensures (forall j :: 0 <= j < |v.entries| ==> !DoMatch(v.entries[j].0, n)) ==> Populate(v, args, site) == Err(Panic("find_value"))
    ensures v.entries != [] && v.entries[|v.entries| - 1].0 == Fallback ==>
              exists i :: 0 <= i < |v.entries| && Populate(v, args, site) == Populate(v.entries[i].1, args, site)
  {
    RangesIntegerCount(v, args, site, n);
    if v.entries != [] && v.entries[|v.entries| - 1].0 == Fallback {
      FallbackLastAlwaysMatches(v.entries, n);
      var i := FirstMatch(v.entries, n).value;
      assert Populate(v, args, site) == Populate(v.entries[i].1, args, site);
    }
  }

  /** A float count against integer ranges is `InvalidCountArgType`. */
  lemma RangesFloatCount(v: ParsedValue, args: map<string, ParsedValue>, site: Site)
    requires v.RangesValue? && CountArg in args && args[CountArg].LiteralValue? && args[CountArg].lit.Float?
    ensures Populate(v, args, site) == Err(InvalidCountArgType(site.locale, site.keyPath, site.foreignKey, F64, v.rangeType))
  {
  }

  /** With a numeric count, populating plurals populates the value the count's category selects. */
  lemma PluralsNumericCount(v: ParsedValue, args: map<string, ParsedValue>, site: Site, l: Literal)
    requires v.PluralsValue? && CountArg in args && args[CountArg] == LiteralValue(l) && !l.LitString? && !l.Bool?
    ensures Populate(v, args, site) == Populate(Plurals.FormFor(v.forms, v.other, site.category(v.ruleType, l)), args, site)
  {
    assert Populate(v, args, site) == PluralsWithCount(v, args[CountArg], args, site);
  }

  /** A count whose category has a form selects that form's value. */
  lemma PluralsCountSelects(v: ParsedValue, args: map<string, ParsedValue>, site: Site, l: Literal, i: nat)
    requires v.PluralsValue? && CountArg in args && args[CountArg] == LiteralValue(l) && !l.LitString? && !l.Bool?
    requires site.category(v.ruleType, l) != Other
    requires i < |v.forms| && v.forms[i].0 == site.category(v.ruleType, l)
    requires forall j :: 0 <= j < i ==> v.forms[j].0 != v.forms[i].0
    ensures Populate(v, args, site) == Populate(v.forms[i].1, args, site)
  {
    PluralsNumericCount(v, args, site, l);
    Plurals.FormForPresent(v.forms, v.other, v.forms[i].0, i);
  }

  /** A count of category `other`, or of a category the plurals have no form for, selects `other`. */
  lemma PluralsCountOther(v: ParsedValue, args: map<string, ParsedValue>, site: Site, l: Literal)
    requires v.PluralsValue? && CountArg in args && args[CountArg] == LiteralValue(l) && !l.LitString? && !l.Bool?
    requires site.category(v.ruleType, l) == Other || forall j :: 0 <= j < |v.forms| ==> v.forms[j].0 != site.category(v.ruleType, l)
    ensures Populate(v, args, site) == Populate(v.other, args, site)
  {
    PluralsNumericCount(v, args, site, l);
  }

  /** A string or boolean count is not a count. */
  lemma PluralsTextCount(v: ParsedValue, args: map<string, ParsedValue>, site: Site)
    requires v.PluralsValue? && CountArg in args && args[CountArg].LiteralValue?
    requires args[CountArg].lit.LitString? || args[CountArg].lit.Bool?
    ensures Populate(v, args, site) == Err(InvalidCountArg(site.locale, site.keyPath, site.foreignKey))
  {
    assert Populate(v, args, site) == PluralsWithCount(v, args[CountArg], args, site);
  }

  /** The variable a count argument names, directly or as a bloc of blanks around it. */
  function CountRename(count: ParsedValue): Option<Key> {
    match count
    case Variable(key, _) => Some(key)
    case Bloc(values) => Plurals.CountVariable(values)
    case _ => None
  }

  /**
   * Populated ranges and plurals stay ranges and plurals; their count
   * variable is the one the `var_count` argument names, the old one when
   * there is no such argument.
   */
  lemma PopulateCountKey(v: ParsedValue, args: map<string, ParsedValue>, site: Site)
    requires v.RangesValue? || v.PluralsValue?
    requires CountArg !in args || CountRename(args[CountArg]).Some?
    requires Populate(v, args, site).Ok?
    ensures v.RangesValue? ==> Populate(v, args, site).value.RangesValue?
    ensures v.PluralsValue? ==> Populate(v, args, site).value.PluralsValue?
    ensures Populate(v, args, site).value.countKey == if CountArg in args then CountRename(args[CountArg]).value else v.countKey
  {
    if CountArg in args {
      if v.RangesValue? {
        assert Populate(v, args, site) == RangesWithCount(v, args[CountArg], args, site);
      } else {
        assert Populate(v, args, site) == PluralsWithCount(v, args[CountArg], args, site);
      }
    }
  }

  /** A count that is neither a number nor names a variable is `InvalidCountArg`. */
  lemma InvalidCount(v: ParsedValue, args: map<string, ParsedValue>, site: Site)
    requires v.RangesValue? || v.PluralsValue?
    requires CountArg in args && !args[CountArg].LiteralValue? && CountRename(args[CountArg]).None?
    ensures Populate(v, args, site) == Err(InvalidCountArg(site.locale, site.keyPath, site.foreignKey))
  {
    if v.RangesValue? {
      assert Populate(v, args, site) == RangesWithCount(v, args[CountArg], args, site);
    } else {
      assert Populate(v, args, site) == PluralsWithCount(v, args[CountArg], args, site);
    }
  }

  /**
   * A bloc is populated item by item: it succeeds when every item does, with
   * the items' results in order.
   */
  lemma {:induction false} PopulateBlocItems(v: ParsedValue, i: nat, args: map<string, ParsedValue>, site: Site)
    requires v.Bloc? && i <= |v.values|
    ensures PopulateBloc(v, i, args, site).Ok? <==> forall j :: i <= j < |v.values| ==> Populate(v.values[j], args, site).Ok?
    ensures PopulateBloc(v, i, args, site).Ok? ==>
              forall j :: i <= j < |v.values| ==> PopulateBloc(v, i, args, site).value[j - i] == Populate(v.values[j], args, site).value
    decreases |v.values| - i
  {
    if i < |v.values| {
      PopulateBlocItems(v, i + 1, args, site);
    }
  }

  /** A bloc that fails to populate fails with the error of its first item that fails. */
  lemma {:induction false} PopulateBlocFirstError(v: ParsedValue, i: nat, args: map<string, ParsedValue>, site: Site)
    requires v.Bloc? && i <= |v.values| && PopulateBloc(v, i, args, site).Err?
    ensures exists j :: i <= j < |v.values| && Populate(v.values[j], args, site) == Err(PopulateBloc(v, i, args, site).error)
                        && forall k :: i <= k < j ==> Populate(v.values[k], args, site).Ok?
    decreases |v.values| - i
  {
    var e := PopulateBloc(v, i, args, site).error;
    if Populate(v.values[i], args, site).Err? {
      assert Populate(v.values[i], args, site) == Err(e);
    } else {
      PopulateBlocFirstError(v, i + 1, args, site);
      var j :| i + 1 <= j < |v.values| && Populate(v.values[j], args, site) == Err(e)
               && forall k :: i + 1 <= k < j ==> Populate(v.values[k], args, site).Ok?;
      assert forall k :: i <= k < j ==> Populate(v.values[k], args, site).Ok?;
    }
  }
}
