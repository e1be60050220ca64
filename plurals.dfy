/**
 * Plural forms of the locale parser (parse_locales/plurals.rs): the names of
 * the forms, the search for the variable a `count` argument stands for, and
 * the choice of the form a count selects.
 */
module Plurals {
  import opened Wrappers
  import opened Text
  import opened Keys
  import opened Diagnostics
  import opened Values

  /** The name of a form, as it appears in a `key_form` translation key. */
  function FormName(f: PluralForm): string {
    match f
    case Zero => "zero"
    case One => "one"
    case Two => "two"
    case Few => "few"
    case Many => "many"
    case Other => "other"
  }

  /** Distinct forms have distinct names. */
  lemma FormNameInjective(f: PluralForm, g: PluralForm)
    ensures FormName(f) == FormName(g) ==> f == g
  {
  }

  /** `PluralForm::try_from_str`: exactly the six form names are recognised. */
  function TryFromStr(s: string): (r: Option<PluralForm>)
    ensures r.Some? ==> FormName(r.value) == s
    ensures r.None? ==> forall f: PluralForm :: FormName(f) != s
  {
    if s == "zero" then Some(Zero)
    else if s == "one" then Some(One)
    else if s == "two" then Some(Two)
    else if s == "few" then Some(Few)
    else if s == "many" then Some(Many)
    else if s == "other" then Some(Other)
    else None
  }

  /** Reading a form's name gives the form back. */
  lemma TryFromStrRoundTrip(f: PluralForm)
    ensures TryFromStr(FormName(f)) == Some(f)
  {
    FormNameInjective(f, TryFromStr(FormName(f)).value);
  }

  /** `Display for PluralForm`: the key suffix of the form. */
  function FormSuffix(f: PluralForm): (r: string)
    ensures r == "_" + FormName(f)
  {
    match f
    case Zero => "_zero"
    case One => "_one"
    case Two => "_two"
    case Few => "_few"
    case Many => "_many"
    case Other => "_other"
  }

  /** `Display for PluralRuleType`. */
  function RuleTypeName(t: PluralRuleType): string {
    match t
    case Cardinal => "cardinal"
    case Ordinal => "ordinal"
  }

  /** A string literal that is only whitespace (`s.trim().is_empty()`). */
  predicate Blank(v: ParsedValue) {
    v.LiteralValue? && v.lit.LitString? && AllWhitespace(v.lit.s)
  }

  predicate AllBlank(values: seq<ParsedValue>) {
    forall i :: 0 <= i < |values| ==> Blank(values[i])
  }

  /**
   * The variable a bloc given as `count` stands for: it must hold exactly one
   * variable, everything else being whitespace.
   */
  function CountVariable(values: seq<ParsedValue>): Option<Key> {
    if values == [] then None
    else if Blank(values[0]) then CountVariable(values[1..])
    else if values[0].Variable? && AllBlank(values[1..]) then Some(values[0].key)
    else None
  }

  /** `CountVariable` finds a variable exactly when the bloc is blanks around one variable. */
  lemma {:induction false} CountVariableSound(values: seq<ParsedValue>, i: nat)
    requires i < |values| && values[i].Variable?
    requires AllBlank(values[..i]) && AllBlank(values[i + 1..])
    ensures CountVariable(values) == Some(values[i].key)
  {
    if i > 0 {
      assert Blank(values[..i][0]);
      assert values[1..][..i - 1] == values[1..i];
      assert values[1..][i..] == values[i + 1..];
      assert forall j :: 0 <= j < i - 1 ==> values[1..i][j] == values[..i][j + 1];
      CountVariableSound(values[1..], i - 1);
    }
  }

  lemma {:induction false} CountVariableComplete(values: seq<ParsedValue>)
    requires CountVariable(values).Some?
    ensures exists i :: 0 <= i < |values| && values[i].Variable? && values[i].key == CountVariable(values).value
                        && AllBlank(values[..i]) && AllBlank(values[i + 1..])
  {
    if Blank(values[0]) {
      CountVariableComplete(values[1..]);
      var i :| 0 <= i < |values[1..]| && values[1..][i].Variable? && values[1..][i].key == CountVariable(values).value
               && AllBlank(values[1..][..i]) && AllBlank(values[1..][i + 1..]);
      assert values[1..][i + 1..] == values[i + 2..];
      assert values[..i + 1] == [values[0]] + values[1..][..i];
      assert values[i + 1].Variable?;
    } else {
      assert values[..0] == [];
    }
  }

  /** `find_variable`. */
  method FindVariable(values: seq<ParsedValue>, locale: Key, keyPath: KeyPath, foreignKey: KeyPath) returns (r: Result<Key, Error>)
    ensures r.Ok? <==> CountVariable(values).Some?
    ensures r.Ok? ==> r.value == CountVariable(values).value
    ensures r.Err? ==> r.error == InvalidCountArg(locale, keyPath, foreignKey)
  {
    var i := 0;
    while i < |values|
      invariant 0 <= i <= |values|
      invariant CountVariable(values) == CountVariable(values[i..])
    {
      assert values[i..][1..] == values[i + 1..];
      if Blank(values[i]) {
        i := i + 1;
      } else if values[i].Variable? {
        break;
      } else {
        return Err(InvalidCountArg(locale, keyPath, foreignKey));
      }
    }
    if i == |values| {
      return Err(InvalidCountArg(locale, keyPath, foreignKey));
    }
    var key := values[i].key;
    var j := i + 1;
    while j < |values|
      invariant i + 1 <= j <= |values|
      invariant AllBlank(values[i + 1..j])
    {
      if !Blank(values[j]) {
        assert values[i..][1..][j - i - 1] == values[j];
        return Err(InvalidCountArg(locale, keyPath, foreignKey));
      }
      assert values[i + 1..j + 1] == values[i + 1..j] + [values[j]];
      j := j + 1;
    }
    assert values[i..][1..] == values[i + 1..j];
    return Ok(key);
  }

  /**
   * The value a count selects once the plural rules gave its category: the
   * `other` value for `Other`, the value of the category's form when the
   * plurals have one, and `other` again when they have not.
   */
  function FormFor(forms: seq<(PluralForm, ParsedValue)>, other: ParsedValue, category: PluralForm): (r: ParsedValue)
    ensures category == Other ==> r == other
    ensures category != Other && (forall i :: 0 <= i < |forms| ==> forms[i].0 != category) ==> r == other
    ensures r == other || exists i :: 0 <= i < |forms| && forms[i] == (category, r)
  {
    if category == Other || forms == [] then other
    else if forms[0].0 == category then forms[0].1
    else
      var r := FormFor(forms[1..], other, category);
      assert r != other ==> exists i :: 0 <= i < |forms[1..]| && forms[1..][i] == (category, r);
      assert r != other ==> exists i :: 0 <= i < |forms| && forms[i] == (category, r) by {
        if r != other {
          var i :| 0 <= i < |forms[1..]| && forms[1..][i] == (category, r);
          assert forms[i + 1] == (category, r);
        }
      }
      r
  }

  /** With a form for the category, that form's value is the one selected. */
  lemma {:induction false} FormForPresent(forms: seq<(PluralForm, ParsedValue)>, other: ParsedValue, category: PluralForm, i: nat)
    requires category != Other && i < |forms| && forms[i].0 == category
    requires forall j :: 0 <= j < i ==> forms[j].0 != category
    ensures FormFor(forms, other, category) == forms[i].1
  {
    if i > 0 {
      FormForPresent(forms[1..], other, category, i - 1);
    }
  }
}
