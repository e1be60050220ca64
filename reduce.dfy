/**
 * `ParsedValue::reduce` and `ParsedValue::reduce_into` (parse_locales/parsed_value.rs):
 * resolved foreign keys are replaced by their value, blocs are flattened,
 * empty string literals dropped and adjacent literals joined; a bloc left
 * with no item is the empty literal and a bloc left with one item is that
 * item.
 */
module Reduction {
  import opened Wrappers
  import opened Keys
  import opened SortedMaps
  import opened Values

  /**
   * Where `reduce` does not panic: every foreign key it reaches is resolved
   * and every subkeys value it reaches still holds its locale.
   */
  predicate Reducible(v: ParsedValue)
    decreases v, 0
  {
    match v
    case ForeignKeyValue(fk) => fk.Set? && Reducible(fk.value)
    case RangesValue(_, _, entries) => forall i :: 0 <= i < |entries| ==> Reducible(entries[i].1)
    case Component(_, inner, attributes) =>
      (inner.Some? ==> Reducible(inner.value))
      && forall i :: 0 <= i < |attributes| && attributes[i].value.Some? ==> Reducible(attributes[i].value.value)
    case Subkeys(locale) => locale.Some? && forall i :: 0 <= i < |locale.value.keys| ==> Reducible(locale.value.keys[i].value)
    case Bloc(values) => forall i :: 0 <= i < |values| ==> IntoReducible(values[i])
    case PluralsValue(_, _, other, forms) => Reducible(other) && forall i :: 0 <= i < |forms| ==> Reducible(forms[i].1)
    case _ => true
  }

  /** Where `reduce_into` does not panic: as `reduce`, except that subkeys are skipped whole. */
  predicate IntoReducible(v: ParsedValue)
    decreases v, 1
  {
    match v
    case ForeignKeyValue(fk) => fk.Set? && IntoReducible(fk.value)
    case Subkeys(_) => true
    case Bloc(values) => forall i :: 0 <= i < |values| ==> IntoReducible(values[i])
    case _ => Reducible(v)
  }

  /** What `reduce_into` pushes: no bloc, no foreign key, nothing that is skipped. */
  predicate Flat(v: ParsedValue) {
    v.LiteralValue? || v.Variable? || v.Component? || v.RangesValue? || v.PluralsValue?
  }

  /** The empty string literal, which `reduce_into` drops. */
  predicate EmptyString(v: ParsedValue) {
    v.LiteralValue? && v.lit.LitString? && v.lit.s == []
  }

  /** A reduced bloc: flat items, no empty string literal, no two literals side by side. */
  predicate Normal(items: seq<ParsedValue>) {
    (forall i :: 0 <= i < |items| ==> Flat(items[i]) && !EmptyString(items[i]))
    && forall i :: 0 <= i < |items| - 1 ==> !(items[i].LiteralValue? && items[i + 1].LiteralValue?)
  }

  /** A literal that is not the empty string prints as something. */
  lemma NonEmptyText(v: ParsedValue)
    requires v.LiteralValue? && !EmptyString(v)
    ensures LiteralText(v.lit) != []
  {
    if !v.lit.LitString? {
      LiteralTextNonEmpty(v.lit);
    }
  }

  /**
   * `reduce`. Everything it reaches is reduced; a bloc is rebuilt by
   * `reduce_into` and then collapsed when it holds fewer than two items.
   */
  function Reduce(v: ParsedValue): (r: ParsedValue)
    requires Reducible(v)
    ensures v.Bloc? ==> r == EmptyLiteral || (Flat(r) && !EmptyString(r)) || (r.Bloc? && |r.values| >= 2 && Normal(r.values))
    decreases v, 2, 0
  {
    match v
    case ForeignKeyValue(fk) => Reduce(fk.value)
    case RangesValue(countKey, rangeType, entries) =>
      RangesValue(countKey, rangeType, seq(|entries|, i requires 0 <= i < |entries| => (entries[i].0, Reduce(entries[i].1))))
    case Component(key, inner, attributes) =>
      Component(key, if inner.Some? then Some(Reduce(inner.value)) else None, ReduceAttributes(v, attributes))
    case Subkeys(locale) =>
      var keys := locale.value.keys;
      Subkeys(Some(Locale(locale.value.topLocaleName, locale.value.name,
                          seq(|keys|, i requires 0 <= i < |keys| => Entry(keys[i].key, Reduce(keys[i].value))))))
    case Bloc(values) =>
      var items := ReduceBloc(v, 0, []);
      if |items| == 0 then EmptyLiteral
      else if |items| == 1 then items[0]
      else Bloc(items)
    case PluralsValue(ruleType, countKey, other, forms) =>
      PluralsValue(ruleType, countKey, Reduce(other), seq(|forms|, i requires 0 <= i < |forms| => (forms[i].0, Reduce(forms[i].1))))
    case _ => v
  }

  /** `Attributes::reduce`: every attribute value is reduced. */
  function ReduceAttributes(v: ParsedValue, attributes: seq<Attribute>): (r: seq<Attribute>)
    requires v.Component? && attributes == v.attributes && Reducible(v)
    ensures |r| == |attributes|
    ensures forall i :: 0 <= i < |r| ==> r[i].key == attributes[i].key && r[i].value.Some? == attributes[i].value.Some?
    decreases v, 1, 0
  {
    seq(|attributes|, i requires 0 <= i < |attributes| =>
      Attribute(attributes[i].key, if attributes[i].value.Some? then Some(Reduce(attributes[i].value.value)) else None))
  }

  /**
   * `reduce_into`: what the value adds to the bloc being built. Defaults,
   * subkeys and dummies are skipped, a resolved foreign key adds its value, a
   * bloc adds its items one by one, an empty string adds nothing and a
   * literal after a literal is joined to it.
   */
  function ReduceInto(v: ParsedValue, bloc: seq<ParsedValue>): (r: seq<ParsedValue>)
    requires IntoReducible(v)
    ensures Normal(bloc) ==> Normal(r)
    ensures |bloc| > 0 ==> |r| >= |bloc| && r[..|bloc| - 1] == bloc[..|bloc| - 1]
    decreases v, 3, 0
  {
    match v
    case Default => bloc
    case Subkeys(_) => bloc
    case DummyValue(_) => bloc
    case RangesValue(_, _, _) =>
      var x := Reduce(v);
      assert Flat(x) && !EmptyString(x);
      bloc + [x]
    case PluralsValue(_, _, _, _) =>
      var x := Reduce(v);
      assert Flat(x) && !EmptyString(x);
      bloc + [x]
    case ForeignKeyValue(fk) => ReduceInto(fk.value, bloc)
    case LiteralValue(l) =>
      if EmptyString(v) then bloc
      else if |bloc| > 0 && bloc[|bloc| - 1].LiteralValue? then
        var joined := LiteralValue(JoinLiteral(bloc[|bloc| - 1].lit, l));
        assert !EmptyString(joined) by {
          if Normal(bloc) {
            NonEmptyText(bloc[|bloc| - 1]);
          }
        }
        bloc[..|bloc| - 1] + [joined]
      else bloc + [v]
    case Variable(_, _) => bloc + [v]
    case Component(_, _, _) =>
      var x := Reduce(v);
      assert Flat(x) && !EmptyString(x);
      bloc + [x]
    case Bloc(_) => ReduceBloc(v, 0, bloc)
  }

  /** The loop of `reduce` over a bloc's items from the `i`-th on, each `reduce_into` the bloc being built. */
  function ReduceBloc(v: ParsedValue, i: nat, bloc: seq<ParsedValue>): (r: seq<ParsedValue>)
    requires v.Bloc? && i <= |v.values| && forall j :: 0 <= j < |v.values| ==> IntoReducible(v.values[j])
    ensures Normal(bloc) ==> Normal(r)
    ensures |bloc| > 0 ==> |r| >= |bloc| && r[..|bloc| - 1] == bloc[..|bloc| - 1]
    decreases v, 1, |v.values| - i
  {
    if i == |v.values| then bloc
    else ReduceBloc(v, i + 1, ReduceInto(v.values[i], bloc))
  }

  /**
   * The loop `reduce` runs over a bloc: every item is `reduce_into` the
   * emptied vector, which is then collapsed when it holds fewer than two items.
   */
  method ReduceBlocValue(values: seq<ParsedValue>) returns (r: ParsedValue)
    requires forall j :: 0 <= j < |values| ==> IntoReducible(values[j])
    ensures r == Reduce(Bloc(values))
  {
    var items: seq<ParsedValue> := [];
    var i := 0;
    while i < |values|
      invariant 0 <= i <= |values|
      invariant ReduceBloc(Bloc(values), i, items) == ReduceBloc(Bloc(values), 0, [])
    {
      items := ReduceInto(values[i], items);
      i := i + 1;
    }
    if |items| == 0 {
      r := EmptyLiteral;
    } else if |items| == 1 {
      r := items[0];
    } else {
      r := Bloc(items);
    }
  }

  // What a value shows, read left to right, with literals spelled out
  // character by character: the reference `reduce_into` is measured against.

  datatype Atom = Char(c: char) | Item(item: ParsedValue)

  function Chars(t: string): (r: seq<Atom>)
    ensures |r| == |t| && forall i :: 0 <= i < |t| ==> r[i] == Char(t[i])
  {
    seq(|t|, i requires 0 <= i < |t| => Char(t[i]))
  }

  lemma CharsAppend(a: string, b: string)
    ensures Chars(a + b) == Chars(a) + Chars(b)
  {
    assert forall i :: 0 <= i < |a + b| ==> Chars(a + b)[i] == (Chars(a) + Chars(b))[i];
  }

  /** What one item of a reduced bloc shows. */
  function ItemAtoms(x: ParsedValue): seq<Atom> {
    if x.LiteralValue? then Chars(LiteralText(x.lit)) else [Item(x)]
  }

  /** What the items of a reduced bloc show, one after the other. */
  function ItemsAtoms(items: seq<ParsedValue>): seq<Atom>
    decreases |items|
  {
    if items == [] then [] else ItemsAtoms(items[..|items| - 1]) + ItemAtoms(items[|items| - 1])
  }

  lemma ItemsAtomsAppend(items: seq<ParsedValue>, x: ParsedValue)
    ensures ItemsAtoms(items + [x]) == ItemsAtoms(items) + ItemAtoms(x)
  {
    assert (items + [x])[..|items|] == items;
  }

  /**
   * What a value shows once its foreign keys are followed and its blocs
   * flattened, without joining anything: skipped values show nothing, a
   * literal its characters, anything else one reduced item.
   */
  function Atoms(v: ParsedValue): (r: seq<Atom>)
    requires IntoReducible(v)
    decreases v, 1, 0
  {
    match v
    case Default => []
    case Subkeys(_) => []
    case DummyValue(_) => []
    case ForeignKeyValue(fk) => Atoms(fk.value)
    case LiteralValue(l) => Chars(LiteralText(l))
    case Variable(_, _) => [Item(v)]
    case Bloc(_) => BlocAtoms(v, 0)
    case _ => [Item(Reduce(v))]
  }

  /** What the items of a bloc from the `i`-th on show. */
  function BlocAtoms(v: ParsedValue, i: nat): seq<Atom>
    requires v.Bloc? && i <= |v.values| && forall j :: 0 <= j < |v.values| ==> IntoReducible(v.values[j])
    decreases v, 0, |v.values| - i
  {
    if i == |v.values| then [] else Atoms(v.values[i]) + BlocAtoms(v, i + 1)
  }

  /** Joining a literal onto the last literal of a bloc shows the same characters. */
  lemma JoinAtoms(bloc: seq<ParsedValue>, l: Literal)
    requires |bloc| > 0 && bloc[|bloc| - 1].LiteralValue?
    ensures ItemsAtoms(bloc[..|bloc| - 1] + [LiteralValue(JoinLiteral(bloc[|bloc| - 1].lit, l))])
         == ItemsAtoms(bloc) + Chars(LiteralText(l))
  {
    var last := bloc[|bloc| - 1].lit;
    ItemsAtomsAppend(bloc[..|bloc| - 1], LiteralValue(JoinLiteral(last, l)));
    CharsAppend(LiteralText(last), LiteralText(l));
  }

  /** `reduce_into` adds to the bloc exactly what the value shows. */
  lemma {:induction false} ReduceIntoAtoms(v: ParsedValue, bloc: seq<ParsedValue>)
    requires IntoReducible(v)
    ensures ItemsAtoms(ReduceInto(v, bloc)) == ItemsAtoms(bloc) + Atoms(v)
    decreases v, 1, 0
  {
    match v
    case Default => assert ItemsAtoms(bloc) + [] == ItemsAtoms(bloc);
    case Subkeys(_) => assert ItemsAtoms(bloc) + [] == ItemsAtoms(bloc);
    case DummyValue(_) => assert ItemsAtoms(bloc) + [] == ItemsAtoms(bloc);
    case ForeignKeyValue(fk) => ReduceIntoAtoms(fk.value, bloc);
    case LiteralValue(l) =>
      if EmptyString(v) {
        assert ItemsAtoms(bloc) + [] == ItemsAtoms(bloc);
      } else if |bloc| > 0 && bloc[|bloc| - 1].LiteralValue? {
        JoinAtoms(bloc, l);
      } else {
        ItemsAtomsAppend(bloc, v);
      }
    case Variable(_, _) => ItemsAtomsAppend(bloc, v);
    case Bloc(_) =>
      ReduceBlocAtoms(v, 0, bloc);
    case RangesValue(_, _, _) => ItemsAtomsAppend(bloc, Reduce(v));
    case PluralsValue(_, _, _, _) => ItemsAtomsAppend(bloc, Reduce(v));
    case Component(_, _, _) => ItemsAtomsAppend(bloc, Reduce(v));
  }

  /** The loop over a bloc's items adds what those items show, in order. */
  lemma {:induction false} ReduceBlocAtoms(v: ParsedValue, i: nat, bloc: seq<ParsedValue>)
    requires v.Bloc? && i <= |v.values| && forall j :: 0 <= j < |v.values| ==> IntoReducible(v.values[j])
    ensures ItemsAtoms(ReduceBloc(v, i, bloc)) == ItemsAtoms(bloc) + BlocAtoms(v, i)
    decreases v, 0, |v.values| - i
  {
    if i == |v.values| {
      assert ItemsAtoms(bloc) + [] == ItemsAtoms(bloc);
    } else {
      var next := ReduceInto(v.values[i], bloc);
      assert ReduceBloc(v, i, bloc) == ReduceBloc(v, i + 1, next);
      assert BlocAtoms(v, i) == Atoms(v.values[i]) + BlocAtoms(v, i + 1);
      ReduceIntoAtoms(v.values[i], bloc);
      ReduceBlocAtoms(v, i + 1, next);
      Assoc(ItemsAtoms(bloc), Atoms(v.values[i]), BlocAtoms(v, i + 1));
    }
  }

  lemma Assoc(a: seq<Atom>, b: seq<Atom>, c: seq<Atom>)
    ensures a + b + c == a + (b + c)
  {
  }

  /** What a reduced value shows: a bloc its items, anything else itself. */
  function ReducedAtoms(r: ParsedValue): seq<Atom> {
    if r.Bloc? then ItemsAtoms(r.values) else ItemAtoms(r)
  }

  /**
   * Reducing a bloc keeps what it shows, and leaves it normal: no empty
   * string, no two literals side by side, no nested bloc.
   */
  lemma ReduceBlocKeepsAtoms(v: ParsedValue)
    requires v.Bloc? && Reducible(v)
    ensures ReducedAtoms(Reduce(v)) == Atoms(v)
  {
    var items := ReduceBloc(v, 0, []);
    ReduceBlocAtoms(v, 0, []);
    assert [] + BlocAtoms(v, 0) == BlocAtoms(v, 0);
    if |items| == 1 {
      assert items[..0] == [];
    }
  }
}
