/**
 * The values a translation parses into (parsed_value.rs, plurals.rs and
 * locale.rs of the parser crate). `ParsedValue`, `Plurals`, `Ranges` and
 * `Locale` refer to each other, so they are declared together here; the
 * operations on them live in the modules named after their source files.
 */
module Values {
  import opened Wrappers
  import opened Text
  import opened Keys
  import opened Ranges
  import opened Diagnostics
  import opened SortedMaps
  import Formatters

  /** `i64` and `u64`. */
  type I64 = i: int | -0x8000_0000_0000_0000 <= i < 0x8000_0000_0000_0000
  type U64 = n: int | 0 <= n < 0x1_0000_0000_0000_0000

  /** The text `Display` gives a float; it is never empty. */
  type FloatText = s: string | |s| > 0 witness "0"

  /**
   * `Literal`. A string carries the index the string indexer gave it; `None`
   * is the source's `usize::MAX`, "not indexed yet". A float carries its
   * display text only: floating point is not modelled.
   */
  datatype Literal =
    | LitString(s: string, index: Option<nat>)
    | Signed(i: I64)
    | Unsigned(u: U64)
    | Float(text: FloatText)
    | Bool(b: bool)

  /** `LiteralType`. */
  datatype LiteralType = StringType | BoolType | SignedType | UnsignedType | FloatType

  /** `Dummy`. */
  datatype DummyItem = DummyVariable(key: Key) | DummyComponent(key: Key)

  /** `Attribute`: a name and an optional value. */
  datatype Attribute = Attribute(key: string, value: Option<ParsedValue>)

  /** `ForeignKey`: a `$t(..)` reference before and after it is resolved. */
  datatype ForeignKey = NotSet(target: KeyPath, args: map<string, ParsedValue>) | Set(value: ParsedValue)

  /**
   * `ParsedValue`. `RangesValue` is `Ranges` over an integer type (the entries
   * in declared order); `PluralsValue` is `Plurals`, its `forms` in the order
   * of `PluralForm`.
   */
  datatype ParsedValue =
    | Default
    | ForeignKeyValue(foreignKey: ForeignKey)
    | RangesValue(countKey: Key, rangeType: RangeType, entries: seq<(Range, ParsedValue)>)
    | LiteralValue(lit: Literal)
    | Variable(key: Key, formatter: Formatters.ValueFormatter)
    | Component(key: Key, inner: Option<ParsedValue>, attributes: seq<Attribute>)
    | Bloc(values: seq<ParsedValue>)
    | Subkeys(locale: Option<Locale>)
    | PluralsValue(ruleType: PluralRuleType, countKey: Key, other: ParsedValue, forms: seq<(PluralForm, ParsedValue)>)
    | DummyValue(dummies: seq<DummyItem>)

  /** `Locale`: the locale a value belongs to, its own name and its keys. */
  datatype Locale = Locale(topLocaleName: Key, name: Key, keys: seq<Entry<ParsedValue>>)

  /** `ParsedValue::default()`: the empty, unindexed string. */
  const EmptyLiteral: ParsedValue := LiteralValue(LitString("", None))

  /** `Display for Literal`. */
  function LiteralText(l: Literal): string {
    match l
    case LitString(s, _) => s
    case Signed(i) => IntToDecimal(i)
    case Unsigned(u) => IntToDecimal(u)
    case Float(t) => t
    case Bool(b) => if b then "true" else "false"
  }

  /** Only a string literal can print as nothing. */
  lemma LiteralTextNonEmpty(l: Literal)
    requires !l.LitString?
    ensures LiteralText(l) != ""
  {
    if l.Signed? {
      IntToDecimalChars(l.i);
    } else if l.Unsigned? {
      IntToDecimalChars(l.u);
    }
  }

  /**
   * `Literal::join`: the literal becomes a string holding its own text
   * followed by the other's; a string keeps its index, another literal
   * becomes an unindexed string.
   */
  function JoinLiteral(l: Literal, other: Literal): (r: Literal)
    ensures r.LitString? && r.s == LiteralText(l) + LiteralText(other)
    ensures r.index == if l.LitString? then l.index else None
  {
    match l
    case LitString(s, index) => LitString(s + LiteralText(other), index)
    case _ => LitString(LiteralText(l) + LiteralText(other), None)
  }

  /** Joining three literals gives the same text whichever pair is joined first. */
  lemma JoinLiteralAssociative(a: Literal, b: Literal, c: Literal)
    ensures LiteralText(JoinLiteral(JoinLiteral(a, b), c)) == LiteralText(JoinLiteral(a, JoinLiteral(b, c)))
  {
    assert LiteralText(a) + LiteralText(b) + LiteralText(c) == LiteralText(a) + (LiteralText(b) + LiteralText(c));
  }

  /** `Literal::get_type`. */
  function GetType(l: Literal): LiteralType {
    match l
    case LitString(_, _) => StringType
    case Signed(_) => SignedType
    case Unsigned(_) => UnsignedType
    case Float(_) => FloatType
    case Bool(_) => BoolType
  }
}
