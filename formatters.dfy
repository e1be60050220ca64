// The formatter registry of the locale parser (formatters/mod.rs): formatters
// are registered by name, a `{{ var, name(args) }}` placeholder is resolved
// against the registry, and the resulting `ValueFormatter`s are compared by
// formatter name.
module Formatters {
  import opened Wrappers
  import opened Keys
  import opened Diagnostics

  /** The `name(arg: value, flag)` arguments of a placeholder. */
  type Args = seq<(string, Option<string>)>

  /**
   * A registered formatter: its `NAME`, whether the cargo feature it needs is
   * on (and the message when it is not), and `parse_args`, which reads the
   * arguments into the options the generated code carries, or fails.
   */
  datatype Parser = Parser(
    name: string,
    enabled: bool,
    disabledErr: string,
    parseArgs: Args -> Result<seq<string>, string>)

  /** `ValueFormatter`: `NoFormatter` is the source's `None` (a bare variable). */
  datatype ValueFormatter = Dummy | NoFormatter | Formatted(formatterName: string, options: seq<string>)

  datatype Ordering = Less | Equal | Greater

  function Reverse(o: Ordering): Ordering {
    match o
    case Less => Greater
    case Equal => Equal
    case Greater => Less
  }

  /** `str::cmp`. */
  function StrCmp(a: string, b: string): Ordering {
    if StrLess(a, b) then Less else if a == b then Equal else Greater
  }

  /** `Ord for ValueFormatter`: `Dummy < None < Formatted`, and two formatted
    * values by formatter name. */
  function Cmp(a: ValueFormatter, b: ValueFormatter): (r: Ordering)
    ensures a.Dummy? && !b.Dummy? ==> r == Less
    ensures a.NoFormatter? && b.Formatted? ==> r == Less
    ensures a.Formatted? && b.Formatted? ==> (r == Less <==> StrLess(a.formatterName, b.formatterName))
  {
    match (a, b)
    case (Dummy, Dummy) => Equal
    case (Dummy, _) => Less
    case (NoFormatter, Dummy) => Greater
    case (NoFormatter, NoFormatter) => Equal
    case (NoFormatter, Formatted(_, _)) => Less
    case (Formatted(_, _), Dummy) => Greater
    case (Formatted(_, _), NoFormatter) => Greater
    case (Formatted(x, _), Formatted(y, _)) => StrCmp(x, y)
  }

  /** `PartialEq for ValueFormatter`: the options are not compared. */
  predicate Same(a: ValueFormatter, b: ValueFormatter) {
    match (a, b)
    case (Dummy, Dummy) => true
    case (NoFormatter, NoFormatter) => true
    case (Formatted(x, _), Formatted(y, _)) => x == y
    case _ => false
  }

  /** Two formatted values are equal exactly when their names are. */
  lemma SameFormatted(x: string, y: string, o: seq<string>, p: seq<string>)
    ensures Same(Formatted(x, o), Formatted(y, p)) <==> x == y
  {
  }

  /** `Eq` and `Ord` agree: `cmp` says `Equal` exactly for equal values. */
  lemma CmpEqualIsSame(a: ValueFormatter, b: ValueFormatter)
    ensures Cmp(a, b) == Equal <==> Same(a, b)
  {
    if a.Formatted? && b.Formatted? && a.formatterName == b.formatterName {
      StrLessIrreflexive(a.formatterName);
    }
  }

  /** Swapping the operands reverses the order. */
  lemma CmpAntisymmetric(a: ValueFormatter, b: ValueFormatter)
    ensures Cmp(b, a) == Reverse(Cmp(a, b))
  {
    if a.Formatted? && b.Formatted? {
      StrLessTotal(a.formatterName, b.formatterName);
      if StrLess(a.formatterName, b.formatterName) && StrLess(b.formatterName, a.formatterName) {
        StrLessTransitive(a.formatterName, b.formatterName, a.formatterName);
        StrLessIrreflexive(a.formatterName);
      }
      if a.formatterName == b.formatterName {
        StrLessIrreflexive(a.formatterName);
      }
    }
  }

  /** The order is transitive, so sorting by it is well defined. */
  lemma CmpTransitive(a: ValueFormatter, b: ValueFormatter, c: ValueFormatter)
    requires Cmp(a, b) == Less && Cmp(b, c) == Less
    ensures Cmp(a, c) == Less
  {
    if a.Formatted? && b.Formatted? && c.Formatted? {
      StrLessTransitive(a.formatterName, b.formatterName, c.formatterName);
    }
  }

  /** `Same` is an equivalence relation. */
  lemma SameIsEquivalence(a: ValueFormatter, b: ValueFormatter, c: ValueFormatter)
    ensures Same(a, a)
    ensures Same(a, b) ==> Same(b, a)
    ensures Same(a, b) && Same(b, c) ==> Same(a, c)
  {
  }

  /** The first argument called `name` whose value `f` accepts, else the default. */
  function FirstAccepted<T>(args: Args, name: string, f: Option<string> -> Option<T>, default: T): T {
    if |args| == 0 then default
    else if args[0].0 == name && f(args[0].1).Some? then f(args[0].1).value
    else FirstAccepted(args[1..], name, f, default)
  }

  /** `from_args_helper`. */
  method FromArgsHelper<T>(args: Args, name: string, f: Option<string> -> Option<T>, default: T) returns (r: T)
    ensures r == FirstAccepted(args, name, f, default)
  {
    var i := 0;
    while i < |args|
      invariant 0 <= i <= |args|
      invariant FirstAccepted(args, name, f, default) == FirstAccepted(args[i..], name, f, default)
    {
      assert args[i..][1..] == args[i + 1..];
      if args[i].0 != name {
        i := i + 1;
        continue;
      }
      var v := f(args[i].1);
      if v.Some? {
        return v.value;
      }
      i := i + 1;
    }
    return default;
  }

  /** The value comes from the first argument called `name` that `f` accepts;
    * without one, it is the default. */
  lemma {:induction false} FirstAcceptedIsFirst<T>(args: Args, name: string, f: Option<string> -> Option<T>, default: T, i: nat)
    requires i < |args| && args[i].0 == name && f(args[i].1).Some?
    requires forall j :: 0 <= j < i ==> args[j].0 != name || f(args[j].1).None?
    ensures FirstAccepted(args, name, f, default) == f(args[i].1).value
  {
    if i > 0 {
      FirstAcceptedIsFirst(args[1..], name, f, default, i - 1);
    }
  }

  lemma {:induction false} FirstAcceptedDefault<T>(args: Args, name: string, f: Option<string> -> Option<T>, default: T)
    requires forall j :: 0 <= j < |args| ==> args[j].0 != name || f(args[j].1).None?
    ensures FirstAccepted(args, name, f, default) == default
  {
    if |args| > 0 {
      FirstAcceptedDefault(args[1..], name, f, default);
    }
  }

  /** `parse` over the registry's contents. */
  function ParseIn(formatters: map<string, Parser>, locale: Key, keyPath: KeyPath, name: string, args: Args): (ValueFormatter, seq<Error>) {
    if name !in formatters then (Dummy, [UnknownFormatter(name, locale, keyPath)])
    else
      var p := formatters[name];
      if !p.enabled then (Dummy, [DisabledFormatter(locale, keyPath, p.disabledErr)])
      else match p.parseArgs(args)
        case Err(e) => (Dummy, [Custom(locale, keyPath, e)])
        case Ok(options) => (Formatted(p.name, options), [])
  }

  /** The registry of formatters, by name. */
  class Formatters {
    var formatters: map<string, Parser>

    /** Every formatter is registered under its own name. */
    ghost predicate Valid()
      reads this
    {
      forall n :: n in formatters ==> formatters[n].name == n
    }

    /** `new_empty`. */
    constructor NewEmpty()
      ensures formatters == map[] && Valid()
    {
      formatters := map[];
    }

    /**
     * `insert_formatter`: the formatter is registered in any case (a
     * registered one of the same name is replaced), and the name is reported
     * when it was registered already.
     */
    method InsertFormatter(f: Parser) returns (r: Result<(), string>)
      requires Valid()
      modifies this
      ensures Valid()
      ensures formatters == old(formatters)[f.name := f]
      ensures r.Err? <==> f.name in old(formatters)
      ensures r.Err? ==> r.error == f.name
    {
      var duplicate := f.name in formatters;
      formatters := formatters[f.name := f];
      if duplicate {
        return Err(f.name);
      }
      return Ok(());
    }

    /**
     * `parse`: an unknown name reports `UnknownFormatter` and gives `Dummy`; a
     * disabled formatter reports `DisabledFormatter`, arguments it refuses a
     * custom error, both giving `Dummy`; otherwise the formatted value.
     */
    function Parse(locale: Key, keyPath: KeyPath, name: string, args: Args): (r: (ValueFormatter, seq<Error>))
      reads this
      requires Valid()
      ensures name !in formatters ==> r == (Dummy, [UnknownFormatter(name, locale, keyPath)])
      ensures r.0.Formatted? ==> name in formatters && r.0.formatterName == name && r.1 == []
      ensures r.0.Dummy? <==> |r.1| == 1
      ensures !r.0.NoFormatter?
    {
      ParseIn(formatters, locale, keyPath, name, args)
    }

    /** A registered, enabled formatter that accepts the arguments gives its options. */
    lemma ParseRegistered(locale: Key, keyPath: KeyPath, name: string, args: Args)
      requires Valid() && name in formatters && formatters[name].enabled
      requires formatters[name].parseArgs(args).Ok?
      ensures Parse(locale, keyPath, name, args) == (Formatted(name, formatters[name].parseArgs(args).value), [])
    {
    }

    /** `parse` with the sink: the errors are pushed into `diag`. */
    method ParseInto(locale: Key, keyPath: KeyPath, name: string, args: Args, diag: Diagnostics) returns (r: ValueFormatter)
      requires Valid()
      modifies diag
      ensures r == Parse(locale, keyPath, name, args).0
      ensures diag.errors == old(diag.errors) + Parse(locale, keyPath, name, args).1
      ensures diag.warnings == old(diag.warnings)
    {
      var (v, errs) := Parse(locale, keyPath, name, args);
      if |errs| == 1 {
        diag.EmitError(errs[0]);
      }
      r := v;
    }
  }
}
