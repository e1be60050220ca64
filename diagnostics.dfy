// The errors and warnings the locale parser reports while it keeps going, and
// the sink they are pushed into (`Diagnostics` in error.rs, `Warnings` in
// warning.rs). Only the variants the modelled operations emit are listed.
module Diagnostics {
  import opened Keys
  import opened Ranges

  /** The plural rule kinds: cardinal (`_one`) or ordinal (`_ordinal_one`). */
  datatype PluralRuleType = Cardinal | Ordinal

  /** The six CLDR plural forms, in the order `PluralForm` derives `Ord`. */
  datatype PluralForm = Zero | One | Two | Few | Many | Other

  /** The type of a count argument: an integer range type, or `f64`. */
  datatype NumberType = IntType(t: RangeType) | F64

  datatype Error =
    | DuplicateLocalesInConfig(locales: set<Key>)
    | DuplicateNamespacesInConfig(namespaces: set<Key>)
    | SubKeyMissmatch(locale: Key, keyPath: KeyPath)
    | RangeTypeMissmatch(keyPath: KeyPath, type1: RangeType, type2: RangeType)
    | RecursiveForeignKey(locale: Key, keyPath: KeyPath)
    | MissingForeignKey(foreignKey: KeyPath, locale: Key, keyPath: KeyPath)
    | InvalidForeignKey(foreignKey: KeyPath, locale: Key, keyPath: KeyPath)
    | UnknownFormatter(name: string, locale: Key, keyPath: KeyPath)
    | ConflictingPluralRuleType(locale: Key, keyPath: KeyPath)
    | InvalidForeignKeyArgs(locale: Key, keyPath: KeyPath)
    | InvalidCountArg(locale: Key, keyPath: KeyPath, foreignKey: KeyPath)
    | InvalidCountArgType(locale: Key, keyPath: KeyPath, foreignKey: KeyPath, inputType: NumberType, rangeType: RangeType)
    | CountArgOutsideRange(locale: Key, keyPath: KeyPath, foreignKey: KeyPath)
    | UnexpectedToken(locale: Key, keyPath: KeyPath, message: string)
    | RangeAndPluralsMix(keyPath: KeyPath)
    | PluralsAtNormalKey(locale: Key, keyPath: KeyPath)
    | DisabledPlurals(locale: Key, keyPath: KeyPath)
    | DisabledFormatter(locale: Key, keyPath: KeyPath, formatterErr: string)
    | Custom(locale: Key, keyPath: KeyPath, err: string)
    /** Not an error value of the source: the place where it panics (`todo!`,
      * `unreachable!`, an out-of-bounds slice). */
    | Panic(site: string)

  datatype Warning =
    | MissingKey(locale: Key, keyPath: KeyPath)
    | SurplusKey(locale: Key, keyPath: KeyPath)
    | UnusedForm(locale: Key, keyPath: KeyPath, form: PluralForm, ruleType: PluralRuleType)

  /** The sink errors and warnings are pushed into, in emission order. */
  class Diagnostics {
    var errors: seq<Error>
    var warnings: seq<Warning>

    constructor ()
      ensures errors == [] && warnings == []
    {
      errors := [];
      warnings := [];
    }

    /** `emit_error`. */
    method EmitError(e: Error)
      modifies this
      ensures errors == old(errors) + [e] && warnings == old(warnings)
    {
      errors := errors + [e];
    }

    /** `emit_warning`. */
    method EmitWarning(w: Warning)
      modifies this
      ensures warnings == old(warnings) + [w] && errors == old(errors)
    {
      warnings := warnings + [w];
    }
  }
}
