/**
 * The separator configuration the number field is built with: the
 * overriding constructor defaults an undefined decimal separator to the
 * system one and then always derives the thousands separator from it,
 * overwriting whatever the caller passed.
 */
module Separators {
  import opened Wrappers

  /** The configuration object handed to the constructor. */
  datatype Config = Config(
    decimalSeparator: Option<string>,
    thousandSeparator: Option<string>,
    showThousandSeparator: Option<bool>,
    decimals: nat,
    trim: bool)

  /** The thousands separator that goes with a decimal separator. */
  function ThousandFor(decimalSeparator: string): (thousand: string)
    ensures |thousand| == 1
    ensures thousand == "," <==> decimalSeparator == "."
    ensures thousand == "." <==> decimalSeparator != "."
  {
    if decimalSeparator == "." then "," else "."
  }

  /**
   * The two conventional decimal separators each get the other one as
   * thousands separator, so the pair is always distinct and the derivation
   * undoes itself.
   */
  lemma SeparatorsComplementary(decimalSeparator: string)
    requires decimalSeparator == "." || decimalSeparator == ","
    ensures ThousandFor(decimalSeparator) != decimalSeparator
    ensures ThousandFor(decimalSeparator) == "." || ThousandFor(decimalSeparator) == ","
    ensures ThousandFor(ThousandFor(decimalSeparator)) == decimalSeparator
  {
  }

  /**
   * The configuration as the constructor leaves it: the decimal separator
   * defaulted to `systemDecimal` when undefined, the thousands separator
   * replaced by the complementary one, everything else as given.
   */
  function ResolveConfig(config: Config, systemDecimal: string): (resolved: Config)
    ensures resolved.decimalSeparator.Some?
    ensures config.decimalSeparator.None? ==> resolved.decimalSeparator == Some(systemDecimal)
    ensures config.decimalSeparator.Some? ==> resolved.decimalSeparator == config.decimalSeparator
    ensures resolved.thousandSeparator == Some(ThousandFor(resolved.decimalSeparator.value))
    ensures resolved.showThousandSeparator == config.showThousandSeparator
    ensures resolved.decimals == config.decimals && resolved.trim == config.trim
  {
    var decimal := if config.decimalSeparator == None then systemDecimal else config.decimalSeparator.value;
    config.(decimalSeparator := Some(decimal), thousandSeparator := Some(ThousandFor(decimal)))
  }

  /** A caller-supplied thousands separator has no effect on the outcome. */
  lemma CallerThousandIgnored(config: Config, other: Option<string>, systemDecimal: string)
    ensures ResolveConfig(config.(thousandSeparator := other), systemDecimal) == ResolveConfig(config, systemDecimal)
  {
  }

  /** Resolving twice is resolving once: the result is already complete. */
  lemma ResolveConfigIdempotent(config: Config, systemDecimal: string, otherSystem: string)
    ensures ResolveConfig(ResolveConfig(config, systemDecimal), otherSystem) == ResolveConfig(config, systemDecimal)
  {
  }
}
