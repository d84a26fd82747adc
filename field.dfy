/**
 * The number field itself: its separator configuration, the value it
 * holds, the text of its input element, and the overriding constructor,
 * `applyValue` (reached through `setValue`) and `applyInputValue`. The
 * library routines the field calls are passed in as a `Library`, and the
 * global `Ext.util.Format` separators as a `FormatGlobals` object.
 */
module Field {
  import opened Wrappers
  import opened Text
  import opened Separators
  import opened Parsing
  import opened Formatting

  /** The library routines the field relies on, whose code is not part of this model. */
  datatype Library = Library(
    isNumeric: FieldValue -> bool,              // Ext.isNumeric
    parseFloat: FieldValue -> real,             // Ext.Number.parseFloat
    toFixed: (real, nat) -> string,             // Ext.Number.toFixed
    formatNumber: (real, string, string, string) -> string,
      // Ext.util.Format.number(value, mask), given the global thousands and
      // decimal separators in force at the call
    parseValue: string -> Option<real>,         // the field's parseValue
    inheritedApplyValue: FieldValue -> Option<real>)
      // the inherited applyValue followed by transformValue

  /** The global `Ext.util.Format` separators, shared by every field. */
  class FormatGlobals {
    var thousandSeparator: string
    var decimalSeparator: string

    constructor (thousandSeparator: string, decimalSeparator: string)
      ensures this.thousandSeparator == thousandSeparator
      ensures this.decimalSeparator == decimalSeparator
    {
      this.thousandSeparator := thousandSeparator;
      this.decimalSeparator := decimalSeparator;
    }
  }

  /**
   * What the field shows for a value: nothing for no value, otherwise the
   * library's rendering under the field's mask and separators, padded for
   * the field's decimals.
   */
  function FormatValue(value: Option<real>, formatNumber: (real, string, string, string) -> string,
                       thousandSep: string, decimalSep: string, decimals: nat, grouping: bool, trim: bool): (shown: Option<string>)
    ensures shown.None? <==> value.None?
    ensures shown.Some? ==>
      var formatted := formatNumber(value.value, Mask(trim, grouping, decimals), thousandSep, decimalSep);
      formatted <= shown.value &&
      (decimals == 0 ==> shown.value == formatted) &&
      (decimals > 0 ==>
        IndexOf(shown.value, decimalSep) >= 0 &&
        |shown.value| - IndexOf(shown.value, decimalSep) - 1 >= decimals)
  {
    match value
    case None => None
    case Some(v) =>
      var formatted := formatNumber(v, Mask(trim, grouping, decimals), thousandSep, decimalSep);
      PadFractionPads(formatted, decimalSep, decimals);
      Some(PadFraction(formatted, decimalSep, decimals))
  }

  /**
   * Reading back what the field shows: with any one-character decimal
   * separator (the derived thousands separator always differs from it) and
   * at least one decimal, the shown text loses every
   * thousands separator and its decimal separator becomes the system one,
   * whatever the library's rendering was.
   */
  lemma ShownTextReadsBack(value: real, formatNumber: (real, string, string, string) -> string,
                           decimalSep: char, systemDecimal: string, decimals: nat, grouping: bool, trim: bool)
    requires decimals > 0
    ensures var thousandSep := ThousandFor([decimalSep]);
      var shown := FormatValue(Some(value), formatNumber, thousandSep, [decimalSep], decimals, grouping, trim).value;
      var p := IndexOf(shown, [decimalSep]);
      0 <= p < |shown| &&
      NormaliseInput(Str(shown), thousandSep, [decimalSep], systemDecimal)
        == Str(Without(shown[..p], thousandSep[0]) + systemDecimal + Without(shown[p + 1..], thousandSep[0]))
  {
    var thousandSep := ThousandFor([decimalSep]);
    var formatted := formatNumber(value, Mask(trim, grouping, decimals), thousandSep, [decimalSep]);
    var shown := PadFraction(formatted, [decimalSep], decimals);
    assert FormatValue(Some(value), formatNumber, thousandSep, [decimalSep], decimals, grouping, trim).value == shown;
    PadFractionPads(formatted, [decimalSep], decimals);
    assert thousandSep == [thousandSep[0]];
    assert thousandSep[0] != decimalSep;
    ReadBackAtSeparator(shown, thousandSep[0], decimalSep, systemDecimal);
  }

  /** Normalising text split at its first decimal separator. */
  lemma ReadBackAtSeparator(shown: string, thousand: char, decimal: char, systemDecimal: string)
    requires thousand != decimal
    requires IndexOf(shown, [decimal]) >= 0
    ensures var p := IndexOf(shown, [decimal]);
      0 <= p < |shown| &&
      NormaliseInput(Str(shown), [thousand], [decimal], systemDecimal)
        == Str(Without(shown[..p], thousand) + systemDecimal + Without(shown[p + 1..], thousand))
  {
    var p := IndexOf(shown, [decimal]);
    IndexOfChar(shown, decimal);
    var whole, fraction := shown[..p], shown[p + 1..];
    assert whole + [decimal] + fraction == shown;
    NormaliseDisplayText(whole, fraction, thousand, decimal, systemDecimal);
  }

  /** The number the field stores for numeric input: rounded with `toFixed`, then read back. */
  function Rounded(input: FieldValue, decimals: nat, lib: Library): (n: real)
  {
    lib.parseFloat(Str(lib.toFixed(lib.parseFloat(input), decimals)))
  }

  class NumberField {
    var decimalSeparator: string
    var thousandSeparator: string
    var decimals: nat
    var showThousandSeparator: bool
    var trim: bool
    /** The field's value, always in canonical form. */
    var value: Option<real>
    /** The text of the input element. */
    var inputText: string

    /**
     * The overriding constructor: the configuration is resolved against
     * the global decimal separator and applied, with grouping shown unless
     * the caller turns it off.
     */
    constructor (config: Config, globals: FormatGlobals)
      ensures var resolved := ResolveConfig(config, globals.decimalSeparator);
        decimalSeparator == resolved.decimalSeparator.value &&
        thousandSeparator == resolved.thousandSeparator.value &&
        decimals == config.decimals && trim == config.trim &&
        showThousandSeparator == config.showThousandSeparator.GetOr(true)
      ensures thousandSeparator == ThousandFor(decimalSeparator)
      ensures config.decimalSeparator.None? ==> decimalSeparator == globals.decimalSeparator
      ensures value == None && inputText == []
    {
      var resolved := ResolveConfig(config, globals.decimalSeparator);
      decimalSeparator := resolved.decimalSeparator.value;
      thousandSeparator := resolved.thousandSeparator.value;
      decimals := config.decimals;
      trim := config.trim;
      showThousandSeparator := config.showThousandSeparator.GetOr(true);
      value := None;
      inputText := [];
    }

    /**
     * `setValue`: the overriding `applyValue` either cancels the update or
     * hands a value on to the inherited one, whose result is stored.
     */
    method SetValue(newValue: FieldValue, lib: Library)
      modifies this`value
      ensures ApplyValue(newValue, decimalSeparator, lib.parseValue).Cancelled? ==> value == old(value)
      ensures ApplyValue(newValue, decimalSeparator, lib.parseValue).Forward? ==>
        value == lib.inheritedApplyValue(ApplyValue(newValue, decimalSeparator, lib.parseValue).arg)
    {
      var applied := ApplyValue(newValue, decimalSeparator, lib.parseValue);
      if applied.Forward? {
        value := lib.inheritedApplyValue(applied.arg);
      }
    }

    /**
     * The overriding `applyInputValue`. Typed text is normalised with the
     * system decimal separator in force; numeric input is rounded and set as
     * the value, anything else leaves the value alone. The value is then
     * formatted with the global separators switched to the field's own, the
     * input element receives the text when there is a value, and the global
     * separators are back as they were on return.
     */
    method ApplyInputValue(input: FieldValue, globals: FormatGlobals, lib: Library) returns (shown: Option<string>)
      modifies this`value, this`inputText, globals
      ensures globals.thousandSeparator == old(globals.thousandSeparator)
      ensures globals.decimalSeparator == old(globals.decimalSeparator)
      ensures var normalised := NormaliseInput(input, thousandSeparator, decimalSeparator, old(globals.decimalSeparator));
        if Truthy(normalised) && lib.isNumeric(normalised)
        then value == lib.inheritedApplyValue(Num(Rounded(normalised, decimals, lib)))
        else value == old(value)
      ensures shown == FormatValue(value, lib.formatNumber, thousandSeparator, decimalSeparator,
                                   decimals, showThousandSeparator, trim)
      ensures shown.Some? ==> inputText == shown.value
      ensures shown.None? ==> inputText == old(inputText)
    {
      var normalised := NormaliseInput(input, thousandSeparator, decimalSeparator, globals.decimalSeparator);
      if Truthy(normalised) && lib.isNumeric(normalised) {
        ApplyValueNumber(Rounded(normalised, decimals, lib), decimalSeparator, lib.parseValue);
        SetValue(Num(Rounded(normalised, decimals, lib)), lib);
      }

      var mask := Mask(trim, showThousandSeparator, decimals);
      var current := value;

      var thousandOld, decimalOld := globals.thousandSeparator, globals.decimalSeparator;
      globals.thousandSeparator := thousandSeparator;
      globals.decimalSeparator := decimalSeparator;

      if current.Some? {
        var text := lib.formatNumber(current.value, mask, globals.thousandSeparator, globals.decimalSeparator);
        text := PadFraction(text, decimalSeparator, decimals);
        inputText := text;
        shown := Some(text);
      } else {
        shown := None;
      }

      globals.thousandSeparator := thousandOld;
      globals.decimalSeparator := decimalOld;
    }
  }
}
