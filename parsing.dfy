/**
 * Reading what the user typed: the first half of the overriding
 * `applyInputValue`, which strips the thousands separators and turns the
 * configured decimal separator into the system one, and the string
 * pre-processing of the overriding `applyValue`.
 */
module Parsing {
  import opened Wrappers
  import opened Text

  /** A value as JavaScript hands it to the field: absent, a number, or a string. */
  datatype FieldValue = Null | Num(n: real) | Str(s: string)

  /** JavaScript truthiness: `null`, `0` and `""` are false. */
  predicate Truthy(v: FieldValue)
  {
    match v
    case Null => false
    case Num(n) => n != 0.0
    case Str(s) => s != []
  }

  /**
   * The input text with every thousands separator removed and the first
   * decimal separator replaced by the system one. Each step applies only to
   * a non-empty string and a non-empty separator.
   */
  function NormaliseInput(value: FieldValue, thousandSep: string, decimalSep: string, systemDecimal: string): (r: FieldValue)
    ensures !(value.Str? && value.s != []) ==> r == value
    ensures value.Str? <==> r.Str?
  {
    var stripped :=
      if Truthy(value) && value.Str? && thousandSep != [] then Str(ReplaceAll(value.s, thousandSep, []))
      else value;
    if Truthy(stripped) && stripped.Str? && decimalSep != [] then Str(ReplaceFirst(stripped.s, decimalSep, systemDecimal))
    else stripped
  }

  /**
   * With one-character separators, normalising a string is filtering then
   * one replace. Text that is empty once filtered (the empty string, or
   * thousands separators only) is skipped by the second guard and reads as
   * the empty string.
   */
  lemma NormaliseChars(s: string, thousand: char, decimal: char, systemDecimal: string)
    ensures NormaliseInput(Str(s), [thousand], [decimal], systemDecimal)
         == Str(ReplaceFirst(Without(s, thousand), [decimal], systemDecimal))
    ensures Without(s, thousand) == [] ==> NormaliseInput(Str(s), [thousand], [decimal], systemDecimal) == Str([])
  {
    RemoveAllChar(s, thousand);
    if Without(s, thousand) == [] {
      assert IndexOf([], [decimal]) == -1;
    }
  }

  lemma StripAroundDecimal(whole: string, fraction: string, thousand: char, decimal: char)
    requires thousand != decimal
    ensures Without(whole + [decimal] + fraction, thousand)
         == Without(whole, thousand) + [decimal] + Without(fraction, thousand)
  {
    WithoutConcat(whole + [decimal], fraction, thousand);
    WithoutConcat(whole, [decimal], thousand);
    assert Without([decimal], thousand) == [decimal];
  }

  lemma ReplaceFirstAfter(w: string, f: string, decimal: char, systemDecimal: string)
    requires decimal !in w
    ensures ReplaceFirst(w + [decimal] + f, [decimal], systemDecimal) == w + systemDecimal + f
  {
    IndexOfChar(w, decimal);
    IndexOfAppended(w, [decimal], f);
    var s := w + [decimal] + f;
    assert s[..|w|] == w;
    assert s[|w| + 1..] == f;
  }

  /**
   * Display text with one decimal separator normalises to its two halves
   * without grouping, joined by the system decimal separator. A decimal
   * separator in the fraction part is left alone: only the first one is
   * replaced.
   */
  lemma NormaliseDisplayText(whole: string, fraction: string, thousand: char, decimal: char, systemDecimal: string)
    requires thousand != decimal
    requires decimal !in whole
    ensures NormaliseInput(Str(whole + [decimal] + fraction), [thousand], [decimal], systemDecimal)
         == Str(Without(whole, thousand) + systemDecimal + Without(fraction, thousand))
  {
    var s := whole + [decimal] + fraction;
    var w, f := Without(whole, thousand), Without(fraction, thousand);
    StripAroundDecimal(whole, fraction, thousand, decimal);
    assert Without(s, thousand) == w + [decimal] + f;
    NormaliseChars(s, thousand, decimal, systemDecimal);
    assert decimal !in w by {
      WithoutSubset(whole, thousand, decimal);
    }
    ReplaceFirstAfter(w, f, decimal, systemDecimal);
  }

  /** Text without a decimal separator only loses its thousands separators. */
  lemma NormaliseWholeText(whole: string, thousand: char, decimal: char, systemDecimal: string)
    requires decimal !in whole
    ensures NormaliseInput(Str(whole), [thousand], [decimal], systemDecimal) == Str(Without(whole, thousand))
  {
    NormaliseChars(whole, thousand, decimal, systemDecimal);
    var w := Without(whole, thousand);
    assert decimal !in w by {
      WithoutSubset(whole, thousand, decimal);
    }
    IndexOfChar(w, decimal);
  }

  /**
   * The string rewrite of the overriding `applyValue`: with a comma as
   * decimal separator every period becomes a comma, otherwise the string is
   * kept.
   */
  function ApplyValueText(s: string, decimalSeparator: string): (r: string)
    ensures decimalSeparator != "," ==> r == s
    ensures |r| == |s|
    ensures decimalSeparator == "," ==>
      forall i :: 0 <= i < |s| ==> r[i] == (if s[i] == '.' then ',' else s[i])
  {
    if decimalSeparator == "," then
      ReplaceAllChar(s, '.', ',');
      ReplaceAll(s, ".", ",")
    else s
  }

  /** After the rewrite for a comma separator no period is left. */
  lemma ApplyValueTextNoPeriod(s: string)
    ensures '.' !in ApplyValueText(s, ",")
  {
    var r := ApplyValueText(s, ",");
    forall i | 0 <= i < |r|
      ensures r[i] != '.'
    {
    }
  }

  /** What the overriding `applyValue` does with its argument. */
  datatype Applied =
    | Cancelled            // it returns undefined: the value is not changed
    | Forward(arg: FieldValue)  // it hands `arg` on to the inherited `applyValue`

  /**
   * A non-empty string is rewritten and parsed; when parsing yields null the
   * update is cancelled, otherwise the parsed number is handed on. Anything
   * else is handed on as it is.
   */
  function ApplyValue(value: FieldValue, decimalSeparator: string, parseValue: string -> Option<real>): (r: Applied)
    ensures !(value.Str? && value.s != []) ==> r == Forward(value)
    ensures value.Str? && value.s != [] ==>
      (r.Cancelled? <==> parseValue(ApplyValueText(value.s, decimalSeparator)).None?)
    ensures value.Str? && value.s != [] && r.Forward? ==>
      r.arg == Num(parseValue(ApplyValueText(value.s, decimalSeparator)).value)
  {
    if Truthy(value) && value.Str? then
      match parseValue(ApplyValueText(value.s, decimalSeparator))
      case None => Cancelled
      case Some(n) => Forward(Num(n))
    else Forward(value)
  }

  /** A number is always handed on unchanged, whatever it is. */
  lemma ApplyValueNumber(n: real, decimalSeparator: string, parseValue: string -> Option<real>)
    ensures ApplyValue(Num(n), decimalSeparator, parseValue) == Forward(Num(n))
  {
  }
}
