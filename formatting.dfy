/**
 * Writing the value back for display: the second half of the overriding
 * `applyInputValue`, which builds an `Ext.util.Format.number` mask and then
 * pads the formatted text so that enough characters follow the decimal
 * separator.
 */
module Formatting {
  import opened Text

  /** The mask placeholder: `#` suppresses insignificant zeros, `0` keeps them. */
  function ZeroChar(trim: bool): (z: char)
  {
    if trim then '#' else '0'
  }

  /**
   * The display mask: a plain `0` integer part, or with grouping one
   * placeholder, a comma and three more; then, when there are decimals, a
   * period and one placeholder per decimal.
   */
  function Mask(trim: bool, grouping: bool, decimals: nat): (m: string)
    ensures !grouping && decimals == 0 ==> m == "0"
    ensures |m| == (if grouping then 5 else 1) + (if decimals > 0 then decimals + 1 else 0)
    ensures (',' in m) <==> grouping
    ensures ('.' in m) <==> decimals > 0
    ensures !grouping ==> m[0] == '0'
    ensures grouping ==> m[1] == ',' && forall i :: 0 <= i < 5 && i != 1 ==> m[i] == ZeroChar(trim)
    ensures decimals > 0 ==>
      m[|m| - decimals - 1] == '.' && forall i :: |m| - decimals <= i < |m| ==> m[i] == ZeroChar(trim)
  {
    var z := ZeroChar(trim);
    var whole := if grouping then [z, ','] + Repeat(z, 3) else "0";
    var m := if decimals > 0 then whole + "." + Repeat(z, decimals) else whole;
    assert m[..|whole|] == whole;
    assert forall i :: 0 <= i < |whole| ==> m[i] == whole[i];
    m
  }

  /**
   * Different settings give different masks: the mask tells grouping and the
   * number of decimals apart, and the placeholder too whenever one appears.
   */
  lemma MaskDetermines(t1: bool, g1: bool, d1: nat, t2: bool, g2: bool, d2: nat)
    requires Mask(t1, g1, d1) == Mask(t2, g2, d2)
    ensures g1 == g2 && d1 == d2
    ensures g1 || d1 > 0 ==> t1 == t2
  {
    var m := Mask(t1, g1, d1);
    if g1 {
      assert ZeroChar(t1) == m[0] == ZeroChar(t2);
    } else if d1 > 0 {
      assert ZeroChar(t1) == m[|m| - 1] == ZeroChar(t2);
    }
  }

  function Max(a: int, b: int): (m: int)
  {
    if a < b then b else a
  }

  /** Appending a separator and zeros to text that has none. */
  lemma AppendSeparatorAndZeros(v: string, decimalSep: string, decimals: nat)
    requires decimals > 0 && IndexOf(v, decimalSep) == -1
    ensures var r := v + decimalSep + Repeat('0', decimals);
      v <= r &&
      0 <= IndexOf(r, decimalSep) <= |v| && |r| - IndexOf(r, decimalSep) - 1 >= decimals &&
      (|decimalSep| == 1 ==>
        IndexOf(r, decimalSep) == |v| && r[|v|] == decimalSep[0] && |r| == |v| + 1 + decimals &&
        forall i :: |v| < i < |r| ==> r[i] == '0')
  {
    var zeros := Repeat('0', decimals);
    IndexOfAppended(v, decimalSep, zeros);
    assert decimalSep == [] ==> OccursAt(v, decimalSep, 0);
    var r := v + decimalSep + zeros;
    assert r[..|v|] == v;
    assert forall i :: |v| + |decimalSep| <= i < |r| ==> r[i] == zeros[i - |v| - |decimalSep|];
  }

  /** Appending the missing zeros to text that has a separator. */
  lemma AppendMissingZeros(v: string, decimalSep: string, decimals: nat)
    requires decimals > 0 && IndexOf(v, decimalSep) >= 0
    ensures var p := IndexOf(v, decimalSep);
      var r := v + Repeat('0', decimals - (|v| - p - 1));
      v <= r && IndexOf(r, decimalSep) == p &&
      |r| - p - 1 == Max(decimals, |v| - p - 1) &&
      forall i :: |v| <= i < |r| ==> r[i] == '0'
  {
    var p := IndexOf(v, decimalSep);
    var zeros := Repeat('0', decimals - (|v| - p - 1));
    IndexOfExtend(v, zeros, decimalSep);
    var r := v + zeros;
    assert r[..|v|] == v;
    assert forall i :: |v| <= i < |r| ==> r[i] == zeros[i - |v|];
  }

  /**
   * The formatted text `v` padded for `decimals` decimals: with no decimals
   * it is kept; without a decimal separator one is appended followed by
   * `decimals` zeros; otherwise zeros are appended until `decimals`
   * characters follow the first separator (never removing any).
   */
  function PadFraction(v: string, decimalSep: string, decimals: nat): (r: string)
    ensures decimals == 0 ==> r == v
    ensures v <= r
  {
    if decimals == 0 then v
    else
      var p := IndexOf(v, decimalSep);
      if p == -1 then v + decimalSep + Repeat('0', decimals)
      else v + Repeat('0', decimals - (|v| - p - 1))
  }

  /**
   * With decimals requested, the padded text has a separator no later than
   * the end of `v` and at least `decimals` characters after it; an existing
   * separator stays where it is and only zeros are added; a missing
   * one-character separator is appended followed by exactly `decimals` zeros.
   */
  lemma PadFractionPads(v: string, decimalSep: string, decimals: nat)
    ensures var r := PadFraction(v, decimalSep, decimals);
      decimals > 0 ==>
        0 <= IndexOf(r, decimalSep) <= |v| && |r| - IndexOf(r, decimalSep) - 1 >= decimals
    ensures var r := PadFraction(v, decimalSep, decimals);
      decimals > 0 && IndexOf(v, decimalSep) >= 0 ==>
        IndexOf(r, decimalSep) == IndexOf(v, decimalSep) &&
        |r| - IndexOf(v, decimalSep) - 1 == Max(decimals, |v| - IndexOf(v, decimalSep) - 1) &&
        forall i :: |v| <= i < |r| ==> r[i] == '0'
    ensures var r := PadFraction(v, decimalSep, decimals);
      decimals > 0 && IndexOf(v, decimalSep) == -1 && |decimalSep| == 1 ==>
        IndexOf(r, decimalSep) == |v| && r[|v|] == decimalSep[0] && |r| == |v| + 1 + decimals &&
        forall i :: |v| < i < |r| ==> r[i] == '0'
  {
    if decimals > 0 {
      if IndexOf(v, decimalSep) == -1 {
        AppendSeparatorAndZeros(v, decimalSep, decimals);
      } else {
        AppendMissingZeros(v, decimalSep, decimals);
      }
    }
  }

  /** Padding already padded text changes nothing. */
  lemma PadFractionIdempotent(v: string, decimalSep: string, decimals: nat)
    ensures PadFraction(PadFraction(v, decimalSep, decimals), decimalSep, decimals) == PadFraction(v, decimalSep, decimals)
  {
    PadFractionPads(v, decimalSep, decimals);
  }

  /**
   * When the library formatter honours the mask, leaving at most `decimals`
   * characters after the separator, the padded text has exactly `decimals`.
   */
  lemma PadFractionExact(v: string, decimalSep: string, decimals: nat)
    requires decimals > 0 && |decimalSep| == 1
    requires IndexOf(v, decimalSep) >= 0 ==> |v| - IndexOf(v, decimalSep) - 1 <= decimals
    ensures |PadFraction(v, decimalSep, decimals)| - IndexOf(PadFraction(v, decimalSep, decimals), decimalSep) - 1 == decimals
  {
    PadFractionPads(v, decimalSep, decimals);
  }
}
