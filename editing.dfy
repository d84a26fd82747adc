/**
 * Rebuilding the edit buffer while the user types: the overriding
 * `calculateNewValue` strips the thousands separators from the text shown in
 * the input element and then either replaces the selection with the typed
 * text or inserts it at the caret. The selection and caret offsets are
 * those of the shown, grouped text.
 */
module Editing {
  import opened Text

  /**
   * An edit of `buffer`: with a selection, the text before its start, the
   * typed text and the text from its end; without one, the typed text
   * inserted at the caret. Offsets past the end of `buffer` stand for its
   * end, as they do for `substr` and `Ext.String.insert`.
   */
  function Splice(buffer: string, hasSelection: bool, selStart: nat, selEnd: nat, caret: nat, text: string): (r: string)
    ensures var at := if hasSelection then selStart else caret;
      var k := if at <= |buffer| then at else |buffer|;
      |r| >= k + |text| && r[..k] == buffer[..k] && r[k..k + |text|] == text &&
      r[k + |text|..] == if hasSelection then SuffixFrom(buffer, selEnd) else buffer[k..]
    ensures !hasSelection ==> |r| == |buffer| + |text|
  {
    if hasSelection then Prefix(buffer, selStart) + text + SuffixFrom(buffer, selEnd)
    else Insert(buffer, text, caret)
  }

  /** The shown text with the thousands separators removed. */
  function Ungrouped(raw: string, thousandSep: string): (b: string)
  {
    ReplaceAll(raw, thousandSep, [])
  }

  /**
   * The new edit buffer as the source computes it. A selection counts as
   * present whenever its end is non-zero, so a collapsed selection at a
   * non-zero offset takes the replacing path. The offsets are applied to
   * the ungrouped buffer unchanged.
   */
  function CalculateNewValue(raw: string, thousandSep: string, selStart: nat, selEnd: nat, caret: nat, text: string): (r: string)
    ensures var b := Ungrouped(raw, thousandSep);
      selEnd != 0 && selStart <= selEnd <= |b| ==>
        |r| == |b| - (selEnd - selStart) + |text| &&
        r[..selStart] == b[..selStart] &&
        r[selStart..selStart + |text|] == text &&
        r[selStart + |text|..] == b[selEnd..]
    ensures var b := Ungrouped(raw, thousandSep);
      selEnd == 0 && caret <= |b| ==>
        |r| == |b| + |text| &&
        r[..caret] == b[..caret] &&
        r[caret..caret + |text|] == text &&
        r[caret + |text|..] == b[caret..]
    ensures var b := Ungrouped(raw, thousandSep);
      selEnd != 0 && |b| < selEnd ==> r == Prefix(b, selStart) + text
    ensures var b := Ungrouped(raw, thousandSep);
      selEnd == 0 && caret >= |b| ==> r == b + text
    ensures |thousandSep| == 1 && thousandSep[0] !in text ==> thousandSep[0] !in r
  {
    UngroupedIsFiltered(raw, thousandSep);
    Splice(Ungrouped(raw, thousandSep), selEnd != 0, selStart, selEnd, caret, text)
  }

  /** With a one-character separator, ungrouping filters that character out. */
  lemma UngroupedIsFiltered(raw: string, thousandSep: string)
    ensures |thousandSep| == 1 ==> Ungrouped(raw, thousandSep) == Without(raw, thousandSep[0])
  {
    if |thousandSep| == 1 {
      assert thousandSep == [thousandSep[0]];
      RemoveAllChar(raw, thousandSep[0]);
    }
  }

  /** A collapsed selection at a non-zero offset inserts there, whatever the caret. */
  lemma CollapsedSelectionInserts(raw: string, thousandSep: string, at: nat, caret: nat, text: string)
    requires at > 0
    ensures CalculateNewValue(raw, thousandSep, at, at, caret, text) == Insert(Ungrouped(raw, thousandSep), text, at)
  {
  }

  /**
   * Where an offset of the shown text falls in the ungrouped buffer: after
   * the characters before it that are not thousands separators.
   */
  function AlignedOffset(raw: string, thousandSep: string, offset: nat): (k: nat)
  {
    |Ungrouped(Prefix(raw, offset), thousandSep)|
  }

  /**
   * The new edit buffer with the selection and caret offsets first moved
   * from the shown text to the ungrouped buffer.
   */
  function CalculateNewValueAligned(raw: string, thousandSep: string, selStart: nat, selEnd: nat, caret: nat, text: string): (r: string)
    ensures |thousandSep| == 1 && thousandSep[0] !in text ==>
      r == Without(Splice(raw, selEnd != 0, selStart, selEnd, caret, text), thousandSep[0])
  {
    EditCommutesWithUngrouping(raw, thousandSep, selEnd != 0, selStart, selEnd, caret, text);
    Splice(Ungrouped(raw, thousandSep), selEnd != 0,
      AlignedOffset(raw, thousandSep, selStart), AlignedOffset(raw, thousandSep, selEnd),
      AlignedOffset(raw, thousandSep, caret), text)
  }

  /** Cutting the shown text at an offset and ungrouping the parts is cutting the ungrouped text at the aligned offset. */
  lemma SplitAtAlignedOffset(raw: string, c: char, offset: nat)
    ensures var b := Ungrouped(raw, [c]);
      var k := AlignedOffset(raw, [c], offset);
      Prefix(b, k) == Without(Prefix(raw, offset), c) &&
      SuffixFrom(b, k) == Without(SuffixFrom(raw, offset), c)
  {
    RemoveAllChar(raw, c);
    RemoveAllChar(Prefix(raw, offset), c);
    WithoutConcat(Prefix(raw, offset), SuffixFrom(raw, offset), c);
  }

  /**
   * Editing the shown text and then ungrouping it gives the same buffer as
   * ungrouping first and editing at the aligned offsets.
   */
  lemma EditCommutesWithUngrouping(raw: string, thousandSep: string, hasSelection: bool, selStart: nat, selEnd: nat, caret: nat, text: string)
    ensures |thousandSep| == 1 && thousandSep[0] !in text ==>
      Splice(Ungrouped(raw, thousandSep), hasSelection,
        AlignedOffset(raw, thousandSep, selStart), AlignedOffset(raw, thousandSep, selEnd),
        AlignedOffset(raw, thousandSep, caret), text)
      == Without(Splice(raw, hasSelection, selStart, selEnd, caret, text), thousandSep[0])
  {
    if |thousandSep| == 1 && thousandSep[0] !in text {
      var c := thousandSep[0];
      assert thousandSep == [c];
      EditCommutesChar(raw, c, hasSelection, selStart, selEnd, caret, text);
    }
  }

  lemma EditCommutesChar(raw: string, c: char, hasSelection: bool, selStart: nat, selEnd: nat, caret: nat, text: string)
    requires c !in text
    ensures Splice(Ungrouped(raw, [c]), hasSelection,
        AlignedOffset(raw, [c], selStart), AlignedOffset(raw, [c], selEnd), AlignedOffset(raw, [c], caret), text)
      == Without(Splice(raw, hasSelection, selStart, selEnd, caret, text), c)
  {
    var start, end := if hasSelection then selStart else caret, if hasSelection then selEnd else caret;
    SplitAtAlignedOffset(raw, c, start);
    SplitAtAlignedOffset(raw, c, end);
    WithoutConcat(Prefix(raw, start) + text, SuffixFrom(raw, end), c);
    WithoutConcat(Prefix(raw, start), text, c);
  }

  lemma AlignedOffsetNoSeparators(raw: string, c: char, offset: nat)
    requires c !in raw
    ensures Prefix(raw, AlignedOffset(raw, [c], offset)) == Prefix(raw, offset)
    ensures SuffixFrom(raw, AlignedOffset(raw, [c], offset)) == SuffixFrom(raw, offset)
  {
    var p := Prefix(raw, offset);
    RemoveAllChar(p, c);
    assert c !in p;
  }

  /** Without grouping in the shown text the alignment changes nothing. */
  lemma AlignedAgreesWithoutSeparators(raw: string, c: char, selStart: nat, selEnd: nat, caret: nat, text: string)
    requires c !in raw
    ensures CalculateNewValueAligned(raw, [c], selStart, selEnd, caret, text) == CalculateNewValue(raw, [c], selStart, selEnd, caret, text)
  {
    RemoveAllChar(raw, c);
    assert Ungrouped(raw, [c]) == raw;
    AlignedOffsetNoSeparators(raw, c, selStart);
    AlignedOffsetNoSeparators(raw, c, selEnd);
    AlignedOffsetNoSeparators(raw, c, caret);
  }
}
