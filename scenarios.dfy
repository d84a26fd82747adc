/**
 * Concrete scenarios the number field is meant to handle, stated on the
 * model: each fixes the inputs and states the outcome.
 */
module Scenarios {
  import opened Text
  import opened Parsing
  import opened Editing

  lemma UngroupHundredThousand()
    ensures Without("100.000", '.') == "100000"
  {
    assert "100.000" == "100" + ['.'] + "000";
    DropOneSeparator("100", "000", '.');
  }

  /** European input "100.000,23" reads as the canonical "100000.23". */
  lemma NormaliseEuropeanExample(input: string)
    requires input == "100.000,23"
    ensures NormaliseInput(Str(input), ".", ",", ".") == Str("100000.23")
  {
    var whole, fraction := "100.000", "23";
    SplitEuropean(input, whole, fraction);
    NormaliseDisplayText(whole, fraction, '.', ',', ".");
    JoinCanonical(whole, fraction);
  }

  lemma SplitEuropean(input: string, whole: string, fraction: string)
    requires input == "100.000,23" && whole == "100.000" && fraction == "23"
    ensures input == whole + [','] + fraction
  {
  }

  lemma JoinCanonical(whole: string, fraction: string)
    requires whole == "100.000" && fraction == "23"
    ensures Without(whole, '.') + "." + Without(fraction, '.') == "100000.23"
  {
    UngroupHundredThousand();
    assert Without(fraction, '.') == fraction;
  }

  /**
   * Selecting "345" in "12345" and typing "X" gives "12X": the text from
   * the selection's end on is kept, and here that is nothing.
   */
  lemma SelectionReplacedExample(raw: string, text: string)
    requires raw == "12345" && text == "X"
    ensures CalculateNewValue(raw, ",", 2, 5, 0, text) == "12X"
  {
    UngroupedIsFiltered(raw, ",");
    assert Without(raw, ',') == raw;
  }

  /**
   * With "1,234" shown and the caret between "3" and "4" (a collapsed
   * selection at offset 4 of the shown text), typing "9" should give
   * "12394", but the offset is applied to the ungrouped buffer "1234",
   * where it falls after the "4".
   */
  lemma GroupedCaretMisplacesDigit(raw: string, text: string)
    requires raw == "1,234" && text == "9"
    ensures CalculateNewValue(raw, ",", 4, 4, 4, text) == "12349"
    ensures Without(Splice(raw, true, 4, 4, 4, text), ',') == "12394"
    ensures CalculateNewValueAligned(raw, ",", 4, 4, 4, text) == "12394"
  {
    assert Ungrouped(raw, ",") == "1234" by {
      UngroupedIsFiltered(raw, ",");
      DropOneSeparator("1", "234", ',');
    }
    assert Without(Splice(raw, true, 4, 4, 4, text), ',') == "12394" by {
      assert Splice(raw, true, 4, 4, 4, text) == "1" + [','] + "2394";
      DropOneSeparator("1", "2394", ',');
    }
  }

  /**
   * With "1,234" shown and the caret at its end (a collapsed selection at
   * offset 5, past the end of the ungrouped "1234"), typing "9" appends it.
   */
  lemma TypingAtGroupedEnd(raw: string, text: string)
    requires raw == "1,234" && text == "9"
    ensures CalculateNewValue(raw, ",", 5, 5, 5, text) == "12349"
  {
    assert Ungrouped(raw, ",") == "1234" by {
      UngroupedIsFiltered(raw, ",");
      DropOneSeparator("1", "234", ',');
    }
  }

  /**
   * Typed text made of thousands separators only is stripped to the empty
   * string, which the second guard then leaves alone.
   */
  lemma SeparatorsOnlyReadEmpty(input: string)
    requires input == ",,"
    ensures NormaliseInput(Str(input), ",", ".", ".") == Str("")
  {
    assert Without(input, ',') == [] by {
      WithoutConcat([','], [','], ',');
      assert input == [','] + [','];
    }
    NormaliseChars(input, ',', '.', ".");
  }

  /** Filtering out the one separator between two separator-free parts joins them. */
  lemma DropOneSeparator(a: string, b: string, c: char)
    requires c !in a && c !in b
    ensures Without(a + [c] + b, c) == a + b
  {
    WithoutConcat(a + [c], b, c);
    WithoutConcat(a, [c], c);
  }
}
