# internationalNumberField, modelled in Dafny

The repository overrides Ext JS's `Ext.field.Number` so that a number field can show and edit numbers in either of two international formats, `1.124.543,00` (European) or `1,124,543.00` (American). Whatever the format, `getValue`/`setValue` keep using the canonical form with a period as decimal point. The override has five parts, and this project models all of them:

- the constructor, which defaults the decimal separator and derives the thousands separator from it (module `Separators`, class `Field.NumberField`);
- `applyInputValue`'s reading of typed text, which strips the thousands separators and swaps the decimal separator for the system one (module `Parsing`);
- `applyValue`'s string rewrite (module `Parsing`);
- `applyInputValue`'s display mask and fractional padding, together with the temporary switch of the global `Ext.util.Format` separators (modules `Formatting` and `Field`);
- `calculateNewValue`, which rebuilds the edit buffer from the selection or the caret (module `Editing`).

Module `Text` holds the JavaScript and Ext string primitives these parts use: `indexOf`, `replace`, `replaceAll`, `substr`, `Ext.String.repeat` and `Ext.String.insert`. Separators are modelled as strings, as in JavaScript. The one-character case gets its own lemmas.

The repository holds the override twice. `app/internationalNumberField.js` carries doc comments and `internationalNumberField.js` does not. Their code is identical, line for line:

| part | app/internationalNumberField.js | internationalNumberField.js |
|---|---|---|
| constructor | 63-74 | 40-51 |
| applyInputValue | 98-164 | 64-129 |
| applyValue | 173-193 | 131-151 |
| calculateNewValue | 203-220 | 155-172 |

The rows below cite whichever copy is more convenient.

Library routines whose code is not visible are fields of the `Field.Library` datatype and act as uninterpreted functions:

- `Ext.isNumeric`, `Ext.Number.parseFloat` and `Ext.Number.toFixed`;
- `Ext.util.Format.number`, which receives the global separators in force at the call;
- the field's `parseValue`;
- the inherited `applyValue`/`transformValue`.

The global `Ext.util.Format` separators are a `FormatGlobals` object. The input element is the string field `inputText`. The selection and the caret are parameters.

Behaviours of the code that a reader might expect otherwise:

- Changing the decimal separator after construction does not re-derive the thousands separator; only the constructor derives it.
- The configured decimal separator in typed text is replaced by the global `Ext.util.Format.decimalSeparator`, not by `.`.
- Padding only appends zeros: it pads up to `decimals` and never shortens a longer fraction, whatever `trim` is.
- Selecting `[2,5)` of `"12345"` and typing `"X"` gives `"12X"`: the text from the selection's end is kept, and here that is nothing (`Scenarios.SelectionReplacedExample`).

## Model

| member | source | states |
|---|---|---|
| Text.IndexOf | app/internationalNumberField.js:146-147 | `indexOf` returns the first index where the separator occurs, or -1 exactly when it occurs nowhere |
| Text.IndexOfChar | app/internationalNumberField.js:146 | for a one-character separator, -1 exactly when the character is absent; otherwise the index holds it and nothing before it does |
| Text.ReplaceAll | app/internationalNumberField.js:102 | `replaceAll` with a non-empty pattern leaves text without an occurrence unchanged, and removing occurrences never lengthens the text |
| Text.ReplaceFirst | app/internationalNumberField.js:108 | `replace` leaves text without an occurrence unchanged; otherwise the text before the first occurrence is kept, the replacement takes the occurrence's place and the rest follows |
| Text.RemoveAllChar | app/internationalNumberField.js:102 | `replaceAll(sep, '')` with a one-character separator removes every occurrence and keeps all other characters in order |
| Text.ReplaceFirstChar | app/internationalNumberField.js:108 | `replace` with a one-character pattern rewrites only the position of its first occurrence; everything else, later occurrences included, is unchanged |
| Text.ReplaceAllChar | internationalNumberField.js:139 | `replaceAll('.', ',')` keeps the length and changes exactly the positions that held a period |
| Text.Repeat | app/internationalNumberField.js:126 | `Ext.String.repeat` of one character gives that many copies, and nothing for a count below 1 |
| Text.Prefix | app/internationalNumberField.js:213 | `substr(0, n)` is the first `n` characters, or the whole text when it is shorter, and always a prefix of it |
| Text.SuffixFrom | app/internationalNumberField.js:213 | `substr(0, n)` and `substr(n)` split the text back into itself, clamped at its end |
| Text.Insert | app/internationalNumberField.js:216 | `Ext.String.insert` puts the text at the index (at the end from the length on) and adds exactly its length |
| Separators.ThousandFor | app/internationalNumberField.js:68 | the thousands separator is `,` if and only if the decimal separator is `.`, and `.` otherwise |
| Separators.SeparatorsComplementary | internationalNumberField.js:45 | for `.` or `,`, the derived separator is the other one of the pair: distinct, and deriving again returns the decimal separator |
| Separators.ResolveConfig | app/internationalNumberField.js:65-68 | an undefined decimal separator becomes the system one; the thousands separator is always the derived one; nothing else changes |
| Separators.CallerThousandIgnored | internationalNumberField.js:42-45 | a thousands separator supplied by the caller has no effect on the resolved configuration |
| Separators.ResolveConfigIdempotent | internationalNumberField.js:42-45 | a resolved configuration is left as it is by resolving it again |
| Parsing.NormaliseInput | app/internationalNumberField.js:101-108 | empty strings, numbers and null are left untouched; strings stay strings |
| Parsing.NormaliseDisplayText | internationalNumberField.js:67-73 | text with a decimal separator normalises to its integer and fraction parts without thousands separators, joined by the system separator; only the first decimal separator is replaced |
| Parsing.NormaliseWholeText | internationalNumberField.js:67-73 | text without a decimal separator only loses its thousands separators; this includes the empty string and text of separators only, which read as the empty string |
| Scenarios.SeparatorsOnlyReadEmpty | app/internationalNumberField.js:101-108 | typed `",,"` with thousands separator `,` is stripped to the empty string, which the second guard leaves alone |
| Parsing.ApplyValueText | app/internationalNumberField.js:180-181 | with decimal separator `,` every `.` becomes `,` and nothing else changes; otherwise the string is kept |
| Parsing.ApplyValueTextNoPeriod | internationalNumberField.js:138-139 | after the rewrite for `,`, no period is left for `parseValue` to see |
| Parsing.ApplyValue | app/internationalNumberField.js:178-192 | a non-empty string is cancelled exactly when `parseValue` of its rewrite gives null, and is otherwise handed on as that number; any other value is handed on unchanged |
| Parsing.ApplyValueNumber | internationalNumberField.js:136-150 | a number always passes through `applyValue` unchanged |
| Formatting.Mask | app/internationalNumberField.js:122-130 | the mask is `0` with no grouping and no decimals; it has `z,zzz` with grouping and a period followed by `decimals` placeholders exactly when `decimals > 0`; its length follows from both |
| Formatting.MaskDetermines | internationalNumberField.js:87-95 | different grouping or decimals give different masks, and the placeholder is determined whenever one appears |
| Formatting.PadFraction | app/internationalNumberField.js:145-152 | the formatted text is a prefix of the padded text; with no decimals nothing changes |
| Formatting.PadFractionPads | app/internationalNumberField.js:145-152 | with decimals, a separator is present and at least `decimals` characters follow the first one; text without one gains the separator and exactly `decimals` zeros; text with one keeps it in place and gains zeros only up to `decimals` |
| Formatting.PadFractionIdempotent | internationalNumberField.js:110-117 | padding padded text changes nothing |
| Formatting.PadFractionExact | app/internationalNumberField.js:145-151 | when the formatter leaves at most `decimals` fraction characters, exactly `decimals` follow the separator after padding |
| Editing.UngroupedIsFiltered | app/internationalNumberField.js:209 | with a one-character thousands separator, the edit buffer is the shown text with that character filtered out |
| Editing.Splice | app/internationalNumberField.js:212-217 | the typed text lands at the selection start (or the caret), clamped to the buffer's end, after the buffer's text before it; after it comes the buffer from the selection end, or the rest of the buffer for an insert, which grows the buffer by exactly the typed text |
| Editing.CalculateNewValue | app/internationalNumberField.js:209-219 | with a non-zero selection end, the buffer's part before the start, the typed text, then its part from the end (length shrinks by the selection); when the end lies past the buffer (select-all, or the caret at the end of grouped text, a collapsed selection such as `[5,5]` on `"1,234"`), the buffer up to the start (all of it when the start is past it too) followed by the typed text; with a zero selection end, the text inserted at the caret (length grows by it), appended when the caret lies at or past the end; no thousands separator is left unless typed |
| Editing.CollapsedSelectionInserts | app/internationalNumberField.js:212-217 | a collapsed selection at a non-zero offset inserts there, whatever the caret |
| Editing.CalculateNewValueAligned | internationalNumberField.js:161-168 | with offsets moved to the ungrouped buffer, the result equals editing the shown text and then removing its separators |
| Editing.EditCommutesWithUngrouping | internationalNumberField.js:161-168 | editing at aligned offsets after ungrouping is the same as ungrouping after editing the shown text |
| Editing.AlignedAgreesWithoutSeparators | app/internationalNumberField.js:209-216 | when the shown text has no thousands separator, the aligned and the original computation agree |
| Field.FormatValue | app/internationalNumberField.js:141-152 | no value shows nothing; a value shows the library's rendering under the field's mask as a prefix, padded so that at least `decimals` characters follow the decimal separator |
| Field.ShownTextReadsBack | app/internationalNumberField.js:101-108 | shown text read back as input loses every thousands separator and gets the system decimal separator, whatever the library rendered |
| Field.Rounded | app/internationalNumberField.js:113-114 | the number stored for numeric input is the `toFixed` text of the parsed input, parsed again |
| Field.FormatGlobals.constructor | app/internationalNumberField.js:134-135 | the global separators object holds the thousands and decimal separators it is given |
| Field.NumberField.constructor | app/internationalNumberField.js:63-72 | the field's separators are the resolved ones (thousands always derived from decimal); grouping defaults to on |
| Field.NumberField.SetValue | app/internationalNumberField.js:114 | `setValue` stores what the inherited `applyValue` makes of the argument handed on, or keeps the old value when the override cancels |
| Field.NumberField.ApplyInputValue | app/internationalNumberField.js:98-164 | numeric normalised input sets the rounded value, and other input leaves the value alone; the result is the formatted value under the field's own separators; the input element is written only for a non-null value; the global separators are the same on return as on entry |
| Scenarios.NormaliseEuropeanExample | app/internationalNumberField.js:101-108 | with decimal `,` and system `.`, `"100.000,23"` normalises to `"100000.23"` |
| Scenarios.SelectionReplacedExample | app/internationalNumberField.js:212-213 | selecting `[2,5)` of `"12345"` and typing `"X"` gives `"12X"` |
| Scenarios.GroupedCaretMisplacesDigit | app/internationalNumberField.js:209-216 | with `"1,234"` shown and a collapsed selection `[4,4]` (caret at offset 4), typing `"9"` gives `"12349"`, where the shown edit means `"12394"` (which the aligned version gives) |
| Scenarios.TypingAtGroupedEnd | app/internationalNumberField.js:209-213 | with `"1,234"` shown and the caret at its end (selection `[5,5]`, past the ungrouped `"1234"`), typing `"9"` appends it: `"12349"` |

## Findings

| source | as written | input that shows it | evidently intended | confidence | as-written member | corrected member |
|---|---|---|---|---|---|---|
| app/internationalNumberField.js:209-216 | the selection and caret offsets of the shown, grouped text are applied unchanged to the buffer from which the thousands separators were removed | shown text `"1,234"`, selection `[4,4]` (caret at offset 4, between `3` and `4`), typed `"9"`: result `"12349"` | the typed text lands where the user put it: `"12394"` | medium, not executed | Scenarios.GroupedCaretMisplacesDigit | Editing.CalculateNewValueAligned |

## Left out

- Floating point: `Ext.isNumeric`, `Ext.Number.parseFloat`, `Ext.Number.toFixed` and the field's `parseValue` are uninterpreted. No rounding behaviour is claimed, and numbers are `real`, so NaN and infinities are not modelled.
- `Ext.util.Format.number` is uninterpreted; digit grouping itself is not modelled.
- The inherited `applyValue` and `transformValue` are one uninterpreted function. What `callParent` does in `applyInputValue` is not modelled, and its result is discarded there as in the source.
- `initialize`, `setTextAlign`, `updateDecimals` and `syncDecimalValidator` are not modelled: they are a validator built by the library and a call to `validate`.
- Field.NumberField.constructor: the inherited initialisation (`callParent`, `Ext.apply` of the remaining configs) is not modelled. The field starts with no value and an empty input element. `decimals` and `trim` come from the configuration, since the defaults of those inherited configs are not part of this model.
- Text.Repeat: `Ext.String.repeat` is not part of this model. A count below 1 is taken to give the empty string; padding relies on this when the formatted fraction is already long enough.
- Text.Insert: `Ext.String.insert` is not part of this model. For a non-negative index it is taken to insert at the index, or at the end from the length on. An undefined caret is not modelled.
- Strings are sequences of Unicode scalar values, while JavaScript lengths and offsets count UTF-16 code units. For text with characters outside the Basic Multilingual Plane, the fraction length at app/internationalNumberField.js:150 and the selection and caret offsets at :213 and :216 differ from the model's.
- Text.ReplaceFirst: `$` substitution patterns in the replacement string are not modelled.
- Exceptions are not modelled. A throwing formatter would leave the global separators switched; the model restores them unconditionally.
- The JavaScript type checks (`Ext.isString`, `typeof`) are modelled by the `FieldValue` datatype, which has null, number and string cases only.
- Configuration setters (`setDecimals`, `setShowThousandSeparator`, `setDecimalSeparator`) come from the library; they are not overridden, so they are not modelled.
