# vuetify-numeric: the numeric input's keystroke editor, in Dafny

`VNumericInput` is a Vue text field for numbers. The field keeps three pieces of data:

- `internalValue`, the number;
- `fractPart`, the fraction digits typed so far, with `"0"` meaning none;
- `fractDigitsEdited`, a flag that says whether digit keys currently go to the fraction.

Every keydown goes through `keyProcess`, which:

1. rebuilds the integer text as `Math.trunc(value).toString()`;
2. edits either that text or the fraction text: a digit, `-` (sign toggle), Backspace, or `,`/`.` (fraction mode on or off, only when `precision > 0`);
3. stores `Number(int + "." + fract)` back as the value;
4. suppresses the browser's default handling of every key except ArrowLeft and ArrowRight.

Next to the handler sit four small rules:

- the colour rule: negative values take `negativeTextColor`;
- a two-step clear: reset now, then take the `value` prop at the next tick;
- the `value` watcher, which sets the number from outside;
- the displayed text: the prefix plus the formatted value.

The model has five modules.

- `DecimalText`: digit strings, `toString` of naturals and their base-ten reading.
- `JsNumber`: the JavaScript primitives the handler uses, on exact values:
  - `Math.trunc`;
  - integer `toString`;
  - `replace` of the first `-`;
  - `Number()` on `-?digits(.digits)?` text, and `NaN` for any other text.
- `NumericInput`: the component.
  - The data and its initial value `Init`.
  - The text-level handler `KeyProcess`, which mirrors the JavaScript string edits branch for branch.
  - `Run`, the handler over a sequence of keys.
  - The colour rule, the displayed text, the watcher and clearing.
  - The handler's precondition `Valid` is the invariant the source keeps on `fractPart`: it is `"0"` or digits whose first digit is not `'0'`. Only the handler and clearing ever write it.
- `ArithmeticReading`: an independent arithmetic reference for one keystroke, `ArithStep`.
  - Integer digit: `10·i ± d`.
  - Integer backspace: `i / 10`, truncated toward zero.
  - Sign: `-i`, where the text `"-0"` on zero is kept.
  - The composed value is the integer part plus or minus the fraction's exact decimal value.
  - `KeyProcessIsArithmetic` proves, for every valid state, key and precision, that the text-level handler equals this reference.
- `KeyProperties`: the handler's properties stated on all inputs. `Scenarios`: worked single-key examples on concrete data.

All source paths below are in `src/components/VNumeric/VNumericInput.js`.

## Model

| member | source | states |
|---|---|---|
| NumericInput.KeyProcess | src/components/VNumeric/VNumericInput.js:101-144 | A keystroke keeps the fraction text well formed: it stays "0" or digits with a non-zero first digit, so a zero right after the separator can never be typed. The default action is suppressed for every key except ArrowLeft and ArrowRight. |
| NumericInput.KeyProcessState | src/components/VNumeric/VNumericInput.js:107-143 | The new value is the value of the edited buffer: the signed integer digits plus, when precision > 0, the fraction digits read as a decimal. The new fraction text and mode are the buffer's. |
| NumericInput.ComposedNumber | src/components/VNumeric/VNumericInput.js:140-143 | The composed text `int` or `int.fract` always parses (never NaN), and it parses to exactly the value the buffer denotes. |
| ArithmeticReading.KeyProcessIsArithmetic | src/components/VNumeric/VNumericInput.js:101-144 | For every valid state, key and precision, the string-editing handler gives the same data as the arithmetic step: 10·i ± d, i/10 toward zero, −i ("-0" on zero), fraction append/drop, mode flip. |
| ArithmeticReading.DigitText | src/components/VNumeric/VNumericInput.js:116-120 | Typing digit d after the printed integer i prints d when i = 0, 10·i + d when i > 0, and 10·i − d when i < 0. |
| ArithmeticReading.BackspaceText | src/components/VNumeric/VNumericInput.js:129-133 | Backspace on the printed integer i prints i/10 truncated toward zero; "-5" becomes "0", never "-". |
| ArithmeticReading.SignText | src/components/VNumeric/VNumericInput.js:122-124 | '-' on the printed integer i prints −i; on 0 it prints "-0". |
| KeyProperties.IntegerDigit | src/components/VNumeric/VNumericInput.js:116-120 | In integer mode, digit d takes the integer part i to i when i = 0 and d = 0, to d when i = 0 and d ≠ 0, to 10i + d when i > 0, and to 10i − d when i < 0. Fraction text and mode are unchanged. |
| KeyProperties.FractionDigit | src/components/VNumeric/VNumericInput.js:110-114 | In fraction mode a digit replaces the placeholder "0" (unless it is '0') or is appended, with no cap at precision. The integer part is kept, and the value is the integer part composed with the new fraction. |
| KeyProperties.FractionBackspace | src/components/VNumeric/VNumericInput.js:126-127 | In fraction mode Backspace drops the last fraction digit, and a single digit becomes "0". The integer part and the mode are kept. |
| KeyProperties.IntegerBackspace | src/components/VNumeric/VNumericInput.js:128-133 | In integer mode Backspace gives j with 10·abs(j) ≤ abs(i) < 10·abs(j) + 10 and the sign of i, which is i/10 toward zero. A one-digit part, 0 included, gives text "0". The fraction is kept. |
| KeyProperties.SignToggle | src/components/VNumeric/VNumericInput.js:122-124 | '-' negates a non-zero integer part and never changes the fraction text or the mode. |
| KeyProperties.SignToggleOnZero | src/components/VNumeric/VNumericInput.js:122-124 | '-' on integer part 0 builds the text "-0". The value keeps integer part 0 and is negative exactly when precision > 0 and the fraction is not "0". |
| KeyProperties.MinusTwiceRestores | src/components/VNumeric/VNumericInput.js:122-124 | For a non-zero integer part with a value composed from its fraction, pressing '-' twice gives back exactly the same data. |
| KeyProperties.NegativeZeroIsLost | src/components/VNumeric/VNumericInput.js:107-124 | After '-' on 0 with a fraction, in either mode, the value is negative and a second '-' leaves it unchanged. Any other key that follows makes it non-negative, because trunc(-0.5) prints "0" and the sign is lost. |
| KeyProperties.KeyLeavesComposedValue | src/components/VNumeric/VNumericInput.js:140-143 | Every value a keystroke leaves with a non-zero integer part is that integer part composed with the fraction text. |
| KeyProperties.MinusTwiceAfterKey | src/components/VNumeric/VNumericInput.js:122-124 | After any keystroke that leaves a non-zero integer part, pressing '-' twice gives back exactly the data that keystroke left. |
| KeyProperties.SeparatorToggles | src/components/VNumeric/VNumericInput.js:135-139 | ',' and '.' flip the fraction mode exactly when precision > 0. They keep the fraction text and the integer part. |
| KeyProperties.PrecisionZeroStep | src/components/VNumeric/VNumericInput.js:135-143 | With precision ≤ 0, every keystroke leaves an integral value and the mode as it was. In integer mode the fraction text is untouched. |
| KeyProperties.PrecisionZeroRun | src/components/VNumeric/VNumericInput.js:135-143 | With precision ≤ 0, from integral data with fraction "0", no key sequence reaches fraction mode, changes the fraction text or leaves a non-integral value. |
| KeyProperties.PrecisionZeroFromInit | src/components/VNumeric/VNumericInput.js:41-45 | A freshly created field (value 0, fraction "0", integer mode) with precision ≤ 0 only ever holds integers, whatever keys follow. |
| KeyProperties.UnrecognisedKey | src/components/VNumeric/VNumericInput.js:140-143 | Any other key, arrows included, still recomposes the value from trunc(value) and the fraction text. A second such key changes nothing. |
| KeyProperties.ExternalValueTruncated | src/components/VNumeric/VNumericInput.js:66-68 | About the watcher `NumericInput.WatchValue`: after it sets v, the next keystroke, whatever the key, acts as if trunc(v) had been set. For an unrecognised key the fraction of v is replaced by the fraction text. |
| KeyProperties.NegativeBufferValue | src/components/VNumeric/VNumericInput.js:140-143 | A composed buffer is negative exactly when its text is signed and its digits are not all zero (including the fraction when precision > 0). |
| KeyProperties.ColorAfterKey | src/components/VNumeric/VNumericInput.js:59-63 | About the colour rule `NumericInput.ComputedColor`: after a keystroke the colour is the negative colour exactly when one is configured (non-empty) and the edited text is a '-' before digits that are not all zero. Otherwise it is the base colour. |
| KeyProperties.ClearAfterTick | src/components/VNumeric/VNumericInput.js:86-97 | About clearing, `NumericInput.ClearValue`: after the deferred step, no value prop or a zero one leaves a freshly created field. A non-zero prop leaves a fresh field whose value was set through the watcher. |
| NumericInput.ComputedValue | src/components/VNumeric/VNumericInput.js:53-58 | The displayed text is the prefix (when non-empty) followed by the formatted value. The separate zero branch shows the same text as the general one. |
| JsNumber.Trunc | src/components/VNumeric/VNumericInput.js:107 | Math.trunc rounds toward zero: for r ≥ 0 it is the largest integer ≤ r, and for r < 0 the smallest integer ≥ r. |
| JsNumber.NumberOfIntToString | src/components/VNumeric/VNumericInput.js:107 | Printing an integer with toString and reading the text with Number() gives the integer back. |
| JsNumber.NumberOfDecimal | src/components/VNumeric/VNumericInput.js:140-143 | Number() of `-?m.f` is plus or minus the sum of m's digits and f's fraction value. |
| JsNumber.RemoveFirst | src/components/VNumeric/VNumericInput.js:123 | replace('-', '') on text starting with '-' removes exactly that sign, and it leaves text without '-' unchanged. |
| JsNumber.FractionValueAppend | src/components/VNumeric/VNumericInput.js:113 | Appending digit d to a fraction of n digits adds d·10^-(n+1) to its value. |
| DecimalText.NatToStringOfValue | src/components/VNumeric/VNumericInput.js:107 | Reading a canonical digit string and printing the number gives the string back. |
| DecimalText.AppendDigitText | src/components/VNumeric/VNumericInput.js:119 | Appending digit d to the text of n > 0 gives the text of 10n + d. |
| DecimalText.DropLastDigitText | src/components/VNumeric/VNumericInput.js:132 | Dropping the last character of the text of n ≥ 10 gives the text of n/10. |
| Scenarios.FractionLongerThanPrecision | src/components/VNumeric/VNumericInput.js:112-113 | With precision 2, the digit 4 in fraction mode on 0.123 gives fraction "1234" and value 0.1234: the fraction is not capped. |
| Scenarios.MinusOnZeroThenDigit | src/components/VNumeric/VNumericInput.js:122-124 | With precision 2, '-' on 0.5 gives -0.5, and a following 3 gives 3.5 without the sign. |
| Scenarios.BackspaceMinusSeven | src/components/VNumeric/VNumericInput.js:129-130 | With precision 0, Backspace on -7 gives 0, and a second Backspace leaves 0. |

## Left out

- JsNumber.Number: values are exact decimals (Dafny `real`). The model has no double rounding of the composed text, no loss of precision beyond 2^53, and no exponent notation. It reads only `-?digits(.digits)?`, because that is the only shape the handler composes; any other text is NaN.
- JsNumber.Number: in JavaScript `Number("-0")` is −0, but the model gives 0.0.
  - '-' on integer part 0 composes "-0", or "-0.0" when precision > 0 and the fraction is "0".
  - The −0 shows no difference through the component: it is not `< 0` (colour), it is falsy (`computedValue` formats 0), and `Math.trunc(-0).toString()` prints "0".
  - Only the `change-value` event payload would differ.
- JsNumber.IntToString: toString of exact integers. The `"1e+21"` form of large doubles is not modelled.
- NumericInput.WatchValue: the watcher's `val` (:66-68) is narrowed to a real number. NaN, `undefined` or a string would make `Math.trunc(...).toString()` print "NaN" or coerce the value. Those inputs are not modelled.
- NumericInput.ClearValue: `this.value` (:91) is narrowed to an optional real, and truthy means present and non-zero. NaN and non-number props are not modelled. `$nextTick` becomes the two-step `ClearSteps` result, whose tick value is a parameter.
- NumericInput.KeyProcess: `precision` is an integer; the JavaScript prop is a Number. Only its test `precision > 0` matters to the handler.
- NumericInput.KeyProcess: `keyEvent.stopPropagation()` (:105) is called for every key. It is not part of `KeyResult`, which records only whether `preventDefault` is called.
- NumericInput.ComputedValue: `Intl.NumberFormat` and its locale, grouping and minimum fraction digits (:47-52) are foreign formatting code. `format` is an uninterpreted function parameter.
- The `$emit` calls are Vue events that carry the value and compute nothing: `internalValue` watcher → `change-value` (:69-71), `activateCalculator` → `activate-calculator` (:98-100).
- DOM access is left out: the colour watcher's style write, `genTextInput`, `mounted` and `render` (:72-85, :146-168).
- The props `min`, `max`, `lenght` and `textColor` are never read by the component, so there is nothing to model.
