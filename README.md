# moneysheet: the keypad accumulator and the history ledger commands

moneysheet is an Android app that keeps a running money balance per
category. This project models two pieces of its logic in Dafny and proves
properties of them:

- **The keypad screen** (`Category`). The screen holds a text buffer
  `input` and an exact decimal `amount`. Digit buttons append their text to
  the buffer. An action button does nothing on an empty buffer. On a buffer
  that `new BigDecimal(String)` rejects, it clears the buffer and shows a
  notice. Otherwise `+` adds the buffer's value to `amount`, `-` subtracts
  it, and `C` drops the buffer's last character. The class `Category` keeps
  the source's fields and handlers. The pure function `OnAction` specifies
  one action press, and `Run` specifies a sequence of presses.
- **The history screen** (`HistoryActivity`). It accepts a new entry from
  the add-entry screen, deletes one entry after a confirmed long click, and
  clears the category after a confirmed "delete all". It talks to the amount
  ledger (`AmountDao`), modelled as a sequence of entries with row ids that
  are never reused, together with the list of calls the screen issued.

Supporting modules:

- `Decimals` models `java.math.BigDecimal` as an unscaled integer and a
  32-bit scale. The value is `unscaled × 10^-scale`, as a Dafny `real`.
  `add` and `subtract` give the larger scale and the exact sum or
  difference. The model has no upper bound on the size of the integers,
  unlike `BigInteger` (see Left out).
- `DecimalSyntax` models the grammar that `BigDecimal(String)` accepts: an
  optional sign, then digits with an optional point and fraction (at least
  one digit), then an optional exponent `e`/`E` with an optional sign and
  digits. The exponent and the resulting scale must fit in a Java `int`.
  `Lex` and `Render` are proved inverse to each other, and `ParseDecimal`
  is `Lex` followed by `Evaluate`.
- `Ledger` models the ledger and what `findAll` lists after each command.
- `Wrappers` holds `Option`.

Files: `wrappers.dfy`, `decimals.dfy`, `decimal_syntax.dfy`, `ledger.dfy`,
`category.dfy`, `history.dfy`.

## Model

| member | source | states |
|---|---|---|
| Decimals.Add | src/de/winterberg/android/money/Category.java:91 | `amount.add(x)` has scale max(a.scale, b.scale) and value exactly Value(a) + Value(b); valid scales stay valid |
| Decimals.Subtract | src/de/winterberg/android/money/Category.java:98 | `amount.subtract(x)` has scale max(a.scale, b.scale) and value exactly Value(a) − Value(b) |
| Decimals.IsZeroIffValueZero | src/de/winterberg/android/money/HistoryActivity.java:86 | a decimal tests as zero exactly when its value is 0, in either direction |
| DecimalSyntax.Lex | src/de/winterberg/android/money/Category.java:113-120 | whatever `new BigDecimal(s)` accepts by shape is a well-formed literal that renders back to exactly s |
| DecimalSyntax.LexRender | src/de/winterberg/android/money/Category.java:113-120 | every well-formed literal is accepted and lexes back to itself, so the grammar and its rendering are inverse |
| DecimalSyntax.Evaluate | src/de/winterberg/android/money/Category.java:113-120 | the parsed decimal has scale = fraction digits − exponent; parsing fails exactly when the exponent or that scale leaves the Java int range |
| DecimalSyntax.ParseDecimal | src/de/winterberg/android/money/Category.java:113-120 | `new BigDecimal(s)`: Some exactly when Lex accepts s and Evaluate succeeds, None where the constructor throws `NumberFormatException`; a result comes only from non-empty text and has a 32-bit scale |
| DecimalSyntax.ParseRender | src/de/winterberg/android/money/Category.java:113-120 | parsing the text of any well-formed literal gives that literal's value |
| DecimalSyntax.RenderAlphabet | src/de/winterberg/android/money/Category.java:113-120 | an accepted string holds only digits, '.', '+', '-', 'e' and 'E' |
| DecimalSyntax.RejectsForeignCharacter | src/de/winterberg/android/money/Category.java:113-120 | a buffer holding any other character (as in "12a") is rejected |
| DecimalSyntax.DigitsParse | src/de/winterberg/android/money/Category.java:113-120 | every non-empty digit string is accepted, as the integer it writes with scale 0 |
| DecimalSyntax.PointParse | src/de/winterberg/android/money/Category.java:113-120 | "digits.digits" is accepted as the integer of all its digits with scale = number of fraction digits |
| DecimalSyntax.EvaluateValue | src/de/winterberg/android/money/Category.java:113-120 | the parsed value is sign × (integer digits + fraction digits / 10^|fraction|) × 10^exponent, exactly |
| DecimalSyntax.EvaluateUnscaled | src/de/winterberg/android/money/Category.java:113-120 | the parsed unscaled value is the signed integer digits times 10^|fraction| plus the signed fraction digits |
| DecimalSyntax.EvaluateSign | src/de/winterberg/android/money/Category.java:113-120 | a '-' sign negates the value of the unsigned literal and a '+' sign keeps it |
| DecimalSyntax.EvaluateExponent | src/de/winterberg/android/money/Category.java:113-120 | an exponent e multiplies the value of the literal without it by 10^e |
| DecimalSyntax.DigitsValueAppend | src/de/winterberg/android/money/Category.java:113-120 | the digits of a followed by those of b write a × 10^|b| + b |
| DecimalSyntax.ZerosValue | src/de/winterberg/android/money/HistoryActivity.java:85-87 | a digit string of zeros only writes 0 |
| CategoryScreen.OnAction | src/de/winterberg/android/money/Category.java:58-79 | an empty buffer changes nothing; a rejected buffer empties the buffer and keeps the amount; on a valid buffer "+" and "-" empty it and add or subtract its value exactly, "C" drops exactly its last character and keeps the amount, and any other label changes nothing; valid amounts stay valid |
| CategoryScreen.RunConcat | src/de/winterberg/android/money/Category.java:46-79 | pressing one sequence of buttons and then another is the same as pressing their concatenation |
| CategoryScreen.TypeButtons | src/de/winterberg/android/money/Category.java:46-56 | pressing digit buttons one at a time appends their texts to the buffer in order and keeps the amount |
| CategoryScreen.TypeTwoButtons | src/de/winterberg/android/money/Category.java:53-56 | two digit presses leave the same state as one press of both texts together |
| CategoryScreen.TypeButtonsAndCommit | src/de/winterberg/android/money/Category.java:53-101 | typing button texts one at a time into an empty buffer and pressing "+" or "-" commits exactly the decimal the typed text parses to |
| CategoryScreen.Commit | src/de/winterberg/android/money/Category.java:53-101 | typing the text of a decimal d into an empty buffer and pressing "+" or "-" leaves an empty buffer and amount + d or amount − d |
| CategoryScreen.TypeAndCommit | src/de/winterberg/android/money/Category.java:89-101 | typing any well-formed literal and pressing "+" or "-" changes the amount by exactly the literal's value |
| CategoryScreen.TwoCommits | src/de/winterberg/android/money/Category.java:89-94 | from a fresh screen, d1 "+" d2 "+" leaves exactly d1 + d2, with no rounding |
| CategoryScreen.ParseTenTen | src/de/winterberg/android/money/Category.java:113-120 | "10.10" parses to unscaled 1010 with scale 2 |
| CategoryScreen.ParseFiveHundredths | src/de/winterberg/android/money/Category.java:113-120 | "0.05" parses to unscaled 5 with scale 2 |
| CategoryScreen.AddingTwoAmounts | src/de/winterberg/android/money/Category.java:89-94 | from a fresh screen, "10.10" "+" "0.05" "+" leaves exactly 10.15 |
| CategoryScreen.ClearLastDigit | src/de/winterberg/android/money/Category.java:81-87 | "C" on "12" leaves "1"; "C" on an empty buffer does nothing |
| CategoryScreen.InvalidBufferIsDropped | src/de/winterberg/android/money/Category.java:66-70 | "12a" is rejected, and "+" on it empties the buffer and keeps the amount |
| CategoryScreen.Category.constructor | src/de/winterberg/android/money/Category.java:34-44 | onCreate: the category is set, the buffer is empty and the amount is `new BigDecimal(0.0)`, value 0 |
| CategoryScreen.Category.ChangeInputValue | src/de/winterberg/android/money/Category.java:53-56 | the buffer becomes the old buffer followed by exactly the button text; amount and category unchanged |
| CategoryScreen.Category.OnActionButtonClick | src/de/winterberg/android/money/Category.java:58-79 | the new state is OnAction of the old state, and the "not valid" notice appears exactly when the old buffer was rejected |
| CategoryScreen.Category.ClearDigit | src/de/winterberg/android/money/Category.java:81-87 | a non-empty buffer loses its last character; an empty one stays empty; amount unchanged |
| CategoryScreen.Category.Plus | src/de/winterberg/android/money/Category.java:89-94 | amount becomes old amount + parsed buffer, exactly; buffer empty |
| CategoryScreen.Category.Minus | src/de/winterberg/android/money/Category.java:96-101 | amount becomes old amount − parsed buffer, exactly; buffer empty |
| CategoryScreen.Category.ClearInput | src/de/winterberg/android/money/Category.java:108-111 | the buffer is empty; amount unchanged |
| CategoryScreen.Category.IsInputValid | src/de/winterberg/android/money/Category.java:113-120 | true exactly when `new BigDecimal(input)` succeeds |
| Ledger.FindAll | src/de/winterberg/android/money/HistoryActivity.java:101 | findAll lists exactly the ledger's entries of that category |
| Ledger.WithoutRow | src/de/winterberg/android/money/HistoryActivity.java:195 | after delete, an entry remains exactly when it was there and has another row id |
| Ledger.WithoutCategory | src/de/winterberg/android/money/HistoryActivity.java:169 | after removeAll, an entry remains exactly when it was there and belongs to another category |
| Ledger.FindAllAfterSave | src/de/winterberg/android/money/HistoryActivity.java:88 | after save, findAll of the entry's category is its old list plus the new entry (placed last, in the model's insertion order), and every other category's list is unchanged |
| Ledger.FindAllAfterRemoveAll | src/de/winterberg/android/money/HistoryActivity.java:169 | after removeAll(c), findAll(c) is empty and every other category lists what it did before |
| Ledger.FindAllAfterDelete | src/de/winterberg/android/money/HistoryActivity.java:195 | after delete(rowId), findAll of any category is its old list less that row |
| Ledger.DeleteRemovesOne | src/de/winterberg/android/money/HistoryActivity.java:195 | with unique row ids, delete drops exactly one entry when the row id is present and none otherwise |
| Ledger.AmountDao.constructor | src/de/winterberg/android/money/HistoryActivity.java:199-202 | `getAmountDao` hands the screen the application's ledger; the model starts it as the empty ledger of a fresh install, with no call issued and its invariant holding |
| Ledger.AmountDao.Save | src/de/winterberg/android/money/HistoryActivity.java:88 | save appends one entry under a row id no entry has, and records the call |
| Ledger.AmountDao.Delete | src/de/winterberg/android/money/HistoryActivity.java:195 | delete drops the entries with that row id, and records the call |
| Ledger.AmountDao.RemoveAll | src/de/winterberg/android/money/HistoryActivity.java:169 | removeAll drops the category's entries, and records the call |
| HistoryScreen.DecideResult | src/de/winterberg/android/money/HistoryActivity.java:71-92 | null data, a wrong request or result code, or an absent or empty amount is ignored; the invalid-value notice is given exactly when the string does not parse, and carries the string; the entry is accepted exactly when it parses to a non-zero value, with that amount and the returned timestamp, or the current time when none is returned |
| HistoryScreen.ZeroIsNotSaved | src/de/winterberg/android/money/HistoryActivity.java:86-87 | an amount written with zero digits only ("0", "0.00", "-0e5") is never saved |
| HistoryScreen.ZeroStringsAreIgnored | src/de/winterberg/android/money/HistoryActivity.java:84-88 | "0" and "0.00" are ignored outright: no save and no notice |
| HistoryScreen.LongClickTarget | src/de/winterberg/android/money/HistoryActivity.java:139-141 | deletion is offered for position p exactly when p < count − 1, and then for that position's row |
| HistoryScreen.LongClickSparesLastRow | src/de/winterberg/android/money/HistoryActivity.java:136-145 | whatever row a confirmed long-click deletion removes, the last listed row is still in the ledger |
| HistoryScreen.HistoryActivity.constructor | src/de/winterberg/android/money/HistoryActivity.java:39-45 | the screen is bound to its category and its ledger |
| HistoryScreen.HistoryActivity.OnActivityResult | src/de/winterberg/android/money/HistoryActivity.java:71-92 | exactly one save(category, amount, timestamp) is issued when DecideResult accepts, and otherwise no ledger call, with entries, row id counter and issued calls unchanged; the notice is returned exactly for an unparseable string |
| HistoryScreen.HistoryActivity.DoRemoveAll | src/de/winterberg/android/money/HistoryActivity.java:166-172 | issues removeAll(category) and then save(category, 0); afterwards findAll(category) is exactly one entry with amount 0, and every other category is unchanged |
| HistoryScreen.HistoryActivity.DoRemove | src/de/winterberg/android/money/HistoryActivity.java:193-197 | issues delete(rowId); exactly the entries with that row id go, the count drops by one when it was present, and every category's findAll loses only that row |

## Notes on the code

- The history list adapter is bound directly to the cursor of `findAll`
  (src/de/winterberg/android/money/HistoryActivity.java:100-132), and no
  extra row is added to it in the code. The layout file is not part of this
  model. So the long-click guard `position < getCount() - 1`
  (HistoryActivity.java:139) makes the category's last real entry
  undeletable. `LongClickSparesLastRow` states that.
- The code tests for a zero amount with `doubleValue() == .0d`
  (HistoryActivity.java:86). The model uses an exact zero test (see Left
  out).

## Left out

- Android UI and lifecycle are not modelled: views, `Toast` (returned as a
  notice value instead), dialogs (a confirmed dialog is a direct call of
  `DoRemove` or `DoRemoveAll`), menus, intents and `Log`.
- `refreshData`, the cursor adapter and date and decimal display formatting
  (HistoryActivity.java:100-133) are display code built on libraries that
  are not part of this model.
- `amount.toString()` display text (Category.java:43, 105) is not modelled.
- The real `AmountDao` and `MoneyApplication` are not part of this model.
  The ledger is abstract: entries, a row id counter and the list of issued
  calls.
- `REQUEST_CODE` and `RESULT_CODE` are defined in `AddHistoryActivity`,
  which is not part of this model, so they are parameters.
  `System.currentTimeMillis()` is the parameter `now`. This includes the
  two-argument `save` in `doRemoveAll`, whose default timestamp comes from
  the ledger.
- HistoryScreen.DecideResult: models `amount.doubleValue() == 0.0` as an
  exact zero test. A non-zero value too small for a double rounds to 0.0
  and is ignored by the source, but accepted by the model. This is
  floating-point behaviour.
- DecimalSyntax.Lex: accepts ASCII digits only. `BigDecimal(String)` also
  accepts other Unicode digits (`Character.isDigit`), and they are not
  modelled.
- Decimals.Add and Decimals.Subtract: `BigInteger`'s range limit is not
  modelled. When aligning the scales needs a power of ten with hundreds of
  millions of digits, `BigDecimal.add` and `subtract` throw
  `ArithmeticException`. Only a typed exponent such as "1e700000000" can
  lead there. `plus()` and `minus()` do not catch it. The model returns the
  exact result.
- DecimalSyntax.Evaluate: models the scale-overflow rule only. The
  precision and the JDK's other internal limits for very long inputs are
  not modelled.
- CategoryScreen.OnAction: compares the button label as text. The source
  compares a `String` constant with the button's `CharSequence`. The model
  assumes the label arrives as a `String`, as button text set from resources
  does.
- CategoryScreen.Category.Plus and CategoryScreen.Category.Minus: require
  a parseable buffer. The source's only caller checks that first. Their
  `NumberFormatException` path is unreachable and not modelled.
- Ledger.Entry.time is any integer. The Java `long` range is not enforced.
- Ledger.FindAll: lists a category's entries in insertion order. The real
  `findAll` is not part of this model, and its order may differ (for
  example by timestamp). Only `FindAllAfterSave`'s "placed last" depends
  on this order.
