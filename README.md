# Case battle ledger: a verified model of the ledger engine

This project models the ledger behind a chat bot that tracks deposits
into and withdrawals out of a game, per user, and proves properties of
the model. The ledger keeps two sheets of a workbook:

- the **Transactions** sheet, a log of records that grows by
  appends and shrinks only when a user is reset,
  `(user_id, type, amount, timestamp)`;
- the **Summary** sheet, one row per user with deposits, withdrawals,
  balance, ROI percent and the time of the last update. It is rebuilt
  from the whole log after every change and never patched.

The model also covers `parse_amount`, the function that turns the text a
user types into an amount.

Files and modules:

- `rounding.dfy` (`Rounding`): powers of ten, and rounding a rational to
  the nearest integer with ties to even. This is ROUND_HALF_EVEN, the
  rounding of Python's default decimal context, used by `quantize` and
  by `round(x, 2)`.
- `amount.dfy` (`Amount`): `parse_amount` as a total function that
  returns `Ok(cents)` or `Err(reason)`. It replaces commas by points, then
  applies `str.strip` with Python's whitespace set, then parses a decimal
  numeral exactly. A value ≤ 0 is refused. The value is then quantized
  to cents, half to even. A quantized result of more than 28 digits
  (10^28 cents or more) is refused, because `quantize` raises in the
  default context (precision 28).
- `ledger_spec.dfy` (`LedgerSpec`): the records and a reference
  definition of everything derived from the log:
  - the per-user totals;
  - the set of user ids the summary groups by;
  - the rebuilt Summary sheet;
  - the stats lookup;
  - the log after a reset;
  - the history view, including Python's `rows[-limit:]` slice rules.
- `ledger_laws.dfy` (`LedgerLaws`): what an append and a reset do to
  this reference, the stats of a rebuilt summary, and a worked session.
- `ledger.dfy` (`Storage`): class `LedgerStorage`. Its fields `log` and
  `summary` hold the two sheets below their header rows. Its methods
  change them in place with the loops of the source, and each method is
  proved against the reference definitions.

Conventions of the model:

- Amounts are integer cents.
- ROI is an integer number of hundredths of a percent, so -70.00 % is
  `-7000`.
- User ids are integers. The source treats the falsy id 0 specially:
  - the rebuild and the history pass over records with id 0;
  - a reset of another user keeps them;
  - a reset of user 0 removes them.
- Both clock readings of `add_transaction` become parameters: the record's
  timestamp and the rebuild's `updated_at`. The rebuild's clock reading
  is a parameter of the other operations too.

Behaviour of the code that a reader might not expect, which the model
keeps:

- An amount that is positive but below half a cent, such as "0.004", is
  accepted and becomes 0.00. Positivity is checked before quantizing.
- A history limit of 0 returns the whole history. A negative limit drops
  that many entries from the oldest end. Both come from the slice
  `rows[-limit:]`.
- ROI is 0 whenever deposits are not positive, not only when they are 0.
- The quantization rounding mode is ROUND_HALF_EVEN: "0.005" gives 0.00
  and "0.015" gives 0.02.
- Adding a transaction does not validate the amount. The model accepts
  any integer amount there.

## Model

| member | source | states |
|---|---|---|
| Rounding.RoundHalfEven | start.py:183 | the result is within half a unit of num/den, a tie gives an even result, and a non-negative num gives a non-negative result |
| Rounding.RoundHalfEvenUnique | start.py:183 | those two properties determine the rounded value, so no other rounding rule satisfies them |
| Rounding.RoundHalfEvenExact | start.py:183 | an exact quotient is returned unchanged |
| Amount.ReplaceCommas | start.py:179 | the text keeps its length, every comma becomes a point, and every other character is kept |
| Amount.ReplaceCommasConcat | start.py:179 | replacing commas in two joined texts is the same as replacing in each and joining |
| Amount.StripLeft | start.py:179 | the result is no longer than the text and is empty or starts with a non-whitespace character |
| Amount.StripLeftSplits | start.py:179 | what str.lstrip keeps is a suffix of the text, and what it removes is all whitespace |
| Amount.StripRight | start.py:179 | the result is a prefix of the text and is empty or ends with a non-whitespace character |
| Amount.StripRightSplits | start.py:179 | what str.rstrip removes is all whitespace |
| Amount.Strip | start.py:179 | the stripped text is empty or starts and ends with non-whitespace |
| Amount.Normalize | start.py:179 | the text given to the Decimal constructor is no longer than the input, holds no comma, and is empty or starts and ends with non-whitespace |
| Amount.StripPadded | start.py:179 | whitespace added on both sides is removed again by str.strip |
| Amount.PaddingIgnored | start.py:179 | surrounding whitespace never changes the result of parse_amount |
| Amount.CommaIsPoint | start.py:179 | writing a comma where a point is written never changes the result of parse_amount |
| Amount.DigitsValue | start.py:180 | a string of k digits has a value below 10^k |
| Amount.FindDot | start.py:180 | the result is the index of the first point, or the length when there is none |
| Amount.NumeralValue | start.py:180 | the exponent is the number of fractional digits and the coefficient is non-negative |
| Amount.PartsParse | start.py:180 | an unsigned numeral (digits, digits and a point, digits around a point, or a point and digits) is read as the value of its digits |
| Amount.UnsignedGrammar | start.py:180 | an unsigned text is accepted exactly when it is such a numeral, and then gives that numeral's value |
| Amount.ParseNumeral | start.py:180 | an accepted value is negative only after a leading minus, and a text with a leading minus never gives a positive value |
| Amount.SignedPartsSign | start.py:180 | the sign of a signed numeral is its leading character when that is a plus or a minus, and none otherwise |
| Amount.NumeralGrammar | start.py:180 | Decimal(t) accepts exactly an optional plus or minus followed by an unsigned numeral; the value is the numeral's, negated after a minus |
| Amount.GrammarExamples | start.py:180 | a lone sign is refused, ".5" is one half and "5." is five |
| Amount.ParseWhole | start.py:180 | a run of digits is read as a whole number |
| Amount.ParsePointed | start.py:180 | digits, a point and digits are read as that decimal value |
| Amount.QuantizeCents | start.py:183 | the cents are within half a cent of the value, a tie goes to an even cent, and a non-negative value gives non-negative cents |
| Amount.ParseNormalized | start.py:180-183 | an invalid numeral is refused as invalid; a value ≤ 0 is refused as not positive; otherwise the result is the quantized cents, refused only when they exceed 28 digits (10^28 cents or more) |
| Amount.FormatCentsRoundTrip | start.py:178-183 | every positive cent amount the parser can return, written with two decimals and a point or a comma, is read back as the same amount |
| Amount.ThousandPlain | start.py:178-183 | "1000" gives 100000 cents |
| Amount.ThousandComma | start.py:178-183 | "1000,00" gives 100000 cents |
| Amount.ThousandPoint | start.py:178-183 | "1000.00" gives 100000 cents |
| Amount.ThousandPadded | start.py:178-183 | " 1000.00 " gives 100000 cents |
| Amount.WholeAmount | start.py:178-183 | a positive whole number of units gives a hundred cents per unit |
| Amount.NegativeRefused | start.py:181-182 | "-5" is refused as not positive |
| Amount.WordRefused | start.py:180 | "abc" is refused as an invalid numeral |
| Amount.TinyAmountBecomesZero | start.py:181-183 | "0.004" passes the positivity check and gives 0 cents |
| Amount.TieRoundsDown | start.py:183 | "0.005" gives 0 cents, the even neighbour |
| Amount.TieRoundsUp | start.py:183 | "0.015" gives 2 cents, the even neighbour |
| Amount.ParseAmount | start.py:178-183 | an amount is accepted exactly when the normalized text is a positive numeral whose cents have at most 28 digits; it then gives that value in cents, rounded half to even |
| Amount.SmallAmount | start.py:180-183 | "0." followed by three digits gives that many thousandths rounded half to even to cents |
| LedgerSpec.Total | start.py:139-141 | the sum of the amounts of u's records of kind k, one record at a time (each append adds its contribution, TotalAppend); it is zero when the user has no record of that kind, and never negative when no amount is |
| LedgerSpec.Ids | start.py:132-140 | a user id is grouped exactly when it is not 0 and some record carries it |
| LedgerSpec.Insert | start.py:144 | inserting into an increasing sequence keeps it increasing and adds exactly the new id |
| LedgerSpec.SortedIds | start.py:144 | the users of the log in strictly ascending order, each exactly once |
| LedgerSpec.SortedList | start.py:144 | sorted() of a list of ids is strictly ascending and has the same elements |
| LedgerSpec.Roi | start.py:148-149 | ROI is 0 unless deposits are positive; otherwise it is (withdrawals - deposits) / deposits * 100, rounded half to even to two places |
| LedgerSpec.StatsOf | start.py:145-149 | the user's figures: the deposit and withdrawal totals of the log, the balance as their difference and the ROI of the two; all zeros for a user without records |
| LedgerSpec.RowFor | start.py:145-149 | the user's summary row carries the user's id, the rebuild's stamp and exactly the user's figures |
| LedgerSpec.RowsFor | start.py:144-149 | one row per id, in the order of the ids, holding the row of that user |
| LedgerSpec.Rebuild | start.py:126-149 | rows in strictly ascending user id; a row exists exactly for each grouped user; deposits and withdrawals are the user's sums, balance is their difference, roi is Roi of them, and every row carries the same stamp |
| LedgerSpec.Lookup | start.py:155-162 | the first matching row's four figures, or zeros when no row matches or the id is 0 |
| LedgerSpec.Without | start.py:113-121 | the kept records are exactly the records of other users |
| LedgerSpec.Entries | start.py:168-171 | for a non-zero user, the entries are exactly the entries of that user's records; there are no more entries than records, and user 0 has none |
| LedgerSpec.SliceStart | start.py:172 | Python's start index of s[start:]: a negative start counts from the end, and both kinds are clamped to the list |
| LedgerSpec.Reverse | start.py:172 | reversed() keeps the length and puts element i at position n-1-i |
| LedgerSpec.History | start.py:164-172 | for limit ≥ 1, min(limit, n) entries; for limit 0, all n; for a negative limit, n + limit, but not below 0; entry i is the user's (n-1-i)-th entry, so the most recent comes first |
| LedgerLaws.TotalAppend | start.py:139-141 | an appended record adds its amount to its own user's total of its kind and nothing elsewhere |
| LedgerLaws.IdsAppend | start.py:139-140 | an appended record adds its user to the grouped users unless its id is 0 |
| LedgerLaws.EntriesAppend | start.py:169-171 | an appended record of the user becomes that user's newest entry |
| LedgerLaws.StatsAfterAppend | start.py:101-107 | a deposit raises its user's deposits and balance by the amount; a withdrawal raises the withdrawals and lowers the balance by it; other users are unchanged |
| LedgerLaws.HistoryNewestFirst | start.py:164-172 | after an append, the user's history has one more entry, up to the limit, and starts with the new record |
| LedgerLaws.WithoutConcat | start.py:113-121 | a reset filters each part of the log separately, so the kept records stay in their relative order |
| LedgerLaws.WithoutAbsent | start.py:115-117 | a reset of a user without records leaves the log as it is |
| LedgerLaws.WithoutStep | start.py:115-117 | a reset keeps the last record exactly when it belongs to another user |
| LedgerLaws.WithoutIdempotent | start.py:110-124 | resetting a user twice gives the log of resetting once |
| LedgerLaws.TotalWithout | start.py:110-124 | after a reset the user's totals are 0 and every other user's totals are unchanged |
| LedgerLaws.EntriesWithout | start.py:110-124 | after a reset the user has no entries and every other user's entries are unchanged |
| LedgerLaws.ResetDropsRow | start.py:123 | the summary rebuilt after a reset has no row for the user |
| LedgerLaws.ResetClearsUser | start.py:110-124 | after a reset, get_user_stats gives zeros and the history is empty for every limit |
| LedgerLaws.ResetKeepsOthers | start.py:110-124 | a reset changes neither the stats nor the history of any other user |
| LedgerLaws.TotalAbsent | start.py:139-141 | a user with no records has zero totals |
| LedgerLaws.LookupRebuild | start.py:151-162 | on a rebuilt summary, get_user_stats gives the user's sums, balance and ROI from the log, and zeros for a user with no records |
| LedgerLaws.LookupPresent | start.py:155-161 | a user with records finds their own row |
| LedgerLaws.RebuildStamp | start.py:143-149 | the stamp read off a rebuilt sheet rebuilds the same sheet |
| LedgerLaws.IncreasingUnique | start.py:144 | two strictly ascending id lists with the same elements are equal, so the sorted order is unique |
| LedgerLaws.ExampleRoi | start.py:148-149 | deposits of 1000.00 and withdrawals of 300.00 give an ROI of -70.00 % |
| LedgerLaws.ExampleTotals | start.py:139-141 | in the example session user 42 has deposited 1000.00 and withdrawn 300.00, and user 99 has nothing |
| LedgerLaws.ExampleStats | start.py:151-162 | after the example session get_user_stats(42) is (1000.00, 300.00, 700.00, -70.00) and get_user_stats(99) is zeros |
| LedgerLaws.ExampleHistory | start.py:164-172 | the example session's history of user 42 lists the withdrawal first, limit 1 keeps only the withdrawal, and user 99 has none |
| Storage.Credit | start.py:141 | crediting a record adds its amount to the running sum of its own kind and leaves the other sum as it is |
| Storage.SumsStep | start.py:139-141 | crediting one more record keeps the per-user sums equal to the totals of the longer prefix |
| Storage.LedgerStorage.constructor | start.py:56-81 | a new workbook has empty sheets and a summary consistent with the log |
| Storage.LedgerStorage.Open | start.py:56-58 | an existing workbook is taken as found |
| Storage.LedgerStorage.AddTransaction | start.py:101-108 | the old records stay in place and exactly one record with the given fields is appended at the end; the summary is the rebuild of the new log |
| Storage.LedgerStorage.ResetUser | start.py:110-124 | the log becomes exactly the old log without the user's records, in order; the summary is the rebuild of the new log |
| Storage.LedgerStorage.RebuildSummary | start.py:126-149 | the log is unchanged and the summary becomes the rebuild of the log at the given time |
| Storage.LedgerStorage.SumByUser | start.py:131-141 | the accumulated dictionary has exactly the grouped users as keys, each mapped to their deposit and withdrawal totals |
| Storage.LedgerStorage.GetUserStats | start.py:151-162 | the result is the first matching summary row's figures or zeros; on a consistent ledger they are the user's figures from the log, and zeros for user 0 or a user with no records |
| Storage.LedgerStorage.GetUserHistory | start.py:164-172 | the result is the history view of the log; for limit ≥ 1 it has min(limit, n) entries, most recent first |

## Left out

- Workbook I/O is not modelled: creating, loading and saving the file
  (`_init_workbook`, `_load_wb`, `_save_wb`). The two sheets are fields of
  the object, and a mutation and its rebuild are one method call.
- Header rows, cell styling and `_autosize_columns` are left out. They
  are cosmetic.
- Storage.LedgerStorage.Open: an existing workbook is taken as found, as
  the source does. Its summary need not be consistent with its log, so
  the object is not known to be `Valid()` until the first mutation.
- The `float(...)` conversions when cells are written, and the
  `Decimal(str(...))` conversions when they are read back, are left out.
  Amounts and sums are exact integer cents in the model.
- Sums and ROI in the rebuild use exact integer arithmetic. The source
  computes them in Python's 28-digit decimal context.
- LedgerSpec.Roi: the model rounds the exact quotient once. The source
  first rounds the division to 28 significant digits, then rounds to two
  places. When the quotient has k integer digits, only 28 - k fractional
  digits survive the first rounding, and that can turn a value just above
  a tie into a tie. For example, deposits of 199.99 and withdrawals of
  3999800000000000000000000.01 give a quotient of
  19999999999999999999999.0000500025…, kept as …999.00005, which rounds
  to …900.00 % where the model gives …900.01 %. The two differ only for
  ratios or deposits far beyond the range that the sheet's float round
  trip keeps exact.
- LedgerSpec.Roi: the model has no failure for a huge ROI. In the 28-digit
  context `round(roi, 2)` raises `InvalidOperation` once |roi| reaches
  10^26 percent (10^28 in the model's hundredths), for example a deposit
  of 0.01 followed by a withdrawal of 10^23. The rebuild then raises
  before the workbook is saved, so `add_transaction` leaves the stored
  file unchanged and the record is never stored; a `reset_user` whose
  remaining log holds such a user fails the same way. The model computes
  the ROI, records the transaction and rebuilds.
- Amount.NumeralGrammar: the numeral grammar is an optional sign, then
  digits with an optional point and optional fraction, or a point and
  digits. The model refuses several forms that Python's `Decimal`
  accepts: exponents ("1e3"), underscores ("1_000") and digits outside
  ASCII. "Infinity" and "NaN" are refused by the model and by the source
  alike. The source fails at the comparison or at `quantize`, not in the
  constructor.
- The source raises `InvalidOperation` or `ValueError`. The model returns
  `Err` with a reason.
- Exceptions from malformed sheets are outside the typed records:
  - an unknown transaction type, which gives a `KeyError` in the rebuild;
  - a missing user id, which gives a `TypeError` in the reset.
- The wall-clock readings (`datetime.now()` and its formatting) become
  timestamp parameters.
- The history limit's default of 10 is left out: callers of the model
  pass `limit` explicitly.
- The Telegram layer is left out:
  - all command and button handlers, `main`, and the `awaiting_amount`
    flag;
  - the module-level `ledger` object and the keyboard constants.
