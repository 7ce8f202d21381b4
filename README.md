# bookstore-etl transformation stage, modelled in Dafny

This project models the transformation stage of the bookstore ETL pipeline
(`src/transform.py`). That stage sits between the loaders, which read raw
users, orders and books tables into data frames, and the reporting code.
It does three things:

- it sanitizes the many spellings of "no value" into one missing marker
  (`clean_null_values`);
- it normalizes messy cells: prices with currency signs, Euro amounts and
  cent notation (`parse_price`); free-form timestamps (`parse_timestamp`);
  personal names with titles and suffixes (`normalize_name`); and
  comma-separated author lists (`create_author_set`);
- it adds comparison keys and derived columns to each table
  (`transform_users`, `transform_orders`, `transform_books`,
  `transform_all`).

The configuration it reads, `EUR_TO_USD` and `NULL_VALUES`
(`config/settings.py`), is the module `Settings`.

Files and modules:

- `values.dfy` (`Values`): cell values (`Absent` for None/NaN/NaT, strings,
  integers, floats as exact decimals, timestamps, author sets), frames (an
  ordered column list and one map per row), Python's `str()` of a number
  and `round(x, 2)`.
- `text.dfy` (`Text`): the string primitives the stage relies on.
  `strip()`, `lower()`, `re.sub(r'\s+', ' ', s)`, `split(',')`, digit
  reading and integer printing.
- `settings.dfy` (`Settings`): the two configuration constants.
- `nulls.dfy` (`Nulls`): `clean_null_values`.
- `price.dfy` (`Price`): `parse_price`.
- `timestamp.dfy` (`Timestamp`): `parse_timestamp`. The date parser itself
  is a parameter.
- `names.dfy` (`Names`): `normalize_name`, with each title regular
  expression modelled as a leftmost-longest, boundary-delimited match.
- `authors.dfy` (`Authors`): `create_author_set`.
- `transform.dfy` (`Transform`): the three table transformations and
  `transform_all`.

Each table transformation is a method that builds its result column by
column, the way the source does. Each method is proved equal to a function
that describes the result row by row. Lemmas about that function state
what the transformation promises: which rows survive, what each new cell
holds, and that the other cells are kept. Frames are values, so the copy
each transformation makes of its input is implicit.

Where the code and its prose description differ, the model follows the
code:

- Null spellings are matched case-sensitively. The stripped strings `''`,
  `'nan'`, `'NaN'`, `'NULL'` and `'None'` count as null, but `"null"` and
  `"NONE"` do not (`Nulls.NullSpellingsCaseSensitive`).
- A comma is never a decimal separator. Every character other than a digit
  or a dot is deleted, so `"€12,50"` reads as 1250 Euro, i.e. 1500.00
  dollars, not 15.00 (`Price.EuroWithComma`).
- The cent digits of `"<d>¢<c>"` are read as decimals: `"3¢5"` is 3.50,
  not 3.05 (`Price.CentsReadAsDecimals`).
- `\bdr\.?\b` does not take the period in `"dr. jane"`, because no word
  boundary follows it. The `dr` pass deletes only the letters, and the
  period stays: `"Dr. Jane Smith"` becomes `". jane smith"`, not
  `"jane smith"` (`Names.DoctorKeepsPeriod`, `Names.TitlePeriod`).
- A phone number a loader read as a float keeps the digit of its `.0`:
  5551234.0 gives the key `"55512340"` (`Transform.FloatPhoneGainsZero`).
- Each title is applied once, in list order, not "repeatedly".

## Model

| member | source | states |
|---|---|---|
| Values.Round2 | src/transform.py:53 | `round(x, 2)`: two decimals, exact when `x` has at most two, otherwise within half a cent with ties going to the even cent, and never negative for a non-negative `x` |
| Values.Round2Nearest | src/transform.py:53 | the rounded amount is never more than half a cent from the exact one |
| Values.Normalize | src/transform.py:142 | the shortest decimal spelling of a number: same value, no trailing fractional zero |
| Values.DecimalText | src/transform.py:17 | `str()` of a float always contains a digit |
| Values.Pad | src/transform.py:181 | a zero-padded field of exactly the requested width that reads back as the number |
| Text.Strip | src/transform.py:17 | `strip()`: a trimmed slice of the input, with only whitespace cut off either end |
| Text.StripOfTrimmed | src/transform.py:108 | stripping a trimmed text changes nothing |
| Text.StripEmptyIff | src/transform.py:98 | a text strips to empty exactly when it is all whitespace |
| Text.LowerOfLower | src/transform.py:108 | lowercasing is idempotent |
| Text.CollapseSpaces | src/transform.py:124 | `re.sub(r'\s+', ' ', s)`: empty only for the empty text, starts with a space exactly when the input starts with whitespace, and keeps the non-whitespace characters in order |
| Text.CollapseJoin | src/transform.py:124 | a whitespace run between two texts becomes a single space between their collapsed forms |
| Text.CollapseOfCollapsed | src/transform.py:153 | collapsing a text whose whitespace is already single plain spaces changes nothing |
| Text.CollapseStripSingleSpaced | src/transform.py:124 | collapsing then stripping leaves a trimmed text with single spaces and no other whitespace, and keeps a lowercase text lowercase |
| Text.SplitJoin | src/transform.py:198 | splitting comma-free pieces joined by commas gives the pieces back |
| Text.JoinSplit | src/transform.py:198 | joining the pieces of a split gives the text back |
| Nulls.ReplaceNullToken | src/transform.py:94 | a cell becomes missing exactly when it equals one of NULL_VALUES, and is otherwise kept |
| Nulls.BlankToNull | src/transform.py:96-99 | a string whose `strip()` is one of the five null strings becomes missing, and anything else is kept |
| Nulls.Sanitize | src/transform.py:94-99 | a cell becomes missing exactly when it is null-like, and is otherwise kept |
| Nulls.SanitizeIdempotent | src/transform.py:94-99 | sanitizing twice is sanitizing once |
| Nulls.NullLikeIff | config/settings.py:18 | every string of NULL_VALUES is also caught by the stripped-string rule, so null-like means missing or a string stripping to a null spelling |
| Nulls.NullSpellingsCaseSensitive | src/transform.py:98 | `"null"` and `"NONE"` are kept |
| Nulls.NullSpellingsStripped | src/transform.py:98 | surrounding whitespace does not hide a null spelling: `" nan "` becomes missing |
| Nulls.Targets | src/transform.py:90-93 | the touched columns are the listed ones the frame has, or all of them when the list is empty |
| Nulls.CleanNullValues | src/transform.py:88-101 | the column loop returns the frame with every listed, existing column sanitized |
| Nulls.CleanedCell | src/transform.py:92-99 | a cell of a listed, existing column becomes missing exactly when it was null-like, and every other cell is kept |
| Nulls.EmptyMeansAll | src/transform.py:90 | an empty column list cleans the same columns as the full one |
| Nulls.CleanedIdempotent | src/transform.py:88-101 | cleaning twice is cleaning once |
| Nulls.CleanedWellFormed | src/transform.py:88-101 | cleaning keeps a frame well-formed |
| Price.PriceText | src/transform.py:14-17 | no text for a missing value or a NULL_VALUES entry, and otherwise the stripped `str()` |
| Price.KeepNumeric | src/transform.py:34 | only digits and dots are left |
| Price.StripCurrency | src/transform.py:23 | no `€` or `$` is left, no character is added, and the digits and dots are unchanged |
| Price.CentSearch | src/transform.py:26 | a match yields two non-empty digit groups, in a text with a digit and a `¢` |
| Price.CentAtComplete | src/transform.py:26 | digits, optional whitespace, `¢`, optional whitespace and digits, followed by no digit, are matched at that position with those two groups |
| Price.CentAtSound | src/transform.py:26 | a match at the start is such a digits-`¢`-digits shape, its cent digits followed by no further digit |
| Price.CentShapeAtStart | src/transform.py:26 | the shape occurs at the start exactly when a match starts there |
| Price.CentSearchNone | src/transform.py:26 | the search finds nothing exactly when the shape occurs at no position |
| Price.CentSearchLeftmost | src/transform.py:26 | a found match is the shape at some position, and the shape occurs at no earlier position |
| Price.CentSearchFinds | src/transform.py:26 | the leftmost occurrence of the shape is the match found |
| Price.ExtractCentAmount | src/transform.py:26-30 | the amount of a text whose leftmost cent shape is `<d> ¢ <c>` is the number `<d>.<c>` |
| Price.ExtractCentAfterText | src/transform.py:26-30 | after a digit-free prefix, `<d> ¢ <c>` with any whitespace around the sign reads as `<d>.<c>` |
| Price.CentWithSpaces | src/transform.py:26-30 | `"3 ¢ 50"` reads as 3.50 |
| Price.CentAfterNumber | src/transform.py:26-30 | in `"1 3¢5"` the match starts at the `3`, so the amount is 3.5 |
| Price.JoinFractionReading | src/transform.py:40-42 | the result has one dot and reads with the same digits and the same fraction digits |
| Price.ParseFloat | src/transform.py:44-47 | `float()` of digits and at most one dot succeeds exactly when there is a digit, and reads all digits with those after the dot as the fraction |
| Price.ExtractAmount | src/transform.py:26-47 | an amount exactly when the cleaned text has a digit, never negative, `<dollars>.<cents>` of the cent match when there is one, and read from all its digits otherwise |
| Price.ToUsd | src/transform.py:50-51 | the Euro amount times 12/10 |
| Price.ParsePrice | src/transform.py:13-53 | a value exactly when the cell is present and its text has a digit; two decimals and never negative |
| Price.ParsePriceAmount | src/transform.py:49-53 | the result is the stated amount, times EUR_TO_USD when Euro is mentioned, to the nearest cent |
| Price.PriceSomeIff | src/transform.py:14-47 | an amount is found exactly when the cell is present and its text has a digit |
| Price.NullTokensHaveNoDigit | config/settings.py:18 | no NULL_VALUES string has a digit, so the token check never hides an amount |
| Price.CleanedKeepsDigits | src/transform.py:23 | removing currency markers and stripping neither adds nor loses digits or dots |
| Price.KeepOfRemoved | src/transform.py:33-34 | deleting `¢` before the digit filter changes nothing |
| Price.PlainReading | src/transform.py:31-47 | without cent notation, a text with a digit reads as all its digits, with the digits after the first dot as the fraction |
| Price.ParsePriceIdempotent | src/transform.py:13-53 | a parsed price printed with `str` parses back to itself |
| Price.CurrencyPrefix | src/transform.py:20-23 | a currency sign or code in front of an amount does not change the amount, and marks Euro exactly for `€` and `EUR` |
| Price.CentNotation | src/transform.py:26-30 | `"<d>¢<c>"` reads as `<d>.<c>` and is not Euro |
| Price.CommaIgnored | src/transform.py:34 | `"<a>,<b>"` reads as the whole number `<ab>` |
| Price.ExtraDotsIgnored | src/transform.py:40-45 | `"<a>.<b>.<c>"` reads as `<a>.<bc>` |
| Price.CentsReadAsDecimals | src/transform.py:26-30 | `"3¢5"` parses to 3.50 |
| Price.EuroWithComma | src/transform.py:20-53 | `"€12,50"` parses to 1500.00 |
| Timestamp.ReplaceChar | src/transform.py:63 | every occurrence of the character is replaced, and nothing else changes |
| Timestamp.CommaToSpace | src/transform.py:64 | no comma is left, only spaces are added, and the non-blank, non-comma characters are unchanged |
| Timestamp.Undot | src/transform.py:67-68 | adds no character but the letter and `M` |
| Timestamp.UndotRewrites | src/transform.py:67-68 | a leading `A.M.` (or `P.M.`), in any case, becomes `AM` (or `PM`) and the pass goes on after it |
| Timestamp.UndotUnchanged | src/transform.py:67-68 | a text without the dotted spelling is unchanged |
| Timestamp.UndotLeavesNone | src/transform.py:67-68 | no dotted spelling of the pass's letter is left, in any case |
| Timestamp.UndotKeepsNone | src/transform.py:67-68 | a pass creates no dotted spelling: one in the result is of the other letter and was already in the input |
| Timestamp.Undotted | src/transform.py:67-68 | after both passes no dotted `A.M.` or `P.M.` is left, and only `A`, `P` and `M` are added |
| Timestamp.Respace | src/transform.py:69-70 | adds no character but those of the replacement |
| Timestamp.RespaceRewrites | src/transform.py:69-70 | a whitespace run followed by the word (`am` or `pm`, in any case) ending at a word boundary becomes the replacement (` AM` or ` PM`), and the pass goes on after it |
| Timestamp.RespaceUnchanged | src/transform.py:69-70 | a text where no whitespace run is followed by the word is unchanged |
| Timestamp.RespaceKeepsNone | src/transform.py:69-70 | the pass creates no dotted `A.M.`/`P.M.` spelling |
| Timestamp.Respaced | src/transform.py:69-70 | both passes add only spaces, `A`, `P` and `M`, and create no dotted spelling |
| Timestamp.Prepare | src/transform.py:63-73 | the prepared text has no semicolon, no comma, no `T`, and no dotted `A.M.` or `P.M.` in any case |
| Timestamp.PreparedText | src/transform.py:57-73 | no text for a missing value or a NULL_VALUES entry |
| Timestamp.Attempt | src/transform.py:76-77 | succeeds exactly when the parser succeeds with a datetime a pandas Timestamp can hold |
| Timestamp.ParseTimestamp | src/transform.py:56-84 | the month-first reading when it succeeds, otherwise the day-first one; None exactly when there is no text or both fail; always in Timestamp range |
| Timestamp.FormatDate | src/transform.py:181 | `strftime('%Y-%m-%d')`: ten characters with dashes at positions 4 and 7 |
| Timestamp.FormatDateRoundTrip | src/transform.py:181 | the three fields of the formatted date read back as year, month and day |
| Timestamp.FormatDateSameDay | src/transform.py:180-182 | two timestamps give the same date text exactly when they fall on the same day |
| Names.MatchLen | src/transform.py:112-117 | a title's match at a position is the longest occurrence delimited by word boundaries, or none |
| Names.RepeatLongest | src/transform.py:115 | only the maximal run of `i`s can match `\bi+\b` |
| Names.Sub | src/transform.py:121 | one `re.sub` pass never lengthens the text and keeps it lowercase |
| Names.SubUnchanged | src/transform.py:121 | a pass over a text where the title never occurs as a whole word changes nothing |
| Names.SubDeletesAt | src/transform.py:121 | a title occurring exactly once is cut out and the text around it kept |
| Names.SubDeletes | src/transform.py:121 | a title occurring only as `t` in `a + t + b` leaves `a + b` |
| Names.RemoveAllCons | src/transform.py:120-121 | the passes run from the first title of the list to the last |
| Names.RemoveAll | src/transform.py:120-121 | the title passes in order never lengthen the text and keep it lowercase |
| Names.NormalizeName | src/transform.py:104-126 | the title loop computes `NormalizedName`: None for a missing name, and otherwise None or a non-empty lowercase text with single spaces |
| Names.NormalizedNameShape | src/transform.py:104-126 | None for a missing name; a normalized name is non-empty, lowercase, trimmed and single-spaced |
| Names.WordKept | src/transform.py:120-121 | a word that spells no title survives every pass |
| Names.OneWordKept | src/transform.py:104-126 | a one-word lowercase name that is not a title comes back unchanged |
| Names.AndreKept | src/transform.py:112 | `"andre"` keeps its `dr` |
| Names.TitlePeriod | src/transform.py:112 | a dotted title takes its period only when a word character follows it |
| Names.DoctorKeepsPeriod | src/transform.py:112-121 | in `"dr. jane smith"` the `dr` pass deletes the two letters and keeps the period |
| Names.MisterNameNormalized | src/transform.py:104-126 | `"mr <first> <last>"`, with names beginning with no title's letter, normalizes to `"<first> <last>"` |
| Names.MisterHughBrown | src/transform.py:104-126 | `"mr hugh brown"` normalizes to `"hugh brown"` |
| Authors.CleanToken | src/transform.py:198 | `strip().lower()`: trimmed, lowercase, empty exactly for a blank piece, and with no comma unless the piece had one |
| Authors.CleanTokens | src/transform.py:198 | each piece cleaned, in order |
| Authors.DropEmpty | src/transform.py:201 | keeps exactly the non-empty tokens |
| Authors.Pieces | src/transform.py:198 | `str(x).split(',')`: at least one piece, none with a comma |
| Authors.AuthorSetIsNamed | src/transform.py:193-206 | for a present value: None when no piece names an author, else the set of non-empty cleaned pieces |
| Authors.AuthorSetMeaning | src/transform.py:193-206 | None exactly for a missing value or a text whose every piece is blank; otherwise the set of cleaned pieces |
| Authors.NoneNamed | src/transform.py:201-204 | no author is named exactly when every piece strips to empty |
| Authors.AuthorsClean | src/transform.py:198-206 | a set is never empty, and its authors are non-empty, trimmed, lowercase and comma-free |
| Authors.AuthorsOfJoin | src/transform.py:198-206 | a text joined from comma-free pieces gives the authors those pieces name |
| Authors.OrderAndRepeatsIgnored | src/transform.py:206 | texts with the same pieces, in any order and with any repetitions, give the same set |
| Authors.SpacingAndCaseIgnored | src/transform.py:198 | pieces differing only in surrounding whitespace and case give the same set |
| Authors.CleanPadded | src/transform.py:198 | whitespace around a piece does not change the author it names |
| Transform.PhoneKey | src/transform.py:141-143 | missing exactly for a missing phone, otherwise digits only |
| Transform.PhoneKeyIgnoresSeparators | src/transform.py:142 | separators without digits do not change the key |
| Transform.PhoneKeyIdempotent | src/transform.py:142 | a key is its own key |
| Transform.FloatPhoneGainsZero | src/transform.py:142 | a whole-number float phone gets a trailing `0` in its key |
| Transform.EmailKey | src/transform.py:146 | missing exactly for a non-string; otherwise lowercase and trimmed |
| Transform.EmailKeyIdempotent | src/transform.py:146 | normalizing twice is normalizing once |
| Transform.NameKey | src/transform.py:149 | missing for a missing name, otherwise missing or a non-empty lowercase single-spaced text |
| Transform.AddressKey | src/transform.py:152-154 | missing exactly for a missing address, otherwise lowercase with single spaces |
| Transform.AddressKeyIdempotent | src/transform.py:152-154 | normalizing twice is normalizing once |
| Transform.PriceCell | src/transform.py:174 | missing exactly when the cell is missing or has no digit, otherwise a non-negative two-decimal float |
| Transform.StampCell | src/transform.py:177 | missing exactly when `parse_timestamp` fails, otherwise a timestamp in range |
| Transform.DateCell | src/transform.py:180-182 | missing exactly when the timestamp is, otherwise a ten-character date |
| Transform.PaidPrice | src/transform.py:185 | missing exactly when either factor is, otherwise their exact product |
| Transform.CoerceId | src/transform.py:217 | integers stay, a whole float becomes its integer, a text id becomes an integer exactly when it is an optionally signed digit string and is then the integer it spells, and missing or other text ids become missing |
| Transform.CoerceIdRoundTrip | src/transform.py:217 | the text of an integer id reads back as that id |
| Transform.CoerceIdIdempotent | src/transform.py:217 | coercing twice is coercing once |
| Transform.AuthorCell | src/transform.py:220 | missing exactly when `create_author_set` gives None, otherwise a non-empty set |
| Transform.DerivedKeeps | src/transform.py:141-154 | adding a derived column leaves every other column's cells unchanged |
| Transform.KeepRows | src/transform.py:188 | kept rows come from the input and have every subset cell |
| Transform.DropNa | src/transform.py:188 | `dropna(subset=...)` keeps the columns and well-formedness |
| Transform.KeepRowsMember | src/transform.py:188 | a row is kept exactly when it is in the input and has every subset cell |
| Transform.KeepRowsAppend | src/transform.py:188 | filtering stacked rows filters each block, in order |
| Transform.KeepRowsIdempotent | src/transform.py:188 | dropping twice is dropping once |
| Transform.TransformUsers | src/transform.py:129-156 | the column-by-column steps give the row-by-row description of the result, which is well-formed |
| Transform.UserKeys | src/transform.py:138-154 | phone, address and email keys are missing exactly when the raw cell is null-like (email also when not a string), and a null-like name gives no name key |
| Transform.UserRowKeys | src/transform.py:141-154 | the four new cells of a user row are the keys of its cleaned contact cells |
| Transform.UsersKeepOtherCells | src/transform.py:129-156 | no row is dropped, and every other cell is kept |
| Transform.TransformOrders | src/transform.py:159-190 | the column-by-column steps and the drop give the row-by-row description of the result, which is well-formed |
| Transform.OrderRowCells | src/transform.py:171-185 | the four new cells of an order row come from its cleaned price, timestamp and quantity |
| Transform.OrderRowDerived | src/transform.py:180-185 | the date is missing exactly when the timestamp is and is otherwise its `YYYY-MM-DD`; the paid price is missing exactly when a factor is and is otherwise their product |
| Transform.OrderIdsUntouched | src/transform.py:171 | `user_id` and `book_id` are never cleaned |
| Transform.RequiredCells | src/transform.py:188 | the drop tests exactly the USD price, date, user and book |
| Transform.OrderRowOther | src/transform.py:168-185 | an order row keeps every input field, sanitized only if its column was cleaned, and adds the four new ones |
| Transform.OrderKeptIff | src/transform.py:171-188 | an order survives exactly when its sanitized price and timestamp parse and it names a user and a book |
| Transform.OrdersKeptComplete | src/transform.py:188 | every kept order has a two-decimal USD price, a ten-character date, a user and a book |
| Transform.PaidPriceNotRequired | src/transform.py:185-188 | a complete order with a missing quantity is kept, with a missing paid price |
| Transform.OrdersInOrder | src/transform.py:159-190 | rows are treated one by one and keep their order: stacking two blocks stacks their results |
| Transform.TransformBooks | src/transform.py:210-222 | the column steps give the row-by-row description of the result, which is well-formed |
| Transform.BookRowCells | src/transform.py:214-220 | the id is the coerced loaded id, the author set is read from the sanitized author, and every other field is kept or sanitized |
| Transform.BooksCells | src/transform.py:210-222 | no row is dropped, every id is an integer or missing, and the author set is missing exactly when `create_author_set` gives None |
| Transform.TransformAll | src/transform.py:225-230 | each table gets its own transformation, and all three results are well-formed |

## Left out

- File reading, the loaders and everything after the transformation stage (deduplication, reports, charts) are not part of this model.
- `dateutil.parser.parse` is a parameter (`Timestamp.DateParser`): its fuzzy reading of dates is not modelled. Only how its result is used is modelled: the two attempts, the pandas Timestamp range, and the date format. The real parser fills fields missing from the text from the current date. A fixed function of the text therefore stands for the parser on one fixed day.
- Timestamp.Attempt: assumes pandas before 2.0, where `pd.Timestamp(dt)` has nanosecond resolution and rejects datetimes outside 1677-09-21 00:12:43.145225 to 2262-04-11 23:47:16.854775. The source does not pin a pandas version. From pandas 2.0 on, that conversion keeps microsecond resolution and accepts every `datetime`, so the range check in `Values.InTimestampRange` would never reject a parsed date.
- Timestamp.Attempt: every failure of the parser is a None. The source's first attempt catches only `ValueError` and `TypeError` (the out-of-range error of `pd.Timestamp` is a `ValueError`), so any other exception raised by the month-first attempt, such as `OverflowError`, would propagate out of `parse_timestamp`; the model lets the day-first attempt run instead.
- Floats are modelled as the exact decimal they were written as. Binary rounding (e.g. `0.1 * 3`), and `round` acting on the binary value rather than on the decimal one, are not captured. Values.Round2 rounds ties to even on the exact value.
- Values.DecimalText: `str()` of a float is modelled in positional notation only. The exponent form Python uses for very large or very small floats is not modelled.
- Character classes are modelled as ASCII: `\d`, `\w`, `\s` (plus the ASCII and common Unicode spaces `strip` uses), `lower()` and `re.IGNORECASE`. Full Unicode case mapping and Unicode digits are not modelled.
- pandas dtypes are not modelled. In particular, the `dtype == object` test before the stripped-string pass is omitted: a column without strings is unchanged by that pass either way.
- Transform.PaidPrice: a quantity that is a string (which would raise `TypeError` in the multiplication) is excluded by the `OrderCells` precondition rather than modelled as an error.
- A missing `unit_price`, `timestamp`, `quantity`, `user_id`, `book_id`, `id`, `author`, `name`, `address`, `phone` or `email` column would raise `KeyError` in the source. The methods require those columns to exist.
- Row index labels are not modelled: frames are ordered sequences of rows, and `dropna` keeps the surviving rows in order.
- Price.CurrencyPrefix: stated only for amounts that are not themselves a NULL_VALUES spelling and do not start with whitespace.
- Names.DoctorKeepsPeriod: proves the effect of the `dr` pass only. The whole `normalize_name("Dr. Jane Smith") == ". jane smith"` is not proved end to end.
- Authors.OrderAndRepeatsIgnored: the concrete example "Bob, Alice, Alice" is covered only by this general lemma, not stated separately.
- Transform.CoerceId: a float id that is not whole (which `astype('Int64')` rejects with an error) and a non-scalar id are excluded by the `IdReadable` precondition rather than modelled.
- Transform.CoerceId: only an optionally signed digit string is read as an id. Text that `pd.to_numeric` reads as a float gives a missing id in the model. In the source, whole-float text such as `"12.0"` or `"1e3"` becomes 12 or 1000, and non-whole text such as `"3.5"` makes `astype('Int64')` raise. Integer text padded with whitespace, such as `" 12 "`, which `pd.to_numeric` reads as 12, is also missing in the model.
