# Receipt processor — a verified model

The receipt processor is a small web service with two endpoints:

- **Process a receipt.** It accepts a receipt, validates every field against a fixed pattern, and computes a score. The score is the sum of seven independent point rules. The receipt and its points are stored under a freshly generated identifier, which is returned.
- **Look up points.** It checks the shape of an identifier, then returns the stored points, or reports that no receipt has that identifier.

This project models that service in Dafny, in five modules:

- `Text` (text.dfy) models the character classes the patterns and rules use, restricted to ASCII:
  - `\w`, `\s`, `[0-9a-fA-F]`, `str.isalnum` and `str.isspace`;
  - `int()` on a digit string, with its inverse;
  - `str.split` on a single separator character, with `join` as its inverse;
  - `str.strip`.
- `Receipts` (receipts.dfy) models the `Item` and `Receipt` request records and every field pattern as a hand-written predicate. This includes the 8-4-4-4-12 hex pattern of receipt identifiers.
- `Parsing` (parsing.dfy) models the values the rules read from validated fields:
  - an amount in exact integer cents;
  - the day of the purchase date;
  - the hour and minute of the purchase time.
- `Points` (points.dfy) has one function per rule, and `Score`, their sum. `CalculatePoints` is the imperative point accumulation, with its item loop in `SumItemPoints`. It is proved to return exactly `Score`.
- `Store` (store.dfy) is the in-memory store. It is a class holding the two dictionaries as maps, with an invariant that ties them together:
  - both maps have the same keys;
  - every key is a well-formed identifier;
  - every stored receipt is valid;
  - every stored points value is that receipt's score.

  `Process` and `Lookup` are the two request handlers.

Money is exact integer cents, not binary floating point:

- rule 2 ("the total is a whole number") is `cents % 100 == 0`;
- rule 3 ("the total is a multiple of 0.25") is `cents % 25 == 0`;
- `ceil(price * 0.2)` is the ceiling of `cents / 500`, that is `(cents + 499) / 500`.

Rule 7 is kept exactly as the code writes it: `14 <= hour < 16 and 0 < minute < 60`. Every time on the hour earns nothing, including 14:00 and 15:00. A prose description ("between 2:00 and 4:00 PM") would include 14:00. `AfternoonRule` and `OnTheHourEarnsNothing` state the boundary as written.

A malformed identifier is not answered like an unknown one:

- In main.py, the path pattern (main.py:80) raises a request-validation error before the handler runs. The validation handler (main.py:12-17) answers every such error with status 400 and the message "The receipt is invalid."
- `Lookup` therefore has three answers: `Rejected` for a malformed identifier, `NotFound` for an unknown one (the 404 of main.py:81-82), and `Found(points)`.

## Model

| member | source | states |
|---|---|---|
| Text.PatternSpaceIsStripSpace | main.py:25 | every character the pattern class `\s` accepts is also removed by `strip()` |
| Text.DigitValue | main.py:60 | a digit character has a value below 10, and spelling that value gives the character back |
| Text.DigitsValue | main.py:60 | the value of an n-digit string is below 10^n |
| Text.DigitsOf | main.py:60 | the decimal spelling of a number is a non-empty digit string |
| Text.DigitsRoundTrip | main.py:60 | `int()` of the decimal spelling of n is n |
| Text.DigitsValueAppend | main.py:60 | the value of two concatenated digit strings is the first value shifted by the length of the second, plus the second value |
| Text.TwoDigits | main.py:60-65 | a two-digit field is worth ten times its first digit plus its second |
| Text.Split | main.py:60 | `split(sep)` gives at least one field; joining the fields with the separator gives back the original string; no field contains the separator |
| Text.SplitNoSeparator | main.py:60 | a string without the separator splits into itself alone |
| Text.SplitAtFirstSeparator | main.py:60 | splitting at the first separator gives the part before it, followed by the split of the rest |
| Text.SplitJoin | main.py:60-65 | splitting undoes joining any non-empty list of separator-free fields |
| Text.TrimStart | main.py:55 | `lstrip()` returns a suffix, drops only whitespace, and stops at a non-whitespace character |
| Text.TrimEnd | main.py:55 | `rstrip()` returns a prefix, drops only whitespace, and stops at a non-whitespace character |
| Text.TrimBoth | main.py:55 | stripping both ends leaves a piece of the string with only whitespace before and after it |
| Text.SurroundedByParts | main.py:55 | a prefix of a suffix, with whitespace outside both, sits between whitespace only |
| Text.Strip | main.py:55 | `strip()` neither starts nor ends with whitespace, and is a piece of the input with only whitespace before and after it |
| Text.StripUnpadded | main.py:55 | a string that neither starts nor ends with whitespace is its own strip |
| Text.StripEmpty | main.py:55 | a string strips to empty exactly when it is all whitespace, in both directions |
| Receipts.TimeByPosition | main.py:31 | five characters in the shape digit, digit, ':', digit, digit match the time pattern |
| Receipts.ReceiptIdGroups | main.py:80 | an identifier passes the path pattern exactly when splitting it at '-' gives five hex groups of lengths 8, 4, 4, 4 and 12 |
| Receipts.IdSplitsIntoGroups | main.py:80 | a well-formed identifier splits into the five hex groups |
| Receipts.GroupsJoinIntoId | main.py:80 | five hex groups of the right lengths, joined with '-', form a well-formed identifier |
| Parsing.CentsAreScaledValue | main.py:43-47 | the cents of an amount equal the value of its digits with the decimal point left out, i.e. the amount times 100 |
| Parsing.CentsFraction | main.py:43-47 | cents modulo 100 is the two fractional digits; cents divided by 100 is the whole part |
| Parsing.CentsRoundTrip | main.py:26-33 | every number of cents has a spelling that the money pattern accepts and that parses back to that number |
| Parsing.DateFields | main.py:60 | splitting a valid date at '-' gives exactly the year, month and day fields |
| Parsing.DayIsThirdField | main.py:60 | the day used by rule 6 is `int()` of the third '-'-separated field of the date |
| Parsing.TimeFields | main.py:65 | splitting a valid time at ':' gives exactly the hour and minute fields |
| Parsing.HourMinuteAreFields | main.py:65 | the hour and minute used by rule 7 are `int()` of the two ':'-separated fields of the time |
| Points.RetailerPoints | main.py:40 | rule 1 never awards more points than the name has characters |
| Points.RetailerPointsCountsAlnum | main.py:40 | rule 1 awards exactly the number of positions holding an alphanumeric character |
| Points.RoundDollarRule | main.py:42-44 | rule 2 awards 50 exactly when the total ends in ".00", and 0 otherwise |
| Points.QuarterRule | main.py:46-48 | rule 3 awards 25 exactly when the total's cents are 00, 25, 50 or 75, and 0 otherwise |
| Points.RoundTotalEarnsBoth | main.py:42-48 | a total that earns rule 2 also earns rule 3: 75 points together |
| Points.NineDollarsEarnsBoth | main.py:42-48 | the total "9.00" earns 75 points from rules 2 and 3 |
| Points.PairPointsAddPair | main.py:51 | two more items add one more pair, worth 5 more points |
| Points.PairPointsExamples | main.py:51 | one item earns 0 pair points; four items earn 10 |
| Points.CeilFifth | main.py:57 | the rounded-up fifth of c cents, in dollars, is the least r with 500·r ≥ c |
| Points.ItemsPointsStep | main.py:54-57 | extending a prefix of the items by one item adds exactly that item's points |
| Points.ItemsPointsAppend | main.py:54-57 | rule 5 over a concatenation of two item lists is the sum over each list |
| Points.ItemsPointsRemove | main.py:54-57 | removing one item from the list takes away exactly that item's points |
| Points.ItemsPointsPermutation | main.py:54-57 | rule 5 gives the same total for any reordering of the items |
| Points.BlankDescriptionEarns | main.py:54-57 | an all-whitespace description trims to length 0, a multiple of 3, so its item earns the rounded-up fifth of its price |
| Points.TenDollarsInCents | main.py:26 | "10.00" is a valid price worth 1000 cents |
| Points.NineCharacterItemEarns | main.py:55-57 | an item with trimmed description length 9 and price "10.00" earns 2 |
| Points.UnevenDescriptionEarnsNothing | main.py:56 | an item whose trimmed description length is not a multiple of 3 earns nothing, whatever its price |
| Points.OddDayRule | main.py:59-62 | rule 6 awards 6 exactly when the last digit of the date is odd, and 0 otherwise |
| Points.AfternoonRule | main.py:64-67 | rule 7 awards 10 exactly when the time reads 14:MM or 15:MM with MM from 01 to 59, and 0 otherwise |
| Points.OnTheHourEarnsNothing | main.py:66 | a time on the hour earns no rule-7 points, including 14:00 and 15:00 |
| Points.HalfPastTwoEarns | main.py:66 | "14:30" is a valid time that earns 10 |
| Points.LastMinuteEarns | main.py:66 | "15:59" is a valid time that earns 10 |
| Points.FourPmEarnsNothing | main.py:66 | "16:00" is a valid time that earns 0 |
| Points.SumItemPoints | main.py:54-57 | the item loop returns exactly the rule-5 sum over all items |
| Points.CalculatePoints | main.py:36-69 | the accumulated points equal the sum of the seven rule contributions |
| Points.ScoreIgnoresItemOrder | main.py:36-69 | a receipt whose items are reordered is still valid and has the same score |
| Store.Answer | main.py:80-83 | a malformed identifier is rejected; a well-formed unknown identifier is not found; a known identifier yields the stored points, which are its receipt's score |
| Store.InsertKeepsConsistent | main.py:73-77 | recording a valid receipt and its score under a fresh, well-formed identifier keeps the two dictionaries consistent |
| Store.AnswerForInsertedId | main.py:73-83 | after recording, looking up the new identifier yields its receipt's score |
| Store.AnswerForOtherIds | main.py:73-83 | after recording, every other identifier gets the same answer as before |
| Store.ReceiptStore.constructor | main.py:19-22 | both dictionaries start empty, and the store invariant holds |
| Store.ReceiptStore.Lookup | main.py:79-83 | `Rejected` exactly for malformed identifiers, `NotFound` exactly for well-formed unknown ones, and `Found` with the receipt's score exactly for known ones |
| Store.ReceiptStore.Process | main.py:72-77 | returns the given identifier; the receipt dictionary gains the receipt under it; the points dictionary gains its score; nothing else changes; the store invariant is kept |

## Left out

- The web framework layer is not modelled: the FastAPI application, route registration, JSON bodies, and HTTP status codes and messages (main.py:10-17, 72, 79). A lookup's answer is the tag `Rejected`, `NotFound` or `Found`.
- Request validation is modelled only through the field patterns. Missing fields and wrongly typed fields are not modelled; a receipt outside the patterns is simply not a valid input.
- No regular-expression engine is modelled. Each pattern is written out by hand as a predicate, with `$` meaning the end of the string.
- Only ASCII is modelled. Unicode letters, digits and whitespace are not: `\w`, `\d`, `\s`, `str.isalnum`, `str.strip` and `int()` all accept more than ASCII in main.py.
- `uuid4()` (main.py:74) is not modelled. `Process` takes the identifier as a parameter and requires it to be well formed and not yet stored. Any uuid4 string has that shape.
- A colliding identifier silently overwrites the stored entry (main.py:75-76). This case is excluded by the freshness precondition.
- Binary floating point is not modelled (main.py:43, 47, 57). The model computes in exact cents. Two cases where this might differ from main.py are not examined:
  - amounts too large for a double to hold exactly;
  - a product `float(price) * 0.2` whose rounding lands just above a whole number.
- The overflow failure of rule 5 is not modelled. A price with 310 or more whole digits makes `float(price)` infinite. If that item's trimmed description length is a multiple of 3, `math.ceil` then raises OverflowError (main.py:57). The request fails, but main.py:75 has already stored the receipt, before main.py:76 computes and stores its points. The receipt is then left in `receipt_storage` with no key in `receipt_points`, so main.py does not keep the two maps' key sets equal. In the model, `Process` computes the score before it writes either map, and it always succeeds.
- Concurrent requests against the shared dictionaries are not modelled. The model is sequential.
- SumItemPoints: the item loop of `calculate_points` is modelled as its own method, called from `CalculatePoints`. Together they perform the same steps in the same order as the single function in main.py.
- Store.ReceiptStore.Process: its contract states the new contents of both dictionaries. The lookup answers after the insertion are stated by `Store.AnswerForInsertedId` and `Store.AnswerForOtherIds`, not in the method's own `ensures`.
