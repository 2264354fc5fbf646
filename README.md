# Sensor log, change machine and shape printer, modelled in Dafny

This project models the core of three small C programs and proves what they
promise.

- **The sensor-log tool** (`formattedInput.c`). It has three parts.
  - The reading validator `isValidSensorReading`. This is a per-character scan with the flags `hasDigit`, `hasDot` and `hasEe`. It is proved equal to a declarative grammar: optional sign, mantissa, optional exponent.
  - The ingestion loop of `readSensorData`. It skips blank lines and takes each line's first token as its timestamp. It validates every other token and stores it at column × line. It tracks the maximum and minimum with their timestamps, starting from the −∞/+∞ and `" "` sentinels. The first counted line fixes the number of readings. It stops at the first error: too many sensors, an invalid reading, a count mismatch, or no data.
  - The report written by `printData`.
- **The change machine** (`EnhancedChangeMachine.c`).
  - `centsToBills` hands out $10 bills, toonies, quarters, dimes and pennies greedily from slots 1..5 of two `int[6]` arrays.
  - The main loop stops at the first amount the machine cannot pay in full.
- **The shape printer** (`Matrix.c`). It checks the input, then prints a pyramid, a staircase or a diamond.

The code that changes state step by step is kept as methods with loops. Each method is proved equal to a specification function: a fold over the prefix of lines, tokens, slots or rows. The properties are proved about those functions.

- `centsToBills` works on `array<int>` in place.
- The ingestion loop updates the source's local variables.
- The printers append one row or line at a time.

Modules, one per file:

- `Wrappers`: `Option`, `Result`.
- `SensorToken`: the validator.
- `SensorLog`: the ingestion pass.
- `SensorLogFacts`: what ingestion guarantees about a whole log.
- `SensorReport`: the statistics loop and `printData`.
- `ChangeMachine`.
- `Matrix`.

Numbers follow the C semantics where it matters:

- C's truncating `/` is written out (`ChangeMachine.Quot`).
- `int` is unbounded.
- A reading is a `SensorLog.Bound`: a finite real, or −∞/+∞. `atof` is a parameter returning a `Bound`. A valid token whose magnitude overflows, such as `1e999`, gives ±∞, as C's `atof` does. NaN cannot occur: the validator rejects every token without a digit, such as `nan` and `inf`.
- A Dafny `char` stands for one C `char`, that is one byte. A symbol or token whose encoding takes several bytes is several `char`s in the model. Matrix.c's one-character check and the validator's `isdigit` then see each byte, as the C code does.

## Model

| member | source | states |
|---|---|---|
| `SensorToken.IsValidSensorReading` | formattedInput.c:272-317 | the scan accepts exactly the tokens of the grammar `ValidReading`: optional sign; digits with at most one dot; optionally an `e`/`E` after a digit, then an optional sign, a digit and digits only; at least one digit; all read up to the first NUL or newline |
| `SensorToken.Classify` | formattedInput.c:278-311 | every character before the stop of a valid reading is exactly one of: the leading sign, a mantissa digit or dot, the exponent marker, the exponent's sign, or an exponent digit |
| `SensorToken.SignPlacement` | formattedInput.c:278-280 | in a valid reading, a sign appears only at position 0 or right after the exponent marker |
| `SensorToken.DotPlacement` | formattedInput.c:287-292 | a valid reading has at most one dot, and no dot after the exponent marker |
| `SensorToken.SingleExponent` | formattedInput.c:294-297 | a valid reading has at most one exponent marker |
| `SensorToken.ExponentNeighbours` | formattedInput.c:294-307 | an accepted marker has a digit somewhere before it, and after it either a digit or a sign followed by a digit |
| `SensorToken.ValidHasDigit` | formattedInput.c:316 | every valid reading contains a digit |
| `SensorToken.ReadingSame` | formattedInput.c:282 | the verdict depends only on the characters before the stop |
| `SensorToken.TrailingNewline` | formattedInput.c:282 | the newline the last token of a line keeps, and anything after it, does not change the verdict |
| `SensorToken.Accepts` | formattedInput.c:278-311 | any optional sign + mantissa + optional exponent is accepted (the grammar's completeness) |
| `SensorToken.FixedPointAccepted` | formattedInput.c:283-292 | optional minus, digits, dot, digits is always accepted |
| `SensorToken.AcceptsDecimal` | formattedInput.c:283-292 | `3.14` is accepted |
| `SensorToken.AcceptsSignedExponent` | formattedInput.c:294-307 | `-2.5e-3` is accepted |
| `SensorToken.AcceptsLongExponent` | formattedInput.c:294-307 | `2.5e-10` is accepted |
| `SensorToken.RejectsWithoutDigit` | formattedInput.c:309-316 | the empty string, `+`, `.`, a lone newline and `abc` are rejected |
| `SensorToken.RejectsInnerSign` | formattedInput.c:309-311 | `1-2` is rejected |
| `SensorToken.RejectsIncompleteExponent` | formattedInput.c:300-305 | `1e` and `1e+` are rejected |
| `SensorToken.RejectsSecondDot` | formattedInput.c:287-290 | `1.2.3` is rejected |
| `SensorLog.SpaceSpan` | formattedInput.c:185 | the leading run of space, tab, newline and carriage return, as `strspn` measures it |
| `SensorLog.TokenLength` | formattedInput.c:192 | the length of the next token: a run of characters other than space and tab, ended by a delimiter or the end |
| `SensorLog.Tokens` | formattedInput.c:192-200 | the `strtok` tokens of a line: none is empty and none contains a delimiter; `TokensSplit` pins down the split |
| `SensorLogFacts.Gaps` | formattedInput.c:192-200 | a line has one more run of delimiters around its tokens than it has tokens |
| `SensorLogFacts.WeaveGaps` | formattedInput.c:192-200 | the line is its first gap, then its first token, then the next gap, and so on |
| `SensorLogFacts.GapsAreDelims` | formattedInput.c:192-200 | every gap between or around the tokens is made of spaces and tabs only |
| `SensorLogFacts.InnerGapsNonEmpty` | formattedInput.c:192-200 | consecutive tokens are separated by at least one space or tab |
| `SensorLogFacts.TokensSplit` | formattedInput.c:192-200 | `strtok`'s split in full: line = D0 + t0 + D1 + … + t(n−1) + Dn, every Di all spaces and tabs, D1..D(n−1) non-empty; with the tokens non-empty and free of delimiters, each token is a maximal run |
| `SensorLog.ScanLine` | formattedInput.c:202-232 | the token loop of one line returns exactly the fold `ScanReadings`: the sensor limit is checked, then the validator; the reading is stored at (column, line); strict `>`/`<` update of max/min and their timestamps; the first error stops the line |
| `SensorLog.ProcessLine` | formattedInput.c:182-242 | the body of the line loop equals `ReadLine`: blank lines are skipped; a line without a token is malformed; the first counted line fixes the count, and a later mismatch is an error |
| `SensorLog.ReadSensorData` | formattedInput.c:169-247 | the whole ingestion equals `Ingest`: lines are read in order, the first error ends the pass, and a log with no counted line is `NoData` |
| `SensorLog.ErrorIsFinal` | formattedInput.c:203-239 | once a line fails, later lines do not change the outcome (the source exits) |
| `SensorLog.ScanErrorIsFinal` | formattedInput.c:203-213 | once a token fails, later tokens of the line do not change the outcome |
| `SensorLogFacts.TokensCoverLine` | formattedInput.c:192-231 | the tokens, joined, are the line with its spaces and tabs removed: no character is lost or invented |
| `SensorLogFacts.NonBlankHasToken` | formattedInput.c:185-197 | a line that is not blank always yields a timestamp token |
| `SensorLogFacts.ScanCounters` | formattedInput.c:202-232 | scanning a line moves the column by the number of readings and leaves the line count and expected count alone |
| `SensorLogFacts.ScanCell` | formattedInput.c:216-219 | after a line, reading c of the line is at (numSensors + c, line); earlier cells keep their values; no other cell appears |
| `SensorLogFacts.ScanTable` | formattedInput.c:216-219 | `ScanCell` for every cell at once |
| `SensorLogFacts.ScanOkIff` | formattedInput.c:203-213 | a line's readings are accepted exactly when there are at most `MAX_SENSORS` of them and each is valid |
| `SensorLogFacts.RecordBounded` | formattedInput.c:221-228 | storing a reading keeps every stored reading between min and max |
| `SensorLogFacts.RecordMax` | formattedInput.c:221-224 | storing a reading keeps the maximum attained, with the timestamp of the first line that holds it (strict `>`) |
| `SensorLogFacts.RecordMin` | formattedInput.c:225-228 | the same for the minimum (strict `<`) |
| `SensorLogFacts.ScanExtremes` | formattedInput.c:202-232 | scanning a whole line keeps both extremes and the bounds right |
| `SensorLogFacts.RunCounts` | formattedInput.c:182-242 | after a successful pass, totalReadings is the number of non-blank lines. An all-blank log leaves every starting value, sentinels included. Otherwise the expected count and the last count equal the first counted line's readings, and every counted line is well formed |
| `SensorLogFacts.RunCell` | formattedInput.c:216-219 | after a successful pass, cell (c, k) is present iff k < lines counted and c < expected count, and it holds `atof` of reading c of counted line k |
| `SensorLogFacts.RunCells` | formattedInput.c:216-219 | `RunCell` for every cell at once |
| `SensorLogFacts.RunExtremes` | formattedInput.c:174-177 | after a successful pass, max ≥ and min ≤ every stored reading, infinite readings included. With no reading stored, max and min keep their starting values −∞/+∞. While an extreme still equals its starting value, its timestamp is `" "`: for example, min after the single reading `1e999`. Otherwise the extreme is attained, with the timestamp of the earliest counted line holding it |
| `SensorLogFacts.RunOkIff` | formattedInput.c:203-240 | the line loop gets through a log iff every counted line has at most `MAX_SENSORS` readings, all valid, and as many as the first counted line |
| `SensorLogFacts.ScanErrors` | formattedInput.c:203-213 | a line's scan fails only with too-many-sensors or an invalid reading |
| `SensorLogFacts.RunNeverNoData` | formattedInput.c:244-247 | the no-data error comes only from the final check |
| `SensorLogFacts.IngestOkIff` | formattedInput.c:244-247 | ingestion succeeds iff the log is well formed and has a counted line; it is `NoData` iff no line is counted |
| `SensorLogFacts.FirstInvalid` | formattedInput.c:210-211 | the position of the first reading the validator rejects: every earlier one is valid |
| `SensorLogFacts.LineError` | formattedInput.c:203-239 | a counted line has no error iff it is accepted and has the expected count; an accepted line with another count is `InconsistentSensorCount` |
| `SensorLogFacts.ScanStopsAt` | formattedInput.c:203-213 | a line's scan stops with `InvalidReading` of its first invalid reading when that is among the first `MAX_SENSORS`, and otherwise with `TooManySensors` when there are more than `MAX_SENSORS` readings |
| `SensorLogFacts.ReadLineError` | formattedInput.c:203-239 | a counted line with an error is read with exactly that error |
| `SensorLogFacts.StopsAtLastLine` | formattedInput.c:182-239 | a bad line after a well-formed prefix ends the pass with its own error |
| `SensorLogFacts.RunStopsAtFirstBadLine` | formattedInput.c:182-239 | the pass (and the whole ingestion) ends with the error of the first counted line that fails: its first invalid reading, `TooManySensors`, or `InconsistentSensorCount` for a valid line whose count differs from the first counted line's |
| `SensorLogFacts.FirstBadLine` | formattedInput.c:182-239 | a log that is not well formed has such a first failing counted line |
| `SensorReport.NatToString` | formattedInput.c:380 | `%d` of a number: decimal digits, at least one, no leading zero |
| `SensorReport.DecimalRoundTrip` | formattedInput.c:380 | reading the printed digits back gives the number |
| `SensorReport.NatToStringInjective` | formattedInput.c:380 | different sensor numbers print differently |
| `SensorReport.ReportLines` | formattedInput.c:374-387 | a report for n sensors has 3 + 3n lines |
| `SensorReport.PrintData` | formattedInput.c:374-387 | the lines written are the two headers (max, then min, each with its timestamp), a blank line, and one three-line block per sensor |
| `SensorReport.ReportLayout` | formattedInput.c:378-386 | lines 0-2 are the headers, and lines 3+3i..5+3i are the block of sensor i+1 with its mean and deviation |
| `SensorReport.SensorHeading` | formattedInput.c:380 | a block's first line is `Sensor `, the number in decimal, then `:` |
| `SensorReport.SensorNumbering` | formattedInput.c:380-383 | line 3+3i of the report names sensor i+1: sensors are numbered from 1 in column order |
| `SensorReport.Column` | formattedInput.c:253-255 | the column the statistics routine reads for a sensor has one value per counted line |
| `SensorReport.ColumnIsReadings` | formattedInput.c:216-255 | after ingestion, sensor c's column is reading c of every counted line, in order |
| `SensorReport.SummariseColumns` | formattedInput.c:253-255 | the statistics loop computes the mean and deviation of each of the numSensors columns, in order |
| `SensorReport.AnalyseLog` | formattedInput.c:244-258 | a log gives its ingestion error, or the report of its extremes and per-sensor statistics |
| `SensorReport.ReportSize` | formattedInput.c:244-258 | a report is written iff ingestion succeeds; it then has 3 + 3n lines, n being the first counted line's number of readings |
| `ChangeMachine.Denomination` | EnhancedChangeMachine.c:110-114 | denominations are tried in the order 1000, 200, 25, 10, 1; each is positive |
| `ChangeMachine.QuotTruncates` | EnhancedChangeMachine.c:115 | `cents / denomination` rounds toward zero: the remainder has the dividend's sign and is smaller than the divisor, and negating the dividend negates the quotient |
| `ChangeMachine.Take` | EnhancedChangeMachine.c:115-126 | the pieces handed from a slot are min(owed / denomination, stock) |
| `ChangeMachine.ServeSlot` | EnhancedChangeMachine.c:114-126 | one round writes slot i+1 of both arrays and nothing else: arr gets the pieces handed out, inventory loses them, and the amount owed drops by their worth |
| `ChangeMachine.CentsToBills` | EnhancedChangeMachine.c:109-130 | slots 1..5 of arr become the greedy breakdown and of inventory the stock left, and the result is the amount still owed; slot 0 and any slot past 5 are untouched |
| `ChangeMachine.OwedPlusPaid` | EnhancedChangeMachine.c:112-127 | after each slot, the amount still owed plus the worth handed out so far is the amount asked for |
| `ChangeMachine.Conservation` | EnhancedChangeMachine.c:120-129 | leftover + Σ given × denomination = cents |
| `ChangeMachine.StockConservation` | EnhancedChangeMachine.c:119-125 | old stock = new stock + pieces given, slot by slot, and so in worth |
| `ChangeMachine.TakeBounds` | EnhancedChangeMachine.c:115-126 | from a non-negative amount and stock, a slot hands out between none and everything that is owed |
| `ChangeMachine.OwedBounds` | EnhancedChangeMachine.c:112-127 | from a non-negative amount and stock, the amount owed stays between 0 and the amount |
| `ChangeMachine.NonNegative` | EnhancedChangeMachine.c:117-129 | from non-negative inputs: 0 ≤ given ≤ stock, stock left ≥ 0, 0 ≤ leftover ≤ cents |
| `ChangeMachine.OwedNonNegative` | EnhancedChangeMachine.c:112-127 | from a non-negative amount the amount owed never goes negative, whatever the stock, negative counts included |
| `ChangeMachine.LeftoverNonNegative` | EnhancedChangeMachine.c:112-129 | from a non-negative amount the leftover is ≥ 0, whatever the stock |
| `ChangeMachine.Greedy` | EnhancedChangeMachine.c:115-126 | each slot never hands out more than is owed, and either empties or leaves less than one piece owed |
| `ChangeMachine.ShortExactly` | EnhancedChangeMachine.c:124-129 | the leftover is positive iff the pennies cannot cover what the larger pieces left; the penny slot is then emptied |
| `ChangeMachine.EnoughPennies` | EnhancedChangeMachine.c:117-129 | with at least `cents` pennies the leftover is 0 |
| `ChangeMachine.FullSlot` | EnhancedChangeMachine.c:115-120 | a slot stocked for the whole amount hands out the quotient and leaves the remainder owed |
| `ChangeMachine.FullStock` | EnhancedChangeMachine.c:110-129 | with enough of every piece the change is the usual greedy breakdown (cents/1000, then the remainder /200, /25, /10, and pennies) and the leftover is 0 |
| `ChangeMachine.ServeRequests` | EnhancedChangeMachine.c:38-51 | amounts are served in order, skipping -1. The loop stops at the first one with leftover > 0 and returns its position and the amount owed. Slots 1..5 of the inventory end as `Run` says. Slots 1..5 of arr hold `LastChange`: the change for the last amount served, or their old contents if none was. Slot 0 and any slot past 5 of both arrays are untouched |
| `ChangeMachine.LastChangeFinal` | EnhancedChangeMachine.c:45-49 | once the machine has stopped, later amounts leave the change array alone |
| `ChangeMachine.StopChange` | EnhancedChangeMachine.c:44-49 | after a stop, the change array holds the partial change for the amount the machine stopped at, served from the stock it had then |
| `ChangeMachine.StoppedIsFinal` | EnhancedChangeMachine.c:45-49 | once the machine has stopped, later amounts change nothing |
| `ChangeMachine.StopIsFirstShortfall` | EnhancedChangeMachine.c:38-51 | a stop is at the first amount that is not -1 and is not fully paid; every earlier prefix was still serving; the amount owed and the stock are those of serving it |
| `ChangeMachine.ServingPaysInFull` | EnhancedChangeMachine.c:38-51 | while the machine keeps serving amounts from the prompt (-1 or ≥ 0), stock stays ≥ 0 and its worth drops by exactly the total asked for |
| `Matrix.ParseShape` | Matrix.c:55-57 | a recognised name is exactly the name of the shape it selects |
| `Matrix.ParseShapeRoundTrip` | Matrix.c:55-57 | each shape is selected by its own name and by no other string |
| `Matrix.CheckInput` | Matrix.c:53-57 | input is accepted iff size > 0, the symbol is one character, and the shape is `staircase`, `pyramid` or `diamond` |
| `Matrix.Repeat` | Matrix.c:71-77 | n copies of one character |
| `Matrix.PrintCentered` | Matrix.c:71-78 | one centred row: size − i spaces, then 2i − 1 symbols |
| `Matrix.PrintPyramid` | Matrix.c:68-80 | prints exactly the pyramid's rows 1..size |
| `Matrix.PrintStaircase` | Matrix.c:82-90 | prints exactly the staircase's rows 1..size |
| `Matrix.PrintDiamond` | Matrix.c:92-117 | prints exactly the pyramid, then its rows size − 1 down to 1 |
| `Matrix.Round` | Matrix.c:36-118 | one round of the program: rejected input prints no shape (the criteria message is I/O, left out); accepted input prints the rows of the shape selected, pyramid checked first, then staircase, then diamond |
| `Matrix.PyramidRow` | Matrix.c:69-79 | pyramid row k (from 0) is size − 1 − k spaces, then symbols to its end. Its length is size + k ≤ 2·size − 1, so it has no trailing space, and the centre column holds the symbol |
| `Matrix.StaircaseRow` | Matrix.c:83-89 | staircase row k is k + 1 symbols with no space, and each row is the previous one plus a symbol |
| `Matrix.DiamondShape` | Matrix.c:94-116 | the first size rows of a diamond are the pyramid, and row k equals row 2·size − 2 − k |
| `Matrix.DiamondMiddle` | Matrix.c:94-116 | the middle row is 2·size − 1 symbols and no row is wider |
| `Matrix.DiamondOfOne` | Matrix.c:106 | a diamond of size 1 is a single one-symbol row |

## Left out

- I/O:
  - reading the log, the prompts, `scanf`, the output file;
  - `openFile`, `writeFile` and `main` in `formattedInput.c`;
  - `getInventory`, `printChange` and `printInventory` in `EnhancedChangeMachine.c`.
  - the criteria message Matrix.c prints for rejected input before prompting again (Matrix.c:60-63).

  The models take the lines or amounts as a sequence and return the printed lines.
- `atof`: a function parameter, returning a finite value or ±∞ (`SensorLog.Bound`).
- `calcSensorStats`: a function parameter. It is floating-point arithmetic (`sqrt`, float sums). Its results have an open type `F`, because infinite readings make them infinite or NaN.
- The `%g` and `%.2f` formats: function parameters.
- `inputToCents`: floating-point truncation of a double. The model instead assumes amounts of the form the prompt produces: -1, or a number of cents (`ChangeMachine.FromPrompt`).
- Fixed buffer sizes are not modelled:
  - `line[500]`, which makes `fgets` split a longer line in two;
  - `timeStamp[50]`, which a long timestamp overflows;
  - `allReadings[100][500]`, whose line index is never checked;
  - Matrix.c's `matrix_symbol[2]`, which a symbol of two or more characters overflows before the length check reads it;
  - `matrix_shape[15]`, whose `%15s` leaves longer names to the next read.

  Lines, tokens and names are unbounded sequences.
- 32-bit `int` overflow in the change machine (`required * denomination`, large stocks) is not modelled; integers are unbounded.
- A failed `scanf("%d")` in Matrix.c leaves `matrix_size` unchanged. Only one round of input with a parsed size is modelled (`Matrix.Round`); the endless outer loop is not.
- `SensorLog.ScanToken`: the source prints the same message for too many sensors and for a count mismatch. The model keeps them apart as `TooManySensors` and `InconsistentSensorCount`.
- AccelModel.c, InfiniteLoops.c and fileEcho.c are not part of this model.
