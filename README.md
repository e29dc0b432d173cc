# Exchange rates and currency conversion for the calculator command

These Dafny modules model the currency engine behind the calculator
command, `enso/contrib/calc/currconv.py`. It has five parts:

- **The rate table.** An `ExchangeRates` object holds the table of rates,
  keyed by upper-case currency symbol. Each rate is quoted against the euro.
  The table is loaded from a CSV rates file and reloaded whenever a file
  watcher reports that file as moved or created.
- **The conversion.** `currency()` triangulates through the euro. It
  rounds cross rates to four decimals and formats the amount with `"%.4f"`
  less its trailing zeros. It appends a freshness suffix of today,
  yesterday or the ISO timestamp, and lists the currencies whose rate is
  unknown.
- **`is_supported_currency`**, a case-insensitive check against the table.
- **The home currency.** It comes from a memo, then the ini file, then a
  guess. The guess tries country by IP, then a geobytes lookup, then the
  locale.
- **The updater throttle.** It lets at most one spawn of the rate-updater
  process happen per five minutes.

Modules:

- `Wrappers`: `Option`, `Result`, and `Outcome` (a value or an exception).
- `Text`: the Python 2 string operations the code relies on:
  - `strip`, `split` and `join` on one character
  - slicing with clamped bounds
  - ASCII `upper`
  - `int()`
  - zero-padded decimal printing
- `Calendar`: proleptic Gregorian dates, the day before and after, and
  `HH:MM` and `isoformat()` text with a reader for the latter.
- `RateParser`: `parse_rate` as a total function. `None` stands for its
  `(None, None)` result. `EncodeLine` writes a line back.
- `RateTable`: the class `ExchangeRates` with `parse_rates_file`, its
  constructor and the watcher callback, plus `is_supported_currency`.
- `Conversion`: `round(x, 4)`, `"%.4f"`, the amount text, freshness, the
  three branches of `currency()`, the hint, and `currency()` as a whole.
- `HomeCurrency`:
  - the guess as an ordered chain of strategies
  - the geobytes regular expression as a leftmost search
  - the `defaults` section of the ini file
  - the class `HomeCurrencyStore`, which holds the `Globals.HOME_CURRENCY`
    memo and the file
- `Throttle`: the class `UpdaterThrottle` with `spawn_exchangerates_updater`,
  and a pure fold over a sequence of call times.

Collaborators are parameters:

- The rates file is a `RatesFile`: the lines read, whether reading raised,
  and what `os.path.getmtime` returned.
- `float()` is a parser `string -> Option<real>`.
- The guess's collaborators are an `Environment` of answers. Each answer
  is a value or `Raised`:
  - `myip`
  - the imports of `ccy` and `geoip`
  - the lookups
  - `inetcache.isonline`
  - the HTTP reply
  - the locale symbol
- Whether the ini write succeeds is a boolean.
- The clock is a `real` argument.
- The spawn is an `Outcome<int>`.

## Model

| member | source | states |
|---|---|---|
| Text.Trim | enso/contrib/calc/currconv.py:173 | definition of `strip(cs)`: `rstrip` of `lstrip`, each characterised by the two rows below |
| Text.TrimLeft | enso/contrib/calc/currconv.py:173 | `strip` from the left: the result is a suffix, everything dropped is in the set, and the result is empty or starts outside it |
| Text.TrimRight | enso/contrib/calc/currconv.py:173 | `strip` from the right: the result is a prefix, everything dropped is in the set, and the result is empty or ends outside it |
| Text.Split | enso/contrib/calc/currconv.py:173 | `split(sep)` yields at least one piece, and no piece holds the separator |
| Text.JoinSplit | enso/contrib/calc/currconv.py:173 | joining the pieces of a split gives back the string |
| Text.SplitJoin | enso/contrib/calc/currconv.py:173 | splitting a join of separator-free pieces gives back the pieces |
| Text.Join | enso/contrib/calc/currconv.py:400 | definition of `sep.join(parts)`; JoinSplit and SplitJoin tie it to `split` in both directions |
| Text.Slice | enso/contrib/calc/currconv.py:175 | a Python slice is no longer than the bounds allow; it is `s[lo..hi]` when both bounds lie inside `s`, the rest from `lo` when `hi` runs past the end, and empty when `lo` does |
| Text.Upper | enso/contrib/calc/currconv.py:175 | `upper()` maps each character to its upper-case form, and the result is upper case |
| Text.UpperOfUpper | enso/contrib/calc/currconv.py:258 | `upper()` leaves an upper-case string unchanged |
| Text.ParseInt | enso/contrib/calc/currconv.py:189-197 | definition of Python 2 `int()` in base 10: strip whitespace, then ParseSigned; its properties are the rows down to ParseIntZeroPad |
| Text.ParseSigned | enso/contrib/calc/currconv.py:189-197 | definition of `int()` after stripping: an optional sign followed by Unsigned, or digits alone |
| Text.Unsigned | enso/contrib/calc/currconv.py:189-197 | definition of the unsigned conversion after a sign, which skips whitespace again before at least one digit |
| Text.Digits | enso/contrib/calc/currconv.py:189-197 | definition of a run of one or more ASCII digits and its value |
| Text.ParseIntUntrimmed | enso/contrib/calc/currconv.py:189 | `int()` of a text with no whitespace at either end is ParseSigned of that text: surrounding whitespace is all `int()` strips |
| Text.UnsignedIsTrimLeft | enso/contrib/calc/currconv.py:189-197 | after a sign, `int()` reads the digits of the rest with its leading whitespace stripped, for every text |
| Text.ParseIntOfSigned | enso/contrib/calc/currconv.py:189-197 | a sign followed by a text that ends in a digit and whose unsigned reading is v gives v, negated for '-' |
| Text.MinusSpaceOne | enso/contrib/calc/currconv.py:193 | `int("- 1")` is -1: whitespace between the sign and the digits is accepted |
| Text.PlusSpaceOne | enso/contrib/calc/currconv.py:193 | `int("+ 1")` is 1 |
| Text.ParseIntOfIntToString | enso/contrib/calc/currconv.py:189 | `int()` reads back any integer printed in decimal, negative ones included |
| Text.ParseIntZeroPad | enso/contrib/calc/currconv.py:189-197 | `int()` reads back a zero-padded field as its value |
| Text.DropLastTwo | enso/contrib/calc/currconv.py:197 | `minute[:-2]` is the text less its last two characters, or empty when it has fewer than two |
| Calendar.IsValidDate | enso/contrib/calc/currconv.py:198 | definition of the dates `datetime()` accepts: year 1 to 9999, month 1 to 12, and a day within the month, leap years included |
| Calendar.PrevDay | enso/contrib/calc/currconv.py:409 | the day before exists for every date except 0001-01-01, where `date - timedelta(days=1)` overflows |
| Calendar.NextOfPrev | enso/contrib/calc/currconv.py:409 | the day after the day before is the same date |
| Calendar.PrevOfNext | enso/contrib/calc/currconv.py:409 | the day before the day after is the same date |
| Calendar.PrevDayIsEarlier | enso/contrib/calc/currconv.py:409 | yesterday is never today |
| Calendar.ClockText | enso/contrib/calc/currconv.py:408 | `strftime("%H:%M")` is five characters with ':' in the middle |
| Calendar.IsoFormat | enso/contrib/calc/currconv.py:412 | definition of `isoformat()` of a timestamp with zero seconds; its layout and round trip are the rows below |
| Calendar.IsoFormatLayout | enso/contrib/calc/currconv.py:412 | `isoformat()` is 19 characters with each field zero-padded in its place |
| Calendar.IsoFormatFields | enso/contrib/calc/currconv.py:412 | each field of `isoformat()` reads back as that component |
| Calendar.IsoRoundTrip | enso/contrib/calc/currconv.py:412 | reading `isoformat()` gives back the timestamp |
| RateParser.Unquote | enso/contrib/calc/currconv.py:175 | definition of `strip('"')`; UnquoteQuote shows it undoes quoting |
| RateParser.Fields | enso/contrib/calc/currconv.py:173 | definition of `ratedef.strip().split(",")`; EncodedFields shows a written line splits back into its fields |
| RateParser.ParseClock | enso/contrib/calc/currconv.py:192-197 | definition of the hour and minute read from a time field, None where Python raises; the Clock rows below state its cases |
| RateParser.ParseUpdated | enso/contrib/calc/currconv.py:183-198 | definition of the `updated` value of the date and time fields, None where Python raises; the rows down to ParseUpdatedEncoded state its cases |
| RateParser.ParseRate | enso/contrib/calc/currconv.py:170-215 | definition of `parse_rate` as a total function, None for its `(None, None)`; ParseRateAccepts, ParseRateResult and ParseEncodedLine state what it does |
| RateParser.ParseRateAccepts | enso/contrib/calc/currconv.py:170-215 | a line parses exactly when it has six comma-separated fields and its date and time do not raise |
| RateParser.AcceptanceIgnoresRate | enso/contrib/calc/currconv.py:176-182 | an unparseable rate never rejects a line (it becomes 0.0) |
| RateParser.ParseRateResult | enso/contrib/calc/currconv.py:173-210 | a parsed line gives symbol `code.strip('"')[3:6].upper()`, at most three upper-case characters, a record named after it, the float of the rate field or 0.0, and the timestamp of the date and time fields |
| RateParser.ParseRateOfFields | enso/contrib/calc/currconv.py:173-210 | six fields with a readable timestamp give exactly that record |
| RateParser.SymbolOfCode | enso/contrib/calc/currconv.py:175 | `code[3:6].upper()` is empty for a code of at most three characters, the upper-cased rest for three to six, and characters 3 to 6 upper-cased beyond |
| RateParser.DateNotAvailable | enso/contrib/calc/currconv.py:183-185 | a date of N/A gives no timestamp, whatever the time field holds |
| RateParser.TimeNotAvailable | enso/contrib/calc/currconv.py:189-198 | a real date with a time of N/A is rejected, because `hour` and `minute` are then unbound |
| RateParser.MalformedDate | enso/contrib/calc/currconv.py:189 | a date that is not three integers around '/' is rejected |
| RateParser.ClockAfternoon | enso/contrib/calc/currconv.py:192-197 | "pm" with an hour below 12 adds 12 |
| RateParser.ClockAsWritten | enso/contrib/calc/currconv.py:192-197 | "am", any other suffix, and "pm" from 12 on keep the hour (so 12am stays 12) |
| RateParser.ClockOfParts | enso/contrib/calc/currconv.py:192-197 | the clock read from hour and minute parts, with the pm rule |
| RateParser.ClockMalformed | enso/contrib/calc/currconv.py:192 | a time that is not two parts around ':' is rejected |
| RateParser.SignedHourClock | enso/contrib/calc/currconv.py:192-197 | an hour field "- 1" reads as -1, so with a "pm" minute it is 11 in the morning |
| RateParser.UnquoteQuote | enso/contrib/calc/currconv.py:175 | `strip('"')` undoes quoting of a text free of quotes |
| RateParser.TimeFieldReads | enso/contrib/calc/currconv.py:190-197 | the 12-hour time written for a timestamp reads back as its hour and minute |
| RateParser.ParseUpdatedEncoded | enso/contrib/calc/currconv.py:183-198 | written date and time fields read back as the timestamp, or none |
| RateParser.EncodedFields | enso/contrib/calc/currconv.py:173 | a written line splits back into the fields written |
| RateParser.ParseEncodedLine | enso/contrib/calc/currconv.py:170-210 | a written line parses back to symbol `code[3:6]` upper-cased, the parsed rate (or 0.0) and the same timestamp |
| RateTable.Accepts | enso/contrib/calc/currconv.py:223 | definition of `if symbol and definition`: the line parsed and its symbol is not empty |
| RateTable.ShortCodeSkipped | enso/contrib/calc/currconv.py:175-225 | a line whose unquoted code has at most three characters is never stored: its symbol is empty |
| RateTable.ParseAll | enso/contrib/calc/currconv.py:221-222 | one parse result per line |
| RateTable.ParseAllAt | enso/contrib/calc/currconv.py:222 | the i-th result is `parse_rate` of the i-th line |
| RateTable.Upserted | enso/contrib/calc/currconv.py:221-225 | definition of the table after storing the accepted entries in order; the Upserted rows below state its keys, its untouched records and last-wins |
| RateTable.UpsertedSnoc | enso/contrib/calc/currconv.py:222-225 | one more line upserts its record, and counts, exactly when it is accepted (parsed, non-empty symbol) |
| RateTable.UpsertedKeys | enso/contrib/calc/currconv.py:223-224 | after a reload, a symbol is in the table exactly when it was before or an accepted line names it |
| RateTable.UpsertedUntouched | enso/contrib/calc/currconv.py:221-225 | a symbol no accepted line names keeps its old record, or stays absent (stale records survive) |
| RateTable.UpsertedLastWins | enso/contrib/calc/currconv.py:221-224 | the last accepted line naming a symbol decides its record |
| RateTable.UpsertedUpperKeys | enso/contrib/calc/currconv.py:175-224 | upper-case keys stay upper case through a reload of upper-cased symbols |
| RateTable.ParsedSymbolsUpper | enso/contrib/calc/currconv.py:175 | every parsed symbol is upper case |
| RateTable.SymbolUpper | enso/contrib/calc/currconv.py:175 | the symbol of one parsed line is upper case |
| RateTable.IsSupportedCurrency | enso/contrib/calc/currconv.py:256-259 | definition of `is_supported_currency`: truthy and its upper case a key; SupportedIgnoresCase states it |
| RateTable.SupportedIgnoresCase | enso/contrib/calc/currconv.py:256-259 | a code is supported exactly when it is non-empty and its upper-case form is a key; supported is the same for a code and its upper-case form |
| RateTable.Fires | enso/contrib/calc/currconv.py:129-145 | definition of when the handler runs its callback; FiresCases states each case |
| RateTable.FiresCases | enso/contrib/calc/currconv.py:129-145 | directories and other events never reload; with no file list (None or empty) every move and creation does; otherwise a move reloads when its destination is listed and a creation when its path is |
| RateTable.ExchangeRates.constructor | enso/contrib/calc/currconv.py:153-165 | an empty table with updated_on 0, then one reload; the watcher watches the rates file alone |
| RateTable.ExchangeRates.ParseLine | enso/contrib/calc/currconv.py:222 | `parse_rate` of line i is the i-th parse result, and its symbol is upper case |
| RateTable.ExchangeRates.Upsert | enso/contrib/calc/currconv.py:223-225 | a parsed entry with a non-empty symbol overwrites that symbol's record and counts; any other entry changes nothing; keys stay upper case |
| RateTable.ExchangeRates.UpsertLines | enso/contrib/calc/currconv.py:221-225 | after the loop over the lines the table is the old one upserted with every parse result in order, and the counter is the number of accepted lines |
| RateTable.ExchangeRates.ParseRatesFile | enso/contrib/calc/currconv.py:217-234 | the table becomes the old one upserted with every accepted line read, including lines read before an error; updated_on moves to the modification time only with no read error and at least one accepted line; a failing getmtime raises |
| RateTable.ExchangeRates.OnFileEvent | enso/contrib/calc/currconv.py:129-151 | the callback reloads exactly when the handler fires for the watched file; otherwise nothing changes |
| Conversion.RoundHalfAway | enso/contrib/calc/currconv.py:394 | the integer nearest y, with halves away from zero, keeping the sign |
| Conversion.Round4 | enso/contrib/calc/currconv.py:394 | `round(x, 4)` is within half a ten-thousandth of x, on the ten-thousandth grid, and keeps the sign |
| Conversion.Round4Odd | enso/contrib/calc/currconv.py:394 | rounding commutes with negation |
| Conversion.Round4OnTick | enso/contrib/calc/currconv.py:394 | a value already on the grid is unchanged |
| Conversion.Round4Idempotent | enso/contrib/calc/currconv.py:394 | rounding twice is rounding once |
| Conversion.Round4Halves | enso/contrib/calc/currconv.py:394 | halves go away from zero: 0.00005 to 0.0001, -0.00005 to -0.0001, 0.00015 to 0.0002 |
| Conversion.RoundHalfEven | enso/contrib/calc/currconv.py:414 | `"%.4f"`'s rounding: the nearest integer, an even one on a tie |
| Conversion.FixedDigits | enso/contrib/calc/currconv.py:414 | the digits of n ten-thousandths: digits, a point, and four decimals |
| Conversion.FixedDigitsReads | enso/contrib/calc/currconv.py:414 | the integer part reads as n / 10000 and the decimals as n % 10000 |
| Conversion.FixedPoint4 | enso/contrib/calc/currconv.py:414 | `"%.4f"` has its point five from the end and no other, and a leading '-' exactly for negative amounts |
| Conversion.FixedPoint4Denotes | enso/contrib/calc/currconv.py:414 | `"%.4f"` writes some n ten-thousandths within half a ten-thousandth of the amount's magnitude |
| Conversion.StripZeros | enso/contrib/calc/currconv.py:414 | `rstrip("0").rstrip(".")` keeps a prefix through the integer part, drops only zeros and the point, and leaves no trailing point and no trailing zero after it |
| Conversion.FixedPointWhole | enso/contrib/calc/currconv.py:414 | `"%.4f"` of a whole amount is its integer, a point and "0000" |
| Conversion.StripWhole | enso/contrib/calc/currconv.py:414 | stripping w + ".0000" gives back w, even when w ends in a zero |
| Conversion.AmountTextOfInteger | enso/contrib/calc/currconv.py:414 | a whole amount prints as its integer, with no decimals and no point |
| Conversion.AmountText | enso/contrib/calc/currconv.py:414 | definition of `("%.4f" % amount).rstrip("0").rstrip(".")`, never empty; StripZeros and AmountTextOfInteger state what it keeps |
| Conversion.Freshness | enso/contrib/calc/currconv.py:405-412 | definition of `rate_updated_str`, None for the date overflow; the Freshness rows below state its cases |
| Conversion.FreshnessOverflow | enso/contrib/calc/currconv.py:405-412 | the suffix raises exactly when a timestamp not dated today meets today = 0001-01-01 |
| Conversion.FreshnessYesterday | enso/contrib/calc/currconv.py:409-410 | the "yesterday" suffix appears exactly when the timestamp's date is the day before today |
| Conversion.ClockTextReads | enso/contrib/calc/currconv.py:408 | `HH:MM` reads back as the hour and the minute |
| Conversion.FreshnessOlderReads | enso/contrib/calc/currconv.py:411-412 | an older timestamp's suffix is " (updated ", the ISO text that reads back as the timestamp, and ")" |
| Conversion.Consulted | enso/contrib/calc/currconv.py:372-391 | definition of the codes whose rate `currency()` reads: the target from EUR, the source to EUR, both otherwise |
| Conversion.ZeroRated | enso/contrib/calc/currconv.py:373-391 | the consulted codes with a zero rate, and nothing else |
| Conversion.Triangulate | enso/contrib/calc/currconv.py:367-396 | no result exactly when a rate is unknown, and then no rate and no timestamp; a rate is returned only for conversions from or to EUR |
| Conversion.UnknownAreZeroRated | enso/contrib/calc/currconv.py:372-391 | `unknown_rates` is the consulted codes with a zero rate, in order |
| Conversion.FromEuroBranch | enso/contrib/calc/currconv.py:372-378 | from EUR: the target's rate times the amount, that rate, and the target's timestamp |
| Conversion.ToEuroBranch | enso/contrib/calc/currconv.py:379-385 | to EUR: the reciprocal rate, the reciprocal times the amount, and the EUR record's timestamp |
| Conversion.ToEuroDivides | enso/contrib/calc/currconv.py:379-385 | to EUR the result is the amount divided by the source's rate |
| Conversion.CrossBranch | enso/contrib/calc/currconv.py:386-395 | a cross conversion is within half a ten-thousandth of amount × target rate / source rate, on the grid, with no rate and the target's timestamp |
| Conversion.EuroToEuro | enso/contrib/calc/currconv.py:372-378 | EUR to EUR multiplies by EUR's own rate, and is the identity only at rate 1 |
| Conversion.EuroRoundTrip | enso/contrib/calc/currconv.py:372-385 | EUR to a currency and back gives exactly the amount |
| Conversion.CrossViaEuro | enso/contrib/calc/currconv.py:372-395 | a cross conversion is within half a ten-thousandth of going through EUR in two steps |
| Conversion.UnknownHint | enso/contrib/calc/currconv.py:397-400 | definition of the hint text; UnknownHintLists states it |
| Conversion.Expression | enso/contrib/calc/currconv.py:413-419 | definition of `expr`: the amount text, the two codes and the freshness suffix; CurrencyReturns states its use |
| Conversion.UnknownHintLists | enso/contrib/calc/currconv.py:397-400 | a hint is set exactly when rates are unknown; it is the prefix and a comma-joined list that splits back into those codes |
| Conversion.Currency | enso/contrib/calc/currconv.py:362-428 | an unknown source, an unknown target and a date overflow each fail exactly in their case; a result is missing exactly when a hint is set |
| Conversion.CurrencyReturns | enso/contrib/calc/currconv.py:362-428 | with known codes: the branch's result, rate and timestamp, the hint for the zero-rated codes, and "amount from in to" with the freshness suffix |
| Conversion.CurrencyUnknownRates | enso/contrib/calc/currconv.py:367-400 | with known codes the result is missing exactly when a consulted rate is zero |
| Conversion.UnknownRateExample | enso/contrib/calc/currconv.py:379-419 | k JPY to EUR, for any whole k, at a zero JPY rate: no result, no rate, no timestamp, the expression "k JPY in EUR" with k printed as an integer, and the hint "Unknown exchange rate for currency JPY" |
| Conversion.HintForOne | enso/contrib/calc/currconv.py:398-400 | the hint for JPY alone |
| Conversion.FromEuroExample | enso/contrib/calc/currconv.py:372-378 | 100 EUR to USD at 1.0765 gives 107.65 with rate 1.0765 and the USD timestamp |
| HomeCurrency.SkipSpace | enso/contrib/calc/currconv.py:302 | `\s*` stops at the first non-whitespace character |
| HomeCurrency.MatchAt | enso/contrib/calc/currconv.py:302 | a match at a position captures three upper-case ASCII letters |
| HomeCurrency.SearchFrom | enso/contrib/calc/currconv.py:302 | `re.search` finds nothing exactly when no position matches; otherwise it captures at the leftmost matching position |
| HomeCurrency.GeobytesCurrency | enso/contrib/calc/currconv.py:302-304 | the code found is three upper-case letters |
| HomeCurrency.GeobytesLeading | enso/contrib/calc/currconv.py:302-304 | a reply opening with the key, ':' and a quoted code yields that code |
| HomeCurrency.GeoipStep | enso/contrib/calc/currconv.py:265-295 | definition of the geoip/ccy strategy: an answer once a truthy country is found, otherwise on to the next strategy |
| HomeCurrency.GeobytesStep | enso/contrib/calc/currconv.py:299-309 | definition of the geobytes strategy: only with a truthy address while online, an answer when the reply matches |
| HomeCurrency.LocaleStep | enso/contrib/calc/currconv.py:323-332 | definition of the locale strategy: the stripped `int_curr_symbol`, EUR when it is empty, a raise when the locale call raises |
| HomeCurrency.RunChain | enso/contrib/calc/currconv.py:262-332 | definition of running the strategies in order until one answers or raises |
| HomeCurrency.GuessHomeCurrency | enso/contrib/calc/currconv.py:262-332 | definition of `guess_home_currency` written as the code's nested branches; GuessIsChain equates it with RunChain of the three strategies |
| HomeCurrency.GuessIsChain | enso/contrib/calc/currconv.py:262-332 | the guess is the first answer of geoip/ccy, then geobytes, then the locale, and raises when the locale does |
| HomeCurrency.GeobytesNeedsIpAndOnline | enso/contrib/calc/currconv.py:296-306 | without a truthy address while online the geobytes reply is never consulted |
| HomeCurrency.GeoipCommits | enso/contrib/calc/currconv.py:285-293 | once a truthy country is found, `countryccy`'s answer is returned, None included, whatever later strategies would say |
| HomeCurrency.LocaleDefault | enso/contrib/calc/currconv.py:323-331 | with no earlier answer, an empty `int_curr_symbol` gives EUR |
| HomeCurrency.ConfiguredHome | enso/contrib/calc/currconv.py:338-340 | a configured value exists exactly when the "defaults" section exists and it or DEFAULT has the option |
| HomeCurrency.WithHomeCurrency | enso/contrib/calc/currconv.py:350-356 | writing keeps DEFAULT and adds the "defaults" section if missing |
| HomeCurrency.ReadAfterWrite | enso/contrib/calc/currconv.py:338-356 | what `set_home_currency` writes, `get_home_currency` reads back |
| HomeCurrency.WriteKeepsOthers | enso/contrib/calc/currconv.py:350-356 | writing changes no other section and no other option of "defaults" |
| HomeCurrency.WriteTwice | enso/contrib/calc/currconv.py:350-356 | writing twice is the same as writing the second value once |
| HomeCurrency.HomeCurrencyStore.constructor | enso/contrib/calc/currconv.py:100 | the memo starts unset |
| HomeCurrency.HomeCurrencyStore.SetHomeCurrency | enso/contrib/calc/currconv.py:349-359 | the memo is set first; the file gets the option only if the write succeeds; a failed write raises |
| HomeCurrency.HomeCurrencyStore.GetHomeCurrency | enso/contrib/calc/currconv.py:335-346 | a set memo is returned unchanged; else the configured value is memoized without a write; else the guess: a raise changes nothing, a truthy guess is written (a failed write raises with the memo already set), and the memo takes the guess (None leaves it unset); whatever is returned is the memo |
| Throttle.Due | enso/contrib/calc/currconv.py:457 | definition of the test that lets a call past the throttle: at least five minutes since the last check |
| Throttle.After | enso/contrib/calc/currconv.py:456-479 | the check time moves to now, at least five minutes on, exactly when a call is due; otherwise it stays |
| Throttle.CheckNotBefore | enso/contrib/calc/currconv.py:456-479 | after an attempt the check time never falls below that attempt's time |
| Throttle.AttemptsSpaced | enso/contrib/calc/currconv.py:456-479 | any two spawn attempts are at least five minutes apart, whatever the clock does |
| Throttle.QuickCallsThenGap | enso/contrib/calc/currconv.py:456-479 | two calls a second apart make one attempt; a call six minutes later makes another |
| Throttle.UpdaterThrottle.constructor | enso/contrib/calc/currconv.py:117 | the check time starts at 0 |
| Throttle.UpdaterThrottle.SpawnUpdater | enso/contrib/calc/currconv.py:453-479 | inside five minutes the result is 0 and nothing changes; otherwise the check time becomes now whatever happens, and the result is the pid, or None when spawning failed |

## Left out

- I/O is modelled by its parameters:
  - reading the rates file
  - `os.path.getmtime`
  - creating the cache and config directories
  - reading and writing the ini file
  - the HTTP request and its 5-second timeout
  - `locale.setlocale`
  - process spawning
- Platform dispatch in `spawn_exchangerates_updater` (gobject on Linux, `subprocess` elsewhere) is reduced to one spawn outcome.
- The watchdog observer thread and its scheduling are not modelled. Neither is any concurrency between a reload and a reader. The model runs one callback at a time.
- Binary floating point is not modelled:
  - `float()` is an oracle returning an exact real.
  - Products, quotients, `round(_, 4)` and `"%.4f"` are computed over exact reals.
  - `Conversion.CrossBranch` and `Conversion.CrossViaEuro` therefore carry no float error.
- Round4 models Python 2's `round`, which rounds halves away from zero. It does so on the exact value, not on the binary double nearest it.
- FixedPoint4: the rounding of `"%.4f"` is taken as half-even on the exact value; C's printf rounds the binary value.
- `datetime.today()` is one `today` argument, although the code calls it twice and could straddle midnight.
- Logging is left out, including the rate-zero warning in `parse_rate`.
- `complete_currency_re` and `partial_currency_re` (lines 240-253) are regular expressions built from the table's keys at import; they serve the command parser, not this engine.
- The ini file is a parsed value:
  - The ini syntax, option-name case folding and `SafeConfigParser` `%` interpolation in `get` are not modelled.
  - A write that fails leaves the file unchanged.
  - A read of a missing file gives an empty config.
- `ImportError` is all the model knows of an import: a failing import is a boolean. Any other exception raised while importing `ccy` or `geoip` is not modelled.
- `argv_to_locale`, `tolocale` and `_get_enso_directory` only build the updater's command line.
- The module-level calls at import (`RATES = ExchangeRates()`, `get_home_currency()`) are the constructors and methods themselves.
- RateTable.ExchangeRates.constructor: a failing `getmtime` during the first load would raise out of `__init__`. The constructor drops that outcome and keeps the table loaded so far.
- Text.Upper and Text.Trim assume the C locale. Python 2's `upper()`, `strip()` and the whitespace skipping in `int()` (Text.ParseInt) follow the C library's current locale. `guess_home_currency` sets it from the environment (`locale.setlocale(locale.LC_ALL, '')`, line 324), so reloads after that may fold the case of bytes from 0x80 up, or strip them, as the user's locale says. The model changes only ASCII letters and strips only the six ASCII whitespace characters.
- The GUI hint is returned as `Converted.hint` instead of being set on the quasimode.
- HomeCurrency.GeobytesCurrency: only the capture of the leftmost match is modelled.

Where the code differs from the stated design of the engine, the model follows the code:

- EUR to EUR multiplies by the rate recorded for EUR rather than returning the amount unchanged (`Conversion.EuroToEuro`).
- A conversion to EUR reports the EUR record's timestamp (line 384), not the source currency's (`Conversion.ToEuroBranch`).
- A code field shorter than six characters gives a short or empty symbol rather than a failure. A code of at most three characters gives the empty symbol (`RateParser.SymbolOfCode`). A line whose symbol is empty is parsed but not stored (`RateTable.ShortCodeSkipped`, `RateTable.UpsertedSnoc`).
- "12am" is read as hour 12, since only "pm" is adjusted (`RateParser.ClockAsWritten`).
- A failed spawn returns None, because the inner handler logs and falls off the end. The throttle time still moves.
- A failed ini write in `set_home_currency` raises out of `get_home_currency`; it is not only logged. The memo is already set when it does.
- A read error part-way through the rates file keeps the records upserted before it. `updated_on` then stays. A `getmtime` failure after a clean read raises.
