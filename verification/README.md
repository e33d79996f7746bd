# DeliveryServiceApp order pipeline in Dafny

The program reads a CSV file of delivery orders. It asks the operator for a city
district and a time interval, and keeps the orders of that district delivered
inside the interval. Of those, it writes the ones delivered within 30 minutes of
the earliest to a result CSV file.

This project models the pure part of that pipeline and proves properties of it:

- **The order parser (`TryParseOrder`).**
  - Splitting on `,` into exactly four fields.
  - The combined id / weight / `yyyy-MM-dd HH:mm:ss` attempt, where `&&` short-circuits.
  - The fallback to `yyyy-MM-dd HH:mm`, which keeps whatever id and weight the first attempt left behind.
- **The `foreach` of `LoadOrders`.** It skips the header line and sends every other line to either the loaded orders or the failed lines.
- **`ExtractUniqueDistricts` and `IsValidDistrict`.** The first is LINQ `Distinct`; the second is a case-insensitive `Contains`.
- **The two-stage selection.**
  - `FilterOrders`: the district matches ignoring case, and the time lies in the closed interval.
  - The window of `SaveFilteredOrders`: the earliest selected time plus 30 minutes.
- **The lines of the result file.** They are the header, then one row per order, with the time rendered as `yyyy-MM-dd HH:mm:ss`.

The modules follow that structure:

| file | module | contents |
|---|---|---|
| `options.dfy` | `Options` | `Option` with `GetOr` (the value an `out` parameter holds after a failed `TryParse`) |
| `seqs.dfy` | `Seqs` | `Filter` (LINQ `Where`), `Min`, subsequences, duplicate-freedom |
| `text.dfy` | `Text` | `Split(char)`, `Join`, `Trim`, ordinal case-insensitive equality |
| `numbers.dfy` | `Numbers` | `int.TryParse` with the invariant culture, `Int32.ToString()`, fixed-width digit fields |
| `calendar.dfy` | `Calendar` | `DateTime` as calendar fields, its position on the time line, the two exact formats and rendering |
| `orders.dfy` | `Orders` | orders, the line parser, the loader, the written row |
| `districts.dfy` | `Districts` | `ExtractUniqueDistricts`, `IsValidDistrict` |
| `filtering.dfy` | `Filtering` | `FilterOrders`, the 30-minute window, the result file |
| `pipeline.dfy` | `Pipeline` | the data path of `Main` with the operator's answers as inputs |

Modelling choices:

- **Time.**
  - A `DateTime` is a record of calendar fields restricted to what .NET can represent: years 1..9999, proleptic Gregorian, whole seconds.
  - `Calendar.Instant` is its number of seconds since 0001-01-01, which is `Ticks / 10^7`. Comparisons and `AddMinutes(30)` work on that number.
  - `Calendar.InstantOrder` proves that comparing instants is comparing calendar fields, and that two dates share an instant only when they are equal.
- **The window end can overflow.** `AddMinutes(30)` on a time less than 30 minutes before `DateTime.MaxValue` throws inside the `using` block. The header has already been written by then, so the result file holds only the header. The model keeps this case (`Filtering.WindowEndOverflows`).
- **Weight is abstract.** The weight is a value of a type parameter `W`. A `WeightCodec` supplies:
  - `parse`, standing for `double.TryParse`;
  - `render`, standing for `double.ToString()`;
  - `zero`, the 0 a failed `double.TryParse` stores.

  The round-trip results assume that `render` writes no comma and that `parse` reads back what `render` writes (`Orders.RoundTrips`).
- **Case folding.** Case-insensitive comparison folds ASCII letters and the basic Cyrillic block U+0400..U+045F. The program's messages are in Russian, so Cyrillic district names are the likely input; the program itself fixes no district value.
- **Whitespace.** `String.Trim` removes the `Char.IsWhiteSpace` characters. `int.TryParse` trims only U+0009..U+000D and the space.
- **The parser's fallback.** Its behaviour is kept as the code has it:
  - a line whose id does not parse is still loaded with id 0 and weight 0 when its time has minute precision (`Orders.UnreadableIdFallsBackToZero`);
  - the same line with a seconds-precision time is rejected, because the minute format refuses a 19-character time (`Orders.UnreadableIdWithSecondsIsRejected`).

  In `Program.cs:183-197` the minute format is tried whenever the id, the weight or the seconds-precision time fails to parse. So a line with an unreadable id and a seconds-precision time is rejected.

## Model

| member | source | states |
|---|---|---|
| Orders.ParseOrder | Program.cs:169-211 | The line is rejected for its field count exactly when it does not have three commas. When id, weight and the seconds-precision time all parse, the order carries exactly those values. Otherwise the line is accepted exactly when the minute-precision format reads the time; then the id is the parsed id or 0, and the weight is the codec's zero unless both id and weight parsed. Every order's district is the trimmed third field, and its time comes from one of the two formats. |
| Orders.UnreadableIdFallsBackToZero | Program.cs:179-206 | For every line of four fields with an unreadable id and a minute-precision time, the parser produces an order with id 0, the zero weight, the trimmed district and that time. |
| Orders.UnreadableIdWithSecondsIsRejected | Program.cs:183-210 | For every line of four fields with an unreadable id and a seconds-precision time, the parser produces no order. |
| Orders.LoadBody | Program.cs:129-140 | The failed lines are exactly the rejected lines, in file order. The loaded orders are, position by position, the parses of the accepted lines, in file order. |
| Orders.LoadOrders | Program.cs:127-140 | The first line is skipped. Every other line lands in exactly one of the two lists: the counts add up to the number of lines minus one. Both lists keep file order, and every loaded order is well formed (32-bit id, trimmed comma-free district). |
| Orders.RowFields | Program.cs:237 | A written row splits into the four fields it was assembled from. |
| Orders.RowRoundTrip | Program.cs:237 | Parsing a written row gives back the order it was written from, through the seconds-precision branch. |
| Orders.ParsedOrderRoundTrip | Program.cs:183-207 | Any order the parser produced is reproduced by writing it and parsing the row again. |
| Districts.Distinct | Program.cs:49 | The result has no duplicates and the same members as the input, listed in order of first occurrence. |
| Districts.ExtractUniqueDistricts | Program.cs:46-51 | Every district of the orders appears exactly once, with case-sensitive comparison. Nothing else appears, and the districts are listed in order of first appearance. |
| Districts.IsValidDistrict | Program.cs:67-75 | True exactly when some listed district equals the argument ignoring case. |
| Districts.ValidDistrictMeansSomeOrder | Program.cs:29 | The district check over the extracted list accepts a name exactly when some loaded order has that district ignoring case. |
| Filtering.FilterOrders | Program.cs:213-219 | The result keeps input order and deletes elements only. An order is kept exactly when its district matches ignoring case and its time lies in [start, end], and it is kept as often as it occurs. An interval with end before start gives nothing. |
| Filtering.EarliestInstant | Program.cs:229 | The result is no later than any order's time and equals some order's time. |
| Filtering.NoLaterThan | Program.cs:233 | The result keeps input order and contains exactly the orders delivered no later than the bound, each as often as in the input. |
| Filtering.WindowIsSelection | Program.cs:229-233 | The written orders are a subsequence of the selection. Nothing is written when the selection is empty or the window end overflows. |
| Filtering.WindowContents | Program.cs:229-238 | Without overflow: an order is written exactly when it is selected and delivered no later than 30 minutes after the earliest, as often as it was selected. The earliest is always written, and every written time lies in [earliest, earliest + 30 min]. |
| Filtering.WindowSpan | Program.cs:232-233 | Every written order is selected, and any two written orders are at most 30 minutes apart. |
| Filtering.FileReloads | Program.cs:227-238 | Loading a written file gives back exactly the orders it was written from, in order, with no failed line. |
| Filtering.ResultFileReloads | Program.cs:225-239 | Loading the result file gives back exactly the orders of the window. |
| Filtering.SomethingWritten | Program.cs:230-238 | A non-empty selection whose window end does not overflow puts at least one row under the header. |
| Filtering.ResultFileContents | Program.cs:227-238 | Read back, the result file has no failed line, holds only selected orders, and any two of them are at most 30 minutes apart. |
| Pipeline.RunWritesSelectedOrders | Program.cs:28-43 | Every order in the result file was loaded from the order file, matches the district ignoring case, and lies in [start, end]. Any two are at most 30 minutes apart, and the loader accepts every line of the file. |
| Pipeline.RunWritesSomethingWhenSomethingMatches | Program.cs:41-43 | If some loaded order matches the district and interval, the selection is not empty, and the file holds a row unless the window end overflows. |
| Calendar.ParseWithSeconds | Program.cs:185 | An accepted text is exactly 19 characters long and denotes a representable date and time. |
| Calendar.ParseWithMinutes | Program.cs:197 | An accepted text is exactly 16 characters long and denotes a representable date and time with zero seconds. |
| Calendar.FormatThenParse | Program.cs:237 | A rendered time is read back by the seconds-precision format as the same date and time, and contains no comma. |
| Calendar.ParseThenFormat | Program.cs:185 | Rendering a time read by the seconds-precision format reproduces the text. |
| Calendar.FormatMinutesThenParse | Program.cs:197 | Every valid time with zero seconds, written as `yyyy-MM-dd HH:mm`, is accepted by the minute-precision format as that same time. |
| Calendar.MinutesRenderWithZeroSeconds | Program.cs:197 | Rendering a time read by the minute-precision format reproduces the text followed by `:00`. |
| Calendar.InstantOrder | Program.cs:217-218 | One instant is earlier than another exactly when its calendar fields come first, and two instants are equal exactly when the dates are. |
| Calendar.InstantRange | Program.cs:232 | Every representable time lies between `DateTime.MinValue` and `DateTime.MaxValue`. |
| Numbers.ParseInt32 | Program.cs:183 | An accepted id fits in 32 bits and its text contains a digit. |
| Numbers.ParseInt32Reads | Program.cs:183 | Any text made of leading white space, an optional `+` or `-`, one or more digits (leading zeros allowed) and trailing white space is accepted with the signed value of the digits, when that value fits in 32 bits. |
| Numbers.ParseInt32Shape | Program.cs:183 | Every accepted text is number white space, an optional `+` or `-`, one or more digits and number white space, and the id read is the signed value of those digits; with `Numbers.ParseInt32Reads` this is the exact set of accepted ids. |
| Numbers.ParseInt32RoundTrip | Program.cs:237 | The decimal text of every 32-bit id is read back as that id and contains no comma. |
| Text.Split | Program.cs:172 | The parts number one more than the separators, none contains the separator, and joining them restores the line. |
| Text.SplitJoin | Program.cs:172 | Splitting a line assembled from separator-free parts gives those parts back. |
| Text.TrimWith | Program.cs:191 | The result has no trimmed character at either end and uses only characters of the input. It is empty exactly when the input is made only of trimmed characters. |
| Text.TrimWithIsSlice | Program.cs:191 | The result is the stretch of the input that follows its trimmed characters at the start, with only trimmed characters after it: nothing but leading and trailing trimmed characters is removed. |
| Text.TrimWithSurrounded | Program.cs:191 | Trimming white space, then a text that neither starts nor ends with white space, then white space gives that text back exactly. |
| Text.TrimIdempotent | Program.cs:191 | Trimming a trimmed district changes nothing. |
| Text.EqualsIgnoreCaseEquivalence | Program.cs:216 | Case-insensitive equality is reflexive, symmetric and transitive. |

## Left out

- Console prompts (`PromptUserForDistrict`, `PromptUserForStartDeliveryTime`, `PromptUserForEndDeliveryTime`, `PromptUserForInput`). They are blocking interactive I/O, so the district and the two times are inputs of `Pipeline.Run`.
- `LoadConfiguration`. It parses JSON with a library that is not part of this model.
- `InitializeDirectories` and the file system. Files are modelled as sequences of lines; opening, reading and writing them are not modelled.
- `Log` and every log message, including the per-order, all-loaded and per-failure log lines of `LoadOrders`. They are timestamped file appends through `DateTime.Now`. The failed lines that the log would report are kept in `Orders.Loaded`.
- The exception handlers of `LoadOrders` and `SaveFilteredOrders`, which cover a missing file and I/O errors. Only the exception that follows from the data is modelled: a window end past `DateTime.MaxValue`.
- `double` weights. Parsing, rendering and their culture dependence are abstracted into `Orders.WeightCodec`, so a culture whose decimal separator is a comma is not modelled.
- Culture and style leniencies of the .NET parsers:
  - `int.TryParse` with a culture whose negative sign is not `-`, and its acceptance of trailing `\0` characters;
  - sub-second precision;
  - calendars other than the Gregorian.
- Case folding outside ASCII and the basic Cyrillic block.
- Calendar.FormatWithSeconds: the interpolated string of `Program.cs:237` formats with the current culture. The model writes `:` as the time separator and counts years in the Gregorian calendar, as the invariant culture does. Under a culture with another time separator or calendar, the written time does not read back. So `Orders.RowRoundTrip` and `Filtering.FileReloads` describe the program only when its current culture uses `:` and the Gregorian calendar.
- Numbers.Int32ToString: the model writes a negative id with `-`, as the invariant culture does. Under a culture with another negative sign, a negative id does not read back, and the same round-trip results depend on it.
- The unused `startDeliveryDateTime` parameter of `SaveFilteredOrders`. The window is anchored at the earliest selected order, not at the start time.
