# dx time handler: a Dafny model

This project models the part of the `dx` command-line toolbox that has logic of its own:

- **The `time` command family** (`src/handlers/time.rs`):
  - `time now` shows the clock in a named or the local zone;
  - `time unix` prints the current epoch second;
  - `time from-unix` turns an epoch second into an RFC 3339 date;
  - `time to-unix` turns a date and a strftime pattern into an epoch second;
  - `time format` rewrites a date from one pattern to another;
  - `time relative` gives the distance between a timestamp and now in weeks, days, hours, minutes and seconds;
  - `time tz` lists the zones of the timezone database.
- **The handler layer's error type and its `Display` text**, plus the top-level command dispatch (`src/handlers/mod.rs`).
- **`list_options`** (`src/utils.rs`), which writes a numbered list of options between two rules.

Modules:

- **`Wrappers`**: `Option` and `Result`.
- **`Strings`**: text helpers shared by the handlers:
  - Rust's `{}` and `{:x}` for integers, with parsers that invert them;
  - `join`, `split` and `contains`.
- **`Handlers`**:
  - `CommandHandlerError` and its `Display`;
  - Rust's `{:?}` rendering of a list of strings, with a parser that reads it back;
  - `CommandHandler.Handle`.
- **`Utils`**:
  - `ListOptions`, an imperative method with the source's loop;
  - the function `OptionsListing` that specifies it.
- **`Time`**:
  - **The library and the clock.** The calendar library (chrono) and the zone database (chrono_tz) are a record of functions, `Chrono`, about which nothing is assumed. Formatting a parsed date may fail: chrono reports an error for a specifier it cannot render, and for `%z` or `%Z` on a date without an offset. An offset-aware date carries its epoch second, chrono's nanosecond count and its offset, so formatting can show the fraction of a second and, during a leap second (a nanosecond count of 1_000_000_000 or more), second 60. The clock reading is an `Instant` input.
  - **The operations.** Every operation is a function over those inputs. A handler call ends in an `Outcome`: either its `Result` or a panic, the latter only where `time format` calls `to_string()` on a formatting that failed. The exception is `calculate_relative_time`, which the source writes imperatively (a remainder cut down by `%=` and a string grown by `push_str`). It is the method `CalculateRelativeTime`, proved equal to the function `RelativeTime`.
  - **The duration text.** It has a reader, `ParseDuration`, and the round trip `ParseDuration(Render(b)) == Some(b)` is proved. The reader is lenient (it also accepts a zero unit or units out of order), so the exact words of the text are stated separately by `SplitRender`: one `<n> <Unit>` pair per positive unit from weeks down, then `<s> Seconds`.

Where a description of the tool and the code disagree, the model follows the code:

- `time relative` accepts a `start` option but never reads it. The distance is always measured from the clock (`RelativeIgnoresStart`).
- `time to-unix` and `time format` have only two parsing routes. A pattern that holds the text `%Z` or `%z` is parsed offset-aware. Every other pattern is parsed as a naive date-time taken as UTC. There is no date-only route.
- Past and future timestamps the same distance away read the same only on a whole-second clock. chrono's `num_seconds` truncates toward zero and `Utc::now()` carries nanoseconds, so mid-second a future timestamp reads one second closer than a past one (`ElapsedTruncates`).
- The zone classifier tests the text alone. `%%Z` (a literal percent sign followed by `Z`) counts as a zone, while the chrono specifiers `%:z` and `%#z` do not (`ClassifierIsTextual`).

## Model

| member | source | states |
|---|---|---|
| Strings.ParseIntCanonical | src/handlers/time.rs:59-64 | A text that reads as an integer is exactly the `to_string()` text of that integer: no leading zero, no "-0", no plus sign. So a contract saying a result reads back as `t` says it is `t.to_string()`. |
| Strings.ParseIntToString | src/handlers/time.rs:59-64 | The `to_string()` text of every integer reads back as that integer. |
| Handlers.CommandHandlerError.Display | src/handlers/mod.rs:15-24 | A runtime error with a message shows exactly that message. Without one it shows "A runtime error occurred!". The two missing-argument errors show their fixed prefix followed by a list text that reads back to exactly their arguments, which by `Handlers.ParseDebugListCanonical` makes it exactly their `{:?}` text. The unknown error shows "Unknown error". |
| Handlers.DebugListRoundTrip | src/handlers/mod.rs:19-20 | The `{:?}` text of any list of strings reads back to that list, so the argument list in a missing-argument message loses nothing. |
| Handlers.ParseDebugListCanonical | src/handlers/mod.rs:19-20 | A text the list reader accepts is exactly the `{:?}` text of the list it reads: no raw character that `{:?}` escapes, no `\u{..}` for a character with a short escape, and no leading zero in hexadecimal. |
| Handlers.UnescapeCanonical | src/handlers/mod.rs:19-20 | A quoted body the reader accepts is exactly the escaped text of the string it reads, then the closing quote. |
| Handlers.UnescapeEscape | src/handlers/mod.rs:19-20 | Decoding the escaped body of a quoted string, up to its closing quote, gives the string and the text that followed. |
| Handlers.DecodeEscapeChar | src/handlers/mod.rs:19-20 | Every character that `{:?}` escapes starts with a backslash, and the escape decodes to that character whatever follows it. |
| Handlers.CommandHandler.Handle | src/handlers/mod.rs:35-39 | A `json` command is handed to the JSON handler, and its result is returned unchanged. |
| Utils.ListOptions | src/utils.rs:1-10 | The text the loop builds equals `OptionsListing` of the options. |
| Utils.OptionsListing | src/utils.rs:2-8 | The listing starts with the rule and "Available options:" on their own lines. It ends with the rule and no newline. |
| Utils.ListingLines | src/utils.rs:5-7 | When no option holds a newline, the listing read line by line is the rule, the heading, one line `<k+1> - <option>` per option in input order, and the rule. That is exactly the option count plus three lines, so an empty list gives header and footer only. |
| Time.HandleMethod | src/handlers/time.rs:9-19 | Each subcommand gives its operation's result. Only `format` can panic. `unix` gives a decimal text that reads back to the clock's second, which by `Strings.ParseIntCanonical` makes it exactly the `to_string()` text of that second. `tz` gives the zone listing. Every failure is a runtime error with a message, and the error displays that message. |
| Time.GetCurrentDatetime | src/handlers/time.rs:21-32 | It fails exactly when a zone is named and the database does not know it, with the invalid-zone message for that name. Otherwise it shows the clock in the named zone, or in the local zone, with the fixed pattern. |
| Time.ConvertFromUnix | src/handlers/time.rs:34-49 | A timestamp outside the calendar range fails with the invalid-timestamp message, checked before the zone. Otherwise it fails exactly when the named zone is unknown. The result is the RFC 3339 text in UTC or in that zone. |
| Time.ConvertToUnix | src/handlers/time.rs:51-66 | A pattern with a zone is parsed offset-aware, any other as a naive date-time read as UTC. It succeeds exactly when that parse does, and the text read back as an integer is the parsed epoch second, so by `Strings.ParseIntCanonical` it is the `to_string()` text of that second. Any failure is the parse-failed message for the date. |
| Time.FormatDate | src/handlers/time.rs:108-121 | It uses the same routing on the source pattern. It returns the parse-failed message exactly when the chosen parse fails. It panics exactly when the parse succeeds and the parsed date cannot be written in the target pattern. Otherwise it returns the parsed date written in the target pattern. |
| Time.ToUnixAndFormatFailTogether | src/handlers/time.rs:108-121 | Given the same date and pattern, `to-unix` and `format` return an error on the same inputs, and it is the same error. |
| Time.HasFormatTimezone | src/handlers/time.rs:127-129 | True exactly when somewhere in the pattern a `%` is immediately followed by `Z` or `z`. |
| Time.ClassifierIsTextual | src/handlers/time.rs:127-129 | `%%Z` is classified as carrying a zone. `%:z` and `%#z` are not. |
| Time.InvalidTzMessage | src/handlers/time.rs:123-125 | The message is the zone name quoted between the fixed prefix and the suffix that points at `dx time tz`. |
| Time.InvalidTimestampMessage | src/handlers/time.rs:47 | The message quotes the timestamp in decimal, and the quoted text reads back to the timestamp. |
| Time.ParseFailedMessage | src/handlers/time.rs:52 | The message quotes the date and nothing of the parser's own reason. |
| Time.MessagesIdentifyTheirSubject | src/handlers/time.rs:123-125 | Distinct zone names, timestamps or dates give distinct messages. |
| Time.TzListingLines | src/handlers/time.rs:17 | Read line by line, the zone listing has one line `- <name>` per zone, in database order, and no trailing newline. An empty database lists as the empty text. |
| Time.Decompose | src/handlers/time.rs:73-85 | The weeks, days, hours, minutes and seconds add back up to the total. Each unit below weeks is less than one of the next unit up. |
| Time.DecomposeUnique | src/handlers/time.rs:73-85 | Any breakdown in that normal form is the one found for its total, so the split is unique. |
| Time.ElapsedIsTruncatedDistance | src/handlers/time.rs:71-73 | The elapsed count is the distance between the clock and the timestamp, in nanoseconds, cut down to whole seconds. |
| Time.CalculateRelativeTime | src/handlers/time.rs:68-106 | The code that cuts the remainder down unit by unit and appends each shown unit computes exactly `RelativeTime`. |
| Time.RelativeTimeReadsBack | src/handlers/time.rs:68-106 | An invalid timestamp fails with the invalid-timestamp message. For a valid one, the text reads back as a normal breakdown whose total is the elapsed whole seconds. |
| Time.DurationTextRoundTrip | src/handlers/time.rs:87-100 | Every breakdown's text reads back to that breakdown. |
| Time.SplitRender | src/handlers/time.rs:87-100 | Split on spaces, the text is `<n> <Unit>` for each shown unit from weeks down, then `<s> Seconds`. |
| Time.UnitShownIffPositive | src/handlers/time.rs:87-98 | Weeks, days, hours and minutes each appear exactly when their own count is positive, whatever the other counts. Seconds always appear. |
| Time.RenderEndsWithSeconds | src/handlers/time.rs:100 | The text always ends with `<seconds> Seconds`, so it never ends with a space. |
| Time.RenderZero | src/handlers/time.rs:100 | A zero distance reads "0 Seconds". |
| Time.DecomposeDayAndMinute | src/handlers/time.rs:73-85 | 86460 seconds are 1 day and 1 minute. |
| Time.RenderDayAndMinute | src/handlers/time.rs:87-100 | That breakdown reads "1 Days 1 Minutes 0 Seconds". |
| Time.DecomposeEveryUnit | src/handlers/time.rs:73-85 | 2546975 seconds are 4 weeks, 1 day, 11 hours, 29 minutes and 35 seconds. |
| Time.RenderEveryUnit | src/handlers/time.rs:87-100 | That breakdown reads "4 Weeks 1 Days 11 Hours 29 Minutes 35 Seconds". |
| Time.RelativeScenario | src/handlers/time.rs:68-106 | A valid timestamp 2546975 seconds before a whole-second clock reads "4 Weeks 1 Days 11 Hours 29 Minutes 35 Seconds". |
| Time.RelativeIgnoresStart | src/handlers/time.rs:68-72 | The `start` option makes no difference to the result. |
| Time.RelativeIsSymmetric | src/handlers/time.rs:71-73 | On a whole-second clock, valid timestamps the same distance in the past and in the future give the same text. |
| Time.ElapsedTruncates | src/handlers/time.rs:71-73 | Half a second past the clock's second, a timestamp 10 whole seconds back reads 10 seconds and one 10 whole seconds ahead reads 9. |

## Left out

- The insides of chrono and chrono_tz are not modelled: pattern parsing and formatting, RFC 3339 rendering, zone rules, the calendar range of `from_timestamp`, and `and_utc`. They are the functions of the `Chrono` record, and the model proves only how the handler routes to them and shapes their results.
- `formatNowIn` and `formatNowLocal` return text with no failure case: `time now` formats a zoned date with its own fixed pattern, which chrono always renders.
- Reading the clock (`Utc::now()`, `Local::now()`) is an input (`Instant`), and the machine's local zone is hidden inside `formatNowLocal`.
- The contents of the zone database are an input list (`Chrono.zones`); a zone displays as its name.
- `Time.ElapsedIsTruncatedDistance`: `abs()` of a 64-bit second count is modelled on unbounded integers; the overflow at the 64-bit minimum cannot arise for timestamps inside chrono's calendar range, which the model does not bound.
- `Handlers.DebugListRoundTrip`: `{:?}` escaping is modelled for `"`, `\`, newline, carriage return, tab, NUL and the other ASCII control characters (`\u{..}`); the escaping of non-ASCII unprintable and grapheme-extending characters is not modelled.
- `Handlers.CommandHandler.Handle`: the JSON handler (src/handlers/json.rs is not part of this model) is a function parameter.
- The other handlers (hash, encode, decode, JWT, JSON, regex, text, lorem, UUID), the argument declarations of `src/cli/`, and the printing, file output and exit code of `src/output.rs` and `src/main.rs` are not part of this model: they are thin wrappers over libraries, random sources or I/O.
