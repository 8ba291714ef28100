# Agenda value types in Dafny

This project models the value types of a weekly school agenda (the Kotlin file
`src/main/kotlin/AgendaJS/Utils/Data.kt`). It covers the seven `Weekday`s, the
day/month `SimpleDate` and the checks its constructor makes, the clock time
`SimpleTime` and its `toString` together with the `decode` parser, an
`Event` and the `data-content` slug it derives from its name, a `Day` with
equality and hashing that follow the order of its events, and a `Week` with
its positional `days` list.

The source's classes have read-only properties, and every operation is an
expression, with no loop and no assignment. Two properties are arrays,
though: `Day.events` (`Data.kt:25`) and `Week.days` (`Data.kt:13`). The
model treats them as fixed sequences (see "## Left out"). With that
reading, the model is datatypes, functions and lemmas, in two modules:

- `KotlinRuntime` (`kotlin_runtime.dfy`) holds the parts of the Kotlin
  library that the types rely on. These are the 32-bit `Int` (`Int32`, with
  `Wrap` for two's-complement wrap-around), exceptions as an `Outcome`
  value, `Int.toString`, `String.toInt` on digit runs, `padStart`, and
  ASCII `toLowerCase` and `replace`.
- `Data` (`data.dfy`) holds the types of `Data.kt` and the lemmas about them.

A thrown exception is the value `Thrown(e)`. The warning that `decode` logs
is the `warned` flag of its `Decoded` result. The regex `(\d+):(\d{2})`
appears in two forms. One is its language (`InTimePattern`: digits, a
colon, two digits). The other is a positional matcher (`MatchesTimePattern`).
`MatchIsUnique` proves that the two agree and that the two groups are
unique.

`decode` does not always fail soft. Its doc comment promises (0, 0) by
default (`Data.kt:94`). But hours too large for an `Int` make `toInt` throw
`NumberFormatException` (`Data.kt:102`). `Decode` returns `Thrown` in that
case, and `DecodeOverflows` shows that it happens.

## Model

| member | source | states |
|---|---|---|
| `Data.OrdinalIsPosition` | src/main/kotlin/AgendaJS/Utils/Data.kt:114-122 | each weekday sits at its ordinal among the seven constants, and the ordinals are distinct |
| `Data.DaysInMonth` | src/main/kotlin/AgendaJS/Utils/Data.kt:65-71 | the month lookup returns exactly for months 1..12, with the non-leap table [31,28,...,31], and throws `IllegalStateException` otherwise |
| `Data.NewSimpleDate` | src/main/kotlin/AgendaJS/Utils/Data.kt:61-73 | construction yields a `ValidSimpleDate`, the only kind a `Day` can hold; it succeeds exactly when 1 ≤ month ≤ 12 and 1 ≤ day ≤ the table's length for that month; otherwise it throws `IllegalArgumentException` with the month message (bad month) or the day message (bad day) and never the unreachable `IllegalStateException` |
| `Data.NoLeapDay` | src/main/kotlin/AgendaJS/Utils/Data.kt:65-66 | 28/2 is a date, 29/2, 31/4 and 1/13 are rejected |
| `Data.DateToStringShape` | src/main/kotlin/AgendaJS/Utils/Data.kt:75 | a valid date prints as the unpadded decimal day, `/`, the unpadded decimal month, and distinct valid dates print differently |
| `Data.MinutesTextTwoDigits` | src/main/kotlin/AgendaJS/Utils/Data.kt:111 | for minutes in 0..99 the padded minutes are exactly two digits that denote the minutes |
| `Data.MinutesTextOfDigits` | src/main/kotlin/AgendaJS/Utils/Data.kt:111 | any two digits are the padded text of the number they denote |
| `Data.MatchIsUnique` | src/main/kotlin/AgendaJS/Utils/Data.kt:88-102 | the whole-string match of `(\d+):(\d{2})` holds exactly on its language, and the split into the two groups is unique, so `find` reports the same groups `matches` saw |
| `Data.Decode` | src/main/kotlin/AgendaJS/Utils/Data.kt:96-108 | every returned pair has 0 ≤ hours < 24 and 0 ≤ minutes < 60; a warning comes only with (0,0); it throws exactly when the text matches and the hours exceed `Int.MAX_VALUE`, with `NumberFormatException` on the hours group |
| `Data.DecodeOfSplit` | src/main/kotlin/AgendaJS/Utils/Data.kt:101-107 | text in the pattern with hours < 24 and minutes < 60 decodes to the groups' values without a warning |
| `Data.DecodeAccepts` | src/main/kotlin/AgendaJS/Utils/Data.kt:96-107 | `decode` returns (h, m) without a warning if and only if the text is digits denoting h < 24, a colon and two digits denoting m < 60 (leading zeros in the hours allowed) |
| `Data.DecodeWarns` | src/main/kotlin/AgendaJS/Utils/Data.kt:97-106 | `decode` warns and returns (0,0) if and only if the text is outside the pattern, or its hours fit an `Int` and reach 24, or its minutes reach 60; every warned result is that one |
| `Data.DecodeOverflows` | src/main/kotlin/AgendaJS/Utils/Data.kt:102 | hours of eleven or more digits without a leading zero make `decode` throw `NumberFormatException` |
| `Data.DecodeExamples` | src/main/kotlin/AgendaJS/Utils/Data.kt:96-107 | "9:05" and "09:05" give (9,5), "23:59" gives (23,59), and "24:00", "9:5" and "abc" give (0,0) with a warning |
| `Data.TimeRoundTrip` | src/main/kotlin/AgendaJS/Utils/Data.kt:96-111 | for 0 ≤ h < 24 and 0 ≤ m < 60, decoding the text of `SimpleTime(h, m)` gives (h, m) without a warning |
| `Data.DecodeThenPrint` | src/main/kotlin/AgendaJS/Utils/Data.kt:96-111 | text that `decode` accepts and whose hours have no leading zero is exactly the text of the decoded time |
| `Data.TimeToStringInjective` | src/main/kotlin/AgendaJS/Utils/Data.kt:111 | two in-range times with the same text are the same time |
| `Data.DataContent` | src/main/kotlin/AgendaJS/Utils/Data.kt:54 | the slug starts with `events/event-`, is as long as that prefix plus the name, holds the name's characters lower-cased in place with each space turned into `-`, and has no space and no upper-case letter after the prefix |
| `Data.DataContentExample` | src/main/kotlin/AgendaJS/Utils/Data.kt:54 | an event named "Wiskunde B" has slug `events/event-wiskunde-b` |
| `Data.ContentDeepEqualsIsEquality` | src/main/kotlin/AgendaJS/Utils/Data.kt:35 | element-by-element comparison of the events holds exactly when the sequences are equal, order included |
| `Data.DayEqualsIsEquality` | src/main/kotlin/AgendaJS/Utils/Data.kt:29-38 | `Day.equals` holds if and only if the names, the dates and the event sequences are equal, that is, exactly on equal days |
| `Data.EventOrderMatters` | src/main/kotlin/AgendaJS/Utils/Data.kt:35 | a day with events [A, B] does not equal the same day with [B, A] when A ≠ B |
| `Data.HashAgreesWithEquals` | src/main/kotlin/AgendaJS/Utils/Data.kt:39-40 | days that `equals` calls equal have equal `hashCode`, whatever the component hashes |
| `Data.HashOfPair` | src/main/kotlin/AgendaJS/Utils/Data.kt:40 | for any event hashes, the 32-bit events hash of [x, y] is 961 + 31·h(x) + h(y) wrapped to 32 bits |
| `Data.ThirtyTimesVanishes` | src/main/kotlin/AgendaJS/Utils/Data.kt:40 | 30·d is a multiple of 2^32, for a difference d of two `Int`s, exactly when d is 0 or ±2^31 |
| `Data.HashSeesEventOrder` | src/main/kotlin/AgendaJS/Utils/Data.kt:40 | for every event hash function, swapping two events keeps the events hash if and only if their hashes are equal or differ by exactly 2^31 |
| `Data.DaysByPosition` | src/main/kotlin/AgendaJS/Utils/Data.kt:3-14 | `days` has seven entries, holds at each weekday's ordinal the slot of that weekday, and with the number determines the week |
| `Data.SlotNamesUnchecked` | src/main/kotlin/AgendaJS/Utils/Data.kt:3-13 | a week whose Monday slot holds a Sunday is still a week: nothing ties a slot to its day's name |
| `KotlinRuntime.Wrap` | src/main/kotlin/AgendaJS/Utils/Data.kt:40 | the result is a 32-bit value congruent to the input modulo 2^32, and in-range values are unchanged |
| `KotlinRuntime.WrapCongruent` | src/main/kotlin/AgendaJS/Utils/Data.kt:40 | two integers wrap to the same `Int` exactly when they agree modulo 2^32 |
| `KotlinRuntime.WrapInner` | src/main/kotlin/AgendaJS/Utils/Data.kt:40 | wrapping after each step of `31 * a + b` gives the same `Int` as wrapping once at the end |
| `KotlinRuntime.DigitsValue` | src/main/kotlin/AgendaJS/Utils/Data.kt:102 | a run of n digits denotes a number below 10^n |
| `KotlinRuntime.LeadingDigitBound` | src/main/kotlin/AgendaJS/Utils/Data.kt:102 | a run of n digits that does not start with 0 denotes at least 10^(n-1) |
| `KotlinRuntime.PrefixValueBound` | src/main/kotlin/AgendaJS/Utils/Data.kt:102 | the value of a prefix of a digit run never exceeds the value of the whole run |
| `KotlinRuntime.ParseDigits` | src/main/kotlin/AgendaJS/Utils/Data.kt:102 | `Integer.parseInt`'s digit loop, reading left to right and throwing as soon as a character is not a digit or the running value would pass `Int.MAX_VALUE`, returns exactly when the string is all digits with value up to `Int.MAX_VALUE`, and then returns that value |
| `KotlinRuntime.ToInt` | src/main/kotlin/AgendaJS/Utils/Data.kt:102 | `toInt`, built on that digit loop, returns exactly the value of a non-empty digit run up to `Int.MAX_VALUE` and otherwise throws `NumberFormatException` carrying the input |
| `KotlinRuntime.NatToString` | src/main/kotlin/AgendaJS/Utils/Data.kt:75 | `Int.toString` of a non-negative value is a non-empty digit run with no leading zero, one digit long exactly below 10 |
| `KotlinRuntime.ValueOfNatToString` | src/main/kotlin/AgendaJS/Utils/Data.kt:111 | reading back the digits `toString` printed gives the number |
| `KotlinRuntime.NatToStringOfValue` | src/main/kotlin/AgendaJS/Utils/Data.kt:111 | printing the value of a digit run without leading zeros gives the same run |
| `KotlinRuntime.NatToStringInjective` | src/main/kotlin/AgendaJS/Utils/Data.kt:75 | distinct non-negative numbers print differently |
| `KotlinRuntime.PadStart` | src/main/kotlin/AgendaJS/Utils/Data.kt:111 | `padStart` keeps the string as its suffix, fills only with the pad character, and reaches the requested length when the string is shorter |
| `KotlinRuntime.Lowercase` | src/main/kotlin/AgendaJS/Utils/Data.kt:54 | lower-casing keeps the length and lower-cases each character in place |
| `KotlinRuntime.Replace` | src/main/kotlin/AgendaJS/Utils/Data.kt:54 | `replace` keeps the length and swaps every occurrence of the old character, and only those |

## Left out

- `Day.events` is an `Array<Event>` (`Data.kt:25`) and `Week.days` is an `arrayOf(...)` (`Data.kt:13`); both are mutable arrays in the source. The model makes them immutable sequences. It does not capture that a `Day` shares the caller's array, so `equals` and `hashCode` (`Data.kt:35,40`) see later writes into it. It also does not capture writes such as `week.days[i] = …`, after which `days` no longer matches the seven day properties that `DaysByPosition` describes.
- `Logger.kt` is not part of this model. It is console output with colour codes and a process-wide mutable level. The one call the core makes, `Logger.warn` in `decode`, is the `warned` flag of `Decoded`.
- `Day.toString` is left out. It depends on `contentDeepToString` and on the compiler-generated `toString` of `Event`.
- The display strings of `Weekday` (`dayname`, `short`) are left out. They are constant data, and nothing in the core computes with them.
- The concrete JVM `hashCode` of `Weekday`, `SimpleDate` and `Event` is left out. `DayHash` and `ContentDeepHash` take these hashes as parameters.
- `Data.DayEquals` covers only the comparison of a `Day` with another `Day`. The reference-identity shortcut (`this === other`) gives the same answer as the structural comparison on values. The `other !is Day` test has no counterpart, because Dafny's arguments are typed.
- The generated `equals`, `hashCode`, `toString` and `copy` of the other data classes (`Week`, `Event`, `SimpleDate`, `SimpleTime`) are left out. Their equality is Dafny's structural equality on the datatypes.
- `KotlinRuntime.ToInt` models `String.toInt` only on the strings `decode` passes it. It does not model a leading `+` or `-` sign.
- `KotlinRuntime.Lowercase` lower-cases ASCII letters only. Kotlin's locale- and Unicode-dependent `toLowerCase` is not modelled.
- The JVM regex engine is left out. The pattern is modelled directly over ASCII digits, which is what `\d` matches by default.
