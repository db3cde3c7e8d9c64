# QuakeReport row formatting, in Dafny

QuakeReport is an Android list app that shows recent earthquakes. Each row shows four things:

- a magnitude badge coloured by severity;
- an "offset" line such as `86km NE of`;
- a "location" line such as `Rincon, Puerto Rico`;
- a date line and a time line.

This project models the part of the app that decides what goes into a row. That is the immutable `Earthquake` record, plus the formatting and binding done by `EarthquakeAdapter`.

The model has three modules:

- `JavaString` (`JavaString.dfy`) models the three `java.lang.String` operations the formatting relies on:
  - `indexOf` returns the first occurrence, or -1 when there is none;
  - `contains` is defined as `indexOf(...) >= 0`;
  - `trim` removes every character at or below U+0020 from both ends.

  `Trim` is specified by a characterisation: the result is trimmed, and the input is the result with blanks added on each side. `TrimUnique` proves that this characterisation fixes the result.
- `Quake` (`Earthquake.dfy`) holds the record as a datatype. Its fields are never assigned after construction, so the four getters are the datatype's destructors. The date is a Java `long` (`Long`). The magnitude is a `real`.
- `QuakeAdapter` (`EarthquakeAdapter.dfy`) holds:
  - `formatLocation` and `formatOffset` as pure functions;
  - the `getMagColor` switch, mapping the integer floor of the magnitude to one of ten colour bins;
  - `getView` as a method on an adapter class. It writes into a `Row` object with five text slots and one badge colour, reusing the recycled row when there is one.

How the location split works: when the place text contains `"km "`, both lines are cut around the first `"of "`.

- The location starts at `indexOf("of ") + 3`.
- The offset ends at `indexOf("of ") + 2`.
- The character between the two cuts is the space of `"of "`. The untrimmed offset, that space and the untrimmed location put back together give the place text (`SplitAtFirstOf`).
- When `"km "` occurs but `"of "` does not, `indexOf` gives -1, so the cuts fall at 1 and 2 (`SplitWithoutOf`).

Three points where the code does something other than what one might expect. The model follows the code:

- Negative magnitudes do not go to the lowest bin. In the switch only floors 0 and 1 reach bin 1, so a negative floor takes the `default` branch and gets the 10-plus colour (`MagColor`, `BinOfMagnitude`).
- The offset does not keep the three characters `"of "`. The code cuts one character earlier, before the space. Once trimmed, both readings give the same text.
- The two cuts are complementary. They sit on either side of a single character, and that character is the space of `"of "` whenever `"of "` occurs.

## Model

| member | source | states |
|---|---|---|
| `JavaString.IndexOf` | app/src/main/java/com/example/android/quakereport/EarthquakeAdapter.java:127 | `indexOf` gives -1 or an index where the pattern occurs, and no occurrence comes before it (none at all when it is -1) |
| `JavaString.IndexOfIsFirstOccurrence` | app/src/main/java/com/example/android/quakereport/EarthquakeAdapter.java:142 | an occurrence with no earlier occurrence is exactly what `indexOf` reports |
| `JavaString.IndexOfAbsent` | app/src/main/java/com/example/android/quakereport/EarthquakeAdapter.java:142 | with no occurrence anywhere, `indexOf` reports -1 |
| `JavaString.Contains` | app/src/main/java/com/example/android/quakereport/EarthquakeAdapter.java:126 | `contains` holds exactly when the pattern occurs at some index |
| `JavaString.Trim` | app/src/main/java/com/example/android/quakereport/EarthquakeAdapter.java:128 | `trim` yields a string whose two ends are not blank, and the input is that string with only blanks around it |
| `JavaString.TrimUnique` | app/src/main/java/com/example/android/quakereport/EarthquakeAdapter.java:143 | the trimmed string that the input is a blank padding of is unique, so Trim's contract determines its result |
| `JavaString.TrimOfTrimmed` | app/src/main/java/com/example/android/quakereport/EarthquakeAdapter.java:128 | a string with no blank at either end is returned unchanged by `trim` |
| `JavaString.TrimIdempotent` | app/src/main/java/com/example/android/quakereport/EarthquakeAdapter.java:143 | trimming twice gives the same string as trimming once |
| `Quake.GettersReturnConstructorArguments` | app/src/main/java/com/example/android/quakereport/Earthquake.java:17-54 | each of `getmMag`, `getmCity`, `getmDate` and `getmURL` returns the value passed to the constructor |
| `Quake.RecordDeterminedByGetters` | app/src/main/java/com/example/android/quakereport/Earthquake.java:5-8 | the record holds nothing but its four fields, so two records whose getters agree are indistinguishable through the getters (Java object identity is not modelled) |
| `QuakeAdapter.FormatLocation` | app/src/main/java/com/example/android/quakereport/EarthquakeAdapter.java:125-132 | without "km " the place text is returned unchanged; with "km " the result is trimmed, the cut is in range, and the text after the first "of " (index 2 when there is none) is the result padded with blanks |
| `QuakeAdapter.FormatOffset` | app/src/main/java/com/example/android/quakereport/EarthquakeAdapter.java:140-147 | without "km " the result is "Near the"; with "km " the result is trimmed, the cut is in range, and the text before the space of the first "of " (the first character when there is none) is the result padded with blanks |
| `QuakeAdapter.SplitAtFirstOf` | app/src/main/java/com/example/android/quakereport/EarthquakeAdapter.java:126-143 | when "of " first occurs at i: the character at i+2 is a space; the prefix, that space and the suffix rebuild the place text; offset = trim(place[..i+2]); location = trim(place[i+3..]); the offset ends in "of" |
| `QuakeAdapter.SplitWithoutOf` | app/src/main/java/com/example/android/quakereport/EarthquakeAdapter.java:126-143 | when "km " occurs and "of " never does: the text has at least 3 characters, offset = trim(place[..1]) and location = trim(place[2..]) |
| `QuakeAdapter.FormattedLinesAreTrimmed` | app/src/main/java/com/example/android/quakereport/EarthquakeAdapter.java:128-143 | in the "km " branch, trimming either line again changes nothing |
| `QuakeAdapter.MagColor` | app/src/main/java/com/example/android/quakereport/EarthquakeAdapter.java:153-185 | the switch is total: bin 1 exactly for floors 0 and 1; bin k exactly for floor k when k is 2 to 9; the 10-plus bin exactly for negative floors and floors of 10 or more |
| `QuakeAdapter.MagFloor` | app/src/main/java/com/example/android/quakereport/EarthquakeAdapter.java:151 | `(int) Math.floor(mag)` is the greatest integer not above the magnitude when that fits in an `int`, and saturates at the `int` bounds otherwise |
| `QuakeAdapter.BinOfMagnitude` | app/src/main/java/com/example/android/quakereport/EarthquakeAdapter.java:149-185 | by magnitude: [0, 2) gives bin 1; [k, k+1) gives bin k for k from 2 to 9; a negative magnitude or one of 10 or more gives the 10-plus bin |
| `QuakeAdapter.MagColorMonotone` | app/src/main/java/com/example/android/quakereport/EarthquakeAdapter.java:153-185 | over non-negative floors, a larger floor never gets a lower bin |
| `QuakeAdapter.Row.constructor` | app/src/main/java/com/example/android/quakereport/EarthquakeAdapter.java:51-53 | a newly inflated row starts with five empty text slots |
| `QuakeAdapter.EarthquakeAdapter.constructor` | app/src/main/java/com/example/android/quakereport/EarthquakeAdapter.java:32-34 | the adapter keeps the list of records it is given, in order |
| `QuakeAdapter.EarthquakeAdapter.GetView` | app/src/main/java/com/example/android/quakereport/EarthquakeAdapter.java:47-95 | returns the recycled row when there is one and a fresh row otherwise; changes only that row; afterwards its badge is the bin of the record's magnitude floor, its offset and location are formatOffset and formatLocation of the place text, and its magnitude, date and time slots hold the formatters' output for the record |
| `QuakeAdapter.SplitRecoversParts` | app/src/main/java/com/example/android/quakereport/EarthquakeAdapter.java:125-147 | splitting undoes composing: for a trimmed offset that contains "km ", ends in "of" and has no "of " of its own, and a trimmed location, the text offset + " " + location is shown as exactly that offset and that location (e.g. "86km NE of" and "Rincon, Puerto Rico") |

## Left out

- `EarthquakeLoader.java` is not part of this model. It is a background-thread wrapper around a network fetch and JSON parse that is outside this code. Its only logic is a null-URL check.
- The magnitude text. `DecimalFormat("0.0")` is library floating-point formatting, so it is a function the adapter is given (`magFormat`).
- The date and time text. `formatDate` and `formatTime` (`SimpleDateFormat` with "LLL dd, yyyy" and "h:mm a") depend on the locale and time zone, so they are functions the adapter is given (`dateFormat`, `timeFormat`).
- `QuakeAdapter.MagFloor`: the magnitude is a `real`, not an IEEE double. NaN and the infinities are not modelled (Java maps NaN to 0), and neither is double rounding.
- `QuakeAdapter.MagColor`: gives a bin number from 1 to 10, not the colour integer. `ContextCompat.getColor` and the colour resources are platform lookups.
- View inflation, `findViewById` and the `GradientDrawable` badge are platform calls. A row is modelled as an object with five text fields and one colour field. The layout's initial contents are not modelled: a new row starts with empty texts.
- `getItem`: the `ArrayAdapter` superclass is modelled as a sequence of records indexed by position. Callers pass only positions inside the list.
- `QuakeAdapter.FormatLocation` and `QuakeAdapter.FormatOffset`: indices count Unicode scalar values (Dafny's `char`), not Java's UTF-16 code units. Where "of " occurs, both cuts sit next to its ASCII characters, so the results agree with Java. Without "of ", the cuts are at the fixed indices 1 and 2. They differ from Java when a supplementary character (one that Java stores as two code units) is among the first two characters. For example, on "\U{1F30B}km x" Java gives location "km x" and offset a lone high surrogate. The model gives "m x" and the volcano character. Lone surrogates cannot be represented at all.
- `QuakeAdapter.EarthquakeAdapter.GetView`: Java allows a null record or a null place text, since the constructor does not check its arguments. Dafny records and strings are never null, so that error path is not modelled. With a null record, Java throws `NullPointerException` at the `getmMag` call (EarthquakeAdapter.java line 68) before writing any slot. With a null place text, it first recolours the badge (lines 68-70). It then throws at `location.contains` (line 126) before any `setText`, so the row keeps its new colour with its old texts.
