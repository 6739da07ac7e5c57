# TimePreference — a Dafny model

`TimePreference` is an Android `DialogPreference` that edits a time of day
(hour, minute, second) in a picker dialog and persists it as a colon-separated
string. This project models its logic:

- **Decimal** (`decimal.dfy`): `String.valueOf(int)` and `Integer.parseInt`
  (optional sign, ASCII digits, 32-bit range), the primitives the codec is
  built from.
- **Splitting** (`splitting.dfy`): `String.split(":")` as Java performs it.
  A text without the separator comes back whole. Otherwise the text is cut at
  every separator and the trailing empty fields are dropped.
- **TimeCodec** (`codec.dfy`): the static getters `getHour`, `getMinute` and
  `getSecond`; the persisted string built in `onDialogClosed`; and the
  `HH:mm:ss` summary of `getSummary`.
- **TimePreference** (`time_preference.dfy`): the fields `lastHour`,
  `lastMinute` and `lastSecond` plus the key/value store, changed by the two
  transitions `onSetInitialValue` and `onDialogClosed`.

The store is an `Option<string>`. `shouldPersist()` is a boolean parameter.
The change listener is a function `string -> bool`; a preference without a
listener passes one that always accepts. The picker's three values are an
input `Time`. A getter that throws is an `Err` result. A transition that
throws returns the state it leaves behind together with the error, because
`onSetInitialValue` assigns the fields one at a time.

The persisted string is built as `onDialogClosed` builds it. A two-digit
minute keeps both colons and leaves the seconds unpadded: `{14,30,5}`
becomes `"14:30:5"`. A one-digit minute is written as `"0"` plus the digit,
and the colon and the seconds are dropped: `{9,5,3}` becomes `"9:05"`. A restore of such a string
fails in `getSecond`.

## Model

| member | source | states |
|---|---|---|
| Decimal.NatToString | extrapreferences/src/main/java/net/zahi/extrapreferences/TimePreference.java:103-104 | the decimal text of a natural number is non-empty and all digits, starts with '0' only for zero, and is one character long exactly when the number is below 10 |
| Decimal.NatToStringValue | extrapreferences/src/main/java/net/zahi/extrapreferences/TimePreference.java:103-104 | the digits printed for `n` denote `n` |
| Decimal.IntToString | extrapreferences/src/main/java/net/zahi/extrapreferences/TimePreference.java:103-104 | `String.valueOf(int)` gives a text that is digits with a leading '-' exactly for negative values, whose magnitude has no leading zero (only 0 starts with '0'), and it is one character long exactly when the value is 0..9; this is the test line 104 makes |
| Decimal.ParseInt | extrapreferences/src/main/java/net/zahi/extrapreferences/TimePreference.java:51 | `Integer.parseInt` yields a value exactly for an optional '+' or '-' followed by at least one digit whose signed value is a 32-bit `int`, and that value is the signed value of the digits; every other text, the empty one included, fails |
| Decimal.ParseIntOfIntToString | extrapreferences/src/main/java/net/zahi/extrapreferences/TimePreference.java:103-104 | parsing the text `String.valueOf` prints gives back every `int` |
| Splitting.Split | extrapreferences/src/main/java/net/zahi/extrapreferences/TimePreference.java:49 | cutting at every ':' gives separator-free fields that join back to the text, and a single field exactly when the text has no ':' |
| Splitting.SplitOfJoin | extrapreferences/src/main/java/net/zahi/extrapreferences/TimePreference.java:49 | splitting separator-free fields after joining them gives the same fields |
| Splitting.DropTrailingEmpty | extrapreferences/src/main/java/net/zahi/extrapreferences/TimePreference.java:49 | what `split` keeps is a prefix of the fields, everything it drops is empty, and the last kept field is non-empty |
| Splitting.JavaSplitOfJoin | extrapreferences/src/main/java/net/zahi/extrapreferences/TimePreference.java:49 | Java's split of joined fields whose last field is non-empty is those fields |
| Splitting.JavaSplit | extrapreferences/src/main/java/net/zahi/extrapreferences/TimePreference.java:49 | `split(":")` returns a text without ':' whole, even the empty text; otherwise it returns the plain split with all its trailing empty fields dropped, so the last field kept is non-empty (exactly the fields of a joined list whose last field is non-empty, by `Splitting.JavaSplitOfJoin`) |
| TimeCodec.Field | extrapreferences/src/main/java/net/zahi/extrapreferences/TimePreference.java:48-64 | a getter returns a 32-bit value or throws, and its error names the field index it reads |
| TimeCodec.GetHour | extrapreferences/src/main/java/net/zahi/extrapreferences/TimePreference.java:48-52 | `getHour` succeeds exactly when field 0 of the text parses as an `int`, and returns that value; otherwise it throws for index 0 |
| TimeCodec.GetMinute | extrapreferences/src/main/java/net/zahi/extrapreferences/TimePreference.java:54-58 | `getMinute` succeeds exactly when a field 1 exists and parses as an `int`, and returns that value; otherwise it throws for index 1 |
| TimeCodec.GetSecond | extrapreferences/src/main/java/net/zahi/extrapreferences/TimePreference.java:60-64 | `getSecond` succeeds exactly when a field 2 exists and parses as an `int`, and returns that value; otherwise it throws for index 2 |
| TimeCodec.FieldAgreesWithPlainSplit | extrapreferences/src/main/java/net/zahi/extrapreferences/TimePreference.java:48-64 | a getter succeeds exactly when its field exists in the plain split and parses, with that value; dropping trailing empty fields never changes a returned value |
| TimeCodec.FieldOfJoin | extrapreferences/src/main/java/net/zahi/extrapreferences/TimePreference.java:48-64 | each getter reads exactly its own field index of a colon-joined text: past the end it throws for the missing field, otherwise it parses that field or throws for it |
| TimeCodec.Decode | extrapreferences/src/main/java/net/zahi/extrapreferences/TimePreference.java:130-132 | decoding succeeds exactly when all three getters succeed, and then gives 32-bit fields; otherwise its error is that of the first getter to throw, in the order hour, minute, second |
| TimeCodec.DecodeValue | extrapreferences/src/main/java/net/zahi/extrapreferences/TimePreference.java:130-132 | a successful decode assigns hour, minute and second the parsed fields 0, 1 and 2 of the text, whatever fields follow them |
| TimeCodec.DecodeThreeFields | extrapreferences/src/main/java/net/zahi/extrapreferences/TimePreference.java:48-64 | decoding `a:b:c` for three `int` texts gives hour `a`, minute `b`, second `c` |
| TimeCodec.Encode | extrapreferences/src/main/java/net/zahi/extrapreferences/TimePreference.java:103-104 | the persisted string splits into hour, minute and second when the minute is not 0..9, and into only the hour and the "0"-padded minute when it is |
| TimeCodec.DecodeEncode | extrapreferences/src/main/java/net/zahi/extrapreferences/TimePreference.java:103-104 | decoding the persisted string gives the time back exactly when the minute is not 0..9; for a minute in 0..9 the hour and minute decode but `getSecond` throws for the missing third field |
| TimeCodec.EncodeExamples | extrapreferences/src/main/java/net/zahi/extrapreferences/TimePreference.java:104 | {14,30,5} is persisted as "14:30:5"; {9,5,3} as "9:05", which does not decode |
| TimeCodec.EncodeFixed | extrapreferences/src/main/java/net/zahi/extrapreferences/TimePreference.java:104 | the corrected persisted string always splits into hour, padded minute and second |
| TimeCodec.DecodeEncodeFixed | extrapreferences/src/main/java/net/zahi/extrapreferences/TimePreference.java:104 | with the corrected persisted string, decoding gives back every 32-bit time |
| TimeCodec.TwoDigits | extrapreferences/src/main/java/net/zahi/extrapreferences/TimePreference.java:145 | an `HH`, `mm` or `ss` field is two digits that denote the number |
| TimeCodec.Summary | extrapreferences/src/main/java/net/zahi/extrapreferences/TimePreference.java:137-147 | the summary of a wall-clock time is 8 characters, digits with ':' at positions 2 and 5 |
| TimeCodec.DecodeSummary | extrapreferences/src/main/java/net/zahi/extrapreferences/TimePreference.java:137-147 | decoding a summary gives back the time it shows, so distinct times have distinct summaries |
| TimeCodec.SummaryOfDecodedEncode | extrapreferences/src/main/java/net/zahi/extrapreferences/TimePreference.java:137-147 | a persisted wall-clock time with a two-digit minute decodes to a time whose summary is that of the original |
| TimePreference.Fresh | extrapreferences/src/main/java/net/zahi/extrapreferences/TimePreference.java:42-44 | a new preference holds 0:00:00, so its summary is "00:00:00" |
| TimePreference.SetInitialValue | extrapreferences/src/main/java/net/zahi/extrapreferences/TimePreference.java:117-135 | the default is stored only when not restoring and `shouldPersist()` holds; the fields become the decoded text (the persisted value when restoring and one exists, else the default or "00:00:00"); when a getter throws, the fields before it are assigned and those after it keep their old values |
| TimePreference.DialogClosed | extrapreferences/src/main/java/net/zahi/extrapreferences/TimePreference.java:92-110 | cancel changes nothing and consults neither listener nor store; confirm takes the picked fields first, then offers the encoded string to the listener, and the store changes exactly when the listener accepts |
| TimePreference.ConfirmThenRestore | extrapreferences/src/main/java/net/zahi/extrapreferences/TimePreference.java:96-108 | an accepted confirmation with a minute outside 0..9 is restored exactly by a later `onSetInitialValue` |
| TimePreference.ConfirmShortMinuteThenRestore | extrapreferences/src/main/java/net/zahi/extrapreferences/TimePreference.java:104 | an accepted confirmation with a minute in 0..9 makes a later restore throw for field 2 after assigning hour and minute |
| TimePreference.VetoThenRestore | extrapreferences/src/main/java/net/zahi/extrapreferences/TimePreference.java:106-108 | after a veto the summary shows the picked time but a later restore reads the store as it was before |
| TimePreference.CancelKeepsSummary | extrapreferences/src/main/java/net/zahi/extrapreferences/TimePreference.java:96 | cancelling keeps the summary and the store |
| TimePreference.InitialWithoutDefault | extrapreferences/src/main/java/net/zahi/extrapreferences/TimePreference.java:121-128 | without a default and without restoring, the fields become 0:00:00 and "00:00:00" is stored when the preference persists, otherwise the store is untouched |
| TimePreference.PersistedDefaultRestores | extrapreferences/src/main/java/net/zahi/extrapreferences/TimePreference.java:122-128 | a default persisted while not restoring is what a later restore decodes, with the same outcome |
| TimePreference.ExampleDecode | extrapreferences/src/main/java/net/zahi/extrapreferences/TimePreference.java:130-132 | "9:05:03" decodes to {9,5,3} |
| TimePreference.ExampleSummary | extrapreferences/src/main/java/net/zahi/extrapreferences/TimePreference.java:137-147 | the summary of {9,5,3} is "09:05:03" |
| TimePreference.RestoreExample | extrapreferences/src/main/java/net/zahi/extrapreferences/TimePreference.java:117-135 | restoring the persisted "9:05:03" gives {9,5,3} and the summary "09:05:03" |
| TimePreference.ConfirmExample | extrapreferences/src/main/java/net/zahi/extrapreferences/TimePreference.java:96-108 | confirming {14,30,45} without a listener stores "14:30:45" |

## Left out

- `onCreateDialogView`, `onBindDialogView` and the constructor's button texts: they are dialog plumbing around a third-party picker widget. The picker's output is the `picked` input of `TimePreference.DialogClosed`.
- `onGetDefaultValue`: it only returns the attribute text, which is the `default` input of `TimePreference.SetInitialValue`.
- `super.onDialogClosed` and `setSummary`: these are framework calls. The summary is not stored; it is always `TimeCodec.Summary` of the current fields.
- TimeCodec.Summary: defined only for hour 0..23 and minute and second 0..59. For other values `Calendar` rolls the fields over leniently, and the result depends on the current date and the time zone. Even an in-range time is set on today's date in the default time zone, so a time that falls in a daylight-saving gap on that date (say 02:30:00 on the day the clocks spring forward) is shown shifted ("03:30:00"); the model ignores this and shows the fields as given.
- Decimal.ParseInt: accepts only ASCII digits. `Integer.parseInt` also accepts other Unicode decimal digits.
- `persistString`, `getPersistedString` and `shouldPersist`: the store is an `Option<string>`. The write in `onDialogClosed` is modelled as unconditional. The framework's own `shouldPersist()` checks are not modelled: the one inside `persistString`, and the one inside `getPersistedString`, which returns the default when the preference does not persist (the model reads the store whenever it restores).
- The propagation of a getter's exception to the host: `TimePreference.SetInitialValue` returns the error with the state left behind, and stops there.
- A `picker` that is still null when the dialog closes: the model assumes the dialog view was created.

## Findings

| source | as written | input that shows it | evidently intended | confidence | as-written member | corrected member |
|---|---|---|---|---|---|---|
| extrapreferences/src/main/java/net/zahi/extrapreferences/TimePreference.java:104 | The ":" and the seconds sit inside the second branch of the ternary. A one-character minute therefore yields `hour:0m` with no seconds. | {9,5,3} is persisted as "9:05". On the next restore `getSecond` (line 63) reads field 2, which does not exist, and throws. | Pad the minute and always append ":" and the seconds, giving "9:05:3". | not executed; high: every minute 0..9 breaks the round trip | TimeCodec.DecodeEncode | TimeCodec.DecodeEncodeFixed |

`TimeCodec.EncodeExamples` gives the concrete counterexample. The corrected
encoder is `TimeCodec.EncodeFixed`. `TimePreference.DialogClosed` keeps the
as-written encoder, because it models what `onDialogClosed` persists. The
lemmas `TimePreference.ConfirmThenRestore` and
`TimePreference.ConfirmShortMinuteThenRestore` show how the defect reaches the
state machine.
