# KbMousePeripheral in Dafny

This project models the report-encoding core of `KbMousePeripheral`. That class is a Bluetooth Low Energy HID peripheral that acts as a mouse and a keyboard at once. It turns "move the pointer", "type this text" and "press this key" into fixed-layout HID input reports and hands them to the Bluetooth transport in order.

The project has five modules:

- `HidReports` (`hid_reports.dfy`) holds the pieces both reports share:
  - the report IDs (mouse 1, keyboard 2) and the byte positions inside a report;
  - the field sizes the report descriptor declares, from which the 5-byte and 9-byte lengths follow;
  - the axis range -127..127 and the Java `(byte)` narrowing cast;
  - the mouse report and the key-down and key-up reports, as values.

  `DecodeMouseReport`, a host-side reading of the mouse report, inverts the builder (`MouseReportDecodes`, `DecodedMouseReportIsBuilt`).
- `KeyMap` (`key_map.dfy`) holds the two static lookups `modifier` and `keyCode` for US-layout characters, with the properties of the table stated as lemmas.
- `KeySequence` (`key_sequence.dfy`) specifies what `sendKeys` sends, as a sequence of key events:
  - a press per character;
  - a release before a character equal to the one before it;
  - a final release.

  Each event is then rendered as a report. The lemmas cover:
  - the position of every press;
  - what comes right before each press;
  - the number of reports;
  - the final release;
  - the two-character cases.
- `MouseDedup` (`mouse_dedup.dfy`) states the mouse repeat filter as a step from (cached report, new report) to (reports sent, new cache). It gives the filter both as written and as evidently intended (see Findings).
- `Peripheral` (`peripheral.dfy`) holds the class `KbMousePeripheral`:
  - the final `lastSent` array, which caches the last mouse report;
  - an `emptyReport` array for the key-up report;
  - `sent`, the sequence of reports handed to the transport.

  Its methods `MovePointer`, `SendKeys`, `SendKeyDown` and `SendKeyUp` are proved against the functions above. `MovePointer` proves inside its body that the repeat filter's drop branch is never taken.

The repeat filter at `KbMousePeripheral.java:155-158` is evidently meant to drop repeated idle mouse reports. As written it also compares the report-ID byte, which line 149 always sets to 1, so it never drops anything (see Findings). `MovePointer` models the code as written; `MovePointerIntended` models the payload-only comparison.

## Model

| member | source | states |
|---|---|---|
| `HidReports.ToByte` | lib/src/main/java/jp/kshoji/blehid/KbMousePeripheral.java:150-153 | the `(byte)` cast keeps the value modulo 256 and leaves every value in -128..127 unchanged |
| `HidReports.Clamp` | lib/src/main/java/jp/kshoji/blehid/KbMousePeripheral.java:131-136 | the clamped value lies in -127..127, equals the input when the input is in range, and is the in-range value nearest the input |
| `HidReports.ButtonBits` | lib/src/main/java/jp/kshoji/blehid/KbMousePeripheral.java:137-150 | the button byte is below 8, bit 0 is set iff left is down, bit 1 iff right, bit 2 iff middle |
| `HidReports.MouseReport` | lib/src/main/java/jp/kshoji/blehid/KbMousePeripheral.java:148-153 | a mouse report has 5 bytes (the declared field sizes), report ID 1, a button byte below 8 and three axes in -127..127 |
| `HidReports.MouseReportDecodes` | lib/src/main/java/jp/kshoji/blehid/KbMousePeripheral.java:36-58 | reading a built report by the descriptor's layout gives back the clamped motion and the exact buttons; in-range motion comes back unchanged |
| `HidReports.DecodedMouseReportIsBuilt` | lib/src/main/java/jp/kshoji/blehid/KbMousePeripheral.java:36-58 | every report the descriptor's reading accepts is exactly the report built from what it reads |
| `HidReports.KeyDownReport` | lib/src/main/java/jp/kshoji/blehid/KbMousePeripheral.java:453-460 | a key-down report has 9 bytes, report ID 2, the modifier at byte 1, the usage code at byte 3 and zero everywhere else |
| `HidReports.KeyUpReportIsEmpty` | lib/src/main/java/jp/kshoji/blehid/KbMousePeripheral.java:462-470 | the key-up report that `EMPTY_REPORT` holds once its report ID is set is the key-down report of modifier 0 and usage 0: 9 bytes, report ID 2, every other byte zero |
| `KeyMap.Modifier` | lib/src/main/java/jp/kshoji/blehid/KbMousePeripheral.java:209-262 | the result is Shift exactly when the string is one capital letter or one shifted symbol, and no modifier otherwise |
| `KeyMap.KeyCode` | lib/src/main/java/jp/kshoji/blehid/KbMousePeripheral.java:270-424 | every usage code lies in 0..0x38 and is never 0x29 (Escape) or 0x32 (non-US hash); the value of every listed character is pinned by the lemmas below |
| `KeyMap.LetterKeyCode` | lib/src/main/java/jp/kshoji/blehid/KbMousePeripheral.java:272-349 | the letter cases give codes in 0..0x1D |
| `KeyMap.SymbolKeyCode` | lib/src/main/java/jp/kshoji/blehid/KbMousePeripheral.java:350-422 | the remaining cases give codes in 0..0x38, never 0x29 or 0x32 |
| `KeyMap.KeyCodeLowerCase` | lib/src/main/java/jp/kshoji/blehid/KbMousePeripheral.java:272-349 | lower-case letters map to 0x04..0x1D in alphabetical order |
| `KeyMap.KeyCodeUpperCase` | lib/src/main/java/jp/kshoji/blehid/KbMousePeripheral.java:272-349 | capital letters map to 0x04..0x1D in alphabetical order |
| `KeyMap.LetterCasesShareKey` | lib/src/main/java/jp/kshoji/blehid/KbMousePeripheral.java:211-258 | a letter and its capital share a usage code; only the capital holds Shift |
| `KeyMap.KeyCodeDigits` | lib/src/main/java/jp/kshoji/blehid/KbMousePeripheral.java:350-379 | digits 1..9 map to 0x1E..0x26 and 0 to 0x27 |
| `KeyMap.KeyCodeControlAndSpace` | lib/src/main/java/jp/kshoji/blehid/KbMousePeripheral.java:380-387 | newline, backspace, tab and space map to 0x28, 0x2A, 0x2B and 0x2C |
| `KeyMap.KeyCodeZeroIffUnmapped` | lib/src/main/java/jp/kshoji/blehid/KbMousePeripheral.java:421-422 | the usage code is 0 exactly for the characters the table does not list |
| `KeyMap.ShiftedSymbolsShareKey` | lib/src/main/java/jp/kshoji/blehid/KbMousePeripheral.java:350-420 | for each of the 21 digit-row and punctuation keys both of its characters get the key's usage code (0x1E..0x27, 0x2D..0x31, 0x33..0x38); Shift is held for the shifted character and not for the other |
| `KeySequence.CharReport` | lib/src/main/java/jp/kshoji/blehid/KbMousePeripheral.java:433-437 | the report for a character is a keyboard report carrying that character's modifier and usage code |
| `KeySequence.Presses` | lib/src/main/java/jp/kshoji/blehid/KbMousePeripheral.java:432-444 | the events of the loop, one per character at least, the last being the press of the last character; `PressesLength`, `PressesAt` and `PressesBefore` give the count, every press's position and what comes right before it |
| `KeySequence.TypedEvents` | lib/src/main/java/jp/kshoji/blehid/KbMousePeripheral.java:430-446 | all events of typing a text: more events than characters, and the last one a release |
| `KeySequence.TypedReports` | lib/src/main/java/jp/kshoji/blehid/KbMousePeripheral.java:430-446 | all reports typing a text sends: more reports than characters, every one a keyboard report, and the last one the key-up report |
| `KeySequence.PressesLength` | lib/src/main/java/jp/kshoji/blehid/KbMousePeripheral.java:432-444 | before the final release the text produces one event per character plus one per repeated character |
| `KeySequence.TypedReportsLength` | lib/src/main/java/jp/kshoji/blehid/KbMousePeripheral.java:430-446 | typing a text sends its length plus the number of repeats plus one reports |
| `KeySequence.PressesAt` | lib/src/main/java/jp/kshoji/blehid/KbMousePeripheral.java:432-443 | character i is pressed at position i plus the repeats up to i, in input order, and the first character is pressed first |
| `KeySequence.PressesBefore` | lib/src/main/java/jp/kshoji/blehid/KbMousePeripheral.java:439-442 | the event just before a press is a release exactly when the character repeats the previous one; otherwise it is the previous character's press |
| `KeySequence.PressesReportsSnoc` | lib/src/main/java/jp/kshoji/blehid/KbMousePeripheral.java:433-443 | one more character appends its key-down report, preceded by a key-up report exactly when it equals the character before |
| `KeySequence.TypedEndsReleased` | lib/src/main/java/jp/kshoji/blehid/KbMousePeripheral.java:445 | the last event is a release and the last report is the key-up report |
| `KeySequence.TypedReportsShape` | lib/src/main/java/jp/kshoji/blehid/KbMousePeripheral.java:434-437 | every report typing sends has 9 bytes, report ID 2 and zero reserved and unused key bytes |
| `KeySequence.TypedEmpty` | lib/src/main/java/jp/kshoji/blehid/KbMousePeripheral.java:430-446 | an empty text sends the key-up report alone |
| `KeySequence.TypedTwoDifferent` | lib/src/main/java/jp/kshoji/blehid/KbMousePeripheral.java:432-445 | "ab" sends press a, press b, release |
| `KeySequence.TypedTwoSame` | lib/src/main/java/jp/kshoji/blehid/KbMousePeripheral.java:439-445 | "aa" sends press a, release, press a, release |
| `KeySequence.UnmappedCharIsKeyUp` | lib/src/main/java/jp/kshoji/blehid/KbMousePeripheral.java:421-422 | an unlisted character's key-down report is byte for byte the key-up report |
| `MouseDedup.AsWrittenStep` | lib/src/main/java/jp/kshoji/blehid/KbMousePeripheral.java:155-164 | a step either sends nothing and keeps the cache, or sends exactly the new report and caches it |
| `MouseDedup.IntendedStep` | lib/src/main/java/jp/kshoji/blehid/KbMousePeripheral.java:155-164 | the same two outcomes under the payload-only comparison |
| `MouseDedup.SuppressedAsWritten` | lib/src/main/java/jp/kshoji/blehid/KbMousePeripheral.java:155-156 | on five-byte reports it holds exactly when the ten byte comparisons hold, and then the new report's ID is not 1 |
| `MouseDedup.AsWrittenAlwaysSends` | lib/src/main/java/jp/kshoji/blehid/KbMousePeripheral.java:149-158 | whatever is cached, the drop test fails for every built mouse report, so the report is sent and cached |
| `MouseDedup.IdleRepeatCounterexample` | lib/src/main/java/jp/kshoji/blehid/KbMousePeripheral.java:155-158 | two idle movements from the fresh cache are both sent as written, and neither under the intended comparison |
| `MouseDedup.IntendedSendsActivity` | lib/src/main/java/jp/kshoji/blehid/KbMousePeripheral.java:155-164 | with the intended comparison a report with motion or a pressed button is always sent and cached |
| `MouseDedup.IntendedIdleAfterActivity` | lib/src/main/java/jp/kshoji/blehid/KbMousePeripheral.java:155-164 | with the intended comparison, after activity the first idle report is sent once and the next idle report is dropped |
| `MouseDedup.IntendedIdleAtStart` | lib/src/main/java/jp/kshoji/blehid/KbMousePeripheral.java:107 | with the intended comparison an idle movement right after construction sends nothing |
| `MouseDedup.IntendedCacheTracksPayload` | lib/src/main/java/jp/kshoji/blehid/KbMousePeripheral.java:159-163 | with the intended comparison the cached payload always equals the newest report's payload |
| `Peripheral.ClampAxis` | lib/src/main/java/jp/kshoji/blehid/KbMousePeripheral.java:131-136 | the two tests on a motion value produce its clamp to -127..127 |
| `Peripheral.ButtonByte` | lib/src/main/java/jp/kshoji/blehid/KbMousePeripheral.java:137-150 | or-ing 1, 2 and 4 into a zero byte and masking with 7 gives the button bits |
| `Peripheral.KbMousePeripheral.constructor` | lib/src/main/java/jp/kshoji/blehid/KbMousePeripheral.java:107 | a new peripheral has an all-zero five-byte cache and has sent nothing |
| `Peripheral.KbMousePeripheral.AddInputReport` | lib/src/main/java/jp/kshoji/blehid/KbMousePeripheral.java:164 | handing a report over appends its current bytes to the sent reports |
| `Peripheral.KbMousePeripheral.BuildMouseReport` | lib/src/main/java/jp/kshoji/blehid/KbMousePeripheral.java:131-153 | the new array holds the mouse report of the clamped motion and the buttons |
| `Peripheral.KbMousePeripheral.MovePointer` | lib/src/main/java/jp/kshoji/blehid/KbMousePeripheral.java:129-165 | every call sends exactly one report, that report is cached in `lastSent`, and the key-up report is untouched; the drop branch is proved dead |
| `Peripheral.KbMousePeripheral.MovePointerIntended` | lib/src/main/java/jp/kshoji/blehid/KbMousePeripheral.java:155-164 | sending and caching follow `IntendedStep` from the old cache |
| `Peripheral.KbMousePeripheral.BuildKeyReport` | lib/src/main/java/jp/kshoji/blehid/KbMousePeripheral.java:454-457 | the new array is the key-down report of the given modifier and usage code |
| `Peripheral.KbMousePeripheral.SendKeyDown` | lib/src/main/java/jp/kshoji/blehid/KbMousePeripheral.java:453-460 | exactly one key-down report is appended and the mouse cache is untouched |
| `Peripheral.KbMousePeripheral.SendKeyUp` | lib/src/main/java/jp/kshoji/blehid/KbMousePeripheral.java:462-470 | exactly one key-up report is appended, the shared report's bytes 1..8 stay zero, and the mouse cache is untouched |
| `Peripheral.KbMousePeripheral.SendKeys` | lib/src/main/java/jp/kshoji/blehid/KbMousePeripheral.java:430-446 | the reports appended are exactly `TypedReports(text)`, whose order, repeats, length and final release the `KeySequence` lemmas state; the shared template ends as the key-up report; the mouse cache is untouched |

## Left out

- The report descriptor bytes (`REPORT_MAP`) are not modelled byte by byte. Only the field sizes and logical ranges that fix the two report layouts are kept, as constants in `HidReports`.
- The constructor's call to the peripheral base class is not modelled. That class sets up the Bluetooth GATT service, the advertising and the transmission. It is not part of this model, and neither is `getReportMap`.
- `addInputReport` belongs to the base class, which is not part of this model. It is modelled as appending a copy of the report's bytes to `sent`. Transmission, its queueing and its timing are left out.
- `onOutputReport` only writes a log line, so it is left out.
- `EMPTY_REPORT` is a static array shared by every instance and handed to the transport by reference. The model keeps one such array per peripheral and records a copy of its bytes in `sent`. Aliasing across instances and later writes through the shared reference are not modelled.
- Thread safety is not modelled. Every operation is one atomic step on the object.
- Java strings are sequences of UTF-16 code units, while Dafny's `string` holds Unicode scalar values. A lone surrogate and characters outside the Basic Multilingual Plane are therefore not modelled as Java sees them. For every listed character the lookups agree.
- A `null` text passed to `sendKeys` throws a NullPointerException in the source. The model's `string` cannot be null.
- The key constants `KEY_F1` and the rest are kept as constants. No operation of the core uses them.

## Findings

| source | as written | input that shows it | evidently intended | confidence | as-written member | corrected member |
|---|---|---|---|---|---|---|
| lib/src/main/java/jp/kshoji/blehid/KbMousePeripheral.java:155-158 | the drop test requires all five bytes of the cached and the new report to be zero, report ID included; the new report's ID is always 1, so the test never passes and every idle movement is sent | `movePointer(0, 0, 0, false, false, false)` twice right after construction: both calls send `[1, 0, 0, 0, 0]` | compare only the payload bytes 1..4, so an idle report is sent once after activity and not repeated | medium, not executed | `MouseDedup.IdleRepeatCounterexample` | `MouseDedup.IntendedStep` |
