# VE.Direct serial scripts, modelled in Dafny

This project models the five Python scripts of the `Testing/` directory. Each
one reads VE.Direct text, the protocol of Victron battery monitors.
VE.Direct is a stream of `TAG TAB value CR LF` lines, and the scripts read it
from a serial port or from a saved log:

- `serialdata_full.py` and `vedirect_raspberry.py` are Tk monitors. Each shows six
  labels (`V`, `I`, `P`, `SOC`, `CE`, `TTG`). Every poll reads lines until
  the port returns nothing, matches each line against
  `^([A-Z0-9]{1,4})\t(.+)$` and rewrites the label of the tag with a
  scaled or tiered value, or with the raw text when the value is not a
  number.
- `serialdata_voltage.py` is a one-label window. It shows the last
  `V TAB millivolts` line as volts with three decimals, and shows `Error`
  when the port raises.
- `vedirect_console.py` prints one reading per voltage line. It skips
  timeouts and stops when the port fails.
- `vedirect_parse.py` reads a saved log. It splits the log into frames at
  blank lines and parses each frame into a tag-to-value dictionary. It
  then prints the first frame's `V` field as volts. When no frame has one,
  or that field is not an integer, it lists the sorted tags of the first
  three frames.

The model keeps the Python semantics the scripts depend on, written out
explicitly:

- ASCII decoding with `errors='ignore'`;
- the whitespace set of `str.strip()`;
- the line boundaries of `str.splitlines()`;
- `$` of a regular expression, which also matches before a final newline;
- `re.split(..., maxsplit=1)`;
- the decimal literal grammar of `float()` and `int()`, with underscores,
  exponents and surrounding whitespace, valued as exact rationals;
- truncation by `int()`;
- insertion order of a `dict`;
- `sorted()` on strings;
- universal-newline translation of a text-mode read.

A serial read is `Line(bytes)` or `Fault`; a timeout is `Line([])`. The
scripts stop a poll at the first empty read. The model splits a run of reads
into polls the same way and proves that the split never changes what the
window shows.

Modules:

- `Wrappers`: the `Option` type and the associativity of sequence concatenation.
- `PyStr`: the string primitives.
- `Numerals`: `str`, `int`, `float` and the `.3f` voltage text.
- `Serial`: reads and polls.
- `TagLine`: the two line patterns.
- `ValueFormat`: the label text of each tag.
- `Monitor`: the six-label windows.
- `VoltageLabel`: the voltage window.
- `Console`: the console logger.
- `LogBlock`: `parse_vedirect_block`.
- `KeyOrder`: `sorted()`.
- `LogParse`: `main` of the log parser.

## Model

| member | source | states |
|---|---|---|
| PyStr.AsciiDecode | Testing/serialdata_full.py:79 | The decoded line is ASCII and no longer than the bytes, and it keeps every byte when all of them are below 128. |
| PyStr.AsciiRoundTrip | Testing/serialdata_full.py:79 | Decoding the bytes of any ASCII string gives that string back. |
| PyStr.AsciiDecodeIgnoresHighByte | Testing/serialdata_full.py:79 | With `errors='ignore'`, a byte above 127 anywhere in a line disappears without a trace. |
| PyStr.StripIsPadding | Testing/serialdata_full.py:79 | `strip()` removes only whitespace, and only in front of and behind its result. |
| PyStr.Strip | Testing/serialdata_full.py:79 | `strip()` leaves no whitespace at either edge and never lengthens the text. |
| PyStr.StripPadded | Testing/vedirect_parse.py:26 | Whitespace around a text without edge whitespace is removed exactly. |
| PyStr.StripIdempotent | Testing/vedirect_parse.py:20-21 | Stripping a line that was already stripped with its block changes nothing. |
| PyStr.SplitLines | Testing/vedirect_parse.py:20 | No line of `splitlines()` holds a line break, and a non-empty text gives at least one line. |
| PyStr.SplitLinesOfJoin | Testing/vedirect_parse.py:20 | Lines each ended by `\n`, `\r\n` or `\r` split back into exactly those lines. |
| PyStr.SplitLinesOfUnterminated | Testing/vedirect_parse.py:20 | Non-empty lines whose last terminator was stripped off still split back into those lines. |
| PyStr.Find | Testing/vedirect_parse.py:40 | The search returns the leftmost occurrence of the separator, and returns nothing only when there is none. |
| PyStr.Split | Testing/vedirect_parse.py:40 | `split(sep)` gives at least one piece, and no piece contains the separator. Each piece before the last ends at the leftmost separator: the piece followed by all but the last character of the separator still holds no separator. |
| PyStr.JoinOfSplit | Testing/vedirect_parse.py:40 | Joining the pieces of a split with the separator restores the text. |
| PyStr.RemoveAll | Testing/vedirect_parse.py:34 | `replace(c, '')` keeps every other character exactly as often as it occurred, and no `c`. |
| PyStr.RemoveAllAppend | Testing/vedirect_parse.py:34 | Removing `c` from two texts joined is removing it from each, in order. |
| PyStr.LeftmostCut | Testing/vedirect_parse.py:40 | The text before the leftmost separator, with all but the last character of the separator after it, holds no separator. |
| PyStr.RemoveAllAbsent | Testing/vedirect_parse.py:34 | Removing a character that does not occur changes nothing. |
| PyStr.BeforeFinalNewline | Testing/serialdata_full.py:41 | `$` anchors before one final newline when the line ends in one, and at the end of the line otherwise. |
| Serial.BatchLength | Testing/serialdata_full.py:75-78 | A poll consumes the reads that carry a line, up to and including the first empty or failing read, or the whole run when there is none. |
| Serial.Payloads | Testing/serialdata_full.py:76-78 | The lines a run carries are non-empty, and there is at most one per read. |
| Serial.PayloadsAppend | Testing/serialdata_full.py:75-78 | The lines of two runs of reads are those of the first, then those of the second. |
| Numerals.NatToString | Testing/serialdata_full.py:112 | `str(n)` is a non-empty run of digits whose value is `n`, with no leading zero unless `n` is 0. |
| Numerals.IntToString | Testing/serialdata_full.py:112 | `str(n)` is a minus sign exactly when `n` is negative, then the digits of `|n|` without leading zeros. |
| Numerals.CanonicalIsNatToString | Testing/serialdata_full.py:112 | A run of digits with no leading zero, or the single digit `0`, is exactly `str()` of its value. So a text said to be such digits of `n` is `str(n)`. |
| Numerals.ParseIntOfIntToString | Testing/vedirect_parse.py:51 | `int(str(n)) == n` for every integer. |
| Numerals.ParseFloatOfIntToString | Testing/serialdata_full.py:88 | `float(str(n)) == n` for every integer. |
| Numerals.ScanDigitPart | Testing/serialdata_full.py:88 | A digit part starts with a digit and holds only digits and underscores. The digits it collects are decimal digits, and it collects none exactly when it scans nothing. |
| Numerals.ParseSignedDigitsOf | Testing/vedirect_parse.py:51 | An optional minus sign followed by digits reads as that signed number. |
| Numerals.ParseInt | Testing/vedirect_parse.py:51-53 | `int()` of a blank text raises `ValueError`. |
| Numerals.ParseMagnitudeOfPointed | Testing/serialdata_full.py:88 | `whole.frac` reads as the digits of `whole` and `frac` together, scaled down by the length of `frac`. |
| Numerals.ParseFloat | Testing/serialdata_full.py:87-91 | `float()` accepts a text only when something is left once it is stripped. |
| Numerals.ParseFloatNeedsNumeral | Testing/serialdata_full.py:87-91 | A stripped text that does not start with a digit, a sign or a point raises `ValueError`. |
| Numerals.Trunc | Testing/serialdata_full.py:108 | `int(x)` on a float truncates toward zero. |
| Numerals.Pad3 | Testing/serialdata_voltage.py:53 | The three decimals of the voltage text are the thousandths, with leading zeros. |
| Numerals.FormatMillivolts | Testing/serialdata_voltage.py:51-53 | The `.3f` text of `mv / 1000` starts with a minus sign exactly when `mv` is negative, and ends with a point and three digits. |
| Numerals.MillivoltsDigits | Testing/serialdata_voltage.py:51-53 | After the optional sign, the text is the whole volts of `|mv|` without leading zeros, a point, and the remaining millivolts as three digits. |
| Numerals.VoltsBodyDigits | Testing/serialdata_voltage.py:51-53 | The unsigned text of `m` millivolts is `m / 1000` without leading zeros, a point, and `m % 1000` as three digits. |
| Numerals.WorkedMillivolts | Testing/serialdata_voltage.py:51-53 | 12800 millivolts are `12.800` and -5 are `-0.005`. |
| Numerals.MillivoltsMagnitude | Testing/serialdata_voltage.py:51-53 | The unsigned voltage text reads back as exactly the millivolts divided by 1000. Python prints the same text below 2^43 * 1000 millivolts (see Left out). |
| Numerals.ParseFloatOfMillivolts | Testing/serialdata_voltage.py:51-53 | The model's three-decimal voltage text reads back as exactly `mv / 1000` for every integer `mv`. Python prints the same text when `|mv| < 2^43 * 1000` (see Left out). |
| TagLine.CleanLine | Testing/serialdata_full.py:79 | A decoded and stripped line is ASCII, with no whitespace at either edge. |
| TagLine.MatchTagLine | Testing/serialdata_full.py:41 | A match gives a tag of 1 to 4 of `[A-Z0-9]` and a value of at least one character without a newline, and the line is that tag, a tab and that value. |
| TagLine.MatchTagLineAccepts | Testing/serialdata_full.py:41 | Every tag, tab and value is matched with that tag and value, with or without a final newline. |
| TagLine.ClassifyLine | Testing/serialdata_full.py:79-83 | A classified serial line is exactly its tag, a tab and its value once it is decoded and stripped. |
| TagLine.CleanWireLine | Testing/serialdata_full.py:79 | A line sent as ASCII and ended with CR LF comes out of decoding and stripping as sent. |
| TagLine.ClassifyWireLine | Testing/vedirect_raspberry.py:63-67 | The field `tag TAB value CR LF` as the device sends it is read back as that tag and value. |
| TagLine.MatchVoltageLine | Testing/serialdata_voltage.py:20 | A voltage match is `V`, a tab and digits, and its millivolts are those digits' value. |
| TagLine.MatchVoltageLineAccepts | Testing/serialdata_voltage.py:20 | `V TAB digits` matches, with or without a final newline, with the digits' value as millivolts, for any non-empty run of digits. |
| TagLine.ClassifyVoltageIsTagLine | Testing/serialdata_voltage.py:44-50 | A serial line the voltage scripts read as millivolts is read by the full monitors as the `V` field, with a value of digits worth those millivolts. |
| TagLine.VoltageLineIsTagLine | Testing/vedirect_console.py:18 | Every voltage line is also a line of the full tag pattern, with tag `V` and the same millivolts as its value. |
| TagLine.ClassifyVoltageWire | Testing/vedirect_console.py:36-41 | The voltage field as the device sends it is read as its millivolts. |
| ValueFormat.TimeToGo | Testing/serialdata_full.py:107-118 | The label is `--` exactly for a negative time. It is `t m` exactly when `0 <= t < 60`, where the number is the digits of `t` without leading zeros. From 60 it is `t / 60` hours with one decimal exactly when `t < 1440`, and otherwise `t / 1440` days with one decimal. Hours lie in [1, 24) and days are at least 1. |
| ValueFormat.TimeToGoMonotone | Testing/serialdata_full.py:109-118 | A longer time to go is never shown in a smaller unit. |
| ValueFormat.Normalise | Testing/serialdata_full.py:87-121 | A value that is not a number is shown as received, and so is any value of a tag with no scaling. Only numbers are scaled. |
| ValueFormat.ScaleOf | Testing/serialdata_full.py:93-106 | A scale exists exactly for `V`, `I`, `P`, `SOC` and `CE`, and its divisor is positive. |
| ValueFormat.ScaleTable | Testing/serialdata_full.py:93-106 | On any numeric value: `V` shows `/1000` with 1 decimal, `I` shows `/1000` with 2, and `P` shows 0 decimals. `SOC` shows `/10` with 1 decimal and `CE` shows `/1000` with 1. |
| ValueFormat.ScaledTag | Testing/serialdata_full.py:87-106 | A number under a tag with a scale is shown by that scale. |
| ValueFormat.TimeToGoTruncates | Testing/serialdata_full.py:108-112 | Time to go is tiered on the exact decimal value truncated toward zero, so anything above -1 and below 60 shows minutes, and -1 or less shows `--`. Python truncates the nearest double instead (see Left out). |
| ValueFormat.MinuteBoundaries | Testing/serialdata_full.py:109-115 | -1 shows `--`, 0 shows `0 m`, 59 shows `59 m` and 60 shows one hour. |
| ValueFormat.DayBoundary | Testing/serialdata_full.py:113-118 | 1439 minutes shows hours and 1440 minutes shows one day. |
| ValueFormat.WorkedVoltage | Testing/vedirect_raspberry.py:76-77 | `V 12800` shows 12.8 with one decimal. |
| ValueFormat.WorkedCurrent | Testing/vedirect_raspberry.py:78-79 | `I -360` shows -0.36 with two decimals. |
| ValueFormat.WorkedTimeToGo | Testing/vedirect_raspberry.py:94-95 | `TTG 1440` shows one day. |
| ValueFormat.WorkedPassthrough | Testing/vedirect_raspberry.py:71-74 | `SOC ERR` is not a number and is shown as received. |
| Monitor.InitialDisplay | Testing/serialdata_full.py:64-70 | The window starts with one label per display tag, six in all, each showing `--`. |
| Monitor.ApplyLine | Testing/serialdata_full.py:80-85 | A line never adds or removes a label. |
| Monitor.ApplyLineOthers | Testing/serialdata_full.py:80-121 | A line rewrites the label of its own tag with the normalised value, and leaves every other label as it was. |
| Monitor.ApplyLines | Testing/serialdata_full.py:75-121 | A poll's lines never add or remove a label. |
| Monitor.LastLineWins | Testing/serialdata_full.py:75-121 | After any lines, each label shows the normalised value of the last line for its tag, or its earlier text when none came. |
| Monitor.IgnoredLines | Testing/serialdata_full.py:80-85 | Lines that do not match, or whose tag has no label, change nothing. |
| Monitor.ApplyLinesAppend | Testing/serialdata_full.py:75-121 | Applying two runs of lines one after the other is applying them together. |
| Monitor.WireFieldShown | Testing/vedirect_raspberry.py:60-98 | A field as the device sends it sets its own tag's label to the normalised value and changes nothing else. |
| Monitor.UpdateValues | Testing/serialdata_full.py:73-125 | One poll consumes the reads up to the first empty or failing read, and applies their lines in order. |
| Monitor.Poll | Testing/serialdata_full.py:73-91 | A poll rewrites labels but never adds or removes one. |
| Monitor.Session | Testing/serialdata_full.py:122-125 | A run of polls keeps the set of labels. |
| Monitor.SessionIsFold | Testing/serialdata_full.py:122-125 | Over a run of polls, the window shows every line of the run applied in order, whatever the poll boundaries. Timeouts and faults are skipped. |
| Monitor.SessionShowsLastLine | Testing/vedirect_raspberry.py:49-102 | From the initial window, each label shows the last value for its tag, or `--` when none came, and the window keeps its six labels. |
| VoltageLabel.VoltageText | Testing/serialdata_voltage.py:50-53 | The label text is the three-decimal text of `mv / 1000` followed by ` V`, and the number reads back as exactly `mv / 1000`. This is Python's text below 2^43 * 1000 millivolts. |
| VoltageLabel.FoldVoltageAppend | Testing/serialdata_voltage.py:43-53 | Reading two runs one after the other gives the label reading them together gives. |
| VoltageLabel.LastEventWins | Testing/serialdata_voltage.py:40-59 | The label shows the last voltage, or `Error` when the port raised after it, and keeps its text when neither happened. |
| VoltageLabel.UpdateVoltage | Testing/serialdata_voltage.py:40-59 | One poll consumes the reads up to the first empty or failing read, and a failing read leaves `Error`. |
| VoltageLabel.VoltageSessionIsFold | Testing/serialdata_voltage.py:57-59 | The label after a run of polls does not depend on where the polls split the run. |
| VoltageLabel.WireVoltageShown | Testing/serialdata_voltage.py:44-53 | The voltage field as the device sends it shows its millivolts as volts, whatever the label showed before. |
| Console.ReadingLineReadsBack | Testing/vedirect_console.py:42-44 | A reading is `Voltage: `, then the three-decimal text of `mv / 1000`, which reads back as exactly `mv / 1000`, then ` V`. This is Python's text below 2^43 * 1000 millivolts. |
| Console.Voltages | Testing/vedirect_console.py:30-41 | At most one voltage is taken from each read. |
| Console.Readings | Testing/vedirect_console.py:30-44 | At most one reading is printed per read. |
| Console.ReadingsOfVoltages | Testing/vedirect_console.py:30-44 | The console prints exactly one reading per voltage line, for that line's millivolts, in arrival order, until a fault. |
| Console.ReadingsAppend | Testing/vedirect_console.py:30-44 | A run without faults prints what its first part prints, then what the rest prints. |
| Console.TimeoutPrintsNothing | Testing/vedirect_console.py:32-34 | A timeout prints nothing. |
| Console.TimeoutIgnored | Testing/vedirect_console.py:32-34 | Removing a timeout from anywhere in a run changes no output. |
| Console.TimeoutThenRest | Testing/vedirect_console.py:32-34 | Reading on after a timeout prints what the following reads print. |
| Console.FaultStops | Testing/vedirect_console.py:46-49 | A failing read ends the program, and nothing read after it is printed. |
| Console.Listen | Testing/vedirect_console.py:30-44 | The reading loop prints the readings of the run up to the first fault. |
| Console.WireReadingPrinted | Testing/vedirect_console.py:36-44 | The voltage field as the device sends it prints one reading of its millivolts. |
| LogBlock.SplitField | Testing/vedirect_parse.py:21 | `re.split(r"[\t ]+", t, maxsplit=1)` gives one or two parts. It gives `[t]` exactly when `t` has no tab or space. Otherwise it gives the text before the first separator run and the text after the whole run. |
| LogBlock.ParseLine | Testing/vedirect_parse.py:21-26 | A kept line has a tag that matches the key pattern and a stripped value. |
| LogBlock.ParseLineKept | Testing/vedirect_parse.py:21-25 | A stripped line without a tab or space is dropped. Otherwise the line is kept exactly when the text before its first tab or space matches the key pattern. |
| LogBlock.ParseLineParts | Testing/vedirect_parse.py:21-26 | A kept line is, once stripped, its tag, a run of tabs and spaces, and the rest; the value is that rest stripped. |
| LogBlock.ParseLineKey | Testing/vedirect_parse.py:25 | A tag that comes from a line without line breaks is 1 to 4 of `[A-Z0-9]`. |
| LogBlock.ParseLineOfField | Testing/vedirect_parse.py:21-26 | `tag TAB value` is kept as that tag and value. |
| LogBlock.Lookup | Testing/vedirect_parse.py:49 | A lookup finds nothing exactly when the tag is not among the dictionary's keys. |
| LogBlock.Put | Testing/vedirect_parse.py:26 | Assignment stores the value and leaves every other tag's value alone. An existing tag keeps its place, and a new tag is appended to the key order. |
| LogBlock.PutUnique | Testing/vedirect_parse.py:19-26 | Assignment never makes a tag appear twice. |
| LogBlock.ParseBlock | Testing/vedirect_parse.py:17-27 | A parsed block has distinct tags of 1 to 4 of `[A-Z0-9]`, each with a stripped value. |
| LogBlock.ParseLines | Testing/vedirect_parse.py:20-26 | The dictionary built from the lines has distinct tags that match the key pattern, each with a value without edge whitespace. |
| LogBlock.ParseLinesKeys | Testing/vedirect_parse.py:14 | Lines from `splitlines()` give tags of 1 to 4 of `[A-Z0-9]`, and never a tag ending in the newline `$` would allow. |
| LogBlock.LastFieldWins | Testing/vedirect_parse.py:20-26 | Each tag holds the value of its last kept line, since later lines overwrite earlier ones. |
| LogBlock.ParseLinesOfFieldLines | Testing/vedirect_parse.py:20-26 | The written lines of distinct fields parse back to those fields, in order. |
| LogBlock.ParseBlockOfFields | Testing/vedirect_parse.py:17-27 | A block written one field per line, ended by any one line terminator, parses back to its fields. |
| KeyOrder.StrLeReflexive | Testing/vedirect_parse.py:64 | Every string sorts no later than itself. |
| KeyOrder.StrLeTotal | Testing/vedirect_parse.py:64 | Any two strings are ordered one way or the other. |
| KeyOrder.StrLeAntisymmetric | Testing/vedirect_parse.py:64 | Strings ordered both ways are equal. |
| KeyOrder.StrLeTransitive | Testing/vedirect_parse.py:64 | The string order is transitive. |
| KeyOrder.Insert | Testing/vedirect_parse.py:64 | Insertion adds exactly the one element. |
| KeyOrder.InsertSorted | Testing/vedirect_parse.py:64 | Inserting into a sorted list keeps it sorted. |
| KeyOrder.Sort | Testing/vedirect_parse.py:64 | `sorted()` returns a permutation of its input. |
| KeyOrder.SortSorted | Testing/vedirect_parse.py:64 | `sorted()` returns its input in order. |
| KeyOrder.SortedUnique | Testing/vedirect_parse.py:64 | Two sorted lists with the same elements are equal, so any sorting algorithm gives the same list. |
| LogParse.TranslateNewlines | Testing/vedirect_parse.py:33 | A text-mode read leaves no `\r`. |
| LogParse.TranslateLoneCr | Testing/vedirect_parse.py:33 | A `\r` not followed by `\n` reads as `\n`. |
| LogParse.TranslateCrLf | Testing/vedirect_parse.py:33 | `\r\n` reads as a single `\n`. |
| LogParse.TranslateOther | Testing/vedirect_parse.py:33 | Any character other than `\r` reads as itself. |
| LogParse.TranslatePlain | Testing/vedirect_parse.py:33 | Text without `\r` reads as it is. |
| LogParse.TranslateCrLfLines | Testing/vedirect_parse.py:33 | A log of CR LF lines reads as the same lines ended by LF. |
| LogParse.ContentIsTranslated | Testing/vedirect_parse.py:34 | Removing `\r` after a text-mode read removes nothing. |
| LogParse.Content | Testing/vedirect_parse.py:33-34 | The text of the log once read holds no `\r`. |
| LogParse.Frames | Testing/vedirect_parse.py:40 | A frame is exactly a non-blank piece of the log split at `\n\n`, and holds no `\n\n`. The frames come in the order of the pieces, as NonBlankAppend and NonBlankOne state. |
| LogParse.NonBlank | Testing/vedirect_parse.py:40 | A piece is kept exactly when it is not blank. |
| LogParse.NonBlankAppend | Testing/vedirect_parse.py:40 | Filtering two runs of pieces joined is filtering each, in order. |
| LogParse.NonBlankOne | Testing/vedirect_parse.py:40 | One piece is kept exactly when it is not blank. |
| LogParse.SingleFrame | Testing/vedirect_parse.py:40 | A log with no blank line is one frame. |
| LogParse.NoBlankLine | Testing/vedirect_parse.py:40 | Non-empty lines each ended by a newline never leave a blank line. |
| LogParse.FirstSome | Testing/vedirect_parse.py:46-55 | The search stops at a frame that has a value, and returns that value. |
| LogParse.FirstSomeIsFirst | Testing/vedirect_parse.py:46-55 | No frame before the one found has a value, and nothing is found only when no frame has one. |
| LogParse.FirstSomeAppend | Testing/vedirect_parse.py:47-55 | Frames after the first hit play no part, and frames in front without a value only shift the index. |
| LogParse.FirstVoltageIsFirst | Testing/vedirect_parse.py:46-55 | The search finds the first frame with a `V` field and that field's value, or finds nothing when no frame has one. |
| LogParse.FirstVoltageIgnoresLater | Testing/vedirect_parse.py:55 | The loop breaks at the first frame with a `V` field, so later frames do not matter. |
| LogParse.KeyLineAt | Testing/vedirect_parse.py:62-64 | The listing line for frame `i` shows that frame's sorted tags, numbered on from the start number. |
| LogParse.Listing | Testing/vedirect_parse.py:62 | The listing has exactly three lines, or one per frame when there are fewer than three frames. |
| LogParse.ListingShows | Testing/vedirect_parse.py:62-64 | Line `i` of the listing is frame `i`, numbered from 1, with its sorted tags. |
| LogParse.FindFirst | Testing/vedirect_parse.py:47-55 | The loop stops at the first frame with a value, or runs off the end only when there is none. |
| LogParse.Search | Testing/vedirect_parse.py:41-55 | The search ends in the same outcome as the all-frames definition: no frames, a voltage, an invalid raw value, or not found. |
| LogParse.Decide | Testing/vedirect_parse.py:41-58 | No frames exactly for an empty frame list. Not found exactly when no frame has a `V` field. A voltage is the integer value of the first `V` field, and an invalid value is a first `V` field that `int()` rejects. |
| LogParse.ParseLog | Testing/vedirect_parse.py:30-64 | `main` prints exactly the report of the log's text. |
| LogParse.LinesShape | Testing/vedirect_parse.py:42-64 | For each outcome, the printed lines: `No frames found`, or the voltage reading, or the invalid-value line if there is one, then the not-found line, the heading and the listing. |
| LogParse.ReportShape | Testing/vedirect_parse.py:41-64 | The report is one line exactly when there are no frames or the first `V` field is an integer. That line is `No frames found` or the reading of that field's millivolts. Otherwise the report is the invalid-value line with the raw value if there is one, then the not-found line, the heading and the listing of the first three frames. |
| LogParse.OneFrameLog | Testing/vedirect_parse.py:30-58 | A log that is one frame of CR LF field lines with an integer `V` prints exactly that voltage. |
| LogParse.FirstFrameDecides | Testing/vedirect_parse.py:46-58 | A valid first voltage is reported whatever later frames carry. |
| LogParse.ListedKeysSorted | Testing/vedirect_parse.py:63-64 | Each listed frame shows its tags sorted, each exactly once. |

## Left out

- Serial I/O is not modelled. Opening the port, its settings and `ser.close()` are left out. The reads are a sequence parameter of `Line(bytes)` and `Fault` values. A fault stands for any exception of `readline()` and a timeout for an empty read.
- Tk is not modelled: windows, fonts, the title labels, `root.after` scheduling and the close handler. A run of polls is the function `Session` and the windows are the label texts.
- The console's timestamps (`time.strftime`) depend on the clock and are left out. A printed reading is the text after the timestamp.
- The banners and the `Serial read error` and `Exiting...` prints are left out, as is the handling of `KeyboardInterrupt`. None of them changes a label or a reading.
- Opening `putty.log` and the `FileNotFoundError` message are left out. `Report` takes the file's text as already decoded.
- UTF-8 decoding of the log with errors ignored is left out for the same reason.
- ValueFormat.Normalise: a `Fixed` label keeps the value, divisor, decimals and suffix rather than the text. Python rounds the binary float nearest the quotient, and binary floating point is not modelled. The three-decimal voltage of the voltage scripts is rendered as text, because below 2^43 * 1000 millivolts the text is determined by the integer millivolts.
- Numerals.FormatMillivolts: it gives the exact three-decimal text of `mv / 1000`. Python formats the binary float nearest to `mv / 1000.0`. Below 2^43 * 1000 = 8796093022208000 millivolts that float is within half of 0.001, so the texts agree. From there they can differ: for 8796093022209001 Python prints `8796093022209.002` and the model gives `8796093022209.001`. Binary floating point is not modelled.
- Numerals.FormatMillivolts: `mv / 1000.0` raises `OverflowError` once `mv` is too large for a float, at about 2^1024. The model gives a text for every integer instead.
- VoltageLabel.UpdateVoltage: an `OverflowError` from a huge millivolt value is caught at serialdata_voltage.py:54, and the label shows `Error`. The model shows volts for every value.
- Console.Listen: an `OverflowError` from a huge millivolt value is not caught at vedirect_console.py:46, so the program ends. The model prints a reading for every value.
- LogParse.ParseLog: an `OverflowError` from a huge `V` value is not caught by the `except ValueError` at vedirect_parse.py:53, so `main` ends with it. The model reports the voltage.
- Numerals.ParseFloat: it covers finite decimal literals only. `inf`, `nan`, overflow to infinity, signed zero and non-ASCII digits are not modelled, so `int(num)` on infinity or nan, and the exception it raises, is left out too.
- ValueFormat.TimeToGoTruncates: Python's `float()` rounds the text to the nearest double before `int()` truncates it, while the model truncates the exact decimal value. The two differ for a text just below an integer, closer than the spacing of doubles there: `5.99999999999999999` is the double 6.0 in Python and shows `6 m`, where the model shows `5 m`. Next to a tier boundary the unit changes too: `59.99999999999999999` shows `1.0 h` in Python and `59 m` in the model, and `-0.99999999999999999` shows `--` in Python and `0 m` in the model. Binary floating point is not modelled.
- Numerals.ParseInt: it takes ASCII digits only and does not model the 4300-digit limit on `int()`.
- LogParse.Text renders a message the way `main` prints it, but no property is stated about the rendering. The report is reasoned about as a sequence of `Message` values.
- The docstring at serialdata_full.py:12-13 documents `SOC` as a percent and `CE` in Ah. `update_values` shows bare numbers without a unit, and the model follows the code.
